/** What one run of the sync loop does to the `candidates` table and to the activity log,
    stated over the functions `SyncTable` and `SyncLog` that the handler is proved to follow. */
module SyncProperties {
  import opened Options
  import opened ContactMapper
  import opened CandidateStore
  import opened SyncHubspot

  /** Contact `i` of the run was upserted without an error. */
  predicate Synced(contacts: seq<Contact>, outcomes: seq<bool>, i: int) {
    0 <= i < |contacts| && !UpsertRejected(outcomes, i)
  }

  // ---------------------------------------------------------------------------
  // The table: one row per hubspot_id, rows of other ids untouched, the later contact wins

  /** The upsert keeps every row under its own `hubspot_id`: after a run there is still at
      most one row per `hubspot_id`. */
  lemma {:induction false} SyncTableKeyed(t: CandidateTable, organizationId: string, contacts: seq<Contact>,
                                          outcomes: seq<bool>, now: string)
    requires KeyedByHubspotId(t)
    ensures KeyedByHubspotId(SyncTable(t, organizationId, contacts, outcomes, now))
    decreases |contacts|
  {
    if contacts != [] {
      SyncTableKeyed(t, organizationId, contacts[..|contacts| - 1], outcomes, now);
    }
  }

  /** A row exists after the run exactly when it existed before or some contact with that id
      was upserted successfully. */
  lemma {:induction false} SyncTableKeys(t: CandidateTable, organizationId: string, contacts: seq<Contact>,
                                         outcomes: seq<bool>, now: string, k: string)
    ensures k in SyncTable(t, organizationId, contacts, outcomes, now)
            <==> k in t || exists i :: Synced(contacts, outcomes, i) && contacts[i].id == k
    decreases |contacts|
  {
    if contacts != [] {
      var n := |contacts| - 1;
      var prefix := contacts[..n];
      SyncTableKeys(t, organizationId, prefix, outcomes, now, k);
      assert forall i :: Synced(prefix, outcomes, i) <==> Synced(contacts, outcomes, i) && i < n;
      assert forall i | 0 <= i < n :: prefix[i] == contacts[i];
    }
  }

  /** A row no successful contact names is exactly what it was before the run: neither a
      contact with another id nor a rejected upsert touches it. */
  lemma {:induction false} SyncTableUntouched(t: CandidateTable, organizationId: string, contacts: seq<Contact>,
                                              outcomes: seq<bool>, now: string, k: string)
    requires forall i | Synced(contacts, outcomes, i) :: contacts[i].id != k
    ensures Lookup(SyncTable(t, organizationId, contacts, outcomes, now), k) == Lookup(t, k)
    decreases |contacts|
  {
    if contacts != [] {
      var n := |contacts| - 1;
      var prefix := contacts[..n];
      assert forall i | Synced(prefix, outcomes, i) :: prefix[i] == contacts[i] && Synced(contacts, outcomes, i);
      SyncTableUntouched(t, organizationId, prefix, outcomes, now, k);
    }
  }

  /** When contact `i` is the last successful one with its id, the row under that id holds
      everything that contact's upsert sent, stamped with this run's time. */
  lemma {:induction false} SyncTableLastWins(t: CandidateTable, organizationId: string, contacts: seq<Contact>,
                                             outcomes: seq<bool>, now: string, i: int)
    requires Synced(contacts, outcomes, i)
    requires forall j | i < j && Synced(contacts, outcomes, j) :: contacts[j].id != contacts[i].id
    ensures contacts[i].id in SyncTable(t, organizationId, contacts, outcomes, now)
    ensures Carries(SyncTable(t, organizationId, contacts, outcomes, now)[contacts[i].id],
                    MapContact(contacts[i], organizationId, now), now)
    decreases |contacts|
  {
    var n := |contacts| - 1;
    var prefix := contacts[..n];
    var k := contacts[i].id;
    var d := MapContact(contacts[i], organizationId, now);
    var before := SyncTable(t, organizationId, prefix, outcomes, now);
    var after := SyncTable(t, organizationId, contacts, outcomes, now);
    if i == n {
      assert after == Upserted(before, d, now);
    } else {
      assert Synced(prefix, outcomes, i) && prefix[i] == contacts[i];
      forall j | i < j && Synced(prefix, outcomes, j) ensures prefix[j].id != k {
        assert Synced(contacts, outcomes, j) && prefix[j] == contacts[j];
      }
      SyncTableLastWins(t, organizationId, prefix, outcomes, now, i);
      assert k in before && Carries(before[k], d, now);
      if UpsertRejected(outcomes, n) {
        assert after == before;
      } else {
        assert Synced(contacts, outcomes, n);
        var e := MapContact(contacts[n], organizationId, now);
        assert after == Upserted(before, e, now) && e.hubspotId != k;
        assert after[k] == before[k];
      }
    }
  }

  // ---------------------------------------------------------------------------
  // The table, one key at a time

  /** The data of the successful contacts with id `k`, in contact order. */
  function DataFor(k: string, organizationId: string, contacts: seq<Contact>, outcomes: seq<bool>,
                   now: string): seq<CandidateData>
    decreases |contacts|
  {
    if contacts == [] then []
    else
      var n := |contacts| - 1;
      var before := DataFor(k, organizationId, contacts[..n], outcomes, now);
      if UpsertRejected(outcomes, n) || contacts[n].id != k then before
      else before + [MapContact(contacts[n], organizationId, now)]
  }

  /** The row after upserting each of `ds` in turn over `stored`. */
  function RowAfter(stored: Option<CandidateRow>, ds: seq<CandidateData>, updatedAt: string): Option<CandidateRow>
    decreases |ds|
  {
    if ds == [] then stored
    else Some(Written(RowAfter(stored, ds[..|ds| - 1], updatedAt), ds[|ds| - 1], updatedAt))
  }

  /** An optional column after upserting each of `ds` in turn over a stored `base`. */
  function ColumnAfter(ds: seq<CandidateData>, c: OptionalColumn, base: Option<string>): Option<string>
    decreases |ds|
  {
    if ds == [] then base
    else Keep(Column(ds[|ds| - 1], c), ColumnAfter(ds[..|ds| - 1], c, base))
  }

  /** Some request of `ds` carries column `c`. */
  ghost predicate Supplies(ds: seq<CandidateData>, c: OptionalColumn) {
    exists j :: 0 <= j < |ds| && Column(ds[j], c).Some?
  }

  /** The row a run leaves under `k` is the stored row with the successful contacts of id `k`
      upserted over it in order; contacts with other ids play no part. */
  lemma {:induction false} SyncTableRow(t: CandidateTable, organizationId: string, contacts: seq<Contact>,
                                        outcomes: seq<bool>, now: string, k: string)
    ensures Lookup(SyncTable(t, organizationId, contacts, outcomes, now), k)
            == RowAfter(Lookup(t, k), DataFor(k, organizationId, contacts, outcomes, now), now)
    decreases |contacts|
  {
    if contacts != [] {
      var n := |contacts| - 1;
      SyncTableRow(t, organizationId, contacts[..n], outcomes, now, k);
      var before := DataFor(k, organizationId, contacts[..n], outcomes, now);
      if !UpsertRejected(outcomes, n) && contacts[n].id == k {
        var ds := before + [MapContact(contacts[n], organizationId, now)];
        assert ds[..|ds| - 1] == before;
      }
    }
  }

  /** Column `c` of the row after a series of upserts is the last value a request carried,
      or the stored value when none carried one. */
  lemma {:induction false} RowAfterColumn(stored: Option<CandidateRow>, ds: seq<CandidateData>, updatedAt: string,
                                          c: OptionalColumn)
    ensures StoredColumn(RowAfter(stored, ds, updatedAt), c) == ColumnAfter(ds, c, StoredColumn(stored, c))
    decreases |ds|
  {
    if ds != [] {
      RowAfterColumn(stored, ds[..|ds| - 1], updatedAt, c);
    }
  }

  /** A column no request carries keeps its stored value. */
  lemma {:induction false} ColumnAfterUnsupplied(ds: seq<CandidateData>, c: OptionalColumn, base: Option<string>)
    requires !Supplies(ds, c)
    ensures ColumnAfter(ds, c, base) == base
    decreases |ds|
  {
    if ds != [] {
      var prefix := ds[..|ds| - 1];
      assert !Supplies(prefix, c) by {
        forall j | 0 <= j < |prefix| ensures Column(prefix[j], c).None? {
          assert prefix[j] == ds[j];
        }
      }
      ColumnAfterUnsupplied(prefix, c, base);
    }
  }

  /** A column some request carries no longer depends on what was stored. */
  lemma {:induction false} ColumnAfterSupplied(ds: seq<CandidateData>, c: OptionalColumn, base1: Option<string>,
                                               base2: Option<string>)
    requires Supplies(ds, c)
    ensures ColumnAfter(ds, c, base1) == ColumnAfter(ds, c, base2)
    decreases |ds|
  {
    var n := |ds| - 1;
    if Column(ds[n], c).None? {
      var prefix := ds[..n];
      var j :| 0 <= j < |ds| && Column(ds[j], c).Some?;
      assert j < n && prefix[j] == ds[j];
      ColumnAfterSupplied(prefix, c, base1, base2);
    }
  }

  /** A run's requests for `k` carry column `c` exactly when a successful contact with id `k`
      has the property `c` is copied from. */
  lemma {:induction false} DataForSupplies(k: string, organizationId: string, contacts: seq<Contact>,
                                           outcomes: seq<bool>, now: string, c: OptionalColumn)
    ensures Supplies(DataFor(k, organizationId, contacts, outcomes, now), c)
            <==> exists i :: Synced(contacts, outcomes, i) && contacts[i].id == k
                             && SourceProperty(c) in contacts[i].properties
    decreases |contacts|
  {
    if contacts != [] {
      var n := |contacts| - 1;
      var prefix := contacts[..n];
      var before := DataFor(k, organizationId, prefix, outcomes, now);
      DataForSupplies(k, organizationId, prefix, outcomes, now, c);
      assert forall i | 0 <= i < n :: prefix[i] == contacts[i];
      assert forall i :: Synced(prefix, outcomes, i) <==> Synced(contacts, outcomes, i) && i < n;
      if !UpsertRejected(outcomes, n) && contacts[n].id == k {
        var ds := before + [MapContact(contacts[n], organizationId, now)];
        assert forall j | 0 <= j < |before| :: ds[j] == before[j];
        if SourceProperty(c) in contacts[n].properties {
          assert Column(ds[|before|], c).Some?;
        }
      }
    }
  }

  /** A run has requests for `k` exactly when a successful contact has id `k`. */
  lemma {:induction false} DataForNonEmpty(k: string, organizationId: string, contacts: seq<Contact>,
                                           outcomes: seq<bool>, now: string)
    ensures DataFor(k, organizationId, contacts, outcomes, now) != []
            <==> exists i :: Synced(contacts, outcomes, i) && contacts[i].id == k
    decreases |contacts|
  {
    if contacts != [] {
      var n := |contacts| - 1;
      var prefix := contacts[..n];
      DataForNonEmpty(k, organizationId, prefix, outcomes, now);
      assert forall i | 0 <= i < n :: prefix[i] == contacts[i];
      assert forall i :: Synced(prefix, outcomes, i) <==> Synced(contacts, outcomes, i) && i < n;
    }
  }

  /** The last request of a non-empty series decides every column it always carries. */
  lemma RowAfterLast(stored: Option<CandidateRow>, ds: seq<CandidateData>, updatedAt: string)
    requires ds != []
    ensures RowAfter(stored, ds, updatedAt).Some?
    ensures Carries(RowAfter(stored, ds, updatedAt).value, ds[|ds| - 1], updatedAt)
  {
  }

  /** Two rows that agree on every field are the same row. */
  lemma RowsEqual(r1: CandidateRow, r2: CandidateRow)
    requires r1.updatedAt == r2.updatedAt
    requires r1.data.organizationId == r2.data.organizationId && r1.data.hubspotId == r2.data.hubspotId
    requires r1.data.firstName == r2.data.firstName && r1.data.lastName == r2.data.lastName
    requires r1.data.relationshipType == r2.data.relationshipType && r1.data.lastSyncAt == r2.data.lastSyncAt
    requires forall c :: Column(r1.data, c) == Column(r2.data, c)
    ensures r1 == r2
  {
    assert Column(r1.data, PersonalEmail) == Column(r2.data, PersonalEmail);
    assert Column(r1.data, Phone) == Column(r2.data, Phone);
    assert Column(r1.data, CurrentCompany) == Column(r2.data, CurrentCompany);
    assert Column(r1.data, CurrentJobTitle) == Column(r2.data, CurrentJobTitle);
  }

  /** Two tables with the same row, or no row, under every key are the same table. */
  lemma TablesEqual(t1: CandidateTable, t2: CandidateTable)
    requires forall k :: Lookup(t1, k) == Lookup(t2, k)
    ensures t1 == t2
  {
    assert t1.Keys == t2.Keys by {
      forall k ensures k in t1 <==> k in t2 {
        assert Lookup(t1, k).Some? <==> Lookup(t2, k).Some?;
      }
    }
    forall k | k in t1 ensures t1[k] == t2[k] {
      assert Lookup(t1, k) == Lookup(t2, k);
    }
  }

  // ---------------------------------------------------------------------------
  // Running the sync again

  /** Re-running the sync over the same contacts, with every upsert that succeeded the first
      time succeeding again, gives the table a single second run would have given: what the
      first run wrote leaves no trace. */
  lemma SyncRerun(t: CandidateTable, organizationId: string, contacts: seq<Contact>,
                  first: seq<bool>, second: seq<bool>, now1: string, now2: string)
    requires forall i | Synced(contacts, first, i) :: Synced(contacts, second, i)
    ensures SyncTable(SyncTable(t, organizationId, contacts, first, now1), organizationId, contacts, second, now2)
            == SyncTable(t, organizationId, contacts, second, now2)
  {
    var once := SyncTable(t, organizationId, contacts, first, now1);
    var twice := SyncTable(once, organizationId, contacts, second, now2);
    var direct := SyncTable(t, organizationId, contacts, second, now2);
    forall k ensures Lookup(twice, k) == Lookup(direct, k) {
      var x := Lookup(t, k);
      var d1 := DataFor(k, organizationId, contacts, first, now1);
      var d2 := DataFor(k, organizationId, contacts, second, now2);
      SyncTableRow(t, organizationId, contacts, first, now1, k);
      SyncTableRow(once, organizationId, contacts, second, now2, k);
      SyncTableRow(t, organizationId, contacts, second, now2, k);
      DataForNonEmpty(k, organizationId, contacts, first, now1);
      DataForNonEmpty(k, organizationId, contacts, second, now2);
      if d2 != [] {
        var y := RowAfter(x, d1, now1);
        RowAfterLast(y, d2, now2);
        RowAfterLast(x, d2, now2);
        forall c ensures Column(RowAfter(y, d2, now2).value.data, c) == Column(RowAfter(x, d2, now2).value.data, c) {
          RowAfterColumn(y, d2, now2, c);
          RowAfterColumn(x, d2, now2, c);
          RowAfterColumn(x, d1, now1, c);
          DataForSupplies(k, organizationId, contacts, first, now1, c);
          DataForSupplies(k, organizationId, contacts, second, now2, c);
          if Supplies(d2, c) {
            ColumnAfterSupplied(d2, c, StoredColumn(y, c), StoredColumn(x, c));
          } else {
            ColumnAfterUnsupplied(d1, c, StoredColumn(x, c));
          }
        }
        RowsEqual(RowAfter(y, d2, now2).value, RowAfter(x, d2, now2).value);
      }
    }
    TablesEqual(twice, direct);
  }

  /** Running the same sync twice gives the table that running it once gives. */
  lemma SyncIdempotent(t: CandidateTable, organizationId: string, contacts: seq<Contact>,
                       outcomes: seq<bool>, now: string)
    ensures SyncTable(SyncTable(t, organizationId, contacts, outcomes, now), organizationId, contacts, outcomes, now)
            == SyncTable(t, organizationId, contacts, outcomes, now)
  {
    SyncRerun(t, organizationId, contacts, outcomes, outcomes, now, now);
  }

  /** A row with its two timestamps blanked out. */
  function Untimed(r: CandidateRow): CandidateRow {
    CandidateRow(r.data.(lastSyncAt := ""), "")
  }

  /** Two tables that differ at most in `last_sync_at` and `updated_at`. */
  ghost predicate SameExceptTimestamps(t1: CandidateTable, t2: CandidateTable) {
    t1.Keys == t2.Keys && forall k | k in t1 :: Untimed(t1[k]) == Untimed(t2[k])
  }

  /** The clock affects the timestamps of a run and nothing else. */
  lemma {:induction false} SyncTableTimestampsOnly(t: CandidateTable, organizationId: string, contacts: seq<Contact>,
                                                   outcomes: seq<bool>, now1: string, now2: string)
    ensures SameExceptTimestamps(SyncTable(t, organizationId, contacts, outcomes, now1),
                                 SyncTable(t, organizationId, contacts, outcomes, now2))
    decreases |contacts|
  {
    if contacts != [] {
      var n := |contacts| - 1;
      SyncTableTimestampsOnly(t, organizationId, contacts[..n], outcomes, now1, now2);
      var b1 := SyncTable(t, organizationId, contacts[..n], outcomes, now1);
      var b2 := SyncTable(t, organizationId, contacts[..n], outcomes, now2);
      if !UpsertRejected(outcomes, n) {
        UpsertedUntimed(b1, b2, MapContact(contacts[n], organizationId, now1), now1,
                        MapContact(contacts[n], organizationId, now2), now2);
      }
    }
  }

  /** Upserting the same request, up to its sync time, into two tables that differ only in
      timestamps gives two tables that differ only in timestamps. */
  lemma UpsertedUntimed(t1: CandidateTable, t2: CandidateTable, d1: CandidateData, updatedAt1: string,
                        d2: CandidateData, updatedAt2: string)
    requires SameExceptTimestamps(t1, t2)
    requires d1.(lastSyncAt := "") == d2.(lastSyncAt := "")
    ensures SameExceptTimestamps(Upserted(t1, d1, updatedAt1), Upserted(t2, d2, updatedAt2))
  {
  }

  /** Re-running the sync with the same contacts and the same store answers leaves the table
      as the first run left it, apart from the timestamps. */
  lemma SyncRerunChangesOnlyTimestamps(t: CandidateTable, organizationId: string, contacts: seq<Contact>,
                                       outcomes: seq<bool>, now1: string, now2: string)
    ensures SameExceptTimestamps(
              SyncTable(SyncTable(t, organizationId, contacts, outcomes, now1), organizationId, contacts, outcomes, now2),
              SyncTable(t, organizationId, contacts, outcomes, now1))
  {
    SyncRerun(t, organizationId, contacts, outcomes, outcomes, now1, now2);
    SyncTableTimestampsOnly(t, organizationId, contacts, outcomes, now2, now1);
  }

  // ---------------------------------------------------------------------------
  // The activity log: one entry per successful upsert, in contact order

  /** The positions of the contacts whose upsert succeeded, in contact order. */
  function SuccessIndices(contacts: seq<Contact>, outcomes: seq<bool>): seq<int>
    decreases |contacts|
  {
    if contacts == [] then []
    else
      var n := |contacts| - 1;
      var before := SuccessIndices(contacts[..n], outcomes);
      if UpsertRejected(outcomes, n) then before else before + [n]
  }

  /** `SuccessIndices` lists every successful position, only those, each once, in order. */
  lemma {:induction false} SuccessIndicesExact(contacts: seq<Contact>, outcomes: seq<bool>)
    ensures forall j | 0 <= j < |SuccessIndices(contacts, outcomes)| ::
              Synced(contacts, outcomes, SuccessIndices(contacts, outcomes)[j])
    ensures forall i | Synced(contacts, outcomes, i) :: i in SuccessIndices(contacts, outcomes)
    ensures forall j1, j2 | 0 <= j1 < j2 < |SuccessIndices(contacts, outcomes)| ::
              SuccessIndices(contacts, outcomes)[j1] < SuccessIndices(contacts, outcomes)[j2]
    decreases |contacts|
  {
    if contacts != [] {
      var n := |contacts| - 1;
      SuccessIndicesExact(contacts[..n], outcomes);
      assert forall i :: Synced(contacts[..n], outcomes, i) <==> Synced(contacts, outcomes, i) && i < n;
    }
  }

  /** Entry `j` of the log a run appends is the activity of the `j`-th successful contact:
      `candidate_id` its HubSpot id, type `hubspot_sync`, performed by the organization. */
  lemma {:induction false} SyncLogIsSuccesses(organizationId: string, contacts: seq<Contact>, outcomes: seq<bool>)
    ensures |SyncLog(organizationId, contacts, outcomes)| == |SuccessIndices(contacts, outcomes)|
    ensures forall j | 0 <= j < |SuccessIndices(contacts, outcomes)| ::
              0 <= SuccessIndices(contacts, outcomes)[j] < |contacts|
              && SyncLog(organizationId, contacts, outcomes)[j]
                 == SyncActivity(contacts[SuccessIndices(contacts, outcomes)[j]], organizationId)
    decreases |contacts|
  {
    if contacts != [] {
      var n := |contacts| - 1;
      var prefix := contacts[..n];
      SyncLogIsSuccesses(organizationId, prefix, outcomes);
      SuccessIndicesExact(prefix, outcomes);
      assert forall i | 0 <= i < n :: prefix[i] == contacts[i];
    }
  }

  /** A HubSpot id appears in the log a run appends exactly when a contact with that id was
      upserted successfully: a rejected contact leaves no entry. */
  lemma SyncLogMentions(organizationId: string, contacts: seq<Contact>, outcomes: seq<bool>, k: string)
    ensures (exists a | a in SyncLog(organizationId, contacts, outcomes) :: a.candidateId == k)
            <==> exists i :: Synced(contacts, outcomes, i) && contacts[i].id == k
  {
    var log, s := SyncLog(organizationId, contacts, outcomes), SuccessIndices(contacts, outcomes);
    SyncLogIsSuccesses(organizationId, contacts, outcomes);
    SuccessIndicesExact(contacts, outcomes);
    if a :| a in log && a.candidateId == k {
      var j :| 0 <= j < |log| && log[j] == a;
      assert Synced(contacts, outcomes, s[j]) && contacts[s[j]].id == k;
    }
    if i :| Synced(contacts, outcomes, i) && contacts[i].id == k {
      var j :| 0 <= j < |s| && s[j] == i;
      assert log[j].candidateId == k;
    }
  }

  /** When no upsert fails, the run logs one activity per contact, in contact order. */
  lemma {:induction false} SyncLogWithoutFailures(organizationId: string, contacts: seq<Contact>, outcomes: seq<bool>)
    requires forall i | 0 <= i < |contacts| :: !UpsertRejected(outcomes, i)
    ensures |SyncLog(organizationId, contacts, outcomes)| == |contacts|
    ensures forall i | 0 <= i < |contacts| ::
              SyncLog(organizationId, contacts, outcomes)[i] == SyncActivity(contacts[i], organizationId)
    decreases |contacts|
  {
    if contacts != [] {
      var n := |contacts| - 1;
      SyncLogWithoutFailures(organizationId, contacts[..n], outcomes);
    }
  }

  /** When every upsert fails, the run changes neither the table nor the log. */
  lemma {:induction false} SyncAllRejected(t: CandidateTable, organizationId: string, contacts: seq<Contact>,
                                           outcomes: seq<bool>, now: string)
    requires forall i | 0 <= i < |contacts| :: UpsertRejected(outcomes, i)
    ensures SyncTable(t, organizationId, contacts, outcomes, now) == t
    ensures SyncLog(organizationId, contacts, outcomes) == []
    decreases |contacts|
  {
    if contacts != [] {
      SyncAllRejected(t, organizationId, contacts[..|contacts| - 1], outcomes, now);
    }
  }
}
