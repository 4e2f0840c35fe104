/** The two tables the sync function writes, `candidates` and `candidate_activities`, as an
    in-memory store: the candidates keyed by their `hubspot_id` (the upsert's conflict key)
    and the activities as an append-only sequence. */
module CandidateStore {
  import opened Options
  import opened ContactMapper

  /** A stored candidate row: the mapped fields and `updated_at`. In a stored row a `None`
      column is NULL. */
  datatype CandidateRow = CandidateRow(data: CandidateData, updatedAt: string)

  /** A row of `candidate_activities`. */
  datatype Activity = Activity(candidateId: string, activityType: string, description: string, performedBy: string)

  /** The `candidates` table, by `hubspot_id`. */
  type CandidateTable = map<string, CandidateRow>

  /** Each row sits under its own `hubspot_id`, so no two rows share one. */
  ghost predicate KeyedByHubspotId(t: CandidateTable) {
    forall k | k in t :: t[k].data.hubspotId == k
  }

  /** The row stored under `k`, if any. */
  function Lookup(t: CandidateTable, k: string): Option<CandidateRow> {
    if k in t then Some(t[k]) else None
  }

  /** An optional column of a row that may not exist yet (a new row's omitted columns are taken as NULL). */
  function StoredColumn(stored: Option<CandidateRow>, c: OptionalColumn): Option<string> {
    if stored.Some? then Column(stored.value.data, c) else None
  }

  /** An upsert writes a column the request carries and leaves one it omits alone. */
  function Keep(incoming: Option<string>, stored: Option<string>): Option<string> {
    if incoming.Some? then incoming else stored
  }

  /** Row `r` holds every column that upserting `d` stamped `updatedAt` sends to the store. */
  ghost predicate Carries(r: CandidateRow, d: CandidateData, updatedAt: string) {
    && r.updatedAt == updatedAt
    && r.data.organizationId == d.organizationId
    && r.data.hubspotId == d.hubspotId
    && r.data.firstName == d.firstName
    && r.data.lastName == d.lastName
    && r.data.relationshipType == d.relationshipType
    && r.data.lastSyncAt == d.lastSyncAt
    && forall c :: Column(d, c).Some? ==> Column(r.data, c) == Column(d, c)
  }

  /** The row under `d.hubspotId` after upserting `d` stamped `updatedAt` where `stored` was:
      every column the request carries is written, and an omitted optional column keeps the
      stored value. A new row gets the column default, taken here to be NULL (the table
      schema is not part of this model). */
  function Written(stored: Option<CandidateRow>, d: CandidateData, updatedAt: string): (r: CandidateRow)
    ensures Carries(r, d, updatedAt)
    ensures forall c :: Column(d, c).None? ==> Column(r.data, c) == StoredColumn(stored, c)
  {
    var data := d.(personalEmail := Keep(d.personalEmail, StoredColumn(stored, PersonalEmail)),
                   phone := Keep(d.phone, StoredColumn(stored, Phone)),
                   currentCompany := Keep(d.currentCompany, StoredColumn(stored, CurrentCompany)),
                   currentJobTitle := Keep(d.currentJobTitle, StoredColumn(stored, CurrentJobTitle)));
    CandidateRow(data, updatedAt)
  }

  /** A request that carries all four optional columns replaces the row in full, whatever was
      stored before. */
  lemma WrittenReplacesFullRow(stored: Option<CandidateRow>, d: CandidateData, updatedAt: string)
    requires forall c :: Column(d, c).Some?
    ensures Written(stored, d, updatedAt) == CandidateRow(d, updatedAt)
  {
  }

  /** The table after a successful upsert of `d` with conflict key `hubspot_id`. */
  function Upserted(t: CandidateTable, d: CandidateData, updatedAt: string): (r: CandidateTable)
    ensures r.Keys == t.Keys + {d.hubspotId}
    ensures forall k | k in t && k != d.hubspotId :: r[k] == t[k]
    ensures Carries(r[d.hubspotId], d, updatedAt)
    ensures forall c :: Column(d, c).None? ==> Column(r[d.hubspotId].data, c) == StoredColumn(Lookup(t, d.hubspotId), c)
    ensures KeyedByHubspotId(t) ==> KeyedByHubspotId(r)
  {
    t[d.hubspotId := Written(Lookup(t, d.hubspotId), d, updatedAt)]
  }

  /** The store the sync function writes through. */
  class Store {
    var candidates: CandidateTable
    var activities: seq<Activity>

    ghost predicate Valid()
      reads this
    {
      KeyedByHubspotId(candidates)
    }

    constructor (candidates: CandidateTable, activities: seq<Activity>)
      requires KeyedByHubspotId(candidates)
      ensures Valid()
      ensures this.candidates == candidates && this.activities == activities
    {
      this.candidates := candidates;
      this.activities := activities;
    }

    /** `from('candidates').upsert(d + updated_at, { onConflict: 'hubspot_id' })`. Whether the
        store answers with an error is not decided here: `rejected` supplies that answer. An
        upsert that errors leaves the table as it was. */
    method Upsert(d: CandidateData, updatedAt: string, rejected: bool) returns (error: bool)
      requires Valid()
      modifies this`candidates
      ensures Valid()
      ensures error == rejected
      ensures candidates == if rejected then old(candidates) else Upserted(old(candidates), d, updatedAt)
    {
      error := rejected;
      if !rejected {
        candidates := Upserted(candidates, d, updatedAt);
      }
    }

    /** `from('candidate_activities').insert(a)`: appends, never rewrites an earlier entry. */
    method InsertActivity(a: Activity)
      requires Valid()
      modifies this`activities
      ensures Valid()
      ensures activities == old(activities) + [a]
    {
      activities := activities + [a];
    }
  }
}
