/** The `sync-hubspot` edge function (supabase/functions/sync-hubspot/index.ts): answer a
    CORS preflight, check the organization id, fetch the HubSpot contacts, and upsert each
    mapped contact into `candidates`, logging an activity for each upsert the store accepts. */
module SyncHubspot {
  import opened Options
  import opened ContactMapper
  import opened CandidateStore

  const OrganizationIdRequired := "Organization ID is required"
  const SyncCompleted := "Sync completed successfully"
  const HubspotSyncActivity := "hubspot_sync"
  const SyncDescription := "Contact synchronized from HubSpot"

  /** The request body: JSON with an optional `organizationId`, or a body `req.json()` rejects
      with the given message. */
  datatype RequestBody = Json(organizationId: Option<string>) | Unparsable(message: string)

  datatype Request = Request(httpMethod: string, body: RequestBody)

  /** What `hubspotClient.crm.contacts.getAll()` gives: the contacts, or the error it throws. */
  datatype FetchResult = Fetched(contacts: seq<Contact>) | FetchFailed(message: string)

  /** The response body: the preflight's plain text, `{ message }` or `{ error }`. */
  datatype ResponseBody = Text(text: string) | MessageJson(message: string) | ErrorJson(error: string)

  datatype Response = Response(status: int, body: ResponseBody)

  /** `organizationId` is truthy: present and not the empty string. */
  predicate OrganizationIdGiven(organizationId: Option<string>) {
    organizationId.Some? && organizationId.value != ""
  }

  /** The store's answer to the upsert of the `i`-th contact: `true` is an error. An outcome
      the sequence does not list is a success. */
  function UpsertRejected(outcomes: seq<bool>, i: nat): bool {
    i < |outcomes| && outcomes[i]
  }

  /** The activity logged for a contact whose upsert succeeded. */
  function SyncActivity(contact: Contact, organizationId: string): Activity {
    Activity(contact.id, HubspotSyncActivity, SyncDescription, organizationId)
  }

  /** The `candidates` table after the loop has handled `contacts`, starting from `t`. */
  function SyncTable(t: CandidateTable, organizationId: string, contacts: seq<Contact>,
                     outcomes: seq<bool>, now: string): CandidateTable
    decreases |contacts|
  {
    if contacts == [] then t
    else
      var i := |contacts| - 1;
      var before := SyncTable(t, organizationId, contacts[..i], outcomes, now);
      if UpsertRejected(outcomes, i) then before
      else Upserted(before, MapContact(contacts[i], organizationId, now), now)
  }

  /** The activities the loop appends while handling `contacts`. */
  function SyncLog(organizationId: string, contacts: seq<Contact>, outcomes: seq<bool>): seq<Activity>
    decreases |contacts|
  {
    if contacts == [] then []
    else
      var i := |contacts| - 1;
      var before := SyncLog(organizationId, contacts[..i], outcomes);
      if UpsertRejected(outcomes, i) then before
      else before + [SyncActivity(contacts[i], organizationId)]
  }

  /** The handler passed to `serve`. `fetch` is what the HubSpot client would return if it were
      asked, `outcomes` the store's answers to the upserts, `now` the clock. */
  method Serve(store: Store, req: Request, fetch: FetchResult, outcomes: seq<bool>, now: string)
    returns (resp: Response)
    requires store.Valid()
    modifies store
    ensures store.Valid()
    ensures req.httpMethod == "OPTIONS" ==>
      resp == Response(200, Text("ok")) && unchanged(store)
    ensures req.httpMethod != "OPTIONS" && req.body.Unparsable? ==>
      resp == Response(500, ErrorJson(req.body.message)) && unchanged(store)
    ensures req.httpMethod != "OPTIONS" && req.body.Json? && !OrganizationIdGiven(req.body.organizationId) ==>
      resp == Response(500, ErrorJson(OrganizationIdRequired)) && unchanged(store)
    ensures req.httpMethod != "OPTIONS" && req.body.Json? && OrganizationIdGiven(req.body.organizationId)
            && fetch.FetchFailed? ==>
      resp == Response(500, ErrorJson(fetch.message)) && unchanged(store)
    ensures req.httpMethod != "OPTIONS" && req.body.Json? && OrganizationIdGiven(req.body.organizationId)
            && fetch.Fetched? ==>
      var organizationId := req.body.organizationId.value;
      && resp == Response(200, MessageJson(SyncCompleted))
      && store.candidates == SyncTable(old(store.candidates), organizationId, fetch.contacts, outcomes, now)
      && store.activities == old(store.activities) + SyncLog(organizationId, fetch.contacts, outcomes)
  {
    if req.httpMethod == "OPTIONS" {
      return Response(200, Text("ok"));
    }
    if req.body.Unparsable? {
      return Response(500, ErrorJson(req.body.message));
    }
    if !OrganizationIdGiven(req.body.organizationId) {
      return Response(500, ErrorJson(OrganizationIdRequired));
    }
    var organizationId := req.body.organizationId.value;
    if fetch.FetchFailed? {
      return Response(500, ErrorJson(fetch.message));
    }
    var contacts := fetch.contacts;
    for i := 0 to |contacts|
      invariant store.Valid()
      invariant store.candidates == SyncTable(old(store.candidates), organizationId, contacts[..i], outcomes, now)
      invariant store.activities == old(store.activities) + SyncLog(organizationId, contacts[..i], outcomes)
    {
      var contact := contacts[i];
      var candidateData := MapContact(contact, organizationId, now);
      var error := store.Upsert(candidateData, now, UpsertRejected(outcomes, i));
      assert contacts[..i + 1][..i] == contacts[..i];
      if error {
        continue;
      }
      store.InsertActivity(SyncActivity(contact, organizationId));
    }
    assert contacts[..|contacts|] == contacts;
    return Response(200, MessageJson(SyncCompleted));
  }
}
