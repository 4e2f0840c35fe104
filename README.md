# HubSpot contact sync, modelled in Dafny

This project models the one piece of TalentSync with procedural logic: the `sync-hubspot`
edge function (`supabase/functions/sync-hubspot/index.ts`). The function answers a CORS
preflight with `ok`. Otherwise it reads `organizationId` from the JSON body and fails with
`Organization ID is required` when that id is missing or empty. It then fetches every HubSpot
contact and maps each one to a candidate row. It upserts that row into `candidates`, using
`hubspot_id` as the conflict key. When an upsert fails, the function moves on to the next
contact. When an upsert succeeds, it appends a `hubspot_sync` entry to `candidate_activities`.
The function reports success however many upserts failed.

Files:

- `options.dfy` holds the `Option` type used for absent properties and NULL columns.
- `contact_mapper.dfy` (module `ContactMapper`) holds the contact, the candidate fields and
  `MapContact`. Lemmas there show that the mapping loses nothing from the six properties it
  reads and ignores every other property.
- `candidate_store.dfy` (module `CandidateStore`) holds the two tables as a class `Store`. The
  `candidates` table is a `map` keyed by `hubspot_id`; the activities are a `seq`. It also
  holds the upsert as a function on tables, `Upserted`.
- `sync_hubspot.dfy` (module `SyncHubspot`) holds the handler `Serve`. Its loop is proved to
  follow two specification functions: `SyncTable` gives the table after a run and `SyncLog`
  gives the entries the run appends.
- `sync_properties.dfy` (module `SyncProperties`) holds the lemmas about `SyncTable` and
  `SyncLog`.

The things the handler does not control are parameters of `Serve`:

- `fetch` is what `hubspotClient.crm.contacts.getAll()` returns, or the error it throws.
- `outcomes` gives the store's answer to each upsert; `true` means an error.
- `now` is the clock.

How an upsert treats absent fields: an optional field the contact lacks is `undefined` in the
source (lines 50-53). JSON serialisation drops `undefined` keys, so that column is not in the
request at all. The model's upsert therefore writes every column the request carries. A column
the request omits keeps its stored value on an existing row. On a new row it gets the
column's default, which the model takes to be NULL: the table schema is not part of this
model (`CandidateStore.Written`). A contact that has all six properties replaces its row in full
(`CandidateStore.WrittenReplacesFullRow`).

On an upsert error the handler `continue`s past the activity insert (lines 68-71), so only
successful upserts are logged.

## Model

| member | source | states |
|---|---|---|
| `ContactMapper.OrEmpty` | supabase/functions/sync-hubspot/index.ts:48-49 | the falsy-to-empty default on a name is the property's value whenever the property is present (the truthiness test changes nothing), and `''` otherwise |
| `ContactMapper.MapContact` | supabase/functions/sync-hubspot/index.ts:45-56 | the row's organization id is the request's id, its `hubspot_id` is `contact.id`, its `relationship_type` is `'candidate'`, and `last_sync_at` is now; the names are the property values or `''`, never absent; each optional column is present exactly when its property is, and equals it unchanged |
| `ContactMapper.MapContactLosesNothing` | supabase/functions/sync-hubspot/index.ts:48-53 | reading the row backwards gives exactly the six mapped properties, minus empty names: nothing is validated, normalised or dropped |
| `ContactMapper.MapContactOnto` | supabase/functions/sync-hubspot/index.ts:45-56 | every candidate row with relationship `'candidate'` is the mapping of the contact read back from it |
| `ContactMapper.MapContactReadsOnlyRelevant` | supabase/functions/sync-hubspot/index.ts:42-53 | two contacts with the same id and the same six mapped properties map to the same row; every other property is ignored |
| `CandidateStore.Written` | supabase/functions/sync-hubspot/index.ts:59-66 | after an upsert the row holds every column the request carries, including `updated_at`; an omitted optional column keeps its stored value, or on a new row takes the column default (taken as NULL) |
| `CandidateStore.WrittenReplacesFullRow` | supabase/functions/sync-hubspot/index.ts:59-66 | a request carrying all optional columns overwrites the row in full, whatever was stored |
| `CandidateStore.Upserted` | supabase/functions/sync-hubspot/index.ts:59-66 | the upsert adds or rewrites only the row under the request's `hubspot_id`, leaves every other row unchanged, and keeps one row per `hubspot_id` |
| `CandidateStore.Store.Upsert` | supabase/functions/sync-hubspot/index.ts:59-71 | the store answers with the given error flag; a failed upsert leaves the table unchanged; a successful one leaves the table `Upserted` |
| `CandidateStore.Store.InsertActivity` | supabase/functions/sync-hubspot/index.ts:74-79 | the activity table grows by exactly the new entry; earlier entries are unchanged |
| `SyncHubspot.Serve` | supabase/functions/sync-hubspot/index.ts:26-99 | `OPTIONS` gives `ok` with no state change. An unreadable body, a missing or empty organization id, or a failed fetch gives a 500 with that error's message and no state change. Otherwise the answer is 200 `Sync completed successfully`, whatever the upserts answered, and the tables are exactly `SyncTable` and the old log plus `SyncLog` |
| `SyncProperties.SyncTableKeyed` | supabase/functions/sync-hubspot/index.ts:59-66 | after a run there is still at most one row per `hubspot_id` |
| `SyncProperties.SyncTableKeys` | supabase/functions/sync-hubspot/index.ts:41-71 | after a run a row exists exactly when it existed before or a contact with that id was upserted successfully |
| `SyncProperties.SyncTableUntouched` | supabase/functions/sync-hubspot/index.ts:59-71 | a row that no successful contact names is exactly as before; rejected upserts and other ids leave no trace |
| `SyncProperties.SyncTableLastWins` | supabase/functions/sync-hubspot/index.ts:41-66 | when the same id occurs more than once, the row holds everything sent by the last contact with that id whose upsert succeeded |
| `SyncProperties.SyncTableRow` | supabase/functions/sync-hubspot/index.ts:41-71 | the row a run leaves under an id is the old row with that id's successful contacts upserted over it in order |
| `SyncProperties.RowAfterColumn` | supabase/functions/sync-hubspot/index.ts:50-66 | after a series of upserts, an optional column holds the last value any request carried, or the stored value if none carried one |
| `SyncProperties.SyncRerun` | supabase/functions/sync-hubspot/index.ts:41-71 | re-running over the same contacts, with every earlier success succeeding again, gives the table a single second run would give |
| `SyncProperties.SyncIdempotent` | supabase/functions/sync-hubspot/index.ts:59-66 | running the same sync twice at the same clock gives the same table as running it once; `SyncRerunChangesOnlyTimestamps` is the form for two runs at different times |
| `SyncProperties.SyncTableTimestampsOnly` | supabase/functions/sync-hubspot/index.ts:55-63 | the clock changes only `last_sync_at` and `updated_at` |
| `SyncProperties.SyncRerunChangesOnlyTimestamps` | supabase/functions/sync-hubspot/index.ts:41-80 | re-running with the same contacts and store answers changes the table only in its timestamps |
| `SyncProperties.SyncLogIsSuccesses` | supabase/functions/sync-hubspot/index.ts:68-79 | the log grows by one entry per successful upsert, in contact order; each entry has `candidate_id = contact.id`, type `hubspot_sync` and `performed_by` the organization id |
| `SyncProperties.SyncLogMentions` | supabase/functions/sync-hubspot/index.ts:68-79 | an id gets a log entry exactly when a contact with that id was upserted successfully |
| `SyncProperties.SyncLogWithoutFailures` | supabase/functions/sync-hubspot/index.ts:73-79 | with no failed upsert the run logs one entry per contact, in contact order |
| `SyncProperties.SyncAllRejected` | supabase/functions/sync-hubspot/index.ts:68-71 | when every upsert fails, the table and the log stay unchanged |

## Left out

- The HubSpot client (lines 1, 5 and 39) is replaced by the `fetch` parameter. This includes
  any paging inside `getAll()`. A failed fetch carries the message it throws.
- The Supabase client (lines 3 and 6-9) is replaced by the `Store` class. Whether an upsert
  errors is supplied by `outcomes`; the model does not decide why a store would refuse.
- The activity insert's result is never checked (line 74), so the model always appends it.
  A failed insert is not modelled.
- Timestamps (lines 55 and 63) come from one `now` parameter. It is used for both columns and
  for every contact of a run; the source reads the clock separately each time.
- `serve`, CORS headers, the `Content-Type` header and `console.error` logging are HTTP and
  I/O plumbing.
- SyncHubspot.Serve: the headers of each response are not modelled, only status and body.
- SyncHubspot.Serve: an `organizationId` that is not a string is not modelled; the source
  would use it as-is if truthy. A JSON `null` body throws on destructuring and is
  `Unparsable`; any other body that is not an object destructures to an absent id and is
  `Json(None)`.
- ContactMapper.MapContact: property values are strings, as the source's `ContactProperties`
  interface (lines 16-24) declares. A wrapper whose value is null or not a string at run time
  is not modelled. Neither is a contact without a property bag, which would throw and end the
  run with a 500 after the earlier contacts were written.
- The `candidates` table's other columns, and rows without a `hubspot_id`, are outside the
  model. The table is only the rows keyed by `hubspot_id`.
- CandidateStore.Written: an optional column a new row's request omits is NULL in the model.
  A DEFAULT the table schema might declare for it is not modelled, since the schema is not
  part of this model.
- Two runs at once are not modelled. Each upsert is taken as atomic.
- app/api/hubspot/route.ts is not part of this model. It checks the session (401
  `Unauthorized`) and forwards the user's id as `organizationId`.
- components/dashboard/hubspot-sync.tsx, app/page.tsx, src/components/Layout.tsx,
  src/components/dashboard/activity-feed.tsx and components/dashboard/dashboard-skeleton.tsx
  are not part of this model. They are user-interface markup.
