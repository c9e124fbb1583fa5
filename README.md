# Take-a-number queue backend, modelled in Dafny

The service keeps a take-a-number queue for a fixed set of places
(hospitals and hotels) in two SQLite tables:

- `places`: one row per place, keyed by `id`, with `name`, `type`,
  `image`, `currentToken` (the number being served) and `lastIssuedToken`
  (the highest number handed out).
- `tokens`: one row per visitor request, with an AUTOINCREMENT `id`, the
  `place_id`, a `token_number` that stays NULL until an administrator
  approves the request, and a `served_at` timestamp.

On start, `db.js` empties both tables and seeds nine hospitals and nine
hotels. The route handlers in `server.js` look places up. They insert
pending requests, list the pending and the numbered rows of a place,
approve a request by handing out the next number, and advance the number
being served.

The model keeps the tables as in-memory state and turns every SQL
statement into its effect on that state:

- `sql.dfy` (module `Sql`): a nullable column value, and `OrZero`, which is
  both `COALESCE(v, 0)` and JavaScript's `v || 0` on an integer column.
- `tables.dfy` (module `Tables`): the row types, the whole database as a
  value (`Database`: both tables plus SQLite's AUTOINCREMENT counter), the
  three WHERE clauses the handlers use (`Select`), the effect of
  `UPDATE tokens SET token_number` (`SetTokenNumber`), and the consistency
  predicate `Valid`. `Valid` says that ids increase in table order, that
  every id is at most the AUTOINCREMENT counter, and that `served_at` is
  NULL.
- `seed.dfy` (module `Seed`): the seed rows and the two insert loops. The
  seed inserts 18 distinct ids into the table it has just emptied, so no
  insert ever meets an id already present (`InsertAllGrows`). `InsertPlace`
  has to give some result for that case: it leaves the table unchanged.
  That choice is arbitrary, and "## Left out" says so.
- `handlers.dfy` (module `Handlers`): each state-changing route as a
  function from the database before to the database after. It also holds
  the lemmas that relate several calls: repeated approvals, and any
  sequence of requests, approvals and `next` calls.
- `server.dfy` (module `Server`): class `QueueDb`, the shared database
  handle. Its fields are the two tables and the counter. Its constructor
  runs the seed block (`Reseed`), one insert loop per kind (`InsertKind`). It has one method per route, and each
  mutating method is tied to the matching `Handlers` function.

Where the code and the written design of the service differ, the model
follows the code:

- Approvals at a place answer 1, 2, 3, ... in order, whatever requests,
  `next` calls and other places' routes run in between
  (`Handlers.FreshPlaceCountsFromOne`, `Handlers.RequestApproveTwice`).
- `next` is an unconditional increment. It never reports an empty queue,
  and `currentToken` can pass `lastIssuedToken`
  (`Handlers.NextOvertakesLastIssued`, `Server.SeededFirstSteps`).
- `approve` does not check that the row is pending or that it belongs to
  the place.
  - Approving the same id twice hands out two numbers and overwrites the
    row (`Handlers.ApproveTwice`).
  - Approving an id that no row has still uses up a number
    (`Handlers.ApproveMissingRow`).
  - Approving another place's row gives that row this place's number
    (`Handlers.ApproveForeignRow`).
- Nothing writes `served_at`: every reachable state keeps it NULL
  (`Handlers.RunMonotone`).
- There is no direct-issue route and no reject route. Token numbers are
  handed out only by `approve`.

Decisions the model makes explicit:

- The counter columns are nullable integers, as in the schema. The seed
  writes 0 and every handler writes an integer, so NULL never appears in
  practice. The model still carries the `|| 0` and `COALESCE` fallbacks.
- `DELETE FROM tokens` does not reset SQLite's AUTOINCREMENT counter. The
  constructor therefore takes the previous run's tables (`prior`), which
  must be consistent, deletes their rows, and keeps the previous counter.
  So every earlier id stays at or below the counter. Each new id is one more than
  that counter, and the invariant ids <= counter keeps this in step with
  the AUTOINCREMENT rule.
- A request for a place that does not exist is still inserted: the schema
  has no foreign key. A `next` for such a place changes nothing, and the
  route still answers success.

## Model

| member | source | states |
|---|---|---|
| `Sql.OrZero` | server.js:104 | `v || 0` on an integer column and `COALESCE(v, 0)` give the stored integer, or 0 for NULL |
| `Tables.Select` | server.js:87 | a selection holds only rows that satisfy the WHERE clause and is no longer than the table |
| `Tables.SelectSound` | server.js:87 | every selected row is a row of the table that matches the clause |
| `Tables.SelectComplete` | server.js:87 | every row of the table that matches the clause is selected |
| `Tables.SelectMembers` | server.js:87 | a row is selected exactly when it is a row of the table that matches the clause |
| `Tables.SelectIdsAbove` | db.js:23 | a lower bound on the table's ids is a lower bound on the selection's ids |
| `Tables.SelectKeepsOrder` | server.js:136 | a selection keeps table order: ids still strictly increase |
| `Tables.SelectExactly` | server.js:86-91 | a selection is exactly the matching rows, in table order |
| `Tables.SelectAppend` | server.js:76 | selecting from the table plus an appended row selects from each part |
| `Tables.PendingIssuedPartition` | server.js:136 | a place's NULL-number rows and its numbered rows together make up all its rows (as multisets), with no row in both |
| `Tables.SetTokenNumber` | server.js:107-110 | the update gives every row whose id matches the new number, whatever it held; other rows, the order and the length are unchanged |
| `Seed.Decimal` | db.js:43 | the loop counter 1..9 prints as one digit character |
| `Seed.SeedIdInjective` | db.js:43 | two seeded ids are equal exactly when kind and number are |
| `Seed.SeedIds` | db.js:41-58 | the loops insert `hospital-1`..`hospital-9` and `hotel-1`..`hotel-9`, in order |
| `Seed.SeedRow` | db.js:42-57 | the i-th row of a loop has the loop's kind as its `type`, and both counters 0 |
| `Seed.SeedRows` | db.js:42-57 | the i-th row of each loop is the seeded row for number i |
| `Seed.InsertPlace` | db.js:35-38 | an insert adds the key with the row when the key is new, and keeps every row already present |
| `Seed.InsertAll` | db.js:41-58 | running the prepared insert over a list of ids never changes a row already present |
| `Seed.InsertStep` | db.js:41-48 | one turn of a seed loop inserts the next row into the table left by the turns before |
| `Seed.InsertAllKeys` | db.js:41-58 | the loops add exactly the given ids to the table's keys |
| `Seed.InsertAllGrows` | db.js:12 | with distinct and new ids, every insert succeeds: the table grows by one row per id |
| `Seed.InsertAllRow` | db.js:41-58 | with distinct and new ids, the i-th id holds the i-th row |
| `Seed.SeedIdsDistinct` | db.js:43 | one loop's nine ids are pairwise distinct |
| `Seed.SeedKindsDisjoint` | db.js:53 | no hotel id equals a hospital id |
| `Seed.SeedPlaces` | db.js:32-58 | the table both loops leave in the emptied `places` table starts every place with both counters at 0 |
| `Seed.HotelsFresh` | db.js:51-58 | after the hospital loop, no hotel id is present yet |
| `Seed.SeedPlacesCount` | db.js:41-58 | the seed leaves exactly 18 places |
| `Seed.SeedPlacesIds` | db.js:41-58 | the seeded ids are the hospital and hotel ids and no others |
| `Seed.SeedPlacesRow` | db.js:42-57 | `hospital-i` holds name `Hospital i`, type `hospital` and image prefix + `/hospitals/hospital` + i + `.jpg`; likewise for hotels |
| `Seed.InsertAllCountersZero` | db.js:37 | inserting zero-counter rows into a zero-counter table leaves every counter at 0 |
| `Seed.SeedPlacesFacts` | db.js:32-60 | the seed's places table: 18 rows, each seeded row as stated, all counters 0 |
| `Seed.DeployedSeedImage` | db.js:5-6 | with the deployed host, each seeded place's image is `https://magenta-cascaron-cdb5f6.netlify.app/catalogpics` + the kind's path + i + `.jpg` |
| `Seed.SeedLoopsResult` | db.js:40-58 | the hospital loop and then the hotel loop, from the emptied table, leave exactly the seed's places table |
| `Handlers.NewRowId` | db.js:23 | a new id is above the AUTOINCREMENT counter, and so, when the tables are consistent, above every id in `tokens` |
| `Handlers.Request` | server.js:75-80 | a request keeps `places` and every earlier row, appends one row for that place with a NULL number under the new id, and advances the counter to that id |
| `Handlers.PendingRequests` | server.js:86-91 | the pending list holds exactly the place's rows with a NULL number |
| `Handlers.TokenHistory` | server.js:135-141 | the history holds exactly the place's rows with a number |
| `Handlers.Approve` | server.js:100-117 | approval neither adds nor removes a place |
| `Handlers.Next` | server.js:126-130 | `next` neither adds nor removes a place |
| `Handlers.RequestAppends` | server.js:75-80 | a request appends one row for that place with a NULL number, under an id above every existing id; places and earlier rows are unchanged, and the tables stay consistent |
| `Handlers.RequestPending` | server.js:75-91 | after a request, that place's pending list is the old list plus the new row; other places' pending lists and every history are unchanged |
| `Handlers.ApproveEffect` | server.js:104-117 | approval returns `(lastIssuedToken or 0) + 1` and writes it to the place's `lastIssuedToken` and to the row `requestId`; `currentToken`, other places, other rows and the id counter are unchanged |
| `Handlers.ApprovePreservesValid` | server.js:107-114 | approval keeps ids, the id counter and the NULL `served_at` as they were |
| `Handlers.ApproveMissingRow` | server.js:107-114 | with no row of that id, the tokens table is unchanged but the place's counter still advances |
| `Handlers.ApproveTwice` | server.js:104-114 | approving one id twice advances `lastIssuedToken` by 2, and the row ends with the second number |
| `Handlers.ApproveForeignRow` | server.js:107-110 | a row of another place is numbered anyway and joins that place's history; that place's counter does not move |
| `Handlers.ApproveAll` | server.js:96-120 | successive approvals keep the place and give one answer per approval |
| `Handlers.ApproveAllConsecutive` | server.js:104-113 | k approvals at one place answer last+1, ..., last+k; `lastIssuedToken` ends k higher and `currentToken` is untouched |
| `Handlers.NextEffect` | server.js:126-130 | `next` sets `currentToken` to `(currentToken or 0) + 1` and changes nothing else; for a missing place it changes nothing |
| `Handlers.NextOvertakesLastIssued` | server.js:127 | once `currentToken` has caught up with `lastIssuedToken`, `next` moves past it: no bound is enforced |
| `Handlers.Apply` | server.js:72-131 | no route adds or removes a place |
| `Handlers.Run` | server.js:72-131 | no sequence of routes adds or removes a place |
| `Handlers.StepMonotone` | server.js:111-113 | one route never lowers `lastIssuedToken` and keeps the tables consistent |
| `Handlers.RunMonotone` | server.js:72-131 | under every sequence of routes, `lastIssuedToken` never decreases, the tables stay consistent, and `served_at` stays NULL |
| `Handlers.ApprovalCount` | server.js:96-120 | the approvals at one place are at most the steps run |
| `Handlers.ApprovalAnswers` | server.js:117 | a run gives one answer per approval at the place |
| `Handlers.StepLastIssued` | server.js:104-113 | a step raises the place's `lastIssuedToken` by exactly 1 when it approves there and leaves it unchanged otherwise, and the approval answers the raised value |
| `Handlers.RunApprovalsConsecutive` | server.js:72-131 | under any mix of routes at any places, the approvals at one place answer last+1, last+2, ... in order, and `lastIssuedToken` ends one higher per approval there |
| `Handlers.FreshPlaceCountsFromOne` | server.js:104-113 | a place starting at 0 or NULL answers 1, 2, ..., k to its k approvals, whatever other routes run in between |
| `Handlers.RequestApproveTwice` | server.js:72-120 | request, approve, request, approve at a fresh place: the answers are 1 then 2, and the two new rows carry 1 and 2 |
| `Server.QueueDb.Seed` | db.js:9-60 | given a consistent earlier run, the seed empties `tokens`, leaves `places` holding exactly the 18 seeded rows with zero counters, and keeps the AUTOINCREMENT counter, which stays at or above every earlier id |
| `Server.QueueDb.Reseed` | db.js:32-58 | the seed block deletes both tables, runs both loops, and leaves exactly the seed's places table; the counter is unchanged |
| `Server.QueueDb.InsertKind` | db.js:41-48 | one loop runs the prepared insert for the kind's nine places in order |
| `Server.QueueDb.ListPlaces` | server.js:44-48 | the list route returns every place, with its row |
| `Server.QueueDb.GetPlace` | server.js:51-65 | lookup returns the row with that id if there is one, and not-found otherwise |
| `Server.QueueDb.RequestToken` | server.js:72-82 | the new row is appended with a NULL number, and its id, above every earlier id, is returned; places are unchanged |
| `Server.QueueDb.ListRequests` | server.js:85-93 | exactly the place's rows with a NULL number, in table order |
| `Server.QueueDb.Approve` | server.js:96-120 | read-modify-write: the answer is `(lastIssuedToken or 0) + 1`, written to the place and to the row `requestId`; nothing else changes |
| `Server.QueueDb.Next` | server.js:123-131 | `currentToken` becomes `(currentToken or 0) + 1` for an existing place; nothing else changes |
| `Server.QueueDb.TokenHistory` | server.js:134-142 | exactly the place's rows with a number, in table order |
| `Server.SeededFirstSteps` | server.js:123-131 | straight after the seed, a place's first approval answers 1, and its first `next` sets `currentToken` to 1 while `lastIssuedToken` is still 0 |

## Left out

- The Express plumbing is not modelled: app setup, CORS, the JSON body
  parser, static images, the health route and `app.listen`. Results are
  kept as a value or not-found, without HTTP status codes or JSON shapes.
- The sqlite3 driver is not modelled: `db.serialize`, prepared statements
  and callbacks. The error arguments the handlers ignore are left out, and
  so is the 500 answer of the place list on a database error.
- Concurrency is not modelled. Requests run one at a time, so the model
  says nothing about interleaving the read and the two writes of
  `approve`.
- `issued_at` and its `CURRENT_TIMESTAMP` default are not modelled.
  `served_at` is kept, and no route writes it.
- `approve` for a place that does not exist throws at server.js:104. The
  model makes the place's existence a precondition instead.
- `places` is a map keyed by `id`. The row order of `SELECT * FROM places`
  is not modelled, and the `id` column is the map key, not a field of the
  row.
- `Server.QueueDb.ListPlaces` states the rows returned, not their order.
- `requestId` from the request body is modelled as an integer. A body
  value that matches no id behaves like `Handlers.ApproveMissingRow`.
- `Seed.InsertPlace`: the primary-key clash case is unreachable in the seed
  (`InsertAllGrows`). db.js passes `stmt.run` no callback and does not show
  what the driver does on a clash. The model's unchanged table for that
  case is an arbitrary choice, not a claim about the driver.
- The counter columns `currentToken` and `lastIssuedToken` are unbounded
  integers in the model. `(place.lastIssuedToken || 0) + 1` is JavaScript
  double arithmetic, which loses exactness above 2^53. `COALESCE(currentToken,
  0) + 1` turns into a REAL once it overflows SQLite's 64-bit integers.
  Neither limit is modelled.
- AUTOINCREMENT exhaustion (the largest 64-bit rowid) is not modelled:
  ids are unbounded naturals.
- The image host prefix `BASE_IMAGE_URL` is a parameter of the seed,
  because it is only ever put in front of the image path.
  `Seed.BaseImageUrl` records the deployed value, and `Seed.DeployedSeedImage`
  applies the seed to it.
- Console logging is not modelled.
