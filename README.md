# In-memory item store

This project models the Express backend of a small inventory-item CRUD service
(`backend/server.js`). The backend keeps two pieces of module state:

- `items`, an ordered array of `{id, name, description}` records, seeded with three records;
- `nextId`, the counter that gives each new record its id.

Five route handlers under `/api/items` act on that state. Each one is modelled as a
method of the class `Server.Store` and returns a `Response` (status code and body):

| route | method | success | failures |
|---|---|---|---|
| `POST /api/items` | `Create` | 201 + new record | 400 missing name/description |
| `GET /api/items` | `List` | 200 + all records | — |
| `GET /api/items/:id` | `Get` | 200 + first matching record | 404 |
| `PUT /api/items/:id` | `Update` | 200 + updated record | 404 unknown id (checked first), 400 bad payload |
| `DELETE /api/items/:id` | `Delete` | 204, no body | 404 |

Files:

- `items.dfy` (module `Items`) holds the values: `Item`, `Payload`, `RouteId`, `Response`, the two messages and the seed records. It also holds the pure functions the handlers call in place of JavaScript's `findIndex`/`find`, `filter` and `Math.max` (`FindIndex`, `RemoveId`, `MaxId`, `InitialNextId`), the store invariant `Wellformed`, and the lemmas about them.
- `server.dfy` (module `Server`) holds the class `Store`. Its fields are `items: seq<Item>` and `nextId: int`, plus a ghost set `Issued` of every id the store has ever held. `Valid()` is the class invariant: ids are pairwise distinct, every record has a non-empty name and description, every stored id was issued, and every issued id is below `nextId`. Every method keeps it.
- `sessions.dfy` (module `Sessions`) holds client methods that chain calls. From the handlers' contracts alone they prove that:
  - a Get after a Delete of the same id answers 404;
  - a Get after a Create returns the new record;
  - in any sequence of requests handled by `Serve`, every id a Create hands out is new, no two Creates hand out the same id, and an id freed by an earlier Delete is never handed out again;
  - an example session on an empty store, and one on the seeded store, give the stated responses.

Modelling choices:

- The `:id` route parameter is an `Option<int>`. `None` stands for the NaN that `parseInt` returns for text that is not a number; NaN equals no id.
- A payload field is an `Option<string>`. The handlers' `!name || !description` test fails when a field is missing (`None`) or empty (`""`).
- Each handler is one atomic step.
- Update looks up the id (backend/server.js:54-58) before it checks the payload (lines 59-61), so an unknown id answers 404 even with a bad payload.
- The records are an ordered sequence, as in the code: `List` returns insertion order, and `Get` returns the first match.

## Model

| member | source | states |
|---|---|---|
| `Items.FindIndex` | backend/server.js:54 | the first index whose record `Matches` the id, or -1 exactly when no record has it |
| `Items.RemoveId` | backend/server.js:71 | the filtered list holds exactly the records of the input whose id differs, and is no longer |
| `Items.MaxId` | backend/server.js:20 | the result bounds every id of a non-empty list and is one of them |
| `Items.InitialNextId` | backend/server.js:20 | the start counter is above every seed id; it is 1 for no seeds, otherwise one past some seed id (the largest) |
| `Items.SeedStart` | backend/server.js:14-20 | for the three seed records (the constant `Items.Seed`) the counter starts at 4 and the store invariant holds |
| `Items.RemoveIdAbsent` | backend/server.js:71-74 | filtering an id that no record has leaves the list unchanged |
| `Items.RemoveIdLength` | backend/server.js:70-73 | the filter keeps the length exactly when no record matches, so the length test detects "not found" |
| `Items.RemoveIdSingle` | backend/server.js:71 | with distinct ids, the filter removes exactly the matching record and keeps the rest in order |
| `Items.RemoveIdConcat` | backend/server.js:71 | for all inputs, filtering a concatenation is the concatenation of the filtered parts, so the kept records stay in their order |
| `Items.RemoveIdCount` | backend/server.js:71 | for all inputs, the filter keeps every copy of a non-matching record and no copy of a matching one |
| `Items.RemoveIdDistinct` | backend/server.js:71 | filtering keeps ids pairwise distinct |
| `Items.RemoveIdWellformed` | backend/server.js:71 | filtering keeps the store invariant for the same counter and leaves no record with the id |
| `Items.AppendWellformed` | backend/server.js:30-31 | appending a record that takes the counter's value, with the counter stepped, keeps the store invariant |
| `Items.ReplaceWellformed` | backend/server.js:63 | rewriting one record's name and description, keeping its id, keeps the store invariant |
| `Server.Store.constructor` | backend/server.js:14-20 | the store starts with the seed records, the counter one past their largest id (1 if none), and the invariant |
| `Server.Store.Create` | backend/server.js:25-33 | a payload failing `Complete` (name or description missing or `""`, the empty-field test of line 27) gives 400 and changes nothing; otherwise the new record takes the old counter, a never-issued id, and is appended; the counter steps by one; the answer is 201 with the record |
| `Server.Store.List` | backend/server.js:36-38 | 200 with exactly the stored records, in order |
| `Server.Store.Get` | backend/server.js:41-48 | 404 with the not-found message exactly when no record `Matches` the id (`item.id === id`, with NaN matching nothing); otherwise 200 with the first record that has it |
| `Server.Store.Update` | backend/server.js:51-65 | an id no record `Matches` gives 404 whatever the payload; a known id with a payload failing `Complete` (line 59) gives 400; neither changes anything; otherwise only that record's name and description change, id and position kept, counter unchanged, 200 with the updated record |
| `Server.Store.Delete` | backend/server.js:68-77 | the list becomes the filter of the old one; no match gives 404 with the list unchanged; a match gives 204 and removes exactly that record, keeping the order of the rest |
| `Sessions.DeleteThenGet` | backend/server.js:41-77 | after a Delete, a Get on the same id answers 404 |
| `Sessions.CreateThenGet` | backend/server.js:25-48 | after a successful Create, a Get on the new id answers 200 with the created record |
| `Sessions.DeleteThenCreate` | backend/server.js:30 | an id removed by Delete is not the id a later successful Create assigns |
| `Sessions.Serve` | backend/server.js:25-77 | handling any sequence of requests keeps the invariant and never shrinks the set of issued ids; every id a 201 response carries was never issued before the run; no two 201 responses carry the same id; an id a Delete freed with 204 is not the id of any later 201 |
| `Sessions.EmptyStoreSession` | backend/server.js:25-77 | on an empty store: POST gives 201 with id 1, GET all lists it, PUT keeps id 1, DELETE gives 204, GET then gives 404 |
| `Sessions.SeededSession` | backend/server.js:20-65 | on the seeded store, a PUT on an unknown id with a bad payload gives 404, and the first Create gets id 4 |

## Left out

- Express bootstrap, CORS, body parsing and `app.listen` (backend/server.js:2-11, 80-82): HTTP plumbing with no logic of its own.
- Status 500 and 405 responses. Those come from Express defaults and the frontend API routes, not from the backend handlers.
- The text-to-integer conversion of `parseInt`. The route id arrives already parsed, and NaN is `None`.
- JavaScript truthiness of payload values that are not strings (numbers, objects). Payload fields are optional strings only.
- Concurrency between requests. Each handler is one atomic step.
- `frontend/pages/api/items.js` and `frontend/pages/api/items/[id].js`: a second variant of the API that passes requests through to a hosted database client, which is not part of this model. Its local logic is the same empty-field check, its own 404 branches (`[id].js` lines 21-23, 43-45, 60-62) and a 405 branch; its PUT checks the payload (lines 31-34) before it learns whether the id exists (lines 37-45), the reverse of the backend's order.
- `frontend/pages/index.js`: the React page (UI state, fetch calls, alerts, rendering).
- JSON serialisation of responses. A body is a Dafny value, not text.
- Ids are exact integers. JavaScript numbers are 64-bit floats, so from `nextId` = 2^53 on, `nextId++` (backend/server.js:30) no longer advances and later Creates would repeat an id; the model's counter always advances, and its uniqueness results rely on that.
