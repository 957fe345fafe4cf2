# In-memory user table of a gin CRUD demo, in Dafny

The service keeps a package-level slice `users` of `User{ID, Name, Email}`
records, seeded with two rows, and five HTTP handlers read and change it:
`getUsers` lists it, `createUser` appends a decoded body under the id of the
last row plus one, `getUser` returns the first row with an id, `updateUser`
decodes a body over the first such row in place, and `deleteUser` splices it
out. The model has:

- `wrappers.dfy` — module `Wrappers`: the `Option` used for JSON fields.
- `user_table.dfy` — module `UserTable`: the `User` record, the `Seed`
  table, the decoded body (`Patch` holds one `Option` per JSON field;
  `Body` is `Decoded(patch)` or `Malformed(message)`), the handler answers
  (`Response`: `Ok` 200, `Created` 201, `NoContent` 204, `NotFound` 404,
  `BadRequest` 400 with the decoder's message, `Fault` for the panic), the
  first-match scan `FindFirst`, and one function per handler giving the
  answer and the table afterwards (`Get`, `Create`, `Update`, `Delete`).
- `user_store.dfy` — module `Handlers`: class `UserStore`, whose field
  `users: seq<User>` the handler methods reassign. `Get`, `Update` and `Delete` scan with a
  loop, as the Go `for i, u := range users` loops do; `List` and `Create`
  have no loop, as `getUsers` and `createUser` have none. Each method is
  proved to answer and leave the table as the `UserTable` function says.
- `user_table_facts.dfy` — module `UserTableFacts`: the lemmas that say
  what those functions mean.

Inputs from the HTTP layer: the path id arrives as an `int` (a non-numeric path arrives
from `strconv.Atoi` as 0 and an out-of-range numeral as the nearest 64-bit
bound; both are just other ids here);
the body arrives already decoded, as a `Body`. Decoding into
`var newUser User` means create starts from the blank row `User(0, "", "")`;
`BindJSON(&users[i])` means update starts from the existing row, so fields
the body omits keep their values and an `"id"` in the body replaces the id.

On an empty table `createUser` indexes `users[len(users)-1]` and panics
after a successful decode; the model answers `Fault` and leaves the table
as it was. A body that fails to decode is reported first (`BadRequest`),
as `BindJSON` runs before the index.

Three consequences of the code as written, each proved or exhibited:
update keeps the fields a body omits rather than replacing the whole record;
ids are not unique at all times, because update can rewrite an id onto
another row's (`UpdateCanDuplicateIds`); and last-id-plus-one never collides
with an existing id while ids increase along the table, which the seed
satisfies and create and delete preserve (`CreateKeepsIdsIncreasing`,
`DeleteKeepsIdsIncreasing`). Once an update breaks that order, create can
hand out an id another row already holds (`UpdateThenCreateDuplicates`). After deleting the last row its id is handed
out again (`SessionReusesIdAndEmpties`).

## Model

| member | source | states |
|---|---|---|
| `Handlers.UserStore.constructor` | main.go:37-40 | the table starts as exactly the two seed rows |
| `UserTableFacts.SeedIsOrdered` | main.go:37-40 | the seed holds two rows with ids 1 and 2 in that order, and its ids increase |
| `UserTableFacts.IncreasingIdsAreUnique` | main.go:37-40 | a table whose ids increase has no duplicate id |
| `Handlers.UserStore.List` | main.go:66-68 | listing returns the table itself, unchanged and in order |
| `UserTable.Apply` | main.go:127 | decoding over a row leaves each field either as it was or as the body gives it; `ApplyOverwritesPresentFields` states exactly which |
| `UserTable.Get` | main.go:100-110 | the answer is Ok with a row of the table carrying the id, or NotFound; `GetFindsFirstMatch` pins down which |
| `UserTable.Create` | main.go:79-88 | the table gains exactly the created row at its end, or is unchanged when nothing is created; `CreateAppendsNextId`, `CreateFailures` and `CreateThenGet` give the id and the failure cases |
| `UserTable.Update` | main.go:123-136 | the answer is Ok, NotFound or BadRequest; the length is kept; only Ok changes the table, and the row it answers with is in the new table; `UpdateRewritesFirstMatch`, `UpdateMissingIsNotFound` and `UpdateMalformedIsBadRequest` say which row and when |
| `UserTable.Delete` | main.go:148-158 | the answer is NoContent, with one row fewer and the new table a strict sub-multiset of the old, or NotFound with the table unchanged; `DeleteRemovesFirstMatch` says which row goes and that order is kept |
| `UserTable.FindFirst` | main.go:103-108 | the scan stops at a row with the id and no row before it has the id; it finds nothing exactly when no row has the id |
| `Handlers.UserStore.Get` | main.go:100-110 | the loop answers what `UserTable.Get` does (first match or NotFound) and cannot change the table |
| `UserTableFacts.FirstMatchIsUnique` | main.go:103-108 | any matching position with no match before it is the one the scan stops at |
| `UserTableFacts.GetFindsFirstMatch` | main.go:103-109 | get answers Ok exactly when some row has the id, then with the first such row, and NotFound otherwise |
| `Handlers.UserStore.Create` | main.go:79-88 | the method answers and leaves the table as `UserTable.Create` does, and keeps ids increasing |
| `UserTableFacts.CreateAppendsNextId` | main.go:85-87 | on a non-empty table the new row gets the last id plus one and the body's name and email (empty when omitted); it is appended and every earlier row is untouched |
| `UserTableFacts.CreateIgnoresBodyId` | main.go:85 | the id in the body has no effect on create |
| `UserTableFacts.CreateFailures` | main.go:80-85 | a malformed body gives BadRequest with the decoder's message and an empty table gives Fault, both with the table unchanged; Created exactly when the body decodes and the table is non-empty |
| `UserTableFacts.CreateThenGet` | main.go:85-87 | when no row already holds the last id plus one (as with increasing ids), get under the assigned id returns the new row, which equals the body decoded over a blank row except for its id |
| `UserTableFacts.CreateKeepsIdsIncreasing` | main.go:85-86 | create keeps ids increasing, so the id it assigns is held by no existing row |
| `Handlers.UserStore.Update` | main.go:123-136 | the method answers and leaves the table as `UserTable.Update` does |
| `UserTableFacts.ApplyOverwritesPresentFields` | main.go:127 | decoding over a row replaces exactly the fields the body carries; an empty body changes nothing; decoding twice equals decoding once |
| `UserTableFacts.UpdateRewritesFirstMatch` | main.go:125-131 | a decoded body rewrites the first matching row with the present fields (id included) and answers with it; every other row and the order stay |
| `UserTableFacts.UpdateMissingIsNotFound` | main.go:125-135 | with no row under the id, update answers NotFound for any body and changes nothing |
| `UserTableFacts.UpdateMalformedIsBadRequest` | main.go:125-135 | a malformed body gives BadRequest with the table unchanged only when a row matches; otherwise NotFound |
| `UserTableFacts.UpdateThenGet` | main.go:125-131 | with unique ids, if the rewritten row's id (from the body, or kept when the body has none) is held by no other row, get under it returns the rewritten row and, if the id changed, nothing is found under the old one |
| `UserTableFacts.UpdateWithoutIdThenGet` | main.go:125-131 | when row i is the first with the id, a body without an id keeps the row's id and get under it returns the rewritten row, even if later rows share the id |
| `UserTableFacts.UpdateCanDuplicateIds` | main.go:127 | updating row 2 of the seed with id 1 yields two rows with id 1 |
| `UserTableFacts.UpdateThenCreateDuplicates` | main.go:85-86 | after moving seed row 1 to id 3, create also assigns 3, so two rows share it and get(3) returns the older row |
| `Handlers.UserStore.Delete` | main.go:148-158 | the method answers and leaves the table as `UserTable.Delete` does, and keeps ids increasing |
| `UserTableFacts.DeleteRemovesFirstMatch` | main.go:150-153 | delete removes exactly the first matching row: one row fewer, the others in their old order, the old rows less that one as a multiset |
| `UserTableFacts.DeleteMissingIsNotFound` | main.go:150-157 | with no row under the id, delete answers NotFound and changes nothing |
| `UserTableFacts.DeleteThenGet` | main.go:150-153 | with unique ids, get under a deleted id answers NotFound |
| `UserTableFacts.DeleteKeepsIdsIncreasing` | main.go:150-152 | delete keeps ids increasing |
| `UserTableFacts.SessionAssignsFromLastRow` | main.go:85-86 | from the seed, create Bob gets 3, delete 1 leaves rows 2 and 3, create Cara gets 4 (last id plus one, not a counter) |
| `UserTableFacts.SessionReusesIdAndEmpties` | main.go:85 | deleting the last row lets create hand out its id again; deleting both seed rows makes the next create fault |

## Left out

- Routing, `r.Run` and the swagger handler (main.go:42-56): server plumbing, not table logic.
- The swagger `@` annotations: documentation metadata.
- JSON encoding of answers and the internals of `BindJSON`: a body arrives as a decoded `Patch` or a decode failure, and statuses are `Response` tags.
- Partial writes the decoder may leave in `users[i]` when a body fails to decode part-way: library behaviour; the model leaves the row unchanged on BadRequest.
- `strconv.Atoi`: the id arrives parsed; a non-numeric path arrives as 0, an out-of-range one as the nearest int bound.
- `fmt.Println(id)` in `getUser`: a log line with no effect on the table.
- Concurrent requests on the unguarded global slice: handlers run one at a time.
- Go's 64-bit `int`: ids in bodies, in paths and from `last.ID + 1` are unbounded integers, so a body id outside int64 (a decode failure in Go), the clamping of path ids and the wrap-around of `last.ID + 1` are not modelled.
- The fixed message of NotFound ("user not found"): carried only by the tag.
- The "user deleted" message `deleteUser` passes with status 204: passed by the handler, not modelled; no body reaches the client at that status.
