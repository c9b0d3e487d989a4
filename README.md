# Todo record store, modelled in Dafny

The todo manager keeps every todo item in one JSON file, a flat array of records
`{Id, Description, Status}` (`model/todostruct.go`). Every change to the
collection follows the same steps. The store loads the whole file, changes the
collection in memory, and writes the whole collection back. This project models
that store and its helpers:

- `model.dfy`, module `Model`: the `ToDo` record, the set of identifiers of a
  collection (`Ids`) and the uniqueness invariant (`UniqueIds`).
- `utilities.dfy`, module `Utilities`: the identifier allocator `GetNextId`.
  It is a loop that keeps a running maximum `highCount`, starting from 0, and
  it is proved against the specification function `NextId`. It also holds the
  status check `ValidateStatus`, which accepts exactly `"COMPLETED"`,
  `"NOT STARTED"` and `"STARTED"`.
- `repository.dfy`, module `Repository`: the class `Store`. Its field `todos`
  stands for the data file. `LoadAll` reads the field and `SaveAll` replaces
  it, so an operation that does not save leaves the field as it was.
  `Create`, `Update` and `Delete` follow the source's load, mutate and save
  steps. `Update` and `Delete` share the scan `IndexOf`, which stops at the
  first match. Each method is proved against a function on the collection
  value (`Created`, `Updated`, `Deleted`). The lemmas state what the store
  promises about those functions: where a record is appended, which fields are
  overwritten, what is removed, what stays as it was, and that identifiers stay
  unique.

Two behaviours of the store's code matter for the model:

- `Create` in `dataaccess/repository.go` does not validate the status. The
  command-line front end validates it before calling (`cli/starttodo.go:60-78`).
  So the model's `Create` and `Update` take any status. Each of them promises
  to keep every stored status valid only when the status passed in is valid
  (`CreatedKeepsStatusesValid`, `UpdatedKeepsStatusesValid`).
- An identifier that is not found makes `Update` and `Delete` do nothing. They
  report no error and save nothing, because both functions in
  `dataaccess/repository.go` return nothing.

## Model

| member | source | states |
|---|---|---|
| `Utilities.GetNextId` | utils/utilities.go:18-33 | The scan returns `NextId`: 1 for an empty collection, otherwise the running maximum (from 0) plus one. The result is at least 1 and strictly greater than every identifier in the collection. |
| `Utilities.MaxIdBounds` | utils/utilities.go:24-30 | The running maximum is at least 0 and bounds every identifier. It is either 0 or one of the identifiers. |
| `Utilities.NextIdFresh` | utils/utilities.go:24-32 | The allocated identifier is at least 1, exceeds every existing identifier and is not already in use. |
| `Utilities.NextIdIsMaxPlusOne` | utils/utilities.go:24-32 | When some identifier is positive, the allocated identifier minus one is an identifier of the collection and no identifier is larger. So the result is the largest identifier plus one. |
| `Utilities.NextIdWithoutPositiveIds` | utils/utilities.go:19-32 | When no identifier is positive, including the empty collection, the allocated identifier is 1. |
| `Utilities.NextIdOrderIndependent` | utils/utilities.go:25-30 | Two collections with the same set of identifiers get the same next identifier, whatever their order or duplicates. |
| `Utilities.NextIdTestTable` | utils/utilities_test.go:87-95 | The tests' cases: empty gives 1, `[1,2,3]` gives 4, `[3,17,6]` gives 18. |
| `Utilities.ValidateStatusAcceptsExactly` | utils/utilities.go:44-50 | The status check holds exactly for the three strings `"COMPLETED"`, `"NOT STARTED"` and `"STARTED"`. |
| `Utilities.ValidateStatusCaseSensitive` | utils/utilities.go:42-50 | Every accepted status consists only of capital letters and spaces. So no string with a lower-case letter passes, because the match is exact. |
| `Utilities.ValidateStatusTestTable` | utils/utilities_test.go:130-140 | The five table cases hold: the three statuses pass, and `"random junk"` and `""` fail. The mixed-case `"Completed"` from the comment at utils/utilities.go:43 fails too. |
| `Repository.FirstIndexOf` | dataaccess/repository.go:99-106 | The result is the position of the first record with the identifier, with no earlier record carrying it. It is -1 exactly when no record carries it. |
| `Repository.IndexOf` | dataaccess/repository.go:144-151 | The scan with early `break` returns `FirstIndexOf`. The result is non-negative exactly when the identifier is in the collection. |
| `Repository.CreatedAppendsFreshRecord` | dataaccess/repository.go:58-70 | Create keeps the old records unchanged and in order. It appends exactly one record at the end with an identifier of at least 1 that was not in use. A lookup of that identifier then finds the new record with the given description and status. |
| `Repository.CreatedKeepsIdsUnique` | dataaccess/repository.go:61-67 | If identifiers are unique before Create, they are unique after it. |
| `Repository.CreatedKeepsStatusesValid` | dataaccess/repository.go:61-64 | Create stores the status unchecked. Starting from valid statuses, all statuses stay valid exactly when the given status is valid. |
| `Repository.UpdatedAbsentIsNoOp` | dataaccess/repository.go:78-120 | With an identifier that is not positive or not present, Update leaves the collection unchanged. |
| `Repository.UpdatedChangesFirstMatchOnly` | dataaccess/repository.go:100-113 | With a present positive identifier, only the first matching record changes. It takes the new description and status and keeps its identifier. The length and all other records are unchanged, and a lookup then finds the new values. |
| `Repository.UpdatedKeepsIdsUnique` | dataaccess/repository.go:108-113 | Update leaves the set of identifiers as it was, so unique identifiers stay unique. |
| `Repository.UpdatedKeepsStatusesValid` | dataaccess/repository.go:110-111 | An update with a valid status keeps every stored status valid. |
| `Repository.DeletedAbsentIsNoOp` | dataaccess/repository.go:123-162 | With an identifier that is not positive or not present, Delete leaves the collection unchanged. |
| `Repository.DeletedIsCut` | dataaccess/repository.go:153-154 | With a present positive identifier, the result is the collection with the first matching record cut out. |
| `Repository.DeletedRemovesFirstMatch` | dataaccess/repository.go:145-157 | With a present positive identifier, exactly the first matching record is removed. The length drops by one and the records before and after it keep their relative order. |
| `Repository.DeletedRemovesOneRecord` | dataaccess/repository.go:154 | The result plus the removed first match is a permutation of the original, so exactly one record goes. |
| `Repository.DeletedKeepsIdsUnique` | dataaccess/repository.go:153-156 | Delete only removes identifiers. Unique identifiers stay unique, and the deleted identifier is then absent. |
| `Repository.DeletedKeepsStatusesValid` | dataaccess/repository.go:154 | Delete keeps every stored status valid. |
| `Repository.DeleteThenCreateExample` | dataaccess/repository.go:47-162 | From `[{1,a,STARTED},{2,b,COMPLETED}]`, deleting 1 leaves `[{2,b,COMPLETED}]`. Creating `c` with `NOT STARTED` then allocates 3, giving `[{2,b,COMPLETED},{3,c,NOT STARTED}]`. |
| `Repository.Store.LoadAll` | dataaccess/repository.go:199-242 | Loading yields the whole stored collection. |
| `Repository.Store.SaveAll` | dataaccess/repository.go:166-195 | Saving replaces the whole stored collection. |
| `Repository.Store.Create` | dataaccess/repository.go:47-74 | The new stored collection is `Created` of the old one. It keeps identifiers unique and keeps statuses valid when the given status is valid. |
| `Repository.Store.Update` | dataaccess/repository.go:78-120 | The new stored collection is `Updated` of the old one. With a non-positive or absent identifier nothing is saved and the store is unchanged. It keeps identifiers unique and keeps statuses valid when the given status is valid. |
| `Repository.Store.Delete` | dataaccess/repository.go:123-162 | The new stored collection is `Deleted` of the old one. With a non-positive or absent identifier nothing is saved and the store is unchanged. It keeps identifiers unique and keeps statuses valid. |

## Left out

- `Utilities.GetNextId`: identifiers are unbounded integers. Go's `int` wraps around at `highCount + 1` when the largest identifier is the maximum 64-bit value. The model does not capture that wrap-around and assumes that identifier never occurs.
- File I/O and JSON: `loadAll`, `saveAll` and `CheckFileExists` are operating-system and `encoding/json` calls. They are replaced by reads and writes of the `todos` field. A missing file (load gives an empty collection) and read, parse and write errors (only logged) are not modelled. Neither is the save format: two-space indentation and a non-atomic rewrite.
- Logging and trace identifiers: every `slog`/`log` call and the `traceID` taken from the context have no effect on the collection, so they are left out.
- `ShowAllRecords` and `ShowPermittedStatuses`: these only build text for the console, so they are left out.
- The HTTP front end (`web/mux.go`): it has handlers, templates, the process-wide mutex and concurrency. It also calls `GetAllRecords` and `GetByID` and expects errors back from `Update` and `Delete`. None of these exist in `dataaccess/repository.go`, so a lookup by identifier is not modelled as an operation. `FirstIndexOf` plays its role in the lemmas.
- The command-line dispatch (`cli/starttodo.go`, `todo.go`): this is flag parsing and choosing the action. The status validation done there before Create and Update becomes the condition on the status-validity clauses of those operations.
- The `constants` package is not part of this model. The three status strings are taken from the test table.
