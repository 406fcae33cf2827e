# Plan-a-picnic store, modelled in Dafny

This project models the persistence core of the plan-a-picnic backend
(`models/picnic.go`). That core is a small SQLite database with five tables:
`users` (UNIQUE `name`), `picnics`, `food_items`, the link table
`users_picnics`, and `contributions`. It also holds the repository functions
that each run one SQL statement against the database: create, read, update
and delete by id, and two inner joins through the link table.

The database is a class, `PicnicStore.Store`. It has:

- one sequence of rows per table, in storage (rowid) order;
- per table, the largest id AUTOINCREMENT has issued so far (SQLite keeps it
  in `sqlite_sequence`);
- per table, a ghost set of every id ever issued.

Each repository function is a method. Its effect comes from the SQL text and
the schema:

- `INSERT` appends a row whose id is one past the largest ever issued.
- `UPDATE … WHERE id = ?` overwrites the mutable columns of the row with that id.
- `DELETE … WHERE id = ?` removes that row.
- A point query returns the row, or the zero-valued record with no error.
- The get-all functions and the joins build their result in a loop, as the
  `for rows.Next()` loops do.

The store invariant `Store.Valid` says that ids strictly ascend in storage
order and lie between 1 and the counter, and that user names are distinct.
Every method preserves it.

Files:

- `records.dfy`: the row records, their zero values and the storage error.
- `tables.dfy`: a table as a sequence of rows, and what key-based SELECT,
  UPDATE and DELETE do to it. It holds the lemmas about point queries after
  an insert, an update and a delete.
- `queries.dfy`: the two inner joins, the (user, picnic) lookup of a
  contribution, and the UNIQUE name constraint, with their lemmas.
- `store.dfy`: the `Store` class and one method per repository function.
- `sessions.dfy`: short client sessions on a fresh database, proved from the
  method contracts alone: ids start at 1, a duplicate name is refused, linking a
  stored user to a stored picnic shows on both sides of the join, a deleted picnic drops out of the user's
  join, and a contribution is found again by its pair.

Modelling choices:

- Row order. The SELECTs have no ORDER BY. The model fixes storage order for
  full scans. For the joins it walks the link rows in storage order. When
  several rows match a single-row query, it returns the first in storage order.
  The contracts of the single-row queries promise only "a matching row".
  SQLite is free to pick another order. For `users` it may well answer
  `SELECT id, name FROM users` from an index on `name` (the UNIQUE autoindex or
  `index_users_on_name`), which lists users in name order, not id order.
- Errors. Each function returns `(ok, err)` or `(record, err)`. `err` is an
  `Option<DbError>`. The only error the model raises is
  `UniqueConstraintFailed("users.name")`, SQLite's UNIQUE violation.
- `UpdateUser` violates UNIQUE only when a row with that id exists AND a
  different row already holds the new name. Renaming a missing id to a taken
  name therefore reports success and changes nothing. Renaming a user to
  their own name succeeds.
- Foreign keys are declared but not enforced (SQLite's default). So
  `AddUserToPicnic` and `CreateContribution` store any ids, and deletes do not
  cascade.

Facts about the code that the model keeps:

- The schema has five tables.
- Names, locations and dates are only NOT NULL, so an empty string is stored
  like any other.
- The (user, picnic) lookup is its own repository function. The HTTP
  handler's call of it with one id twice is not modelled.

## Model

| member | source | states |
|---|---|---|
| `PicnicStore.Store.Valid` | models/picnic.go:14-15 | the store invariant: in every table ids strictly ascend and lie in 1..counter, every issued id is at most the counter, and user names are distinct |
| `PicnicStore.Store.ValidFacts` | models/picnic.go:14-15 | under the invariant a name identifies at most one user, and the id AUTOINCREMENT issues next is held by no row of its table |
| `PicnicStore.Store.constructor` | models/picnic.go:11-59 | a fresh database: the five tables are empty, no id has been issued, and the store invariant holds |
| `PicnicStore.Store.CreatePicnic` | models/picnic.go:165-188 | appends one row with the supplied name, location and date and with id = counter + 1, which is greater than every id ever issued; the caller's id is ignored; the result is (true, nil); afterwards a lookup of the new id returns that row and every other id reads as before |
| `PicnicStore.Store.GetPicnicById` | models/picnic.go:116-135 | returns the stored row with that id and a nil error; when no row has that id it returns the zero Picnic, still with a nil error; under the invariant the result is the zero Picnic exactly when the id is absent |
| `PicnicStore.Store.GetPicnics` | models/picnic.go:137-163 | the loop returns every row of `picnics` in storage order, and the empty sequence (not nil) when the table is empty |
| `PicnicStore.Store.UpdatePicnic` | models/picnic.go:190-214 | overwrites name, location and date of the row with that id and keeps its id; all other rows stay unchanged; an absent id changes nothing; the result is (true, nil) either way |
| `PicnicStore.Store.DeletePicnic` | models/picnic.go:216-241 | removes exactly the row with that id and returns (true, nil) even when none matched; `users_picnics` and `contributions` are left untouched (no cascade); afterwards a lookup of that id returns the zero Picnic |
| `PicnicStore.Store.CreateUser` | models/picnic.go:243-266 | succeeds exactly when no user has that name; on success it appends (counter + 1, name); on failure it returns (false, UNIQUE error) and leaves the table, the counter and the issued ids unchanged |
| `PicnicStore.Store.GetUserById` | models/picnic.go:268-287 | the stored user with that id, or the zero User with a nil error when absent; the result is zero exactly when the id is absent |
| `PicnicStore.Store.GetUsers` | models/picnic.go:289-315 | the loop returns every row of `users` in storage order, and the empty sequence when the table is empty |
| `PicnicStore.Store.UpdateUser` | models/picnic.go:317-341 | fails with the UNIQUE error, changing nothing, exactly when the id exists and a different user holds the new name; otherwise it renames that row, keeping its id and leaving the other rows as they were; an absent id still reports true |
| `PicnicStore.Store.AddUserToPicnic` | models/picnic.go:343-366 | appends a link row (counter + 1, user, picnic) with no existence check and no duplicate check, and returns (true, nil) |
| `PicnicStore.Store.GetUsersByPicnic` | models/picnic.go:368-392 | the loop over the link rows returns exactly the inner join `UsersOfPicnic` of the link table and `users` for that picnic id |
| `PicnicStore.Store.GetPicnicsByUser` | models/picnic.go:394-416 | the loop over the link rows returns exactly the inner join `PicnicsOfUser` of the link table and `picnics` for that user id |
| `PicnicStore.Store.CreateFoodItem` | models/picnic.go:418-442 | appends one row with the supplied name, url and measure and a fresh id greater than every id ever issued; afterwards a lookup of that id returns the row; the result is (true, nil) |
| `PicnicStore.Store.GetFoodItemById` | models/picnic.go:444-463 | the stored food item with that id, or the zero FoodItem with a nil error when absent; the result is zero exactly when the id is absent |
| `PicnicStore.Store.GetFoodItems` | models/picnic.go:465-494 | the loop returns every row of `food_items` in storage order, and the empty sequence when the table is empty |
| `PicnicStore.Store.UpdateFoodItem` | models/picnic.go:496-520 | overwrites name, measure and url of the row with that id and keeps its id; all other rows stay unchanged; an absent id changes nothing; the result is (true, nil) |
| `PicnicStore.Store.CreateContribution` | models/picnic.go:522-544 | appends (counter + 1, user, picnic, food item, quantity) with no check on the referenced ids or on the quantity; the id is greater than every id ever issued |
| `PicnicStore.Store.GetContributionsOfUserToPicnic` | models/picnic.go:546-566 | returns a stored contribution whose user_id and picnic_id equal the arguments when one exists, and otherwise the zero Contribution with a nil error; under the invariant (stored ids are at least 1) the result is the zero Contribution exactly when no row matches |
| `PicnicStore.Store.GetContributions` | models/picnic.go:568-593 | the loop returns every row of `contributions` in storage order, and the empty sequence when the table is empty |
| `PicnicStore.Store.UpdateContribution` | models/picnic.go:595-619 | overwrites user_id, picnic_id, food_item_id and quantity of the row with that id and keeps its id; all other rows stay unchanged; an absent id changes nothing; the result is (true, nil) |
| `PicnicStore.Store.DeleteContribution` | models/picnic.go:621-646 | removes exactly the row with that id, returns (true, nil) even when none matched, and afterwards a lookup of that id returns the zero Contribution |
| `Tables.WithKey` | models/picnic.go:118 | `WHERE id = ?` selects exactly the rows whose key is that id, and nothing else |
| `Tables.WithoutKey` | models/picnic.go:224 | `DELETE … WHERE id = ?` keeps exactly the rows whose key differs from that id |
| `Tables.Overwrite` | models/picnic.go:197 | `UPDATE … WHERE id = ?` keeps the table's length; its rows are the new row and the old rows whose key differs from the id; every old row with another key stays; the new row is present whenever some row had the id |
| `Tables.Lookup` | models/picnic.go:126-134 | a point query returns a stored row with that key when there is one, and the zero value (sql.ErrNoRows mapped to no error) otherwise |
| `Tables.AscendingKeyUnique` | models/picnic.go:14 | under the AUTOINCREMENT invariant the primary key identifies a row: two rows with one key are the same row |
| `Tables.NoKeyNoRows` | models/picnic.go:128-130 | a key no row has selects no row, which is the sql.ErrNoRows case |
| `Tables.WithKeyOfRow` | models/picnic.go:14 | under unique keys, selecting by a stored row's key yields exactly that row once |
| `Tables.AppendFresh` | models/picnic.go:179 | the id counter + 1 is held by no row, and appending the row keyed by it keeps the table keyed up to the new counter |
| `Tables.LookupAfterAppend` | models/picnic.go:179 | after an insert, a get-by-id of the new id returns the inserted row, and every other id reads as before |
| `Tables.WithoutKeyKeyed` | models/picnic.go:232 | deleting by id keeps the keys ascending and within the counter, so ids stay unique and below the counter |
| `Tables.WithoutAbsentKey` | models/picnic.go:232 | deleting an id no row has leaves the table unchanged |
| `Tables.LookupAfterDelete` | models/picnic.go:224-232 | after a delete, a lookup of the deleted id finds nothing, and every other id reads as before |
| `Tables.OverwriteKeyed` | models/picnic.go:197-205 | an update by id keeps every row's key in place, so the table stays keyed |
| `Tables.OverwriteAbsent` | models/picnic.go:205 | an update of an id no row has changes nothing |
| `Tables.LookupAfterOverwrite` | models/picnic.go:197-205 | after an update, a lookup of the updated id returns the new row when that id existed, and every other id reads as before |
| `Tables.WithKeyWithoutKey` | models/picnic.go:224 | a selection on one id and a deletion of another commute |
| `Queries.UsersOfPicnic` | models/picnic.go:370 | the join holds a user exactly when some link row pairs that user's id with the picnic; a link whose user does not exist contributes nothing |
| `Queries.PicnicsOfUser` | models/picnic.go:395 | the join holds a picnic exactly when some link row pairs that picnic's id with the user; a link whose picnic does not exist contributes nothing |
| `Queries.FirstContribution` | models/picnic.go:548-564 | returns a row with the given user_id and picnic_id when one exists, and the zero Contribution otherwise |
| `Queries.UsersOfPicnicAddLink` | models/picnic.go:349-357 | one more link row (u, p) appends to `UsersOfPicnic(p)` exactly the users with id u, and leaves every other picnic's list unchanged |
| `Queries.PicnicsOfUserAddLink` | models/picnic.go:349-357 | one more link row (u, p) appends to `PicnicsOfUser(u)` exactly the picnics with id p, and leaves every other user's list unchanged |
| `Queries.PicnicsOfUserMultiplicity` | models/picnic.go:395 | with unique picnic ids, an existing picnic appears in the user's join once per link row pairing the user with it |
| `Queries.DuplicateLinkListedTwice` | models/picnic.go:343-370 | linking an existing user to a picnic twice makes the join list that user twice more |
| `Queries.UsersOfPicnicMultiplicity` | models/picnic.go:370 | with unique user ids, an existing user appears in the join once per link row pairing it with the picnic |
| `Queries.DanglingLinkDropped` | models/picnic.go:395 | a link row whose picnic does not exist leaves the user's picnic list unchanged |
| `Queries.PicnicsOfUserAfterDelete` | models/picnic.go:216-241 | deleting a picnic, without touching the link table, removes exactly that picnic from every user's join result |
| `Queries.UsersOfPicnicAppend` | models/picnic.go:370 | the users join over a concatenation of link tables is the concatenation of the two joins |
| `Queries.PicnicsOfUserAppend` | models/picnic.go:395 | the picnics join over a concatenation of link tables is the concatenation of the two joins |
| `Queries.NameTaken` | models/picnic.go:15 | the definition of the UNIQUE test for an INSERT: some stored user holds the name (equivalently, at some position); `CreateUser` succeeds exactly when it fails |
| `Queries.NameHeldByOther` | models/picnic.go:324 | some user other than row `id` holds the name; this implies `NameTaken`, and equals it when no row has that id; `UpdateUser` fails exactly when, in addition, row `id` exists |
| `Queries.AppendKeepsNamesUnique` | models/picnic.go:15 | inserting a name nobody holds keeps user names distinct |
| `Queries.RenameKeepsNamesUnique` | models/picnic.go:324-332 | a rename that passes the UNIQUE check keeps user names distinct |

## Left out

- `ConnectDatabase` and `createTables` (opening `./models/data.db` and running the DDL, ending in `log.Fatal`): the model starts from the constructor's empty tables. The `index_users_on_name` index is not modelled: it never changes which users a query returns, only possibly their order (see Row order above).
- Transactions: Begin, Commit, the ignored result of `tx.Commit()`, and the delete statements prepared on the connection rather than the transaction. Each method is one atomic step.
- CreateUser, UpdateUser: on the UNIQUE failure (models/picnic.go:257-261 and 332-336) the program returns without committing or rolling back `tx`. That transaction, its write lock and its connection stay held. Every later write would then wait out the driver's busy timeout and fail with "database is locked". The model instead returns the store to its normal state after the failure, so a later create or update succeeds there.
- Concurrency: write serialisation is SQLite's and is not modelled.
- Generic driver failures (Begin, Prepare, Exec, Scan, `rows.Err`) are not modelled. This includes the nil slice the joins return when the query fails. Every method reports `err == None`, except for the UNIQUE violation.
- The `created_at` and `updated_at` columns and their `CURRENT_TIMESTAMP` defaults are clock-dependent and not modelled. So is the `date` default, which never applies because the insert always supplies a date.
- The `fmt.Printf` logging in the food-item functions is left out.
- Integers are unbounded. SQLite's 64-bit rowid limit (the SQLITE_FULL error once the largest id is reached) and Go's 64-bit `int` are not modelled.
- GetPicnicById, GetPicnics, GetPicnicsByUser, CreatePicnic, UpdatePicnic: the driver's read-side conversion of the `date` DATETIME column (models/picnic.go:26) is not modelled. The go-sqlite3 driver reads a TEXT value in a DATETIME column as a `time.Time`, and scanning that into a string formats it as RFC 3339. So a stored `"2024-07-01"` reads back as `"2024-07-01T00:00:00Z"`, and a string the driver cannot parse reads back as the zero time. The model returns the stored string unchanged. The date round-trips promised by `CreatePicnic` and `UpdatePicnic`, and the date asserted in `sessions.dfy`, therefore hold in the model only. SQLite's NUMERIC affinity on that column, which would store a numeric-looking date as a number, is not modelled either.
- The HTTP adapter (`main.go`) and the template loader (`templates.go`) are not part of this model.

