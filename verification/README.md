# Hotel back-office store, modelled in Dafny

This project models the persistence layer of a single-property hotel back-office
application: the `HotelDatabase` class in `hotel_management_system/database.py`.
The class wraps one SQLite file with five tables:

- equipment faults reported by staff;
- the daily shift roster;
- special guest service requests;
- the daily food menu;
- a fixed list of cocktail recipes.

Each write opens a fresh connection, runs its statements and commits. Each read
runs one SELECT and does not commit. `init_db` runs five CREATE TABLE statements
and commits; then it counts the recipes and, when there are none, inserts the
reference list with `executemany` and commits again.

The model is a pure state machine. A `Store` holds five `Table<T>` values. Each
table is a sequence of rows in rowid order plus the AUTOINCREMENT counter. Every
method of the class is a function from a store to a store (writes) or to rows
(reads). The SQL semantics involved are written out:

- **Text order.** The BINARY collation is modelled as code-point lexicographic
  order (`Collation`). It is proved a total order and equal to a reference
  definition of lexicographic order.
- **`ORDER BY`.** Modelled as an insertion sort (`Sorting`). Contracts state only
  that the result is sorted and is a permutation of the input, because SQL leaves
  the order of tied rows open.
- **`fetchone()`.** Returns the first matching row in rowid order.
- **AUTOINCREMENT.** Ids start at 1. A new row gets the counter, and the counter
  advances past it (`Tables.Insert`).
- **Upsert.** Shifts and menus share one generic "update the date's rows, else
  insert" write (`Dated.Upsert`). The payload it overwrites is exactly the set of
  columns the `UPDATE` statements set.

Modules follow the class's sections:

- `Faults`: fault management.
- `Shifts`: shift roster.
- `Services`: special services.
- `Menus`: daily menu.
- `Cocktails`: seeding in `init_db` and the recipe listing.
- `HotelDatabase`: the writes as an `Op` datatype, with invariants over every
  sequence of writes.
- `Dates`: shows that for `YYYY-MM-DD` text, as the application writes dates,
  text order is calendar order.

The model follows the code where the design description differs from it:

- **Status is free text.** The store validates no status value. The model singles
  out only the two default literals: `"Bekleniyor"` (pending fault) and
  `"Beklemede"` (on-hold service).
- **Date uniqueness is not a schema constraint.** The `shifts` and `menus` tables
  have no UNIQUE constraint on `date`. "One row per date" is an invariant that
  `Store.Valid` carries. It is proved preserved by every sequence of writes
  applied one at a time (`HotelDatabase.Run`), not assumed. The existence check
  and the INSERT are separate statements, so this holds for one running instance
  of the application, not for concurrent writers (see "## Left out").
- **The update writes every row of the date.** `update_shift` and `update_menu`
  run `UPDATE ... WHERE date = ?`, which overwrites every row of that date, not
  just one row. `Dated.Upsert` does the same.

## Model

| member | source | states |
|---|---|---|
| Collation.TextLeIsLexicographic | hotel_management_system/database.py:111 | the text order used by ORDER BY is exactly lexicographic order: a prefix sorts first, otherwise the first differing character decides (both directions) |
| Collation.TextLeTotal | hotel_management_system/database.py:111 | any two texts are comparable under the collation |
| Collation.TextLeTransitive | hotel_management_system/database.py:111 | the collation order is transitive |
| Collation.TextLeAntisymmetric | hotel_management_system/database.py:277 | two texts that sort no later than each other are equal, so distinct names never tie |
| Sorting.SortBy | hotel_management_system/database.py:111 | ORDER BY yields the input rows rearranged (same multiset) in key order, ascending or descending |
| Sorting.SortedDistinctUnique | hotel_management_system/database.py:277 | when no two rows share the sort key, the sorted arrangement is unique |
| Tables.Insert | hotel_management_system/database.py:23 | an INSERT appends one row carrying the given values; its id is larger than every existing id, and the table stays in id order with the counter ahead |
| Tables.ById | hotel_management_system/database.py:153-154 | lookup by id is absent exactly when no row has the id; otherwise it is a stored row with that id, the only one when ids ascend |
| Dated.OnDate | hotel_management_system/database.py:168-169 | lookup by date is absent exactly when no row has the date; otherwise it is the first row of that date, the only one when dates are unique |
| Dated.Upsert | hotel_management_system/database.py:182-195 | rows of other dates are untouched; rows of the date get the new payload and keep their ids; with no row of the date, exactly one row is appended with a fresh id; one-row-per-date and table well-formedness are preserved |
| Dated.UpsertThenRead | hotel_management_system/database.py:182-195 | after an upsert, the read for that date returns the written payload; when the date had at most one row before, it is the only row of the date |
| Dated.UpsertLastWriteWins | hotel_management_system/database.py:186-195 | two upserts for one date leave the same table as the second alone, whether the first updated or inserted |
| Dated.UpsertOtherDate | hotel_management_system/database.py:188-190 | an upsert for one date does not change what is read for any other date |
| Store.EmptyStore | hotel_management_system/database.py:21-70 | a freshly created database has five empty tables, every AUTOINCREMENT counter at 1, and satisfies the store invariant |
| Faults.AddFault | hotel_management_system/database.py:119-130 | appends exactly one fault with the given fields, status defaulting to "Bekleniyor"; earlier rows and other tables are unchanged; the new id exceeds all others; reading by that id returns exactly the new row |
| Faults.UpdateFaultStatus | hotel_management_system/database.py:135-143 | only the status of rows with the id changes; every other field and row, the counter and the other tables are unchanged; an unknown id leaves the store as it was |
| Faults.FaultById | hotel_management_system/database.py:148-156 | absent exactly when no fault has the id; otherwise a stored fault with that id |
| Faults.PendingFaults | hotel_management_system/database.py:93-101 | the rows with status "Bekleniyor", each with its multiplicity and no others, sorted by date descending |
| Faults.AllFaults | hotel_management_system/database.py:106-114 | a permutation of the whole fault table sorted by date descending |
| Faults.UpdatedRows | hotel_management_system/database.py:140 | after a status update every row with the id has the new status, and rows with other ids are exactly the old ones |
| Faults.StatusUpdateLeavesPending | hotel_management_system/database.py:98 | after a status is set away from "Bekleniyor", no row with that id is pending, and every other fault is pending exactly when it was before |
| Faults.StatusUpdateKeepsFault | hotel_management_system/database.py:111 | the updated fault is still in the full list, carrying its new status |
| Faults.FaultListsLatestFirst | hotel_management_system/database.py:98 | with dates written as YYYY-MM-DD, both fault lists run from the latest day to the earliest |
| Dates.IsoDateOrder | hotel_management_system/ui_fault_management.py:86 | for YYYY-MM-DD texts, collation order coincides with calendar order (YYYYMMDD as a number) |
| Dates.DigitsOrder | hotel_management_system/ui_fault_management.py:86 | for digit strings of equal length, text order is numeric order |
| Shifts.TodayShift | hotel_management_system/database.py:162-174 | absent exactly when no shift has the date; otherwise a stored shift for the date, the only one in a valid store |
| Shifts.UpdateShift | hotel_management_system/database.py:176-202 | after the write the date reads back the given roster; the reads for all other dates and the other tables are unchanged; the store invariant, including one row per date, is preserved |
| Shifts.SecondUpdateWins | hotel_management_system/database.py:183-195 | two roster writes for one date amount to the second one alone |
| Services.AddSpecialService | hotel_management_system/database.py:219-233 | appends exactly one request with the given fields, status defaulting to "Beklemede", with an id above all existing ones; other tables are unchanged |
| Services.NewestFirst | hotel_management_system/database.py:211 | the result holds exactly the rows of the day, in strictly descending id order when the stored ids ascend |
| Services.TodaySpecialServices | hotel_management_system/database.py:205-217 | exactly the requests dated today, most recently added first (strictly descending ids) |
| Services.AddedServiceListedFirst | hotel_management_system/database.py:211-227 | in a table whose counter is ahead of every id, a request added for today heads today's list, in front of the earlier list unchanged |
| Services.OtherDayServiceNotListed | hotel_management_system/database.py:211 | in a table whose counter is ahead of every id, a request added for another day leaves today's list unchanged |
| Menus.TodayMenu | hotel_management_system/database.py:236-248 | absent exactly when no menu has the date; otherwise a stored menu for the date, the only one in a valid store |
| Menus.UpdateMenu | hotel_management_system/database.py:250-270 | after the write the date reads back the given menu text; reads for other dates and other tables are unchanged; one menu per date is preserved |
| Menus.SecondUpdateWins | hotel_management_system/database.py:257-263 | two menu writes for one date amount to the second one alone |
| Cocktails.InsertAll | hotel_management_system/database.py:83 | executemany appends the given values in order under consecutive fresh ids and keeps the table well formed |
| Cocktails.InitDb | hotel_management_system/database.py:74-84 | seeds the four reference recipes, in order with consecutive ids, exactly when the recipe table is empty; otherwise the store is unchanged; the other tables are never touched |
| Cocktails.InitIdempotent | hotel_management_system/database.py:75-76 | running init on an initialized store changes nothing |
| Cocktails.CocktailRecipes | hotel_management_system/database.py:272-283 | all recipes, a permutation of the table, sorted by name ascending |
| Cocktails.SeededListing | hotel_management_system/database.py:277 | right after seeding, the listing is Cosmopolitan, Margarita, Mojito, Piña Colada, with their seeded ids |
| HotelDatabase.Apply | hotel_management_system/database.py:119-270 | every write preserves the store invariant; no write other than init changes the recipe table |
| HotelDatabase.Run | hotel_management_system/database.py:33-59 | any sequence of writes preserves the invariant, in particular at most one shift and one menu per date, which the schema does not enforce; once recipes exist, or when no init is among the writes, the recipe table never changes |
| HotelDatabase.Open | hotel_management_system/database.py:6-8 | opening the database leaves at least one recipe and keeps the store valid |
| HotelDatabase.ReachableValid | hotel_management_system/database.py:6-8 | every database built from a new file by opening it and then any sequence of the class's writes has each table in id order with its counter ahead, and at most one shift and one menu per date |
| HotelDatabase.SeededExactlyOnce | hotel_management_system/database.py:75-84 | after opening, no sequence of writes, repeated inits included, changes the recipe table; a new file holds exactly four recipes |
| HotelDatabase.ReportThenResolve | hotel_management_system/database.py:93-143 | on a store without faults, a reported fault is the single pending one; after its status is set away from pending the pending list is empty and the full list holds it with the new status |

## Left out

- Concurrent writers are not modelled. Each write is one atomic step, and writes
  are applied one after another. `update_shift` and `update_menu` run the
  existence SELECT (database.py:183, 257) as a statement of its own before the
  INSERT (:192-195, :263), and the driver opens its transaction only at the
  INSERT. Two instances of the application on one file could therefore both find
  no row and both insert. One row per date (`HotelDatabase.Run`,
  `HotelDatabase.ReachableValid`) assumes a single running instance, as the
  application is single-user.
- The sqlite3 driver is not modelled: connections, cursors, commit and close.
  The `except sqlite3.Error` paths are left out too: the model assumes every
  statement succeeds. In the readers and writers that path logs the error and
  returns `False`, `[]` or `None`; a failed write has committed nothing, so the
  store is unchanged. `init_db` returns nothing on that path, and it has already
  committed the schema before seeding. A failure while seeding therefore leaves
  the tables created but without recipes; in the model that is the store before
  `Cocktails.InitDb`, with an empty recipe table.
- The boolean results of the writers are not modelled. Without driver failures
  they are always `True`. In particular, `update_fault_status` reports success for
  an id no row has; `Faults.UpdateFaultStatus` returns the unchanged store in that
  case.
- `datetime.now()` is not modelled. `get_today_shift`,
  `get_today_special_services` and `get_today_menu` take the date as an explicit
  `today` parameter.
- NULL values are not modelled. The nullable columns are `working_staff`,
  `on_leave` and `cover_color` in `shifts`, and `status` in `special_services`.
  They are modelled as strings. The UI can pass `None` as a cover colour, and that
  case is not covered.
- `CREATE TABLE IF NOT EXISTS` is not modelled: the tables are taken to exist
  with the declared schema. Schema creation on an existing file with a different
  schema is out of scope.
- Column DEFAULT clauses are not modelled. The writers always pass the status
  explicitly, using the Python default arguments, so the defaults never apply.
- SQLite type affinity is not modelled. SQLite would convert a text id such as
  `'3'` to 3 when comparing it with the integer `id` column. The model takes ids as
  integers, which is what every caller passes (ui_fault_management.py:63, 302).
- The AUTOINCREMENT limit is not modelled. The rowid maximum of 2^63-1, where
  SQLite reports "database or disk is full", is ignored: ids are unbounded
  integers.
- Double-quoted literals are not modelled. `get_pending_faults` writes the
  status literal in double quotes. SQLite reads that as an identifier and falls
  back to a string literal only because no such column exists. A build that
  disables that fallback would turn the query into a driver error. The model
  takes the literal reading.
- `print` logging is not modelled.
- The PyQt UI is not modelled (`main.py`, `ui_fault_management.py`,
  `ui_fb_menu.py`). Neither are the UI's non-empty input checks before
  `add_fault`, `add_special_service` and `update_menu`. The store accepts any text.
- The launcher `run_hotel_system.py` (environment checks, pip, subprocess) is
  not part of this model. Neither is the print-only script `test_database.py`.
