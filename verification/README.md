# python-sqlite-orm, modelled in Dafny

A model of the small active-record mapper over SQLite in
fernandojunior/python-sqlite-orm. Three files hold the same design, and
all three are modelled:

- `orm.py`, the published module. It has `cut_attrs` and the `Database`
  handle, which opens its connection on first use and caches it. It has the
  `Manager` with `all`, `get`, `has`, `save`, `update` and `delete`, plus a
  table check at construction. It has the `Model` facade: `public`, `save`,
  `update`, `delete` and `manager`.
- `gistfile1.py`, the earlier form. Its `DatabaseConnection` has the same
  lazily opened, cached connection as `Database`. Its `Manager` differs only
  in the filter that `save` and `update` apply: `k is not 'id'` instead of
  `cut_attrs(obj, 'id')`. The file has no `import sqlite3`; the model
  supplies it (see "## Left out").
- `simpy_db.py`, another variant. Its `DatabaseConnection` reconnects
  lazily only in `execute`/`executescript`. Its `BaseManager` counts rather
  than fetches, lists newest first, and has `save` return the rowid with no
  duplicate check.

The store is abstract (module `Sqlite`):

- A database file is a map from table names to tables. Each table has its
  declared columns, its rows by rowid, and the AUTOINCREMENT counter.
- A statement (`Stmt`) is one of the texts the mappers send. `Render` gives
  its text, `Params` its bound values and `Exec` its effect and answer.
- A `Connection` sees the file as of its last commit, plus its own pending
  writes. `close` discards the pending writes.

The manager operations are written once as pure functions in `Crud`. The
classes `Orm.Database`/`Orm.Manager` and
`SimpyDb.DatabaseConnection`/`SimpyDb.BaseManager` change state in place,
and every method is proved to follow those functions. The properties are
lemmas over the functions: the duplicate guard, fresh ids that are never
reused, the `save`-then-`get` round trip, updates and deletes that touch
only the addressed row, and placeholder counts that match the bound values.

`Walkthrough` replays the scenario of `tests.py` on a new file, with the
database passed to `Post.manager(db)` honoured:

- the first post gets id 1;
- it reads back, and after `update` it holds the new text;
- after a committed delete, the next post gets id 2;
- since that save was never committed, `all()` after `close` is empty.

Points of the code the model keeps as they are:

- `cut_attrs(obj, 'id')` filters by substring only. So orm.py's `save` and
  `update` also write attributes whose names start with an underscore,
  which `public` leaves out.
- No schema is derived from field types, and no value is type-checked. The
  schema is the class's own script, abstracted as `Schema`: the table and
  its columns.
- A missing row in `get` raises ValueError in orm.py and gistfile1.py, and
  IndexError in simpy_db.py.

## Model

| member | source | states |
|---|---|---|
| `Values.Lookup` | orm.py:83 | `getattr(obj, name)`: None exactly when no attribute has the name; otherwise the value stored under it |
| `Values.Assign` | orm.py:92 | `obj.id = ...`: an existing attribute keeps its place and the others are unchanged; a new one is appended; the name then holds the value |
| `Filters.Where` | orm.py:12 | a dict comprehension filter keeps exactly the pairs whose name passes, with their values; no longer than the input; keeps names unique |
| `Filters.CutAttrsCons` | orm.py:11-12 | `cut_attrs` decides attribute by attribute, in dictionary order |
| `Filters.SubstringsOfId` | orm.py:86 | `x in 'id'` holds exactly for "", "i", "d" and "id" |
| `Filters.CutIdDropsSubstrings` | orm.py:11-12 | `cut_attrs(obj, 'id')` keeps a pair exactly when its name is none of "", "i", "d", "id" |
| `Filters.CutIdKeepsOthers` | orm.py:86 | with no such name among the attributes, `cut_attrs(obj, 'id')` returns the attributes unchanged, in order (by induction) |
| `Filters.CutIdVersusDropId` | gistfile1.py:75 | the substring filter keeps a subset of what `k is not 'id'` keeps; both are equal iff no name is "", "i" or "d" |
| `Filters.Public` | orm.py:125-127 | `public`: IndexError iff some name is empty; otherwise exactly the pairs whose name does not start with '_' |
| `Filters.PublicIsIdempotent` | orm.py:125-127 | taking `public` of the public view changes nothing |
| `Sql.Marks` | orm.py:88 | `'?' for i in range(n)` yields n items, each "?" |
| `Sql.CountJoin` | orm.py:87 | a joined list holds the parts' occurrences plus one separator's worth per gap |
| `Sql.RefListShape` | orm.py:88 | `(?, ?, ...)` for n values has n placeholders and n - 1 commas |
| `Sql.ColumnListMatchesRefList` | orm.py:87-88 | for names free of ',' and '?', the column list has no placeholder and exactly as many commas as the value list: both have one item per attribute |
| `Sql.SetClausePlaceholders` | orm.py:97 | the `SET` text has one placeholder per column (one when there is none) |
| `Sql.SetClauseIsAssignments` | orm.py:97 | `'= ?, '.join(keys) + '= ?'` is the comma-separated list of one `k= ?` per column, in order (by induction) |
| `Sqlite.CreateTable` | orm.py:108-109 | the schema script leaves its table present and empty with the declared columns, and other tables as they were |
| `Sqlite.RowAttrs` | orm.py:61 | a fetched row: `id` first, then every declared column with its value, NULL where none is stored |
| `Sqlite.Ascending` | orm.py:60 | the full scan visits exactly the stored rowids, each once, smallest first |
| `Sqlite.Descending` | simpy_db.py:85 | `order by id desc` visits exactly the stored rowids, largest first |
| `Sqlite.Zip` | orm.py:90-91 | binding the values to the columns names exactly the given columns |
| `Sqlite.NewRow` | orm.py:90-91 | an inserted row has exactly the table's declared columns |
| `Sqlite.Exec` | orm.py:41-42 | a statement is accepted iff it names an existing table and existing columns (at least one for an insert or update) and binds one value per placeholder; otherwise OperationalError when it does not prepare, ProgrammingError when only the bindings are wrong; reads change nothing |
| `Sqlite.Apply` | orm.py:42 | the effect of an accepted statement: reads leave the tables as they were |
| `Sqlite.ExecGrows` | orm.py:91 | no statement drops a table or a column or winds a rowid counter back, and every accepted statement keeps rows within their table's columns and counter |
| `Sqlite.InsertGrows` | orm.py:90-91 | the same for an insert |
| `Sqlite.UpdateGrows` | orm.py:99-100 | the same for an update |
| `Sqlite.InsertOutcome` | orm.py:91-92 | an accepted insert answers with the tables holding the new row and, as `lastrowid`, the counter's next value |
| `Sqlite.UpdateOutcome` | orm.py:100 | an accepted update answers with the updated tables |
| `Sqlite.Rewritten` | orm.py:99-100 | `UPDATE ... WHERE id = ?`: the addressed row, if stored, takes the new values over its old ones; other rows, rowids, columns and counter stay; with no such row the table is unchanged |
| `Sqlite.ZipAt` | orm.py:89-91 | with distinct names, the i-th column is bound to the i-th value (by induction) |
| `Sqlite.InsertAssignsNextId` | orm.py:91-92 | an insert takes the counter's next value, which no row holds and which exceeds every stored rowid; it adds that row only and keeps other rows and tables |
| `Sqlite.InsertStoresGivenValues` | orm.py:89-91 | the new row holds each given value under its column and NULL under every other declared column |
| `Sqlite.UpdateKeepsShape` | orm.py:95-100 | an update keeps other tables, the columns, the counter and the rowids; with no row at the id it changes nothing |
| `Sqlite.UpdateChangesOnlyAddressedRow` | orm.py:99-100 | an update changes no row but the addressed one, and that one only in the assigned columns |
| `Sqlite.UpdateStoresGivenValues` | orm.py:98-100 | with distinct columns the addressed row holds the i-th value under the i-th column |
| `Sqlite.DeleteRemovesOnlyAddressedRow` | orm.py:63-65 | delete is accepted iff the table exists; it removes the addressed row if any, and nothing else; the row is then absent |
| `Sqlite.ScanListsEveryRow` | orm.py:59-61 | the full scan lists every stored row, each exactly as `select *` gives it, ordered by rowid ascending, or descending with `order by id desc` |
| `Sqlite.RunAllGrows` | tests.py:31-34 | any sequence of statements keeps tables and columns and never winds a counter back (by induction) |
| `Sqlite.IdsNeverReused` | tests.py:32-34 | whatever statements run between, deletes of that very row included, a later insert into the same table gets a larger rowid than an earlier one; a schema script is not a statement here, since it recreates the table and restarts the counter |
| `Sqlite.RenderPlaceholders` | orm.py:59-100 | for names without '?', every statement a manager sends has exactly as many placeholders as the store expects bindings |
| `Sqlite.ScanPlaceholders` | orm.py:60 | the full scan has no placeholder |
| `Sqlite.KeyedPlaceholders` | orm.py:63-80 | `get`, `has` and `delete` statements have exactly one placeholder, the id's |
| `Sqlite.InsertPlaceholders` | orm.py:87-90 | the insert has one placeholder per kept attribute |
| `Sqlite.UpdatePlaceholders` | orm.py:97-99 | the update has one placeholder per kept attribute plus one for the id |
| `Sqlite.ColumnListPlaceholders` | orm.py:87 | the column list of an insert has no placeholder |
| `Sqlite.Connection.Open` | orm.py:28 | `sqlite3.connect`: open, seeing the file as committed |
| `Sqlite.Connection.Execute` | orm.py:42 | runs the statement on its view while open; ProgrammingError once closed |
| `Sqlite.Connection.ExecuteScript` | orm.py:45 | while open: ProgrammingError when closed; a malformed script fails with OperationalError; otherwise the table is created; either way what was pending is committed |
| `Sqlite.Connection.Commit` | orm.py:39 | makes the view durable; ProgrammingError once closed |
| `Sqlite.Connection.Close` | orm.py:35 | closes; later statements and commits fail, so writes not yet committed never reach the file |
| `Crud.TableName` | orm.py:53 | `__name__.lower()`: same length, no capital left, every other character kept |
| `Crud.TableNameIgnoresCase` | orm.py:53 | names that differ only in case share a table; lowering is idempotent |
| `Crud.Persisted` | orm.py:86 | what `save`/`update` write: never "id", only pairs of the object; the exact filter keeps every other pair; names stay unique |
| `Crud.InsertStatementShape` | orm.py:86-91 | the insert binds the i-th value to the i-th column; its column list and value list have as many items as there are kept attributes, and its placeholders number the same |
| `Crud.UpdateStatementShape` | orm.py:96-100 | the update binds the values in attribute order and then `obj.id`; its text is one `k= ?` per attribute, plus one placeholder for the id |
| `Crud.HasTable` | orm.py:102-106 | the catalog lookup finds a row iff the table exists |
| `Crud.CountsTable` | simpy_db.py:74-81 | the catalog count is positive iff the table exists |
| `Crud.ConstructionIsIdempotent` | orm.py:50-57 | when the script creates the checked table, one construction leaves it present, an existing table untouched, and a second construction changes nothing |
| `Crud.MismatchedSchemaRerunsScript` | orm.py:55-57 | when the script creates a different table, the check still does not find the manager's table, and the script's table is left empty: every construction runs the script again |
| `Crud.Scan` | orm.py:59-61 | `all()` fails with OperationalError iff the table is missing |
| `Crud.Find` | orm.py:67-75 | `get(id)`: the row with that id, `id` first; ValueError iff no row matches; OperationalError without the table |
| `Crud.FirstRow` | simpy_db.py:92-95 | `get(id)` in simpy_db.py: the same row; IndexError iff no row matches |
| `Crud.Contains` | orm.py:77-80 | `has(id)` is true iff a row has that id, and raises only without the table |
| `Crud.Counts` | simpy_db.py:97-104 | `has(id)` by count: true iff a row has that id |
| `Crud.InsertRow` | orm.py:87-91 | the insert is accepted iff the table exists, some attribute is kept, and every kept one is a column; then its answer is the new tables and the next rowid |
| `Crud.SaveRow` | orm.py:82-93 | a successful `save` is exactly the insert of the persisted attributes |
| `Crud.UpdateRow` | orm.py:95-100 | AttributeError without `obj.id`; otherwise, when accepted, the tables after the update with the kept values then `obj.id` |
| `Crud.DeleteRow` | orm.py:63-65 | `delete` fails iff the table is missing |
| `Crud.SaveRejectsExactlyDuplicates` | orm.py:83-85 | `save` raises the duplicate error iff `obj.id` is truthy and a row with it exists |
| `Crud.SaveWithFalsyIdInserts` | orm.py:83 | a falsy id skips `has`: `save` is the insert |
| `Crud.SaveAssignsFreshId` | orm.py:90-92 | a successful `save` returns the counter's next value as id, which no row had and which exceeds every rowid; it adds that one row, keeps other rows and tables, and keeps every table well formed |
| `Crud.SaveThenFind` | orm.py:82-93 | round trip: after `save`, `get` of the new id succeeds, shows that id first, holds every persisted attribute with its value, and after the id holds nothing else but NULL under columns the object did not set |
| `Crud.FoundOnlyKept` | orm.py:67-75 | `get` on a row holding the attributes and NULL elsewhere returns, after the id, only those attributes and NULLs |
| `Crud.InsertedFound` | orm.py:67-75 | `get` on a row storing each attribute under its name returns them all after the id |
| `Crud.UpdateChangesOnlyThatRow` | orm.py:95-100 | `update` keeps other tables and rows, rowids and counter; the addressed row gets every persisted value; with no such row nothing changes |
| `Crud.UpdateSends` | orm.py:95-100 | an accepted `update` is its one statement applied to the tables |
| `Crud.DeleteThenFindFails` | orm.py:63-75 | `delete` removes exactly the addressed row and nothing else, and `get` on it then raises ValueError |
| `Crud.VariantsAgreeOnLookups` | simpy_db.py:92-104 | simpy_db.py's `has` equals orm.py's; their `get` agree on found rows, and one raises ValueError exactly when the other raises IndexError |
| `Orm.Database.constructor` | orm.py:17-20 | `Database(path)`: not connected, nothing opened |
| `Orm.Database.GetConnection` | orm.py:23-31 | the `connection` property: the cached handle while connected, otherwise a fresh one that is cached; what the next statement sees is unchanged |
| `Orm.Database.Close` | orm.py:33-36 | closes the cached handle if connected; afterwards not connected, the file unchanged, and pending writes are gone from view |
| `Orm.Database.Commit` | orm.py:38-39 | connects if need be and makes what is seen durable |
| `Orm.Database.Execute` | orm.py:41-42 | connects if need be and runs the statement on what is seen; the file is untouched |
| `Orm.Database.ExecuteScript` | orm.py:44-45 | connects if need be; the script creates its table and everything is committed |
| `Orm.Manager.constructor` | orm.py:50-53 | the manager's database, class, filter and lowercased table name |
| `Orm.Manager.Prepare` | orm.py:55-57 | runs the schema script and commits only when the catalog lookup finds no table; the result is `EnsureTable` |
| `Orm.Manager.All` | orm.py:59-61 | `all()` is the full scan, rowid ascending; nothing changes |
| `Orm.Manager.Get` | orm.py:67-75 | `get(id)` is `Find`; nothing changes |
| `Orm.Manager.Has` | orm.py:77-80 | `has(id)` is `Contains`; nothing changes |
| `Orm.Manager.Save` | orm.py:82-93 | follows `SaveRow`: on error `obj` and the tables are unchanged; on success the tables are the insert's and `obj.id` is the new rowid, and the same object is returned |
| `Orm.Manager.Update` | orm.py:95-100 | follows `UpdateRow` |
| `Orm.Manager.Delete` | orm.py:63-65 | follows `DeleteRow` for `obj.id`; `obj` is not modified |
| `Orm.NewManager` | orm.py:50-57 | `Manager(db, cls)` as a whole: fails only when the table is missing and the script is malformed; otherwise a new manager, with the table ensured |
| `Orm.Binding` | orm.py:134 | `db if db else cls.db`: the argument when given, else the class's database |
| `Orm.ManagerIgnoresItsArgument` | orm.py:132-135 | the database used as written differs from the intended one exactly when a database is passed for a class bound to another or to none; for a direct `Model` subclass the manager gets None |
| `Orm.ModelManagerAsWritten` | orm.py:132-135 | `Model.manager(db)` as written: over `cls.db`; AttributeError when that is None |
| `Orm.ModelManager` | orm.py:132-135 | `Model.manager(db)` with the argument honoured: a manager over that database, or over the class's when none is passed |
| `Orm.SaveModel` | orm.py:119-120 | `obj.save()`: the table check, then `SaveRow` on the resulting tables, with `obj.id` set on success |
| `Orm.UpdateModel` | orm.py:122-123 | `obj.update()`: the table check, then `UpdateRow` |
| `Orm.DeleteModel` | orm.py:116-117 | `obj.delete()`: the table check, then `DeleteRow` for `obj.id` |
| `Gist.Objects` | gistfile1.py:109-111 | `Model.objects(db)`: a manager over `db` with the exact "id" filter; the schema script runs only when the table is missing |
| `Gist.FiltersCompared` | gistfile1.py:75 | gistfile1.py writes a superset of what orm.py writes; they differ exactly on attributes named "", "i" or "d" |
| `Gist.SameInsertUnlessShortNames` | gistfile1.py:69-90 | without such names both mappers' `save` and `update` have the same outcome |
| `SimpyDb.DatabaseConnection.constructor` | simpy_db.py:35-38 | no connection yet, not connected |
| `SimpyDb.DatabaseConnection.Connect` | simpy_db.py:40-43 | always a new connection, seeing the committed file; any previous pending writes are dropped |
| `SimpyDb.DatabaseConnection.Execute` | simpy_db.py:45-48 | connects if not connected, then runs the statement on what is seen |
| `SimpyDb.DatabaseConnection.ExecuteScript` | simpy_db.py:50-53 | connects if not connected, then runs and commits the script |
| `SimpyDb.DatabaseConnection.Commit` | simpy_db.py:55-56 | no reconnect: AttributeError before any connection, ProgrammingError after `close`; otherwise makes what is seen durable |
| `SimpyDb.DatabaseConnection.Close` | simpy_db.py:58-61 | AttributeError before any connection; otherwise closes; the file unchanged and pending writes lost |
| `SimpyDb.BaseManager.constructor` | simpy_db.py:65-68 | the manager's connection, class and lowercased table name |
| `SimpyDb.BaseManager.Prepare` | simpy_db.py:70-81 | runs the schema script and commits only when the catalog count is 0 |
| `SimpyDb.BaseManager.All` | simpy_db.py:83-90 | the loop appends every fetched row in order, so `all()` is the newest-first scan |
| `SimpyDb.BaseManager.Get` | simpy_db.py:92-95 | `get(id)` is `FirstRow` |
| `SimpyDb.BaseManager.Has` | simpy_db.py:97-104 | `has(id)` is `Counts` |
| `SimpyDb.BaseManager.Save` | simpy_db.py:106-124 | no duplicate check: the insert of every attribute but "id", returning the new rowid; `obj` is not modified |
| `SimpyDb.BaseManager.Update` | simpy_db.py:126-139 | follows `UpdateRow` with the exact "id" filter |
| `SimpyDb.BaseManager.Delete` | simpy_db.py:141-143 | follows `DeleteRow` for the bare id |
| `SimpyDb.Objects` | simpy_db.py:154-156 | `objects(db)`: a new manager, the table ensured |
| `SimpyDb.SaveStoresDuplicates` | simpy_db.py:106-124 | an object whose truthy id is stored is refused by gistfile1.py's `save`, but simpy_db.py stores it again under a new, different id, and the old row stays |
| `SimpyDb.AllIsNewestFirst` | simpy_db.py:83-90 | `all()` lists every stored row, each with its id first and equal to what `get` returns for that id, strictly newest first |
| `SimpyDb.GetReturnsRow` | simpy_db.py:92-95 | `get` on a stored id returns that row |
| `Walkthrough.PostClassTable` | tests.py:3-22 | `Post` maps to table `post`, and its schema creates it empty with `title` and `text` |
| `Walkthrough.PersistsBoth` | tests.py:5-8 | a post's persisted attributes are title then text |
| `Walkthrough.SaveIsInsert` | tests.py:26 | a new post's id is None, so `save` is the insert |
| `Walkthrough.SavesRow` | tests.py:26 | saving stores the row under the counter's next value and returns it |
| `Walkthrough.FindsRow` | tests.py:27 | `get` on a stored row returns its id and both columns |
| `Walkthrough.UpdatesRow` | tests.py:28-29 | `update` rewrites both columns of the post's row and nothing else |
| `Walkthrough.DeletesRow` | tests.py:32 | `delete` removes the row and keeps the counter |
| `Walkthrough.ScansEmpty` | tests.py:36 | an empty table scans to nothing |
| `Walkthrough.Open` | tests.py:24-25 | a new database and `Post.manager(db)` over it: an empty `post` table |
| `Walkthrough.SaveNew` | tests.py:26 | `objects.save(Post(...))` stores the row and sets the id to the counter's next value |
| `Walkthrough.ReadBack` | tests.py:27 | `objects.get(id)` gives back the id and both columns |
| `Walkthrough.ChangeAndUpdate` | tests.py:28-29 | `post.text = 'Mundo'; objects.update(post)`: the row holds the new text |
| `Walkthrough.SaveAndUpdate` | tests.py:26-30 | the first post gets id 1 and reads back with the new text |
| `Walkthrough.DeleteCommitted` | tests.py:31-33 | commit, delete, commit: the empty table with counter 1 is durable |
| `Walkthrough.DeleteAndReopen` | tests.py:32-36 | after the delete is committed, a new post with its own title and text gets id 2; after `close` without commit, `all()` is empty |
| `Walkthrough.PostWalkthrough` | tests.py:24-36 | the scenario as a whole: `Post('Hello', 'World')` gets id 1 and reads back with "Mundo" after `update`; a second `Post('Hello', 'World')` gets id 2; `all()` at the end is empty |

## Left out

- The SQLite engine itself: SQL parsing, the `sqlite_master` catalog, file I/O, locking and durability. The store is an abstract map of tables, and each statement is a `Stmt` with its text.
- The contents of schema scripts: `Schema` stands for a script that drops and recreates one table, empty, with the given columns. A script is malformed, and fails with OperationalError, when a column is named "id" or two columns share a name.
- Column constraints such as `not null` and types: every value is accepted in every column.
- Rowid reuse: tables are `autoincrement`, as in tests.py, so statements never wind the counter back. A schema script recreates its table and restarts the counter at 0.
- SQLite's type affinity: only an integer parameter addresses a row; text or real ids match nothing.
- The `id` primary key is implicit in every table. A schema that declares its own "id" column is treated as malformed rather than modelled.
- Python 2 dictionary order: an object's attributes are an ordered list; hash order is not modelled.
- `str.lower()` covers ASCII capitals only.
- Identifier case: table and column names are compared exactly, while SQLite ignores ASCII case in them. An attribute `Title` against a column `title`, or a schema that creates `Post` for the table `post`, is rejected by the model where SQLite would accept it. An attribute `ID` is an ordinary column name in the model, while SQLite would write it to the rowid.
- The missing `import sqlite3` in gistfile1.py: as written, the first use of `connection` (gistfile1.py:13) raises NameError, so `Model.objects(db)` fails in its table check. The model assumes the import is present.
- Building entities with `entity_cls(**row)`: rows are returned as attribute lists, not as objects.
- `__repr__`, `show` and the texts of error messages. Errors are modelled by kind.
- The catalog statements' texts: their placeholders are not counted.
- The database path and the keyword arguments of `connect`.
- The dynamic subclass `type('Model%s' ...)`: a model class carries its database, or none, in `ModelClass.db`.
- Orm.ModelManagerAsWritten: states only its error case and the database it binds, not the full outcome of `Orm.ModelManager`, whose construction it shares.
- Walkthrough.PostWalkthrough: follows tests.py with `Post.manager(db)` honouring its argument (see Findings). As written, that line already fails. The exact string compared at tests.py:34 depends on hash order and is not modelled; only the id 2 is.

## Findings

| source | as written | input that shows it | evidently intended | confidence | as-written member | corrected member |
|---|---|---|---|---|---|---|
| orm.py:132-135 | `manager(cls, db)` computes `db = db if db else cls.db` and then builds `Manager(cls.db, cls)`, ignoring it | tests.py:25, `Post.manager(db)`: `Post` subclasses `Model` directly, so `cls.db` is None and the table check calls `execute` on None (AttributeError) | the manager is built over the database passed in, falling back to `cls.db` | not executed | `Orm.ModelManagerAsWritten` | `Orm.ModelManager` |

`Orm.ManagerIgnoresItsArgument` exhibits the discrepancy: the two bindings
differ exactly when a database is passed for a class bound to another one or
to none. The walkthrough uses the corrected `Orm.ModelManager`.
