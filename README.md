# Confluence export store — a verified model

The Confluence export reader materialises the records of a wiki export (users,
pages, spaces, content properties, links, bodies, attachments) into a small
in-process relational store, then pickles the whole store to one file so a later
run can reuse it. This project models that store and its bootstrap in Dafny:

- `rows.dfy` (module `Rows`): the value layer. It holds rows as field maps and
  schema entries (`TableMeta`). `TableState` is what a table holds: its entry, its
  record type, its keys in insertion order and its rows by key. It also holds the
  pickled `Snapshot` and the error taxonomy. Reference definitions of one insert
  (`InsertRow`), a sequence of inserts (`InsertEach`), filtering (`FilterRows`) and
  the join (`JoinRows`, `JoinOf`, `Scanned`) come with their lemmas.
- `database.dfy` (module `Store`): the objects the code updates in place. These are
  `MetaTable` (the registry), `Table` (rows updated by `Insert`, the index-counting
  join loop, the database back-reference `dbRef`) and `Database` (registry plus tables
  by name, with `Load` and `Save`). Each method is proved against the value layer.
  `FileSystem` is an abstract map from path to pickled snapshot.
- `schema.dfy` (module `Schema`): the fixed seven-table schema and `SetupDb`, the
  load-or-create bootstrap.

Behaviour of the code worth noting, which the model keeps:

- `load` returns nothing. On a missing file it leaves the registry and the tables
  untouched; it does not reset them to empty.
- A non-negative join `limit` bounds the rows scanned, not the rows joined. The check
  `0 <= limit < index + 1` runs before the row at `index` is looked up, so
  `join(f, k)` is the unbounded join of the first `k` rows.
- Row order, for filter, aggregate and join, is the order in which keys were first
  inserted (Python dict order). The model keeps it as `TableState.keys`.
- `setup_db` stops after `load` whenever the database holds any table. That includes
  tables it held before, when the file is missing.
- A join on a table whose back-reference is cleared (after `save`) fails (`NoOwner`):
  Python raises on `None.get_table`.
- A join fails (`MissingAttribute`) when a scanned row lacks the foreign-key field,
  because `getattr` raises. In the schema, `links` declares `content_id` but its
  record type has no such field, so joining a non-empty `links` table on it fails.
- The file system is an abstraction: `FileSystem` maps a path to the pickled value
  stored there, and `load` checks whether the path is in the map.
- Indexing the database (`__getitem__`, modelled by `GetItem`) is the same lookup as
  `get_table`.

## Model

| member | source | states |
|---|---|---|
| Rows.ValuesExact | confluence/utils/database.py:62 | the ordered rows list every stored row exactly once, and nothing else |
| Rows.ValuesCount | confluence/utils/database.py:72 | a reducer sees as many rows as the table holds keys |
| Rows.ValuesCover | confluence/utils/database.py:69 | every stored row appears in the row order |
| Rows.ValuesDistinct | confluence/utils/database.py:45-49 | no row appears twice in the row order, since each carries its own unique key |
| Rows.EmptyTable | confluence/utils/database.py:37-41 | a new table is consistent, has the given entry and holds no rows |
| Rows.InsertRow | confluence/utils/database.py:43-49 | a successful insert keeps the table consistent and keeps its entry and record type |
| Rows.InsertRowOutcome | confluence/utils/database.py:43-49 | missing key field gives an attribute error; a present key gives a duplicate-key error, or with `silent` the unchanged table; a new key succeeds |
| Rows.InsertRowAppends | confluence/utils/database.py:49 | inserting a new key stores the row under it, appends it to the row order and changes no other row |
| Rows.InsertEach | confluence/utils/database.py:43-49 | inserts whose errors the caller catches keep the table consistent with its entry |
| Rows.InsertEachStep | confluence/utils/database.py:43-49 | each further insert either adds its row under a new key or leaves the table exactly as it was |
| Rows.InsertEachKeys | confluence/utils/database.py:43-49 | after any inserts the keys are the old keys plus the distinct inserted keys, one row each, and old rows survive |
| Rows.InsertEachAppends | confluence/utils/database.py:43-49 | inserting rows with new, distinct keys appends exactly those rows in order |
| Rows.FilterRows | confluence/utils/database.py:68-69 | the filter result is never longer than its input |
| Rows.FilterConcat | confluence/utils/database.py:68-69 | filtering keeps input order: it distributes over concatenation |
| Rows.FilterMembers | confluence/utils/database.py:68-69 | a row is in the result iff it is in the input and satisfies the predicate |
| Rows.FilterDistinct | confluence/utils/database.py:68-69 | filtering rows without repetition yields no repetition |
| Rows.JoinIsFilterThenPair | confluence/utils/database.py:62-66 | the join keeps exactly the rows whose field value is a target key, in order, and pairs each with its match |
| Rows.JoinRowsStep | confluence/utils/database.py:62-66 | scanning one more row adds its pair when it has a match and nothing otherwise |
| Rows.JoinConcat | confluence/utils/database.py:62-66 | joining a concatenation joins each part |
| Rows.JoinMembers | confluence/utils/database.py:62-66 | a pair is joined iff its left row is scanned and matched and its right row is the match |
| Rows.JoinLength | confluence/utils/database.py:62-66 | at most one pair per scanned row |
| Rows.JoinPrefix | confluence/utils/database.py:62-63 | joining the first k rows yields a prefix of the full join |
| Rows.Scanned | confluence/utils/database.py:63 | a negative limit scans every row; a non-negative one at most `limit` rows |
| Rows.CarryStep | confluence/utils/database.py:62-64 | reading one more row's field succeeds on all rows so far iff that row has the field; a row without it makes every longer scan fail |
| Rows.JoinFailures | confluence/utils/database.py:55-64 | a join fails iff the field has no non-empty foreign-key entry, the target table is absent, or a scanned row lacks the field; the first two give their own errors; a cleared reference always fails |
| Rows.JoinLimit | confluence/utils/database.py:62-64 | a failing bounded join fails as the unbounded one does; when the unbounded join succeeds, the bounded one is a prefix of it; a bounded result is at most `limit` long |
| Rows.JoinUnbounded | confluence/utils/database.py:62-66 | with no limit and every row carrying the field, the join is exactly one pair (row, target[row.f]) per matching row, in row order; otherwise an attribute error |
| Store.MetaTable.constructor | confluence/utils/database.py:18-20 | a new registry is empty |
| Store.MetaTable.Register | confluence/utils/database.py:22-28 | returns the entry and records it under its name, replacing any earlier one; other names are unchanged |
| Store.Table.constructor | confluence/utils/database.py:37-41 | a new table holds the given entry, no rows, and the given database reference |
| Store.Table.Insert | confluence/utils/database.py:43-49 | the table afterwards is what InsertRow gives, or unchanged with the same error; the reference and the entry are untouched |
| Store.Table.Get | confluence/utils/database.py:51-52 | the lookup finds a row iff the key is stored, and then it is the row under that key; no error |
| Store.Table.Join | confluence/utils/database.py:54-66 | the join returns exactly JoinOf of the table and the tables of its database, for every field and limit |
| Store.Table.Scan | confluence/utils/database.py:62-66 | the index-counting loop with its early return yields the join of the scanned rows, or an attribute error when one lacks the field |
| Store.Table.Filter | confluence/utils/database.py:68-69 | exactly the stored rows satisfying the predicate, each once, in row order |
| Store.Table.Aggregate | confluence/utils/database.py:71-72 | the reducer receives every stored row exactly once, one per key, in row order, and nothing else |
| Store.Database.constructor | confluence/utils/database.py:76-78 | a new database has an empty registry and no tables |
| Store.Database.ImageWellFormed | confluence/utils/database.py:108-114 | what `save` pickles is a consistent snapshot with the same tables |
| Store.Database.CreateTable | confluence/utils/database.py:80-87 | registers the entry, installs a new empty table object referring to the database under the name (replacing any other), so no other name holds it, and stays consistent |
| Store.Database.GetTable | confluence/utils/database.py:89-90 | the table under the name iff present, otherwise an unknown-table error; in a consistent database it is consistent and carries the registry's entry for the name |
| Store.Database.Load | confluence/utils/database.py:93-102 | a missing file changes nothing; otherwise the registry and tables are the pickled ones, as new objects all referring to this database |
| Store.Database.Attach | confluence/utils/database.py:101-102 | every loaded table refers to the loading database |
| Store.Database.Unpickle | confluence/utils/database.py:96-99 | unpickling makes new, distinct table objects with the pickled contents and no reference |
| Store.Database.Restore | confluence/utils/database.py:97 | one new table object with the pickled contents |
| Store.Database.Save | confluence/utils/database.py:104-114 | every reference is cleared and the file holds the registry and table contents |
| Store.TargetResolvedAtJoin | confluence/utils/database.py:55-60 | a table may name a foreign-key target not yet created; joining fails with unknown table until it is created, then succeeds |
| Store.SaveThenLoad | confluence/utils/database.py:93-114 | save then load, into the same or another database, restores the registry, table names and contents, each table referring to the loader |
| Schema.ByNameUnique | confluence/utils/schema.py:7-41 | with unique names every definition is found under its name, and no other name is |
| Schema.RegisteredEntries | confluence/utils/schema.py:51-53 | registering definitions in turn adds exactly their names with their entries and keeps other entries |
| Schema.DefinitionsUnique | confluence/utils/schema.py:7-41 | the schema defines each table name once |
| Schema.DefinitionsByName | confluence/utils/schema.py:7-41 | the schema's tables are users, pages, spaces, properties, links, bodies and attachments |
| Schema.DefinitionsKeys | confluence/utils/schema.py:7-41 | every schema table keys on `_id` |
| Schema.DefinitionsTargets | confluence/utils/schema.py:15-40 | every foreign key refers to users, pages or spaces |
| Schema.DefinitionsClosed | confluence/utils/schema.py:7-41 | every foreign-key target is a non-empty table name of the schema |
| Schema.ByNameClosed | confluence/utils/schema.py:7-41 | the same closure, read table by table through the names |
| Schema.DefinitionsForeignKeys | confluence/utils/schema.py:7-41 | users alone has no foreign keys |
| Schema.SchemaJoinResolves | confluence/utils/database.py:55-64 | when every schema table is present, a join never meets an unknown table: it fails iff the field is undeclared or a scanned row lacks it |
| Schema.CreateTables | confluence/utils/schema.py:51-53 | creating definitions in order registers them all and leaves one new empty table per name, other tables unchanged; no table object is held under two names unless one already was |
| Schema.SetupDb | confluence/utils/schema.py:43-53 | reuses a loaded non-empty table set; stops on a missing file when tables already exist; otherwise creates every schema table; a load installs a new registry and new tables, otherwise the registry object is kept; after a load, or when the tables were held under one name each before, they still are |
| Schema.FreshSetup | confluence/utils/schema.py:43-53 | a fresh setup returns a new database holding exactly the seven schema tables as seven distinct new objects, each empty, and every foreign key names one of them |
| Schema.PagesReferSpaces | confluence/utils/schema.py:12-20 | pages and spaces both key on `_id`, and a page's `space_id` refers to the spaces table |
| Schema.InsertInto | confluence/utils/database.py:43-49 | inserting into the table held under a name changes that table as Table.Insert says, keeps every other table's contents and keeps the database consistent |
| Schema.SpacesAndPages | confluence/utils/database.py:62-66 | on a fresh setup, storing space 1 and pages 10 (space 1) and 11 (space 99) through the table objects, the join of pages on `space_id` yields only page 10 with space 1 |
| Schema.StoreSpacesAndPages | confluence/utils/database.py:43-66 | the same inserts and join on any consistent database holding distinct empty spaces and pages tables with those keys give the same single pair |
| Schema.StoreRows | confluence/utils/database.py:43-49 | after the three inserts, spaces holds exactly space 1, pages lists page 10 then page 11, and the database stays consistent |
| Schema.DanglingReferenceSkipped | confluence/utils/database.py:62-66 | with space 1 and pages 10 (space 1) and 11 (space 99), joining pages on `space_id` yields only page 10 with space 1 |
| Schema.JoinTwo | confluence/utils/database.py:62-66 | on two rows that both carry the field, where only the first has a match, the join is that one pair |

## Left out

- Pickle bytes and file I/O. The file system is a map from path to the pickled
  value. A file that exists but does not unpickle to a consistent registry and table
  set is excluded by `Load`'s precondition; the code would raise or load garbage.
- Generator laziness of `join`. The model returns the whole sequence. The errors
  `join` raises are returned at the call rather than on first iteration. A row
  without the field fails the whole join, not after the pairs before it were yielded.
- Row identity. Python stores each row object by reference, so a caller could still
  change a row (even its key) after inserting it; the model stores rows as values.
  Nothing in the program changes a row after inserting it.
- `if related:` truthiness. Records are dataclass instances and always truthy, so
  the model tests only whether the lookup found a row.
- Concrete record dataclasses and row types. A row is a map from field name to a
  value (integer, string or null); the row type is a string tag.
- `TableMeta` object identity. The registry and a table share one `TableMeta`
  object in Python; nothing mutates it, so the model keeps it as a value.
- Logging and the `Config` object. `SetupDb` takes `load_existing_db` and
  `db_save_path` as parameters; logging is not modelled.
- Filter predicates and aggregate reducers are total Dafny functions. A predicate
  that raises is not modelled.
- Store.SaveThenLoad: states equal contents and references. That joins compute the
  same as before follows from `Table.Join`'s contract, not from a separate clause.
