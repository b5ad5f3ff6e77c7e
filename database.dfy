/**
  The in-process relational store: a schema registry, tables keyed by primary key that
  are updated in place, and a database that owns both and snapshots them to a file.
  The snapshot file is an abstract map from path to the pickled value.
*/
module Store {
  import opened Rows

  /** The schema registry: table name to schema entry. */
  class MetaTable {
    var tables: map<string, TableMeta>

    constructor ()
      ensures tables == map[]
    {
      tables := map[];
    }

    /** Records the schema entry of a table; a name already present is overwritten. */
    method Register(name: string, pkField: string, fkFields: map<string, string> := map[]) returns (meta: TableMeta)
      modifies this
      ensures meta == TableMeta(name, pkField, fkFields)
      ensures tables == old(tables)[name := meta]
    {
      meta := TableMeta(name, pkField, fkFields);
      tables := tables[name := meta];
    }
  }

  /** A keyed collection of rows of one record type, with a reference to the database that owns it. */
  class Table {
    var meta: TableMeta
    var rowType: string
    var dbRef: Database?
    var keys: seq<Value>          // primary keys in insertion order
    var rows: map<Value, Row>

    constructor (meta: TableMeta, rowType: string, databaseRef: Database?)
      ensures State() == EmptyTable(meta, rowType) && dbRef == databaseRef
    {
      this.meta := meta;
      this.rowType := rowType;
      this.dbRef := databaseRef;
      this.keys := [];
      this.rows := map[];
    }

    /** What the table holds, without its database reference. */
    function State(): TableState
      reads this`meta, this`rowType, this`keys, this`rows
    {
      TableState(meta, rowType, keys, rows)
    }

    ghost predicate Valid()
      reads this`meta, this`rowType, this`keys, this`rows
    {
      State().Valid()
    }

    /** The tables of the owning database, or None when the reference is cleared. */
    function Owner(): Option<map<string, TableState>>
      reads this`dbRef, dbRef, if dbRef == null then {} else dbRef.tables.Values
    {
      if dbRef == null then None else Some(dbRef.TableStates())
    }

    /**
      Stores a row under its primary key. A present key is an error unless `silent`,
      in which case nothing changes; a row without the primary-key field is an error.
    */
    method Insert(row: Row, silent: bool := false) returns (r: Outcome<Error>)
      requires Valid()
      modifies this
      ensures Valid() && dbRef == old(dbRef) && meta == old(meta)
      ensures match InsertRow(old(State()), row, silent)
        case Success(s) => r == Pass && State() == s
        case Failure(e) => r == Fail(e) && State() == old(State())
    {
      if meta.pkField !in row.fields {
        return Fail(MissingAttribute(meta.pkField));
      }
      var pk := row.fields[meta.pkField];
      if pk in rows {
        if silent { return Pass; }
        return Fail(DuplicateKey(pk, meta.name));
      }
      keys := keys + [pk];
      rows := rows[pk := row];
      r := Pass;
    }

    /** Point lookup: the row stored under `pk`, or None; never an error. */
    function Get(pk: Value): (r: Option<Row>)
      reads this`meta, this`rowType, this`keys, this`rows
      requires Valid()
      ensures r.Some? <==> pk in keys
      ensures r.Some? ==> r.value == rows[pk] && Attr(r.value, meta.pkField) == Some(pk)
    {
      if pk in rows then Some(rows[pk]) else None
    }

    /**
      Pairs each scanned row with the row of the referenced table whose key is the row's
      `fkField` value, skipping rows without a match; a scanned row without the field is
      an attribute error. A non-negative `limit` stops the scan before the row at that
      index.
    */
    method Join(fkField: string, limit: int := -1) returns (r: Result<seq<JoinedRow>, Error>)
      requires Valid()
      requires dbRef != null ==> dbRef.Valid()
      ensures r == JoinOf(State(), Owner(), fkField, limit)
    {
      var fkTableName := if fkField in meta.fkFields then meta.fkFields[fkField] else "";
      if fkTableName == "" {
        return Failure(UndeclaredForeignKey(fkField, meta.name));
      }
      if dbRef == null {
        return Failure(NoOwner);
      }
      var lookup := dbRef.GetTable(fkTableName);
      if lookup.Failure? {
        return Failure(lookup.error);
      }
      r := Scan(lookup.value, fkField, limit);
    }

    /**
      The scan loop of Join against the referenced table: counts rows by index, stops
      before the row at index `limit` when 0 <= limit, reads each row's field and looks
      its value up in the referenced table.
    */
    method Scan(fkTable: Table, fkField: string, limit: int) returns (r: Result<seq<JoinedRow>, Error>)
      requires Valid() && fkTable.Valid()
      ensures var scanned := State().Values()[..Scanned(limit, |keys|)];
        r == if Carry(scanned, fkField) then Success(JoinRows(scanned, fkField, fkTable.rows))
             else Failure(MissingAttribute(fkField))
    {
      ghost var scanned := State().Values();
      ghost var target := fkTable.rows;
      var joined := [];
      var index := 0;
      while index < |keys|
        invariant 0 <= index <= |keys|
        invariant 0 <= limit ==> index <= limit
        invariant Carry(scanned[..index], fkField)
        invariant joined == JoinRows(scanned[..index], fkField, target)
      {
        if 0 <= limit < index + 1 {
          return Success(joined);
        }
        var row := rows[keys[index]];
        assert row == scanned[index];
        CarryStep(scanned, index, Scanned(limit, |keys|), fkField);
        if fkField !in row.fields {
          return Failure(MissingAttribute(fkField));
        }
        var fkValue := row.fields[fkField];
        var related := fkTable.Get(fkValue);
        JoinRowsStep(scanned, index, fkField, target);
        assert related.Some? <==> fkValue in target;
        if related.Some? {
          joined := joined + [JoinedRow(row, related.value)];
        }
        index := index + 1;
      }
      assert scanned[..index] == scanned;
      return Success(joined);
    }

    /** The rows that satisfy `p`, each once, in row order. */
    function Filter(p: Row -> bool): (r: seq<Row>)
      reads this`meta, this`rowType, this`keys, this`rows
      requires Valid()
      ensures forall x :: x in r <==> x in rows.Values && p(x)
      ensures Distinct(r)
      ensures r == FilterRows(p, State().Values())
    {
      var vs := State().Values();
      ValuesExact(State());
      FilterMembers(p, vs);
      FilterDistinct(p, vs);
      FilterRows(p, vs)
    }

    /**
      Applies `reducer` to the list of all rows in row order: the list holds every
      stored row exactly once and nothing else, one entry per key.
    */
    function Aggregate<A>(reducer: seq<Row> -> A): (r: A)
      reads this`meta, this`rowType, this`keys, this`rows
      requires Valid()
      ensures r == reducer(State().Values())
      ensures |State().Values()| == |rows|
      ensures forall x :: x in State().Values() <==> x in rows.Values
      ensures Distinct(State().Values())
    {
      ValuesExact(State());
      reducer(State().Values())
    }
  }

  /** The snapshot files: what a path holds, if anything. */
  class FileSystem {
    var files: map<string, Snapshot>

    constructor (files: map<string, Snapshot>)
      ensures this.files == files
    {
      this.files := files;
    }
  }

  /** The owner of the registry and of the tables by name. */
  class Database {
    var meta: MetaTable
    var tables: map<string, Table>

    constructor ()
      ensures Valid() && fresh(meta)
      ensures meta.tables == map[] && tables == map[]
    {
      meta := new MetaTable();
      tables := map[];
    }

    /** Every table is consistent and carries the registry's entry for its name. */
    ghost predicate Valid()
      reads this`meta, this`tables, meta`tables, tables.Values`meta, tables.Values`rowType, tables.Values`keys, tables.Values`rows
    {
      forall n | n in tables :: tables[n].Valid() && n in meta.tables && tables[n].meta == meta.tables[n]
    }

    /** No table object is held under two names, so updating one table leaves the others as they were. */
    ghost predicate Unshared()
      reads this`tables
    {
      forall n, m | n in tables && m in tables && n != m :: tables[n] != tables[m]
    }

    /** The contents of every table, by name. */
    function TableStates(): map<string, TableState>
      reads this`tables, tables.Values`meta, tables.Values`rowType, tables.Values`keys, tables.Values`rows
    {
      map n | n in tables :: tables[n].State()
    }

    /** What `save` writes: the registry and every table's contents. */
    function Image(): Snapshot
      reads this`meta, this`tables, meta`tables, tables.Values`meta, tables.Values`rowType, tables.Values`keys, tables.Values`rows
    {
      Snapshot(meta.tables, TableStates())
    }

    /** What a consistent database saves is a consistent snapshot, which `load` accepts. */
    lemma ImageWellFormed()
      requires Valid()
      ensures Image().WellFormed()
      ensures Image().tables.Keys == tables.Keys
      ensures forall n | n in tables :: Image().tables[n] == tables[n].State()
    {
    }

    /**
      Registers the schema entry and installs a new empty table under `name`, replacing
      any table of that name; other tables and registry entries are left as they were.
    */
    method CreateTable(name: string, pkField: string, rowType: string, fkFields: map<string, string> := map[])
      returns (table: Table)
      requires Valid()
      modifies this, meta
      ensures Valid() && meta == old(meta)
      ensures fresh(table) && table.dbRef == this
      ensures table.State() == EmptyTable(TableMeta(name, pkField, fkFields), rowType)
      ensures meta.tables == old(meta.tables)[name := TableMeta(name, pkField, fkFields)]
      ensures table.meta == meta.tables[name]
      ensures tables == old(tables)[name := table]
    {
      var registered := meta.Register(name, pkField, fkFields);
      table := new Table(registered, rowType, this);
      tables := tables[name := table];
    }

    /**
      The table called `name`; an unknown name is an error. In a consistent database
      the table found is consistent and carries the registry's entry for that name.
    */
    function GetTable(name: string): (r: Result<Table, Error>)
      reads this, meta, tables.Values
      ensures r.Success? <==> name in tables
      ensures r.Success? ==> r.value == tables[name]
      ensures r.Failure? ==> r.error == UnknownTable(name)
      ensures Valid() && r.Success? ==>
        && name in meta.tables
        && r.value.Valid()
        && r.value.meta == meta.tables[name]
    {
      if name in tables then Success(tables[name]) else Failure(UnknownTable(name))
    }

    /** Indexing the database by table name: the same lookup as GetTable. */
    function GetItem(tableName: string): (r: Result<Table, Error>)
      reads this, meta, tables.Values
      ensures r == GetTable(tableName)
    {
      GetTable(tableName)
    }

    /**
      Rehydrates from the snapshot at `location`. A missing file leaves the database as
      it was; otherwise registry and tables are replaced by the pickled ones and every
      table's database reference is pointed back at this database.
    */
    method Load(location: string, fs: FileSystem)
      requires location in fs.files ==> fs.files[location].WellFormed()
      modifies this
      ensures location !in fs.files ==> meta == old(meta) && tables == old(tables)
      ensures location in fs.files ==>
        && Valid() && Unshared()
        && fresh(meta)
        && meta.tables == fs.files[location].meta
        && tables.Keys == fs.files[location].tables.Keys
        && forall n | n in tables ::
             fresh(tables[n]) && tables[n].State() == fs.files[location].tables[n] && tables[n].dbRef == this
    {
      if location !in fs.files {
        return;
      }
      var saved := fs.files[location];
      var restoredMeta, restored := Unpickle(saved);
      meta := restoredMeta;
      tables := restored;
      Attach(restored, this);
    }

    /** Points the database reference of every given table at `owner`. */
    static method Attach(restored: map<string, Table>, owner: Database)
      modifies restored.Values`dbRef
      ensures forall n | n in restored :: restored[n].dbRef == owner
    {
      var pending := restored.Keys;
      while pending != {}
        invariant pending <= restored.Keys
        invariant forall n | n in restored && n !in pending :: restored[n].dbRef == owner
        decreases pending
      {
        var n :| n in pending;
        restored[n].dbRef := owner;
        pending := pending - {n};
      }
    }

    /** Builds fresh registry and table objects holding the snapshot's contents, with cleared references. */
    static method Unpickle(saved: Snapshot) returns (restoredMeta: MetaTable, restored: map<string, Table>)
      requires saved.WellFormed()
      ensures fresh(restoredMeta) && restoredMeta.tables == saved.meta
      ensures restored.Keys == saved.tables.Keys
      ensures forall n | n in restored ::
        fresh(restored[n]) && restored[n].State() == saved.tables[n] && restored[n].dbRef == null
      ensures forall n, m | n in restored && m in restored && n != m :: restored[n] != restored[m]
    {
      restoredMeta := new MetaTable();
      restoredMeta.tables := saved.meta;
      restored := map[];
      var pending := saved.tables.Keys;
      while pending != {}
        invariant pending <= saved.tables.Keys
        invariant restored.Keys == saved.tables.Keys - pending
        invariant fresh(restoredMeta) && restoredMeta.tables == saved.meta
        invariant forall n | n in restored ::
          fresh(restored[n]) && restored[n].State() == saved.tables[n] && restored[n].dbRef == null
        invariant forall n, m | n in restored && m in restored && n != m :: restored[n] != restored[m]
        modifies {}
        decreases pending
      {
        var n :| n in pending;
        var table := Restore(saved.tables[n]);
        restored := restored[n := table];
        pending := pending - {n};
      }
    }

    /** A new table object holding the pickled contents, with a cleared reference. */
    static method Restore(s: TableState) returns (table: Table)
      ensures fresh(table) && table.State() == s && table.dbRef == null
    {
      table := new Table(s.meta, s.rowType, null);
      table.keys := s.keys;
      table.rows := s.rows;
    }

    /**
      Writes the registry and every table to `location`, replacing what the path held,
      after clearing every table's database reference; table contents are untouched.
    */
    method Save(location: string, fs: FileSystem)
      modifies tables.Values`dbRef, fs
      ensures forall n | n in tables :: tables[n].dbRef == null
      ensures fs.files == old(fs.files)[location := Image()]
    {
      var pending := tables.Keys;
      while pending != {}
        invariant pending <= tables.Keys
        invariant forall n | n in tables && n !in pending :: tables[n].dbRef == null
        modifies tables.Values`dbRef
        decreases pending
      {
        var n :| n in pending;
        tables[n].dbRef := null;
        pending := pending - {n};
      }
      var saved := Image();
      fs.files := fs.files[location := saved];
    }
  }

  /**
    Foreign-key targets are resolved when a join runs, not when a table is created: a
    table may name a target that does not exist yet; joining on that field then fails
    with an unknown-table error, and once the target is created the same join succeeds
    (on the still empty table, with no pairs).
  */
  method TargetResolvedAtJoin(database: Database, name: string, target: string, fkField: string)
    returns (before: Result<seq<JoinedRow>, Error>, after: Result<seq<JoinedRow>, Error>)
    requires database.Valid() && name != target && target != "" && target !in database.tables
    modifies database, database.meta
    ensures before == Failure(UnknownTable(target))
    ensures after == Success([])
  {
    var table := database.CreateTable(name, "_id", "Row", map[fkField := target]);
    before := table.Join(fkField);
    var _ := database.CreateTable(target, "_id", "Row");
    after := table.Join(fkField);
  }

  /**
    Saving to a path and then loading that path, into the same database or into a new
    one, gives back the same registry, the same table names and the same table contents,
    with every table's reference pointing at the loading database.
  */
  method SaveThenLoad(database: Database, into: Database, location: string, fs: FileSystem)
    requires database.Valid()
    modifies database.tables.Values`dbRef, fs, into
    ensures into.Valid()
    ensures into.meta.tables == old(database.meta.tables)
    ensures into.tables.Keys == old(database.tables.Keys)
    ensures forall n | n in into.tables ::
      into.tables[n].State() == old(database.tables[n].State()) && into.tables[n].dbRef == into
  {
    database.Save(location, fs);
    database.ImageWellFormed();
    into.Load(location, fs);
  }
}
