/**
  The fixed schema of the exported wiki content (users, pages, spaces and the records
  hanging off pages) and the bootstrap that either reuses a saved database or creates
  every table of the schema.
*/
module Schema {
  import opened Rows
  import opened Store

  /** One entry of the schema: the arguments `create_table` is called with. */
  datatype TableDef = TableDef(name: string, pkField: string, rowType: string, fkFields: map<string, string>)

  /** The schema entry registered for a definition. */
  function MetaOf(d: TableDef): (m: TableMeta)
    ensures m.name == d.name && m.pkField == d.pkField && m.fkFields == d.fkFields
  {
    TableMeta(d.name, d.pkField, d.fkFields)
  }

  /** The schema, in creation order; a definition without foreign keys has the empty map. */
  const Definitions: seq<TableDef> := [
    TableDef("users", "_id", "User", map[]),
    TableDef("pages", "_id", "Page", map["creator_id" := "users", "space_id" := "spaces"]),
    TableDef("spaces", "_id", "Space", map["creator_id" := "users", "home_page_id" := "pages"]),
    TableDef("properties", "_id", "ContentProperty", map["content_id" := "pages"]),
    TableDef("links", "_id", "Link", map["content_id" := "pages"]),
    TableDef("bodies", "_id", "Body", map["content_id" := "pages"]),
    TableDef("attachments", "_id", "Attachment", map["content_id" := "pages", "creator_id" := "users", "space_id" := "spaces"])
  ]

  /** The definitions by table name; a later definition of a name replaces an earlier one. */
  function ByName(defs: seq<TableDef>): map<string, TableDef> {
    if defs == [] then map[]
    else ByName(defs[..|defs| - 1])[defs[|defs| - 1].name := defs[|defs| - 1]]
  }

  /** No table name is defined twice. */
  ghost predicate UniqueNames(defs: seq<TableDef>) {
    forall i, j | 0 <= i < j < |defs| :: defs[i].name != defs[j].name
  }

  /** With unique names, every definition is the one its name selects, and there are no other names. */
  lemma {:induction false} ByNameUnique(defs: seq<TableDef>)
    requires UniqueNames(defs)
    ensures forall i | 0 <= i < |defs| :: defs[i].name in ByName(defs) && ByName(defs)[defs[i].name] == defs[i]
    ensures forall n | n in ByName(defs) :: exists i :: 0 <= i < |defs| && defs[i].name == n
  {
    if defs != [] {
      var init, last := defs[..|defs| - 1], defs[|defs| - 1];
      ByNameUnique(init);
      forall i | 0 <= i < |init| ensures init[i].name != last.name {
        assert init[i] == defs[i];
      }
      forall n | n in ByName(defs) ensures exists i :: 0 <= i < |defs| && defs[i].name == n {
        if n == last.name {
          assert defs[|defs| - 1].name == n;
        } else {
          assert n in ByName(init);
          var i :| 0 <= i < |init| && init[i].name == n;
          assert defs[i] == init[i];
        }
      }
    }
  }

  /** The registry after registering each definition in turn on top of `base`. */
  function Registered(base: map<string, TableMeta>, defs: seq<TableDef>): map<string, TableMeta> {
    if defs == [] then base
    else Registered(base, defs[..|defs| - 1])[defs[|defs| - 1].name := MetaOf(defs[|defs| - 1])]
  }

  /**
    Registering definitions adds exactly their names, each with the entry of the
    definition that name selects, and keeps every other entry of `base`.
  */
  lemma {:induction false} RegisteredEntries(base: map<string, TableMeta>, defs: seq<TableDef>)
    ensures Registered(base, defs).Keys == base.Keys + ByName(defs).Keys
    ensures forall n | n in ByName(defs) :: Registered(base, defs)[n] == MetaOf(ByName(defs)[n])
    ensures forall n | n in base && n !in ByName(defs) :: Registered(base, defs)[n] == base[n]
  {
    if defs != [] {
      RegisteredEntries(base, defs[..|defs| - 1]);
    }
  }

  /** The schema names its seven tables once each. */
  lemma DefinitionsUnique()
    ensures UniqueNames(Definitions)
  {
    var d := Definitions;
    assert d[0].name[0] == 'u' && d[1].name[0] == 'p' && d[2].name[0] == 's' && d[3].name[0] == 'p';
    assert d[4].name[0] == 'l' && d[5].name[0] == 'b' && d[6].name[0] == 'a';
    assert |d[1].name| == 5 && |d[3].name| == 10;
  }

  /** The seven tables of the schema, each with its own definition. */
  lemma DefinitionsByName()
    ensures ByName(Definitions).Keys == {"users", "pages", "spaces", "properties", "links", "bodies", "attachments"}
    ensures forall i | 0 <= i < |Definitions| :: ByName(Definitions)[Definitions[i].name] == Definitions[i]
  {
    DefinitionsUnique();
    ByNameUnique(Definitions);
    var d := Definitions;
    assert d == [d[0], d[1], d[2], d[3], d[4], d[5], d[6]];
  }

  /** Every table of the schema keys its rows on "_id". */
  lemma DefinitionsKeys()
    ensures forall i | 0 <= i < |Definitions| :: Definitions[i].pkField == "_id"
  {
  }

  /** Pages and spaces both key on "_id", and a page's `space_id` refers to the spaces table. */
  lemma PagesReferSpaces()
    ensures "pages" in ByName(Definitions) && "spaces" in ByName(Definitions)
    ensures ByName(Definitions)["pages"].pkField == "_id" && ByName(Definitions)["spaces"].pkField == "_id"
    ensures "space_id" in ByName(Definitions)["pages"].fkFields
    ensures ByName(Definitions)["pages"].fkFields["space_id"] == "spaces"
  {
    DefinitionsByName();
    assert Definitions[1].name == "pages" && Definitions[2].name == "spaces";
  }

  /** Foreign keys of the schema refer only to users, pages and spaces. */
  lemma DefinitionsTargets()
    ensures forall i, f | 0 <= i < |Definitions| && f in Definitions[i].fkFields ::
      Definitions[i].fkFields[f] in {"users", "pages", "spaces"}
  {
  }

  /**
    The schema is closed under its foreign keys: every foreign-key field of every table
    names a non-empty table of the schema.
  */
  lemma DefinitionsClosed()
    ensures forall i, f | 0 <= i < |Definitions| && f in Definitions[i].fkFields ::
      Definitions[i].fkFields[f] != "" && Definitions[i].fkFields[f] in ByName(Definitions)
  {
    DefinitionsByName();
    DefinitionsTargets();
  }

  /** The closure of the schema, read through the definitions by name. */
  lemma ByNameClosed()
    ensures forall n, f | n in ByName(Definitions) && f in ByName(Definitions)[n].fkFields ::
      ByName(Definitions)[n].fkFields[f] != "" && ByName(Definitions)[n].fkFields[f] in ByName(Definitions)
  {
    DefinitionsUnique();
    ByNameUnique(Definitions);
    DefinitionsClosed();
    forall n, f | n in ByName(Definitions) && f in ByName(Definitions)[n].fkFields
      ensures ByName(Definitions)[n].fkFields[f] != "" && ByName(Definitions)[n].fkFields[f] in ByName(Definitions)
    {
      var i :| 0 <= i < |Definitions| && Definitions[i].name == n;
      assert ByName(Definitions)[n] == Definitions[i];
    }
  }

  /** Only users carries no foreign key. */
  lemma DefinitionsForeignKeys()
    ensures forall i | 0 <= i < |Definitions| :: Definitions[i].fkFields == map[] <==> i == 0
  {
    var d := Definitions;
    assert "creator_id" in d[1].fkFields && "creator_id" in d[2].fkFields && "content_id" in d[3].fkFields;
    assert "content_id" in d[4].fkFields && "content_id" in d[5].fkFields && "content_id" in d[6].fkFields;
  }

  /**
    On any set of tables that holds every schema table, a join from a schema table never
    meets an unknown table: it fails exactly when the field is not one of the table's
    foreign keys, or when a scanned row lacks the field.
  */
  lemma SchemaJoinResolves(i: nat, t: TableState, owner: map<string, TableState>, fk: string, limit: int)
    requires i < |Definitions| && t.Valid() && t.meta == MetaOf(Definitions[i])
    requires ByName(Definitions).Keys <= owner.Keys
    ensures var r := JoinOf(t, Some(owner), fk, limit);
      && (r.Failure? <==> fk !in Definitions[i].fkFields || !Carry(t.Values()[..Scanned(limit, |t.keys|)], fk))
      && (r.Failure? ==> r.error.UndeclaredForeignKey? || r.error == MissingAttribute(fk))
    ensures fk !in Definitions[i].fkFields ==>
      JoinOf(t, Some(owner), fk, limit) == Failure(UndeclaredForeignKey(fk, Definitions[i].name))
  {
    DefinitionsClosed();
  }

  /**
    Tables that keep their earlier object, or hold a new one only they hold (as `owner`
    records), are held under one name each when the earlier ones were.
  */
  lemma KeepsDistinct(before: map<string, Table>, after: map<string, Table>, created: set<string>, owner: map<Table, string>)
    requires forall n, m | n in before && m in before && n != m :: before[n] != before[m]
    requires forall n | n in after && n !in created :: n in before && after[n] == before[n]
    requires forall n | n in created && n in after :: after[n] !in before.Values && after[n] in owner && owner[after[n]] == n
    ensures forall n, m | n in after && m in after && n != m :: after[n] != after[m]
  {
    forall n, m | n in after && m in after && n != m
      ensures after[n] != after[m]
    {
      if n in created && m in created {
        assert owner[after[n]] != owner[after[m]];
      } else if n in created {
        assert after[m] in before.Values;
      } else if m in created {
        assert after[n] in before.Values;
      }
    }
  }

  /**
    Creates the tables of `defs` in order: registers each entry and installs a new empty
    table owned by the database, replacing any table of the same name. No table object
    ends up under two names unless one already was.
  */
  method CreateTables(database: Database, defs: seq<TableDef>)
    requires database.Valid()
    modifies database, database.meta
    ensures database.Valid() && database.meta == old(database.meta)
    ensures database.meta.tables == Registered(old(database.meta.tables), defs)
    ensures forall n :: n in database.tables <==> n in old(database.tables) || n in ByName(defs)
    ensures forall n | n in old(database.tables) && n !in ByName(defs) :: database.tables[n] == old(database.tables[n])
    ensures forall n | n in ByName(defs) ::
      var t, d := database.tables[n], ByName(defs)[n];
      fresh(t) && t.dbRef == database && t.State() == EmptyTable(MetaOf(d), d.rowType)
    ensures old(database.Unshared()) ==> database.Unshared()
  {
    ghost var baseMeta, baseTables := database.meta.tables, database.tables;
    // `owner` names the one name each table created so far is held under.
    ghost var owner: map<Table, string> := map[];
    for i := 0 to |defs|
      invariant database.Valid() && database.meta == old(database.meta)
      invariant database.meta.tables == Registered(baseMeta, defs[..i])
      invariant forall n :: n in database.tables <==> n in baseTables || n in ByName(defs[..i])
      invariant forall n | n in baseTables && n !in ByName(defs[..i]) :: database.tables[n] == baseTables[n]
      invariant forall n | n in ByName(defs[..i]) ::
        var t, d := database.tables[n], ByName(defs[..i])[n];
        fresh(t) && t.dbRef == database && t.State() == EmptyTable(MetaOf(d), d.rowType) && t in owner && owner[t] == n
    {
      var d := defs[i];
      assert defs[..i + 1][..i] == defs[..i];
      var table := database.CreateTable(d.name, d.pkField, d.rowType, d.fkFields);
      owner := owner[table := d.name];
    }
    assert defs[..|defs|] == defs;
    if old(database.Unshared()) {
      forall n | n in ByName(defs) ensures database.tables[n] !in baseTables.Values {
      }
      KeepsDistinct(baseTables, database.tables, ByName(defs).Keys, owner);
    }
  }

  /**
    Bootstraps the store. When asked to reuse a saved database, loads it and stops if the
    database then holds any table; otherwise registers and creates every table of the
    schema in order, each empty and owned by the database.
  */
  method SetupDb(loadExistingDb: bool, dbSavePath: string, fs: FileSystem, database: Database)
    requires database.Valid()
    requires loadExistingDb && dbSavePath in fs.files ==> fs.files[dbSavePath].WellFormed()
    modifies database, database.meta
    ensures database.Valid()
    ensures old(database.Unshared()) || (loadExistingDb && dbSavePath in fs.files) ==> database.Unshared()
    ensures var loaded := loadExistingDb && dbSavePath in fs.files;
      && (loaded ==> fresh(database.meta))
      && (!loaded ==> database.meta == old(database.meta))
    ensures var loaded := loadExistingDb && dbSavePath in fs.files;
      loaded && |fs.files[dbSavePath].tables| > 0 ==>
        && database.meta.tables == fs.files[dbSavePath].meta
        && database.tables.Keys == fs.files[dbSavePath].tables.Keys
        && forall n | n in database.tables ::
             && fresh(database.tables[n])
             && database.tables[n].State() == fs.files[dbSavePath].tables[n]
             && database.tables[n].dbRef == database
    ensures loadExistingDb && dbSavePath !in fs.files && |old(database.tables)| > 0 ==>
      database.meta == old(database.meta) && database.meta.tables == old(database.meta.tables)
      && database.tables == old(database.tables)
    ensures var loaded := loadExistingDb && dbSavePath in fs.files;
      var baseMeta := if loaded then fs.files[dbSavePath].meta else old(database.meta.tables);
      var baseTables := if loaded then map[] else old(database.tables);
      !(loaded && |fs.files[dbSavePath].tables| > 0) && !(loadExistingDb && !loaded && |old(database.tables)| > 0) ==>
        && database.meta.tables == Registered(baseMeta, Definitions)
        && (forall n :: n in database.tables <==> n in baseTables || n in ByName(Definitions))
        && (forall n | n in baseTables && n !in ByName(Definitions) :: database.tables[n] == baseTables[n])
        && forall n | n in ByName(Definitions) ::
             var t, d := database.tables[n], ByName(Definitions)[n];
             fresh(t) && t.dbRef == database && t.State() == EmptyTable(MetaOf(d), d.rowType)
  {
    if loadExistingDb {
      database.Load(dbSavePath, fs);
      if |database.tables| > 0 {
        return;
      }
    }
    CreateTables(database, Definitions);
  }

  /**
    A new database bootstrapped without reusing a saved one holds exactly the schema
    tables (the seven of DefinitionsByName), each empty, owned by the database and
    carrying its own schema entry; every foreign key of every table names a table of the
    database, so a join on a declared foreign key never meets an unknown table.
  */
  method FreshSetup(dbSavePath: string, fs: FileSystem) returns (database: Database)
    ensures fresh(database) && fresh(database.meta)
    ensures forall n | n in database.tables :: fresh(database.tables[n])
    ensures database.Valid() && database.Unshared()
    ensures database.tables.Keys == ByName(Definitions).Keys
    ensures forall n | n in database.tables ::
      var t, d := database.tables[n], ByName(Definitions)[n];
      t.dbRef == database && t.State() == EmptyTable(MetaOf(d), d.rowType)
    ensures forall n, f | n in database.tables && f in database.tables[n].meta.fkFields ::
      database.tables[n].meta.fkFields[f] != "" && database.tables[n].meta.fkFields[f] in database.tables
  {
    database := new Database();
    SetupDb(false, dbSavePath, fs, database);
    ByNameClosed();
    assert database.tables.Keys == ByName(Definitions).Keys;
    forall n, f | n in database.tables && f in database.tables[n].meta.fkFields
      ensures database.tables[n].meta.fkFields[f] != "" && database.tables[n].meta.fkFields[f] in database.tables
    {
      assert database.tables[n].meta == database.tables[n].State().meta == MetaOf(ByName(Definitions)[n]);
    }
  }

  /**
    Inserts into the table held under `name` (`db[name].insert(row)`): that table changes
    as `Table.Insert` says, every other table keeps its object and contents, and the
    database stays consistent.
  */
  method InsertInto(database: Database, name: string, row: Row) returns (r: Outcome<Error>)
    requires database.Valid() && database.Unshared() && name in database.tables
    modifies database.tables[name]
    ensures database.Valid()
    ensures database.tables[name].dbRef == old(database.tables[name].dbRef)
    ensures match InsertRow(old(database.tables[name].State()), row, false)
      case Success(s) => r == Pass && database.tables[name].State() == s
      case Failure(e) => r == Fail(e) && database.tables[name].State() == old(database.tables[name].State())
    ensures forall n | n in database.tables && n != name :: database.tables[n].State() == old(database.tables[n].State())
  {
    r := database.tables[name].Insert(row);
  }

  /**
    The same case run through the objects: on a freshly set up database, storing space 1
    in `spaces` and pages 10 (in space 1) and 11 (in space 99) in `pages`, the join of
    pages on `space_id` yields page 10 with space 1 alone.
  */
  method SpacesAndPages(dbSavePath: string, fs: FileSystem, space: Row, page10: Row, page11: Row)
    returns (r: Result<seq<JoinedRow>, Error>)
    requires "_id" in space.fields && space.fields["_id"] == Int(1)
    requires "_id" in page10.fields && page10.fields["_id"] == Int(10)
    requires "_id" in page11.fields && page11.fields["_id"] == Int(11)
    requires "space_id" in page10.fields && page10.fields["space_id"] == Int(1)
    requires "space_id" in page11.fields && page11.fields["space_id"] == Int(99)
    ensures r == Success([JoinedRow(page10, space)])
  {
    var database := FreshSetup(dbSavePath, fs);
    PagesReferSpaces();
    r := StoreSpacesAndPages(database, space, page10, page11);
  }

  /**
    On any consistent database holding distinct, empty `spaces` and `pages` tables that
    key on "_id", where a page's `space_id` refers to spaces: storing space 1 and pages 10
    (in space 1) and 11 (in space 99), then joining pages on `space_id`, pairs page 10
    with space 1 alone.
  */
  method StoreSpacesAndPages(database: Database, space: Row, page10: Row, page11: Row)
    returns (r: Result<seq<JoinedRow>, Error>)
    requires database.Valid() && database.Unshared()
    requires "spaces" in database.tables && "pages" in database.tables
    requires database.tables["spaces"].rows == map[] && database.tables["spaces"].meta.pkField == "_id"
    requires database.tables["pages"].rows == map[] && database.tables["pages"].keys == []
    requires database.tables["pages"].meta.pkField == "_id" && database.tables["pages"].dbRef == database
    requires "space_id" in database.tables["pages"].meta.fkFields
    requires database.tables["pages"].meta.fkFields["space_id"] == "spaces"
    requires "_id" in space.fields && space.fields["_id"] == Int(1)
    requires "_id" in page10.fields && page10.fields["_id"] == Int(10)
    requires "_id" in page11.fields && page11.fields["_id"] == Int(11)
    requires "space_id" in page10.fields && page10.fields["space_id"] == Int(1)
    requires "space_id" in page11.fields && page11.fields["space_id"] == Int(99)
    modifies database.tables["spaces"], database.tables["pages"]
    ensures r == Success([JoinedRow(page10, space)])
  {
    StoreRows(database, space, page10, page11);
    var pages := database.tables["pages"];
    r := pages.Join("space_id");
    ghost var owner, ps := database.TableStates(), pages.State();
    assert owner["spaces"].rows == map[Int(1) := space];
    JoinTwo(ps, owner, "space_id", map[Int(1) := space]);
  }

  /** The insert half of StoreSpacesAndPages: space 1 into `spaces`, pages 10 and 11 into `pages`. */
  method StoreRows(database: Database, space: Row, page10: Row, page11: Row)
    requires database.Valid() && database.Unshared()
    requires "spaces" in database.tables && "pages" in database.tables
    requires database.tables["spaces"].rows == map[] && database.tables["spaces"].meta.pkField == "_id"
    requires database.tables["pages"].rows == map[] && database.tables["pages"].keys == []
    requires database.tables["pages"].meta.pkField == "_id"
    requires "_id" in space.fields && space.fields["_id"] == Int(1)
    requires "_id" in page10.fields && page10.fields["_id"] == Int(10)
    requires "_id" in page11.fields && page11.fields["_id"] == Int(11)
    modifies database.tables["spaces"], database.tables["pages"]
    ensures database.Valid()
    ensures database.tables["spaces"].rows == map[Int(1) := space]
    ensures database.tables["pages"].State().Values() == [page10, page11]
    ensures database.tables["pages"].meta == old(database.tables["pages"].meta)
    ensures database.tables["pages"].dbRef == old(database.tables["pages"].dbRef)
  {
    var spaces, pages := database.tables["spaces"], database.tables["pages"];
    InsertRowAppends(spaces.State(), space, false);
    var _ := InsertInto(database, "spaces", space);
    ghost var s1 := spaces.State();
    assert s1.rows == map[Int(1) := space];
    ghost var p0 := pages.State();
    InsertRowAppends(p0, page10, false);
    var _ := InsertInto(database, "pages", page10);
    ghost var p1 := pages.State();
    assert p1.Values() == [page10] && p1.rows.Keys == {Int(10)};
    InsertRowAppends(p1, page11, false);
    var _ := InsertInto(database, "pages", page11);
    assert pages.State().Values() == p1.Values() + [page11];
    assert spaces.State() == s1;
  }

  /**
    A page that names a space no table holds is skipped by the join rather than
    reported: with space 1 stored, and pages 10 (in space 1) and 11 (in space 99)
    stored in that order, joining pages on `space_id` yields page 10 paired with
    space 1, and nothing for page 11. The two entries are those of the schema's
    pages and spaces tables (see DefinitionsKeys and DefinitionsTargets).
  */
  lemma DanglingReferenceSkipped(pagesMeta: TableMeta, spacesMeta: TableMeta, space: Row, page10: Row, page11: Row)
    requires pagesMeta.pkField == "_id" && spacesMeta.pkField == "_id"
    requires "space_id" in pagesMeta.fkFields && pagesMeta.fkFields["space_id"] == "spaces"
    requires "_id" in space.fields && space.fields["_id"] == Int(1)
    requires "_id" in page10.fields && page10.fields["_id"] == Int(10)
    requires "_id" in page11.fields && page11.fields["_id"] == Int(11)
    requires "space_id" in page10.fields && page10.fields["space_id"] == Int(1)
    requires "space_id" in page11.fields && page11.fields["space_id"] == Int(99)
    ensures var spaces := InsertEach(EmptyTable(spacesMeta, "Space"), [space], false);
      var pages := InsertEach(EmptyTable(pagesMeta, "Page"), [page10, page11], false);
      JoinOf(pages, Some(map["spaces" := spaces, "pages" := pages]), "space_id", -1)
        == Success([JoinedRow(page10, space)])
  {
    var spaces0, pages0 := EmptyTable(spacesMeta, "Space"), EmptyTable(pagesMeta, "Page");
    InsertEachAppends(spaces0, [space], false);
    InsertEachAppends(pages0, [page10, page11], false);
    var spaces := InsertEach(spaces0, [space], false);
    var pages := InsertEach(pages0, [page10, page11], false);
    ValuesExact(spaces);
    assert spaces.Values() == [space];
    assert spaces.rows.Values == {space};
    JoinTwo(pages, map["spaces" := spaces, "pages" := pages], "space_id", spaces.rows);
  }

  /**
    The join of a two-row table whose rows both carry the field, whose first row refers
    to a stored row and whose second row refers to none, pairs the first row alone.
  */
  lemma JoinTwo(t: TableState, owner: map<string, TableState>, fk: string, target: map<Value, Row>)
    requires t.Valid() && |t.Values()| == 2
    requires fk in t.meta.fkFields && t.meta.fkFields[fk] in owner && t.meta.fkFields[fk] != ""
    requires owner[t.meta.fkFields[fk]].rows == target
    requires Matches(t.Values()[0], fk, target) && !Matches(t.Values()[1], fk, target)
    requires fk in t.Values()[1].fields
    ensures JoinOf(t, Some(owner), fk, -1)
      == Success([JoinedRow(t.Values()[0], target[t.Values()[0].fields[fk]])])
  {
    var vs := t.Values();
    assert vs[..|t.keys|] == vs;
    assert vs[..1] == [vs[0]] && vs[..1][..0] == [];
    assert JoinRows(vs[..1], fk, target) == [JoinedRow(vs[0], target[vs[0].fields[fk]])];
    assert JoinRows(vs, fk, target) == JoinRows(vs[..1], fk, target);
  }
}
