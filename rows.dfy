/**
  Values, rows and table contents of the in-process relational store, as plain data,
  together with the reference definitions of insertion, filtering and the one-hop
  foreign-key join, and the properties proved about them.
*/
module Rows {

  /** A field value as far as the store looks at it: primary and foreign keys are only compared for equality. */
  datatype Value = Int(i: int) | Str(s: string) | Null

  /** A record held in a table: its fields by name. */
  datatype Row = Row(fields: map<string, Value>)

  datatype Option<+T> = None | Some(value: T)

  datatype Result<+T, +E> = Success(value: T) | Failure(error: E)

  datatype Outcome<+E> = Pass | Fail(error: E)

  /** The exceptions the store raises. */
  datatype Error =
    | DuplicateKey(key: Value, table: string)           // insert of a present primary key
    | MissingAttribute(field: string)                   // a record lacks the field the table reads off it
    | UndeclaredForeignKey(field: string, table: string) // join on a field with no (or an empty) foreign-key entry
    | UnknownTable(name: string)                        // lookup of a table name the database does not hold
    | NoOwner                                           // join on a table whose database reference is cleared

  /** Schema entry of one table: its name, primary-key field and foreign-key map (field to referenced table). */
  datatype TableMeta = TableMeta(name: string, pkField: string, fkFields: map<string, string>)

  /** One result of a join: a row and the row its foreign key refers to. */
  datatype JoinedRow = JoinedRow(left: Row, right: Row)

  /** Reading a field off a record; None stands for the attribute error. */
  function Attr(row: Row, field: string): (r: Option<Value>)
    ensures r.Some? <==> field in row.fields
    ensures r.Some? ==> r.value == row.fields[field]
  {
    if field in row.fields then Some(row.fields[field]) else None
  }

  ghost predicate Distinct<T>(s: seq<T>) {
    forall i, j | 0 <= i < j < |s| :: s[i] != s[j]
  }

  /** A distinct sequence has as many elements as the set of its elements. */
  lemma {:induction false} DistinctCard<T>(s: seq<T>)
    requires Distinct(s)
    ensures |set x | x in s| == |s|
  {
    if s != [] {
      var last := s[|s| - 1];
      var init := s[..|s| - 1];
      DistinctCard(init);
      assert (set x | x in s) == (set x | x in init) + {last};
      assert last !in (set x | x in init);
    }
  }

  /**
    The contents of a table: the primary keys in insertion order (the order a Python
    dict keeps) and the rows by key; pickling a table keeps exactly this and the
    registered schema entry.
  */
  datatype TableState = TableState(meta: TableMeta, rowType: string, keys: seq<Value>, rows: map<Value, Row>) {

    /** Keys are unique, the key order lists exactly the stored keys, and every row sits under its own primary key. */
    ghost predicate Valid() {
      && Distinct(keys)
      && (forall k :: k in rows <==> k in keys)
      && (forall k | k in rows :: Attr(rows[k], meta.pkField) == Some(k))
    }

    /** The stored rows in insertion order. */
    function Values(): (vs: seq<Row>)
      requires Valid()
      ensures |vs| == |keys|
      ensures forall i | 0 <= i < |keys| :: vs[i] == rows[keys[i]]
    {
      seq(|keys|, i requires 0 <= i < |keys| => rows[keys[i]])
    }
  }

  /**
    The rows of a table in order list every stored row exactly once, so a reducer over
    them sees as many rows as the table holds.
  */
  lemma ValuesExact(t: TableState)
    requires t.Valid()
    ensures |t.Values()| == |t.rows|
    ensures forall k | k in t.rows :: t.rows[k] in t.Values()
    ensures forall r | r in t.Values() :: r in t.rows.Values
    ensures Distinct(t.Values())
  {
    ValuesCount(t);
    ValuesCover(t);
    ValuesDistinct(t);
  }

  /** As many rows in order as stored keys: the key order has no repetitions. */
  lemma ValuesCount(t: TableState)
    requires t.Valid()
    ensures |t.Values()| == |t.rows|
  {
    DistinctCard(t.keys);
    assert t.rows.Keys == set k | k in t.keys;
  }

  /** Every stored row appears in the row order. */
  lemma ValuesCover(t: TableState)
    requires t.Valid()
    ensures forall k | k in t.rows :: t.rows[k] in t.Values()
  {
    var vs := t.Values();
    forall k | k in t.rows ensures t.rows[k] in vs {
      var i :| 0 <= i < |t.keys| && t.keys[i] == k;
      assert vs[i] == t.rows[k];
    }
  }

  /** No row appears twice in the row order: each carries its own distinct key. */
  lemma ValuesDistinct(t: TableState)
    requires t.Valid()
    ensures Distinct(t.Values())
  {
    var vs := t.Values();
    forall i, j | 0 <= i < j < |vs| ensures vs[i] != vs[j] {
      assert Attr(vs[i], t.meta.pkField) == Some(t.keys[i]);
      assert Attr(vs[j], t.meta.pkField) == Some(t.keys[j]);
    }
  }

  /** A table as created: the given schema entry and no rows. */
  function EmptyTable(meta: TableMeta, rowType: string): (t: TableState)
    ensures t.Valid() && t.meta == meta && t.rows == map[] && t.Values() == []
  {
    TableState(meta, rowType, [], map[])
  }

  /**
    What one insert does to a table: read the primary key off the row, refuse a key
    that is present (or, when silent, leave the table as it was), otherwise store the
    row under its key at the end of the key order.
  */
  function InsertRow(t: TableState, row: Row, silent: bool): (r: Result<TableState, Error>)
    requires t.Valid()
    ensures r.Success? ==> r.value.Valid() && r.value.meta == t.meta && r.value.rowType == t.rowType
  {
    match Attr(row, t.meta.pkField)
    case None => Failure(MissingAttribute(t.meta.pkField))
    case Some(pk) =>
      if pk in t.rows then
        if silent then Success(t) else Failure(DuplicateKey(pk, t.meta.name))
      else
        var s := t.(keys := t.keys + [pk], rows := t.rows[pk := row]);
        assert s.Valid() by {
          assert forall i | 0 <= i < |t.keys| :: s.keys[i] == t.keys[i];
        }
        Success(s)
  }

  /**
    The outcomes of one insert: a row without the primary-key field is an attribute
    error; a present key is a duplicate-key error unless silent, and then the table is
    left exactly as it was; otherwise the insert succeeds.
  */
  lemma InsertRowOutcome(t: TableState, row: Row, silent: bool)
    requires t.Valid()
    ensures var r := InsertRow(t, row, silent);
      && (Attr(row, t.meta.pkField).None? ==> r == Failure(MissingAttribute(t.meta.pkField)))
      && (Attr(row, t.meta.pkField).Some? && row.fields[t.meta.pkField] in t.rows ==>
            r == if silent then Success(t) else Failure(DuplicateKey(row.fields[t.meta.pkField], t.meta.name)))
      && (Attr(row, t.meta.pkField).Some? && row.fields[t.meta.pkField] !in t.rows ==> r.Success?)
  {
  }

  /**
    A successful insert of an absent key adds exactly that row, under its key, at the
    end of the row order, and every other row stays as it was.
  */
  lemma InsertRowAppends(t: TableState, row: Row, silent: bool)
    requires t.Valid()
    requires t.meta.pkField in row.fields && row.fields[t.meta.pkField] !in t.rows
    ensures var r := InsertRow(t, row, silent);
      && r.Success?
      && r.value.Values() == t.Values() + [row]
      && r.value.rows.Keys == t.rows.Keys + {row.fields[t.meta.pkField]}
      && r.value.rows[row.fields[t.meta.pkField]] == row
      && (forall k | k in t.rows :: r.value.rows[k] == t.rows[k])
  {
    var pk := row.fields[t.meta.pkField];
    var s := InsertRow(t, row, silent).value;
    assert s.keys == t.keys + [pk] && s.rows == t.rows[pk := row];
    var vs, expected := s.Values(), t.Values() + [row];
    forall i | 0 <= i < |vs| ensures vs[i] == expected[i] {
      if i < |t.keys| {
        assert s.keys[i] == t.keys[i] != pk;
      }
    }
  }

  /**
    A sequence of inserts whose caller catches every error and carries on: a failing
    insert leaves the table as it was.
  */
  function InsertEach(t: TableState, rs: seq<Row>, silent: bool): (s: TableState)
    requires t.Valid()
    ensures s.Valid() && s.meta == t.meta
  {
    if rs == [] then t
    else
      var before := InsertEach(t, rs[..|rs| - 1], silent);
      match InsertRow(before, rs[|rs| - 1], silent)
      case Success(after) => after
      case Failure(_) => before
  }

  /** The primary keys carried by a sequence of rows. */
  function KeysOf(rs: seq<Row>, pkField: string): set<Value> {
    set r | r in rs && pkField in r.fields :: r.fields[pkField]
  }

  /** One step of a sequence of inserts: the last row is inserted into the table the others produced. */
  lemma InsertEachStep(t: TableState, rs: seq<Row>, silent: bool)
    requires t.Valid() && rs != []
    ensures var before := InsertEach(t, rs[..|rs| - 1], silent);
      var last := rs[|rs| - 1];
      var f := t.meta.pkField;
      && KeysOf(rs, f) == KeysOf(rs[..|rs| - 1], f) + (if f in last.fields then {last.fields[f]} else {})
      && (f in last.fields && last.fields[f] !in before.rows ==>
            InsertEach(t, rs, silent).rows == before.rows[last.fields[f] := last])
      && (f !in last.fields || last.fields[f] in before.rows ==> InsertEach(t, rs, silent) == before)
  {
    var f := t.meta.pkField;
    var init, last := rs[..|rs| - 1], rs[|rs| - 1];
    assert rs == init + [last];
    InsertRowOutcome(InsertEach(t, init, silent), last, silent);
  }

  /**
    Uniqueness: after any sequence of inserts, silent or not, the table holds exactly
    one row per distinct key among the old keys and the inserted ones (so N inserts with
    M duplicate keys among them add N - M rows), and every row that was there survives.
  */
  lemma {:induction false} InsertEachKeys(t: TableState, rs: seq<Row>, silent: bool)
    requires t.Valid()
    ensures var s := InsertEach(t, rs, silent);
      && s.rows.Keys == t.rows.Keys + KeysOf(rs, t.meta.pkField)
      && forall k | k in t.rows :: s.rows[k] == t.rows[k]
  {
    if rs != [] {
      InsertEachKeys(t, rs[..|rs| - 1], silent);
      InsertEachStep(t, rs, silent);
    }
  }

  /**
    Inserting rows whose keys are new to the table and distinct from one another
    appends exactly those rows, in the order given, to the rows already there.
  */
  lemma {:induction false} InsertEachAppends(t: TableState, rs: seq<Row>, silent: bool)
    requires t.Valid()
    requires forall i | 0 <= i < |rs| :: t.meta.pkField in rs[i].fields && rs[i].fields[t.meta.pkField] !in t.rows
    requires forall i, j | 0 <= i < j < |rs| ::
      t.meta.pkField in rs[i].fields && t.meta.pkField in rs[j].fields &&
      rs[i].fields[t.meta.pkField] != rs[j].fields[t.meta.pkField]
    ensures InsertEach(t, rs, silent).Values() == t.Values() + rs
  {
    if rs != [] {
      var f := t.meta.pkField;
      var init, last := rs[..|rs| - 1], rs[|rs| - 1];
      InsertEachAppends(t, init, silent);
      assert last.fields[f] !in KeysOf(init, f);
      AppendOne(t, rs, silent);
    }
  }

  /** One step of InsertEachAppends: a row with a new key lands at the end. */
  lemma AppendOne(t: TableState, rs: seq<Row>, silent: bool)
    requires t.Valid() && rs != []
    requires InsertEach(t, rs[..|rs| - 1], silent).Values() == t.Values() + rs[..|rs| - 1]
    requires t.meta.pkField in rs[|rs| - 1].fields
    requires rs[|rs| - 1].fields[t.meta.pkField] !in t.rows
    requires rs[|rs| - 1].fields[t.meta.pkField] !in KeysOf(rs[..|rs| - 1], t.meta.pkField)
    ensures InsertEach(t, rs, silent).Values() == t.Values() + rs
  {
    var init, last := rs[..|rs| - 1], rs[|rs| - 1];
    InsertEachKeys(t, init, silent);
    var before := InsertEach(t, init, silent);
    LastInsert(t, rs, silent);
    InsertRowAppends(before, last, silent);
    SplitLast(t.Values(), rs);
  }

  /** Appending the last element of a non-empty sequence after the others gives it back. */
  lemma SplitLast<T>(prefix: seq<T>, s: seq<T>)
    requires s != []
    ensures (prefix + s[..|s| - 1]) + [s[|s| - 1]] == prefix + s
  {
    assert s == s[..|s| - 1] + [s[|s| - 1]];
  }

  /** The last insert of a sequence, when its key is new, is a successful InsertRow. */
  lemma LastInsert(t: TableState, rs: seq<Row>, silent: bool)
    requires t.Valid() && rs != []
    requires t.meta.pkField in rs[|rs| - 1].fields
    requires rs[|rs| - 1].fields[t.meta.pkField] !in InsertEach(t, rs[..|rs| - 1], silent).rows
    ensures var r := InsertRow(InsertEach(t, rs[..|rs| - 1], silent), rs[|rs| - 1], silent);
      r.Success? && InsertEach(t, rs, silent) == r.value
  {
  }

  /** The rows of s that satisfy p, each where it stands in s. */
  function FilterRows(p: Row -> bool, s: seq<Row>): (r: seq<Row>)
    ensures |r| <= |s|
  {
    if s == [] then []
    else FilterRows(p, s[..|s| - 1]) + (if p(s[|s| - 1]) then [s[|s| - 1]] else [])
  }

  /** Filtering distributes over concatenation: the result keeps the order of the input. */
  lemma {:induction false} FilterConcat(p: Row -> bool, a: seq<Row>, b: seq<Row>)
    ensures FilterRows(p, a + b) == FilterRows(p, a) + FilterRows(p, b)
  {
    if b != [] {
      var b' := b[..|b| - 1];
      assert (a + b)[..|a + b| - 1] == a + b';
      FilterConcat(p, a, b');
    } else {
      assert a + b == a;
    }
  }

  /** A row is in the filter result exactly when it is in the input and satisfies p. */
  lemma {:induction false} FilterMembers(p: Row -> bool, s: seq<Row>)
    ensures forall x :: x in FilterRows(p, s) <==> x in s && p(x)
  {
    if s != [] {
      FilterMembers(p, s[..|s| - 1]);
      assert s == s[..|s| - 1] + [s[|s| - 1]];
    }
  }

  /** Filtering a sequence without repetitions yields one without repetitions. */
  lemma {:induction false} FilterDistinct(p: Row -> bool, s: seq<Row>)
    requires Distinct(s)
    ensures Distinct(FilterRows(p, s))
  {
    if s != [] {
      var init := s[..|s| - 1];
      var last := s[|s| - 1];
      FilterDistinct(p, init);
      FilterMembers(p, init);
      assert last !in init;
    }
  }

  /** True when the row carries the field and its value is a key of the target rows. */
  predicate Matches(row: Row, fk: string, target: map<Value, Row>) {
    fk in row.fields && row.fields[fk] in target
  }

  /** The unbounded join of the rows s on field fk against the target rows, built one scanned row at a time. */
  function JoinRows(s: seq<Row>, fk: string, target: map<Value, Row>): seq<JoinedRow> {
    if s == [] then []
    else
      var last := s[|s| - 1];
      JoinRows(s[..|s| - 1], fk, target)
        + (if Matches(last, fk, target) then [JoinedRow(last, target[last.fields[fk]])] else [])
  }

  /** Each row with a match paired with the row it refers to. */
  function Pairs(s: seq<Row>, fk: string, target: map<Value, Row>): (r: seq<JoinedRow>)
    requires forall i | 0 <= i < |s| :: fk in s[i].fields && s[i].fields[fk] in target
    ensures |r| == |s|
    ensures forall i | 0 <= i < |s| :: r[i] == JoinedRow(s[i], target[s[i].fields[fk]])
  {
    seq(|s|, i requires 0 <= i < |s| => JoinedRow(s[i], target[s[i].fields[fk]]))
  }

  /**
    The join is exactly "keep the rows that have a match, in order, and pair each with
    its match": one pair per matching row, none for the others.
  */
  lemma {:induction false} JoinIsFilterThenPair(s: seq<Row>, fk: string, target: map<Value, Row>)
    ensures var kept := FilterRows(x => Matches(x, fk, target), s);
      && (forall i | 0 <= i < |kept| :: Matches(kept[i], fk, target))
      && JoinRows(s, fk, target) == Pairs(kept, fk, target)
  {
    var p := x => Matches(x, fk, target);
    FilterMembers(p, s);
    if s != [] {
      var init := s[..|s| - 1];
      JoinIsFilterThenPair(init, fk, target);
      FilterMembers(p, init);
    }
  }

  /** Scanning one more row adds its pair when it has a match, and nothing otherwise. */
  lemma JoinRowsStep(s: seq<Row>, k: nat, fk: string, target: map<Value, Row>)
    requires k < |s|
    ensures JoinRows(s[..k + 1], fk, target) == JoinRows(s[..k], fk, target)
      + (if Matches(s[k], fk, target) then [JoinedRow(s[k], target[s[k].fields[fk]])] else [])
  {
    assert s[..k + 1][..k] == s[..k];
  }

  /** Joining a concatenation joins each part. */
  lemma {:induction false} JoinConcat(a: seq<Row>, b: seq<Row>, fk: string, target: map<Value, Row>)
    ensures JoinRows(a + b, fk, target) == JoinRows(a, fk, target) + JoinRows(b, fk, target)
  {
    if b != [] {
      var b' := b[..|b| - 1];
      assert (a + b)[..|a + b| - 1] == a + b';
      JoinConcat(a, b', fk, target);
    } else {
      assert a + b == a;
    }
  }

  /** A pair is in the join exactly when its left row is scanned, has a match, and its right row is that match. */
  lemma {:induction false} JoinMembers(s: seq<Row>, fk: string, target: map<Value, Row>)
    ensures forall jr :: jr in JoinRows(s, fk, target) <==>
      jr.left in s && Matches(jr.left, fk, target) && jr.right == target[jr.left.fields[fk]]
  {
    if s != [] {
      JoinMembers(s[..|s| - 1], fk, target);
      assert s == s[..|s| - 1] + [s[|s| - 1]];
    }
  }

  /** The join yields at most one pair per scanned row. */
  lemma {:induction false} JoinLength(s: seq<Row>, fk: string, target: map<Value, Row>)
    ensures |JoinRows(s, fk, target)| <= |s|
  {
    if s != [] {
      JoinLength(s[..|s| - 1], fk, target);
    }
  }

  /** Joining the first k rows yields a prefix of joining all of them. */
  lemma JoinPrefix(s: seq<Row>, k: nat, fk: string, target: map<Value, Row>)
    requires k <= |s|
    ensures var short := JoinRows(s[..k], fk, target);
      var full := JoinRows(s, fk, target);
      |short| <= |full| && short == full[..|short|]
  {
    assert s == s[..k] + s[k..];
    JoinConcat(s[..k], s[k..], fk, target);
  }

  /**
    How many rows the join loop looks at: it stops before the row at index `limit`
    when 0 <= limit, so a non-negative limit bounds rows scanned, not rows joined.
  */
  function Scanned(limit: int, n: nat): (k: nat)
    ensures k <= n
    ensures limit < 0 ==> k == n
    ensures 0 <= limit ==> k <= limit
  {
    if 0 <= limit < n then limit else n
  }

  /** Every row of s carries the field fk, so reading it from each of them succeeds. */
  predicate Carry(s: seq<Row>, fk: string) {
    forall i | 0 <= i < |s| :: fk in s[i].fields
  }

  /**
    Scanning row k after rows that all carry the field: the rows up to k carry it
    exactly when row k does, and any longer scan through a row without it does not.
  */
  lemma CarryStep(s: seq<Row>, k: nat, m: nat, fk: string)
    requires k < m <= |s| && Carry(s[..k], fk)
    ensures Carry(s[..k + 1], fk) <==> fk in s[k].fields
    ensures fk !in s[k].fields ==> !Carry(s[..m], fk)
  {
    assert s[..m][k] == s[k];
    assert forall i | 0 <= i < k :: s[..k + 1][i] == s[..k][i];
  }

  /**
    What `join(fk, limit)` produces on a table whose database holds the tables `owner`
    (None: the database reference is cleared). The checks on the field and the target
    come in the source's order before any row is scanned; a scanned row without the
    field is an attribute error.
  */
  function JoinOf(t: TableState, owner: Option<map<string, TableState>>, fk: string, limit: int): Result<seq<JoinedRow>, Error>
    requires t.Valid()
  {
    if fk !in t.meta.fkFields || t.meta.fkFields[fk] == "" then
      Failure(UndeclaredForeignKey(fk, t.meta.name))
    else if owner.None? then
      Failure(NoOwner)
    else if t.meta.fkFields[fk] !in owner.value then
      Failure(UnknownTable(t.meta.fkFields[fk]))
    else
      var scanned := t.Values()[..Scanned(limit, |t.keys|)];
      if !Carry(scanned, fk) then Failure(MissingAttribute(fk))
      else Success(JoinRows(scanned, fk, owner.value[t.meta.fkFields[fk]].rows))
  }

  /**
    The failures of a join: a field without a non-empty foreign-key entry, a cleared
    reference and a referenced table the owning database does not hold come before any
    row is scanned; otherwise the join fails exactly when a scanned row lacks the field.
  */
  lemma JoinFailures(t: TableState, owner: map<string, TableState>, fk: string, limit: int)
    requires t.Valid()
    ensures JoinOf(t, Some(owner), fk, limit).Failure? <==>
      (fk !in t.meta.fkFields || t.meta.fkFields[fk] == "" || t.meta.fkFields[fk] !in owner
       || !Carry(t.Values()[..Scanned(limit, |t.keys|)], fk))
    ensures fk !in t.meta.fkFields || t.meta.fkFields[fk] == "" ==>
      JoinOf(t, Some(owner), fk, limit) == Failure(UndeclaredForeignKey(fk, t.meta.name))
    ensures fk in t.meta.fkFields && t.meta.fkFields[fk] != "" && t.meta.fkFields[fk] !in owner ==>
      JoinOf(t, Some(owner), fk, limit) == Failure(UnknownTable(t.meta.fkFields[fk]))
    ensures JoinOf(t, None, fk, limit).Failure?
  {
  }

  /**
    A bounded join is the unbounded join of the first `limit` rows. When the unbounded
    join succeeds, the bounded one does too and yields a prefix of it, at most `limit`
    long; a bounded join that fails fails as the unbounded one does (its scanned rows
    are scanned by the unbounded one too); with a negative limit every row is scanned.
  */
  lemma JoinLimit(t: TableState, owner: Option<map<string, TableState>>, fk: string, limit: int)
    requires t.Valid()
    ensures var bounded := JoinOf(t, owner, fk, limit);
      var full := JoinOf(t, owner, fk, -1);
      && (bounded.Failure? ==> bounded == full)
      && (bounded.Success? && 0 <= limit ==> |bounded.value| <= limit)
      && (full.Success? ==>
            && bounded.Success?
            && |bounded.value| <= |full.value|
            && bounded.value == full.value[..|bounded.value|])
  {
    var vs := t.Values();
    var k := Scanned(limit, |t.keys|);
    assert vs[..|t.keys|] == vs;
    assert forall i | 0 <= i < k :: vs[..k][i] == vs[i];
    if JoinOf(t, owner, fk, limit).Success? {
      var target := owner.value[t.meta.fkFields[fk]].rows;
      JoinLength(vs[..k], fk, target);
      if JoinOf(t, owner, fk, -1).Success? {
        JoinPrefix(vs, k, fk, target);
      }
    }
  }

  /**
    The unbounded join: when every row carries the field, in row order, exactly one
    pair (row, target[row.fk]) for each row whose foreign-key value is a key of the
    target table, and none for the others; when some row lacks the field, an
    attribute error.
  */
  lemma JoinUnbounded(t: TableState, owner: map<string, TableState>, fk: string)
    requires t.Valid()
    requires fk in t.meta.fkFields && t.meta.fkFields[fk] != "" && t.meta.fkFields[fk] in owner
    ensures var target := owner[t.meta.fkFields[fk]].rows;
      var kept := FilterRows(x => Matches(x, fk, target), t.Values());
      && (forall i | 0 <= i < |kept| :: Matches(kept[i], fk, target))
      && (Carry(t.Values(), fk) ==> JoinOf(t, Some(owner), fk, -1) == Success(Pairs(kept, fk, target)))
      && (!Carry(t.Values(), fk) ==> JoinOf(t, Some(owner), fk, -1) == Failure(MissingAttribute(fk)))
  {
    var vs := t.Values();
    assert vs[..|t.keys|] == vs;
    JoinIsFilterThenPair(vs, fk, owner[t.meta.fkFields[fk]].rows);
  }

  /** Everything the store holds, as pickled: the registry and the tables by name. */
  datatype Snapshot = Snapshot(meta: map<string, TableMeta>, tables: map<string, TableState>) {

    /** Every table is consistent and carries the registry's entry for its name. */
    ghost predicate WellFormed() {
      forall n | n in tables :: tables[n].Valid() && n in meta && tables[n].meta == meta[n]
    }
  }

}
