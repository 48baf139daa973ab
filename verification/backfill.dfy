/** `migrate_existing_data` (src/picklist.py): the back-fill that maps the free-text
    Accounts.industry and Opportunities.stage cells of older databases onto picklist value ids.

    The UPDATEs run on one connection and are committed together at the end, or rolled back on
    a storage error; the lookups and `add_picklist_value` run on connections of their own, so
    values they add stay added whatever happens afterwards. */
module Backfill {
  import opened Base
  import opened Storage
  import opened Schema
  import opened Picklist

  /** The two legacy text fields the back-fill maps. */
  datatype Field = Industry | Stage

  /** The picklist type a field's values live under. */
  function TypeName(f: Field): Value {
    match f
    case Industry => Text("industry")
    case Stage => Text("stage")
  }

  /** `col IS NOT NULL AND col != ''`. */
  predicate Filled(v: Value) {
    v != Null && v != Text("")
  }

  /** A picklist type with the field's name exists. */
  ghost predicate HasType(db: Db, f: Field)
    requires PicklistTypes in db
  {
    exists tid :: NamedType(db, tid, TypeName(f))
  }

  /** How a stored picklist text may differ from the legacy text mapped onto it: industries
      match exactly, stages also up to ASCII case. */
  predicate Agrees(f: Field, stored: Value, text: Value) {
    SqlEq(stored, text) || (f == Stage && stored.Text? && text.Text? && Lower(stored.s) == Lower(text.s))
  }

  /** Value row `vid` exists, belongs to a type named after the field, and its text agrees with `text`. */
  predicate Points(db: Db, f: Field, text: Value, vid: int) {
    && PicklistTypes in db && PicklistValues in db && vid in db[PicklistValues].rows
    && var row := db[PicklistValues].rows[vid];
    && Col(row, "picklist_type_id").Int? && NamedType(db, Col(row, "picklist_type_id").i, TypeName(f))
    && Agrees(f, Col(row, "value"), text)
  }

  /** Every stored value id lies below the counter, as SQLite keeps it. */
  predicate ValuesWellFormed(db: Db) {
    PicklistValues in db ==> WellFormed(db[PicklistValues])
  }

  /** `b` is `a` with at most some picklist values added: every other table is unchanged and
      every stored value row is kept. */
  predicate Grows(a: Db, b: Db) {
    && a.Keys == b.Keys
    && (forall n :: n in a && n != PicklistValues ==> b[n] == a[n])
    && (PicklistValues in a ==>
         && SameShape(b[PicklistValues], a[PicklistValues])
         && (forall id :: id in a[PicklistValues].rows ==>
               id in b[PicklistValues].rows && b[PicklistValues].rows[id] == a[PicklistValues].rows[id]))
  }

  lemma GrowsTransitive(a: Db, b: Db, c: Db)
    requires Grows(a, b) && Grows(b, c)
    ensures Grows(a, c)
  {
  }

  lemma PointsGrow(a: Db, b: Db, f: Field, text: Value, vid: int)
    requires Grows(a, b) && Points(a, f, text, vid)
    ensures Points(b, f, text, vid)
  {
    assert b[PicklistTypes] == a[PicklistTypes];
    assert b[PicklistValues].rows[vid] == a[PicklistValues].rows[vid];
  }

  /** `b` keeps the picklist types of `a` and every value row of `a`. */
  predicate KeepsPicklists(a: Db, b: Db) {
    && (PicklistTypes in a ==> PicklistTypes in b && b[PicklistTypes] == a[PicklistTypes])
    && (PicklistValues in a ==>
         && PicklistValues in b
         && (forall id :: id in a[PicklistValues].rows ==>
              id in b[PicklistValues].rows && b[PicklistValues].rows[id] == a[PicklistValues].rows[id]))
  }

  lemma GrowsKeeps(a: Db, b: Db)
    requires Grows(a, b)
    ensures KeepsPicklists(a, b)
  {
  }

  /** Replacing a table other than the picklist tables keeps them. */
  lemma KeepsOtherTable(a: Db, n: TableName, t: Table)
    requires n != PicklistTypes && n != PicklistValues
    ensures KeepsPicklists(a, a[n := t])
  {
  }

  lemma KeepsTransitive(a: Db, b: Db, c: Db)
    requires KeepsPicklists(a, b) && KeepsPicklists(b, c)
    ensures KeepsPicklists(a, c)
  {
  }

  lemma PointsKept(a: Db, b: Db, f: Field, text: Value, vid: int)
    requires KeepsPicklists(a, b) && Points(a, f, text, vid)
    ensures Points(b, f, text, vid)
  {
    assert b[PicklistValues].rows[vid] == a[PicklistValues].rows[vid];
  }

  /** Adding a value grows the database in that sense and keeps value ids below the counter. */
  lemma AddGrows(db: Db, tid: Value, value: Value)
    requires ValuesWellFormed(db)
    ensures var db' := AddPicklistValue(db, tid, value, Int(0), false).0;
      Grows(db, db') && ValuesWellFormed(db')
  {
    var db' := AddPicklistValue(db, tid, value, Int(0), false).0;
    if db' != db {
      var t := db[PicklistValues];
      var sets := ValueFields(tid, value, Int(0), false);
      assert Insert(t, sets).1.Ok?;
    }
  }

  // ---------------------------------------------------------------------------------------
  // Looking one text up

  /** The join behind the case-insensitive stage match: every value row, active or not, of a
      type named `stage`, in scan order. Missing tables or columns are a storage error. */
  function StageRows(db: Db): (r: Result<seq<Record>>)
    ensures Ready(db) ==> r.Ok?
    ensures r.Ok? ==> PicklistTypes in db && PicklistValues in db
    ensures r.Ok? ==> forall i :: 0 <= i < |r.value| ==>
      (&& r.value[i].id in db[PicklistValues].rows
       && r.value[i].row == db[PicklistValues].rows[r.value[i].id]
       && Col(r.value[i].row, "picklist_type_id").Int?
       && NamedType(db, Col(r.value[i].row, "picklist_type_id").i, TypeName(Stage)))
    ensures r.Ok? && WellFormed(db[PicklistValues]) ==> forall id ::
      (&& id in db[PicklistValues].rows
       && Col(db[PicklistValues].rows[id], "picklist_type_id").Int?
       && NamedType(db, Col(db[PicklistValues].rows[id], "picklist_type_id").i, TypeName(Stage)))
      ==> exists i :: 0 <= i < |r.value| && r.value[i].id == id
  {
    if PicklistTypes !in db || PicklistValues !in db then Err(OperationalError)
    else if "name" !in db[PicklistTypes].columns || "value" !in db[PicklistValues].columns then Err(OperationalError)
    else
      var cond := OneOf("picklist_type_id", TypeIds(db, TypeName(Stage)));
      assert Ready(db) ==> CondColumns(cond) <= db[PicklistValues].columns;
      Select(db[PicklistValues], cond)
  }

  /** The row's text folds to `key` under ASCII lower-casing. */
  predicate Folds(row: Row, key: string) {
    Col(row, "value").Text? && Lower(Col(row, "value").s) == key
  }

  /** `{value.lower(): id for each row}[key]`: when several rows fold to the same key the
      dictionary keeps the last one. */
  function LastFolding(rs: seq<Record>, key: string): (r: Option<int>)
    ensures r.None? <==> forall i :: 0 <= i < |rs| ==> !Folds(rs[i].row, key)
    ensures r.Some? ==> exists i :: (0 <= i < |rs| && rs[i].id == r.value && Folds(rs[i].row, key)
      && forall j :: i < j < |rs| ==> !Folds(rs[j].row, key))
  {
    if rs == [] then None
    else if Folds(rs[|rs| - 1].row, key) then Some(rs[|rs| - 1].id)
    else
      var r := LastFolding(rs[..|rs| - 1], key);
      assert forall i :: 0 <= i < |rs| - 1 ==> rs[..|rs| - 1][i] == rs[i];
      r
  }

  /** The case-insensitive stage match, tried when the exact lookup finds nothing. */
  function CaseMatch(db: Db, stage: Value): (r: Result<Option<int>>)
    ensures Ready(db) ==> r.Ok?
    ensures r.Ok? <==> StageRows(db).Ok?
    ensures r.Ok? && r.value.Some? ==> Points(db, Stage, stage, r.value.value)
    ensures r.Ok? && r.value.Some? ==> stage.Text? && r.value == LastFolding(StageRows(db).value, Lower(stage.s))
    ensures r.Ok? && r.value.None? && stage.Text? ==>
      forall i :: 0 <= i < |StageRows(db).value| ==> !Folds(StageRows(db).value[i].row, Lower(stage.s))
  {
    match StageRows(db)
    case Err(e) => Err(e)
    case Ok(rs) =>
      if stage.Text? then Ok(LastFolding(rs, Lower(stage.s))) else Ok(None)
  }

  /** The fallback of the loop body: add the text under the first type with the field's name.
      No such type skips the text, and so does `add_picklist_value` failing. */
  function AddUnderType(db: Db, f: Field, text: Value): (r: (Db, Result<Option<int>>))
    requires ValuesWellFormed(db) && Filled(text)
    ensures Grows(db, r.0) && ValuesWellFormed(r.0)
    ensures Ready(db) ==> Ready(r.0)
    ensures r.1.Ok? && r.1.value.Some? ==> Points(r.0, f, text, r.1.value.value)
  {
    match DbFirst(db, PicklistTypes, Equals("name", TypeName(f)))
    case Err(e) => (db, Err(e))
    case Ok(None) => (db, Ok(None))
    case Ok(Some(tid)) =>
      AddGrows(db, Int(tid), text);
      AddKeepsReady(db, Int(tid), text, Int(0), false);
      var (db', id) := AddPicklistValue(db, Int(tid), text, Int(0), false);
      assert db'[PicklistTypes] == db[PicklistTypes];
      (db', Ok(id))
  }

  /** With the tables ready and a type of the field's name present, adding always yields an id. */
  lemma AddUnderTypeFinds(db: Db, f: Field, text: Value)
    requires Ready(db) && HasType(db, f) && Filled(text)
    ensures var r := AddUnderType(db, f, text); r.1.Ok? && r.1.value.Some?
  {
    var tid :| NamedType(db, tid, TypeName(f));
    var found := First(db[PicklistTypes], Equals("name", TypeName(f)));
    assert found.Some? by {
      assert Holds(Equals("name", TypeName(f)), db[PicklistTypes].rows[tid]);
    }
    AddValueFound(db, Int(found.value), text, Int(0), false);
  }

  /** One pass of the loop body: the exact lookup among active values, then (for stages) the
      case-insensitive match, then adding the text under the field's type. */
  function Lookup(db: Db, f: Field, text: Value): (r: (Db, Result<Option<int>>))
    requires ValuesWellFormed(db) && Filled(text)
    ensures Grows(db, r.0) && ValuesWellFormed(r.0)
    ensures Ready(db) ==> Ready(r.0)
    ensures r.1.Ok? && r.1.value.Some? ==> Points(r.0, f, text, r.1.value.value)
    // An exact hit among the active values wins, and nothing is written.
    ensures GetPicklistIdByValue(db, TypeName(f), text).Some? ==>
      r == (db, Ok(GetPicklistIdByValue(db, TypeName(f), text)))
    // Otherwise a stage whose text matches a stored stage ignoring case takes that row, and
    // nothing is written.
    ensures && f == Stage && GetPicklistIdByValue(db, TypeName(f), text).None? && StageRows(db).Ok?
            && text.Text? && LastFolding(StageRows(db).value, Lower(text.s)).Some? ==>
      r == (db, Ok(LastFolding(StageRows(db).value, Lower(text.s))))
    // Only when neither finds a row is the text added.
    ensures r.0 != db ==>
      && GetPicklistIdByValue(db, TypeName(f), text).None?
      && (f == Stage ==> StageRows(db).Ok?)
      && (f == Stage && text.Text? ==>
            forall i :: 0 <= i < |StageRows(db).value| ==> !Folds(StageRows(db).value[i].row, Lower(text.s)))
  {
    var exact := GetPicklistIdByValue(db, TypeName(f), text);
    if exact.Some? then (db, Ok(exact))
    else
      var folded := if f == Stage then CaseMatch(db, text) else Ok(None);
      if folded.Err? then (db, Err(folded.failure))
      else if folded.value.Some? then (db, Ok(folded.value))
      else AddUnderType(db, f, text)
  }

  /** With the picklist tables ready and a type of the field's name present, the lookup always
      yields an id, and leaves the tables ready with the type still there. */
  lemma LookupFinds(db: Db, f: Field, text: Value)
    requires Ready(db) && HasType(db, f) && Filled(text)
    ensures var r := Lookup(db, f, text);
      r.1.Ok? && r.1.value.Some? && Ready(r.0) && HasType(r.0, f)
  {
    var exact := GetPicklistIdByValue(db, TypeName(f), text);
    if exact.None? && (f == Industry || CaseMatch(db, text).value.None?) {
      assert Lookup(db, f, text) == AddUnderType(db, f, text);
      AddUnderTypeFinds(db, f, text);
    }
    var tid :| NamedType(db, tid, TypeName(f));
    var db' := Lookup(db, f, text).0;
    assert db'[PicklistTypes] == db[PicklistTypes];
    assert NamedType(db', tid, TypeName(f));
  }

  // ---------------------------------------------------------------------------------------
  // The loop over the distinct texts

  /** The (text, id) pairs have distinct texts, as the keys of a dictionary. */
  predicate DistinctKeys(pairs: seq<(Value, int)>) {
    forall i, j :: 0 <= i < j < |pairs| ==> pairs[i].0 != pairs[j].0
  }

  /** Look every text up in order, keeping the pairs that found or created a value, and stop at
      the first storage error. */
  function MapAll(db: Db, f: Field, texts: seq<Value>): (r: (Db, Result<seq<(Value, int)>>))
    requires ValuesWellFormed(db)
    requires forall i :: 0 <= i < |texts| ==> Filled(texts[i])
    ensures Grows(db, r.0) && ValuesWellFormed(r.0)
    ensures Ready(db) ==> Ready(r.0)
    ensures r.1.Ok? ==> forall p :: p in r.1.value ==> p.0 in texts && Points(r.0, f, p.0, p.1)
    ensures r.1.Ok? && Distinct(texts) ==> DistinctKeys(r.1.value)
    decreases |texts|
  {
    if texts == [] then (db, Ok([]))
    else
      var (db1, found) := Lookup(db, f, texts[0]);
      if found.Err? then (db1, Err(found.failure))
      else
        FilledTail(texts);
        var (db2, rest) := MapAll(db1, f, texts[1..]);
        GrowsTransitive(db, db1, db2);
        if rest.Err? || found.value.None? then (db2, rest)
        else
          MapAllCons(db1, db2, f, texts, found.value.value, rest.value);
          (db2, Ok([(texts[0], found.value.value)] + rest.value))
  }

  lemma MapAllCons(db1: Db, db2: Db, f: Field, texts: seq<Value>, id: int, rest: seq<(Value, int)>)
    requires texts != [] && Grows(db1, db2) && Points(db1, f, texts[0], id)
    requires forall p :: p in rest ==> p.0 in texts[1..] && Points(db2, f, p.0, p.1)
    requires Distinct(texts[1..]) ==> DistinctKeys(rest)
    ensures var pairs := [(texts[0], id)] + rest;
      && (forall p :: p in pairs ==> p.0 in texts && Points(db2, f, p.0, p.1))
      && (Distinct(texts) ==> DistinctKeys(pairs))
  {
    PointsGrow(db1, db2, f, texts[0], id);
    var pairs := [(texts[0], id)] + rest;
    assert forall p :: p in pairs ==> p == pairs[0] || p in rest;
    if Distinct(texts) {
      assert texts[0] !in texts[1..];
      assert Distinct(texts[1..]);
      forall i, j | 0 <= i < j < |pairs| ensures pairs[i].0 != pairs[j].0 {
        if i == 0 {
          assert pairs[j] in rest;
        } else {
          assert pairs[i] == rest[i - 1] && pairs[j] == rest[j - 1];
        }
      }
    }
  }

  lemma FilledTail(texts: seq<Value>)
    requires texts != [] && forall i :: 0 <= i < |texts| ==> Filled(texts[i])
    ensures forall i :: 0 <= i < |texts[1..]| ==> Filled(texts[1..][i])
  {
    forall i | 0 <= i < |texts[1..]| ensures Filled(texts[1..][i]) {
      assert texts[1..][i] == texts[i + 1];
    }
  }

  /** A first text that finds an id, followed by a successful rest, gives the pair and the rest. */
  lemma MapAllStep(db: Db, f: Field, texts: seq<Value>)
    requires ValuesWellFormed(db)
    requires texts != [] && forall i :: 0 <= i < |texts| ==> Filled(texts[i])
    requires forall i :: 0 <= i < |texts[1..]| ==> Filled(texts[1..][i])
    requires Lookup(db, f, texts[0]).1.Ok? && Lookup(db, f, texts[0]).1.value.Some?
    ensures var db1 := Lookup(db, f, texts[0]).0;
      MapAll(db1, f, texts[1..]).1.Ok? ==>
        MapAll(db, f, texts).1 == Ok([(texts[0], Lookup(db, f, texts[0]).1.value.value)] + MapAll(db1, f, texts[1..]).1.value)
  {
  }

  /** With the tables ready and the type present, every text gets an id. */
  lemma {:induction false} MapAllComplete(db: Db, f: Field, texts: seq<Value>)
    requires Ready(db) && HasType(db, f)
    requires forall i :: 0 <= i < |texts| ==> Filled(texts[i])
    ensures var r := MapAll(db, f, texts);
      r.1.Ok? && forall t :: t in texts ==> exists id :: (t, id) in r.1.value
    decreases |texts|
  {
    if texts != [] {
      LookupFinds(db, f, texts[0]);
      FilledTail(texts);
      var (db1, found) := Lookup(db, f, texts[0]);
      MapAllComplete(db1, f, texts[1..]);
      MapAllStep(db, f, texts);
      ConsCovers(texts, found.value.value, MapAll(db1, f, texts[1..]).1.value);
    }
  }

  lemma ConsCovers(texts: seq<Value>, id: int, rest: seq<(Value, int)>)
    requires texts != [] && forall t :: t in texts[1..] ==> exists vid :: (t, vid) in rest
    ensures forall t :: t in texts ==> exists vid :: (t, vid) in [(texts[0], id)] + rest
  {
    var pairs := [(texts[0], id)] + rest;
    forall t | t in texts ensures exists vid :: (t, vid) in pairs {
      if t == texts[0] {
        assert (texts[0], id) in pairs;
      } else {
        assert t in texts[1..];
        var vid :| (t, vid) in rest;
        assert (t, vid) in pairs;
      }
    }
  }

  // ---------------------------------------------------------------------------------------
  // The UPDATEs

  /** `UPDATE t SET target = id WHERE key = text` for every pair in turn; the first failing
      statement aborts the run. */
  function UpdateAll(t: Table, key: Column, target: Column, pairs: seq<(Value, int)>): (r: Result<Table>)
    requires key != target && DistinctKeys(pairs)
    ensures r.Ok? ==> SameShape(r.value, t) && r.value.nextId == t.nextId && r.value.rows.Keys == t.rows.Keys
    ensures r.Ok? ==> forall id, i :: id in t.rows && 0 <= i < |pairs| && SqlEq(Col(t.rows[id], key), pairs[i].0) ==>
      r.value.rows[id] == t.rows[id][target := Int(pairs[i].1)]
    ensures r.Ok? ==> forall id :: id in t.rows && (forall i :: 0 <= i < |pairs| ==> !SqlEq(Col(t.rows[id], key), pairs[i].0)) ==>
      r.value.rows[id] == t.rows[id]
    decreases |pairs|
  {
    if pairs == [] then Ok(t)
    else
      var sets := map[target := Int(pairs[0].1)];
      match UpdateWhere(t, Equals(key, pairs[0].0), sets)
      case Err(e) => Err(e)
      case Ok(t1) =>
        var r := UpdateAll(t1, key, target, pairs[1..]);
        if r.Err? then r
        else
          UpdateAllStep(t, t1, r.value, key, target, pairs);
          r
  }

  lemma UpdateAllStep(t: Table, t1: Table, t2: Table, key: Column, target: Column, pairs: seq<(Value, int)>)
    requires key != target && DistinctKeys(pairs) && pairs != []
    requires t1.rows.Keys == t.rows.Keys && t2.rows.Keys == t1.rows.Keys
    requires forall id :: id in t.rows ==>
      t1.rows[id] == if Holds(Equals(key, pairs[0].0), t.rows[id]) then t.rows[id] + map[target := Int(pairs[0].1)] else t.rows[id]
    requires forall id, i :: id in t1.rows && 0 <= i < |pairs[1..]| && SqlEq(Col(t1.rows[id], key), pairs[1..][i].0) ==>
      t2.rows[id] == t1.rows[id][target := Int(pairs[1..][i].1)]
    requires forall id :: id in t1.rows && (forall i :: 0 <= i < |pairs[1..]| ==> !SqlEq(Col(t1.rows[id], key), pairs[1..][i].0)) ==>
      t2.rows[id] == t1.rows[id]
    ensures forall id, i :: id in t.rows && 0 <= i < |pairs| && SqlEq(Col(t.rows[id], key), pairs[i].0) ==>
      t2.rows[id] == t.rows[id][target := Int(pairs[i].1)]
    ensures forall id :: id in t.rows && (forall i :: 0 <= i < |pairs| ==> !SqlEq(Col(t.rows[id], key), pairs[i].0)) ==>
      t2.rows[id] == t.rows[id]
  {
    forall id | id in t.rows
      ensures forall i :: 0 <= i < |pairs| && SqlEq(Col(t.rows[id], key), pairs[i].0) ==>
        t2.rows[id] == t.rows[id][target := Int(pairs[i].1)]
      ensures (forall i :: 0 <= i < |pairs| ==> !SqlEq(Col(t.rows[id], key), pairs[i].0)) ==>
        t2.rows[id] == t.rows[id]
    {
      var row := t.rows[id];
      assert Col(t1.rows[id], key) == Col(row, key);
      if SqlEq(Col(row, key), pairs[0].0) {
        assert t1.rows[id] == row[target := Int(pairs[0].1)];
        forall i | 0 <= i < |pairs[1..]| ensures !SqlEq(Col(t1.rows[id], key), pairs[1..][i].0) {
          assert pairs[1..][i] == pairs[i + 1];
        }
      } else {
        assert t1.rows[id] == row;
        forall i | 0 <= i < |pairs| && SqlEq(Col(row, key), pairs[i].0)
          ensures t2.rows[id] == row[target := Int(pairs[i].1)]
        {
          assert pairs[1..][i - 1] == pairs[i];
        }
        if forall i :: 0 <= i < |pairs| ==> !SqlEq(Col(row, key), pairs[i].0) {
          forall i | 0 <= i < |pairs[1..]| ensures !SqlEq(Col(t1.rows[id], key), pairs[1..][i].0) {
            assert pairs[1..][i] == pairs[i + 1];
          }
        }
      }
    }
  }

  // ---------------------------------------------------------------------------------------
  // The distinct legacy texts

  /** A column's cells in scan order. */
  function ColumnCells(t: Table, c: Column): (cells: seq<Value>)
    ensures WellFormed(t) ==> forall v :: v in cells <==> exists id :: id in t.rows && Col(t.rows[id], c) == v
  {
    var ids := Scan(t, Always);
    assert forall i :: 0 <= i < |ids| ==> ids[i] in t.rows by {
      forall i | 0 <= i < |ids| ensures ids[i] in t.rows { assert ids[i] in ids; }
    }
    var cells := seq(|ids|, i requires 0 <= i < |ids| => Col(t.rows[ids[i]], c));
    CellsCover(t, c, ids, cells);
    cells
  }

  /** The cells read along the scanned ids cover every stored row's cell. */
  lemma CellsCover(t: Table, c: Column, ids: seq<int>, cells: seq<Value>)
    requires forall i :: 0 <= i < |ids| ==> ids[i] in t.rows
    requires forall id :: id in ids <==> 1 <= id < t.nextId && id in t.rows
    requires |cells| == |ids| && forall i :: 0 <= i < |ids| ==> cells[i] == Col(t.rows[ids[i]], c)
    ensures WellFormed(t) ==> forall v :: v in cells <==> exists id :: id in t.rows && Col(t.rows[id], c) == v
  {
    if WellFormed(t) {
      forall id | id in t.rows ensures Col(t.rows[id], c) in cells {
        var i :| 0 <= i < |ids| && ids[i] == id;
        assert cells[i] == Col(t.rows[id], c);
      }
      forall v | v in cells ensures exists id :: id in t.rows && Col(t.rows[id], c) == v {
        var i :| 0 <= i < |cells| && cells[i] == v;
        var id := ids[i];
        assert id in t.rows && Col(t.rows[id], c) == v;
      }
    }
  }

  /** `SELECT DISTINCT col ... WHERE col IS NOT NULL AND col != ''`: the filled cells, each once,
      in order of first appearance. */
  function DistinctFilled(cells: seq<Value>): (r: seq<Value>)
    ensures forall v :: v in r <==> v in cells && Filled(v)
    ensures Distinct(r)
  {
    if cells == [] then []
    else
      var front := DistinctFilled(cells[..|cells| - 1]);
      var v := cells[|cells| - 1];
      assert cells == cells[..|cells| - 1] + [v];
      if Filled(v) && v !in front then front + [v] else front
  }

  // ---------------------------------------------------------------------------------------
  // migrate_existing_data

  /** `after` is `before` with `target` set to a value of the field's type whose text agrees
      with the row's `key`. */
  ghost predicate MappedRow(before: Row, after: Row, key: Column, target: Column, f: Field, db: Db) {
    exists vid :: after == before[target := Int(vid)] && Points(db, f, Col(before, key), vid)
  }

  lemma MappedKept(before: Row, after: Row, key: Column, target: Column, f: Field, a: Db, b: Db)
    requires MappedRow(before, after, key, target, f, a) && KeepsPicklists(a, b)
    ensures MappedRow(before, after, key, target, f, b)
  {
    var vid :| after == before[target := Int(vid)] && Points(a, f, Col(before, key), vid);
    PointsKept(a, b, f, Col(before, key), vid);
  }

  /** `after` is `before`, or `before` mapped as above when its `key` is filled. */
  ghost predicate BackfilledRow(before: Row, after: Row, key: Column, target: Column, f: Field, db: Db) {
    after == before || (Filled(Col(before, key)) && MappedRow(before, after, key, target, f, db))
  }

  /** `after` is `before` with `target` set on some rows whose `key` is filled, each time to a
      value of the field's type whose text agrees with the row's `key`. */
  ghost predicate BackfilledTable(before: Table, after: Table, key: Column, target: Column, f: Field, db: Db) {
    && SameShape(after, before) && after.nextId == before.nextId && after.rows.Keys == before.rows.Keys
    && forall id :: id in before.rows ==> BackfilledRow(before.rows[id], after.rows[id], key, target, f, db)
  }

  /** Every row whose `key` is filled was mapped. */
  ghost predicate MappedAll(before: Table, after: Table, key: Column, target: Column, f: Field, db: Db)
    requires after.rows.Keys == before.rows.Keys
  {
    forall id :: id in before.rows && Filled(Col(before.rows[id], key)) ==>
      MappedRow(before.rows[id], after.rows[id], key, target, f, db)
  }

  lemma MappedAllKept(before: Table, after: Table, key: Column, target: Column, f: Field, a: Db, b: Db)
    requires after.rows.Keys == before.rows.Keys
    requires MappedAll(before, after, key, target, f, a) && KeepsPicklists(a, b)
    ensures MappedAll(before, after, key, target, f, b)
  {
    forall id | id in before.rows && Filled(Col(before.rows[id], key))
      ensures MappedRow(before.rows[id], after.rows[id], key, target, f, b)
    {
      MappedKept(before.rows[id], after.rows[id], key, target, f, a, b);
    }
  }

  lemma Backfilled(before: Table, after: Table, key: Column, target: Column, f: Field, db: Db, pairs: seq<(Value, int)>)
    requires SameShape(after, before) && after.nextId == before.nextId && after.rows.Keys == before.rows.Keys
    requires forall p :: p in pairs ==> Points(db, f, p.0, p.1)
    requires forall id, i :: id in before.rows && 0 <= i < |pairs| && SqlEq(Col(before.rows[id], key), pairs[i].0) ==>
      after.rows[id] == before.rows[id][target := Int(pairs[i].1)]
    requires forall id :: id in before.rows && (forall i :: 0 <= i < |pairs| ==> !SqlEq(Col(before.rows[id], key), pairs[i].0)) ==>
      after.rows[id] == before.rows[id]
    requires forall p :: p in pairs ==> Filled(p.0)
    ensures BackfilledTable(before, after, key, target, f, db)
  {
    forall id | id in before.rows
      ensures BackfilledRow(before.rows[id], after.rows[id], key, target, f, db)
    {
      if i :| 0 <= i < |pairs| && SqlEq(Col(before.rows[id], key), pairs[i].0) {
        assert pairs[i] in pairs;
        assert MappedRow(before.rows[id], after.rows[id], key, target, f, db);
      }
    }
  }

  lemma BackfilledKept(before: Table, after: Table, key: Column, target: Column, f: Field, a: Db, b: Db)
    requires BackfilledTable(before, after, key, target, f, a) && KeepsPicklists(a, b)
    ensures BackfilledTable(before, after, key, target, f, b)
  {
    forall id | id in before.rows
      ensures BackfilledRow(before.rows[id], after.rows[id], key, target, f, b)
    {
      if after.rows[id] != before.rows[id] {
        MappedKept(before.rows[id], after.rows[id], key, target, f, a, b);
      }
    }
  }

  /** Restore one table to its state before the failed transaction. */
  function Restore(db: Db, before: Db, n: TableName): (r: Db)
    ensures r.Keys == db.Keys + (if n in before then {n} else {})
    ensures forall m :: m in db && m != n ==> r[m] == db[m]
    ensures n in before ==> r[n] == before[n]
  {
    if n in before then db[n := before[n]] else db
  }

  /** One half of the back-fill: read the distinct filled `key` texts of table `n`, look each one
      up, then run `UPDATE n SET target = id WHERE key = text` for every text that got an id.
      The result is the database after the lookups (values added stay) and the updated table,
      or `None` when a statement failed. */
  function BackfillField(db: Db, n: TableName, key: Column, target: Column, f: Field): (r: (Db, Option<Table>))
    requires ValuesWellFormed(db) && n in db && n != PicklistValues && key in db[n].columns && key != target
    ensures Grows(db, r.0) && ValuesWellFormed(r.0)
    ensures Ready(db) ==> Ready(r.0)
    ensures r.1.Some? ==> BackfilledTable(db[n], r.1.value, key, target, f, r.0)
  {
    var texts := DistinctFilled(ColumnCells(db[n], key));
    var (db1, mapped) := MapAll(db, f, texts);
    if mapped.Err? then (db1, None)
    else
      match UpdateAll(db1[n], key, target, mapped.value)
      case Err(_) => (db1, None)
      case Ok(t) =>
        Backfilled(db[n], t, key, target, f, db1, mapped.value);
        (db1, Some(t))
  }

  /** With the picklist tables ready and the field's type present, a successful half maps every
      row whose `key` is filled. */
  lemma BackfillFieldComplete(db: Db, n: TableName, key: Column, target: Column, f: Field)
    requires ValuesWellFormed(db) && n in db && n != PicklistValues && key in db[n].columns && key != target
    requires Ready(db) && HasType(db, f) && WellFormed(db[n])
    requires BackfillField(db, n, key, target, f).1.Some?
    ensures var r := BackfillField(db, n, key, target, f);
      r.1.value.rows.Keys == db[n].rows.Keys && MappedAll(db[n], r.1.value, key, target, f, r.0)
  {
    var texts := DistinctFilled(ColumnCells(db[n], key));
    MapAllComplete(db, f, texts);
    var (db1, mapped) := MapAll(db, f, texts);
    var t := BackfillField(db, n, key, target, f).1.value;
    assert UpdateAll(db1[n], key, target, mapped.value) == Ok(t);
    AllAssigned(db[n], t, key, target, f, db1, mapped.value, texts);
  }

  lemma AllAssigned(before: Table, after: Table, key: Column, target: Column, f: Field, db: Db, pairs: seq<(Value, int)>, texts: seq<Value>)
    requires after.rows.Keys == before.rows.Keys
    requires forall id, i :: id in before.rows && 0 <= i < |pairs| && SqlEq(Col(before.rows[id], key), pairs[i].0) ==>
      after.rows[id] == before.rows[id][target := Int(pairs[i].1)]
    requires forall p :: p in pairs ==> Points(db, f, p.0, p.1)
    requires forall text :: text in texts ==> exists vid :: (text, vid) in pairs
    requires forall id :: id in before.rows && Filled(Col(before.rows[id], key)) ==> Col(before.rows[id], key) in texts
    ensures MappedAll(before, after, key, target, f, db)
  {
    forall id | id in before.rows && Filled(Col(before.rows[id], key))
      ensures MappedRow(before.rows[id], after.rows[id], key, target, f, db)
    {
      var text := Col(before.rows[id], key);
      var vid :| (text, vid) in pairs;
      var i :| 0 <= i < |pairs| && pairs[i] == (text, vid);
      assert after.rows[id] == before.rows[id][target := Int(vid)];
    }
  }

  /** `migrate_existing_data`. With no Accounts.industry column the first SELECT fails and
      nothing changes. Otherwise every distinct filled industry is looked up or added, and the
      accounts holding it get its id in industry_id; when Opportunities has both stage and
      stage_id the same happens for stages. A storage error rolls back every UPDATE, while the
      values added so far stay. The boolean is the function's result. */
  function MigrateExistingData(db: Db): (r: (Db, bool))
    requires WellFormedDb(db)
    ensures "industry" !in ColumnsOf(db, Accounts) ==> r == (db, false)
    ensures !r.1 ==> Grows(db, r.0)
    ensures r.1 ==> r.0.Keys == db.Keys && Accounts in db
    ensures r.1 ==> forall n :: n in db && n != Accounts && n != Opportunities && n != PicklistValues ==> r.0[n] == db[n]
    ensures r.1 ==> BackfilledTable(db[Accounts], r.0[Accounts], "industry", "industry_id", Industry, r.0)
    ensures r.1 && Opportunities in db ==>
      if "stage" in db[Opportunities].columns && "stage_id" in db[Opportunities].columns
      then BackfilledTable(db[Opportunities], r.0[Opportunities], "stage", "stage_id", Stage, r.0)
      else r.0[Opportunities] == db[Opportunities]
  {
    if "industry" !in ColumnsOf(db, Accounts) then (db, false)
    else
      var (db1, accounts) := BackfillField(db, Accounts, "industry", "industry_id", Industry);
      if accounts.None? then (db1, false)
      else
        var db2 := db1[Accounts := accounts.value];
        KeepsOtherTable(db1, Accounts, accounts.value);
        BackfilledKept(db[Accounts], accounts.value, "industry", "industry_id", Industry, db1, db2);
        var cols := ColumnsOf(db2, Opportunities);
        if !("stage" in cols && "stage_id" in cols) then (db2, true)
        else
          var (db3, opps) := BackfillField(db2, Opportunities, "stage", "stage_id", Stage);
          if opps.None? then
            RollbackGrows(db, db1, db2, db3);
            (Restore(db3, db, Accounts), false)
          else
            var db4 := db3[Opportunities := opps.value];
            GrowsKeeps(db2, db3);
            KeepsOtherTable(db3, Opportunities, opps.value);
            KeepsTransitive(db2, db3, db4);
            BackfilledKept(db[Accounts], accounts.value, "industry", "industry_id", Industry, db2, db4);
            BackfilledKept(db[Opportunities], opps.value, "stage", "stage_id", Stage, db3, db4);
            CommitFrame(db, db1, db3, db4);
            (db4, true)
  }

  /** After both halves only Accounts, Opportunities and the value table differ. */
  lemma CommitFrame(db: Db, db1: Db, db3: Db, db4: Db)
    requires Accounts in db && Opportunities in db && Accounts in db4 && Opportunities in db4
    requires Grows(db, db1) && Grows(db1[Accounts := db4[Accounts]], db3)
    requires db4 == db3[Opportunities := db4[Opportunities]]
    ensures db4.Keys == db.Keys
    ensures forall n :: n in db && n != Accounts && n != Opportunities && n != PicklistValues ==> db4[n] == db[n]
  {
  }

  /** Rolling the Accounts UPDATEs back leaves only the added values. */
  lemma RollbackGrows(db: Db, db1: Db, db2: Db, db3: Db)
    requires Accounts in db && Accounts in db2 && Grows(db, db1) && Grows(db2, db3)
    requires db2 == db1[Accounts := db2[Accounts]]
    ensures Grows(db, Restore(db3, db, Accounts))
  {
  }

  /** With the picklist tables in place, a successful back-fill leaves no filled industry (and,
      when stages are migrated, no filled stage) unmapped, as long as the type exists. */
  lemma MigrateExistingDataComplete(db: Db)
    requires WellFormedDb(db) && Ready(db) && MigrateExistingData(db).1
    ensures var r := MigrateExistingData(db).0;
      HasType(db, Industry) ==> MappedAll(db[Accounts], r[Accounts], "industry", "industry_id", Industry, r)
    ensures var r := MigrateExistingData(db).0;
      (Opportunities in db && "stage" in db[Opportunities].columns && "stage_id" in db[Opportunities].columns
       && HasType(db, Stage)) ==> MappedAll(db[Opportunities], r[Opportunities], "stage", "stage_id", Stage, r)
  {
    IndustryPassComplete(db);
    StagePassComplete(db);
  }

  /** The industry half of `MigrateExistingDataComplete`. */
  lemma IndustryPassComplete(db: Db)
    requires WellFormedDb(db) && Ready(db) && MigrateExistingData(db).1
    ensures var r := MigrateExistingData(db).0;
      HasType(db, Industry) ==> MappedAll(db[Accounts], r[Accounts], "industry", "industry_id", Industry, r)
  {
    if HasType(db, Industry) {
      var (db1, accounts) := BackfillField(db, Accounts, "industry", "industry_id", Industry);
      var r := MigrateExistingData(db).0;
      IndustryPassKept(db);
      BackfillFieldComplete(db, Accounts, "industry", "industry_id", Industry);
      MappedAllKept(db[Accounts], accounts.value, "industry", "industry_id", Industry, db1, r);
    }
  }

  /** After a successful back-fill the accounts are those of the industry pass, and the stage
      pass after it keeps every picklist row that pass left. */
  lemma IndustryPassKept(db: Db)
    requires WellFormedDb(db) && MigrateExistingData(db).1
    ensures var (db1, accounts) := BackfillField(db, Accounts, "industry", "industry_id", Industry);
      var r := MigrateExistingData(db).0;
      accounts.Some? && r[Accounts] == accounts.value && KeepsPicklists(db1, r)
  {
    var (db1, accounts) := BackfillField(db, Accounts, "industry", "industry_id", Industry);
    var db2 := db1[Accounts := accounts.value];
    var r := MigrateExistingData(db).0;
    KeepsOtherTable(db1, Accounts, accounts.value);
    var cols := ColumnsOf(db2, Opportunities);
    if "stage" in cols && "stage_id" in cols {
      var (db3, opps) := BackfillField(db2, Opportunities, "stage", "stage_id", Stage);
      var db4 := db3[Opportunities := opps.value];
      assert r == db4;
      GrowsKeeps(db2, db3);
      KeepsOtherTable(db3, Opportunities, opps.value);
      KeepsTransitive(db2, db3, db4);
      KeepsTransitive(db1, db2, db4);
    } else {
      assert r == db2;
    }
  }

  /** The stage half of `MigrateExistingDataComplete`. */
  lemma StagePassComplete(db: Db)
    requires WellFormedDb(db) && Ready(db) && MigrateExistingData(db).1
    ensures var r := MigrateExistingData(db).0;
      (Opportunities in db && "stage" in db[Opportunities].columns && "stage_id" in db[Opportunities].columns
       && HasType(db, Stage)) ==> MappedAll(db[Opportunities], r[Opportunities], "stage", "stage_id", Stage, r)
  {
    if Opportunities in db && "stage" in db[Opportunities].columns && "stage_id" in db[Opportunities].columns && HasType(db, Stage) {
      var (db1, accounts) := BackfillField(db, Accounts, "industry", "industry_id", Industry);
      var db2 := db1[Accounts := accounts.value];
      var r := MigrateExistingData(db).0;
      KeepsOtherTable(db1, Accounts, accounts.value);
      var (db3, opps) := BackfillField(db2, Opportunities, "stage", "stage_id", Stage);
      var db4 := db3[Opportunities := opps.value];
      assert r == db4;
      var tid :| NamedType(db, tid, TypeName(Stage));
      assert NamedType(db2, tid, TypeName(Stage));
      BackfillFieldComplete(db2, Opportunities, "stage", "stage_id", Stage);
      MappedAllKept(db[Opportunities], opps.value, "stage", "stage_id", Stage, db3, db4);
    }
  }
}
