/** src/picklist.py: picklist types (`industry`, `stage`, ...) and their values, stored in the
    PicklistType and PicklistValue tables; reads in display order; the default-selection rule. */
module Picklist {
  import opened Base
  import opened Storage
  import opened Schema

  /** One entry of `get_picklist_values`: the value's id, text, display order and default flag. */
  datatype PickValue = PickValue(id: int, value: Value, order: Value, isDefault: Value)

  /** The picklist tables exist with the columns and constraints `create_tables` gives them, and
      their stored rows respect those constraints. */
  predicate Ready(db: Db) {
    && PicklistTypes in db && PicklistValues in db
    && SameShape(db[PicklistTypes], CurrentTable(PicklistTypes))
    && SameShape(db[PicklistValues], CurrentTable(PicklistValues))
    && WellFormed(db[PicklistTypes]) && WellFormed(db[PicklistValues])
    && Unique(db[PicklistTypes]) && Unique(db[PicklistValues])
  }

  /** The stored type row with this id is named `name`. */
  predicate NamedType(db: Db, tid: int, name: Value)
    requires PicklistTypes in db
  {
    tid in db[PicklistTypes].rows && SqlEq(Col(db[PicklistTypes].rows[tid], "name"), name)
  }

  /** The ids of the types named `name`, as the values a join on `picklist_type_id` matches. */
  function TypeIds(db: Db, name: Value): (ids: set<Value>)
    requires PicklistTypes in db
    ensures forall v :: v in ids <==> v.Int? && NamedType(db, v.i, name)
  {
    set tid | tid in db[PicklistTypes].rows && SqlEq(Col(db[PicklistTypes].rows[tid], "name"), name) :: Int(tid)
  }

  /** The WHERE clause of a lookup by (type id, value). */
  function PairCond(tid: Value, value: Value): Cond {
    Both(Equals("picklist_type_id", tid), Equals("value", value))
  }

  /** The join and filter of the picklist reads: the value belongs to a type named `name` and is active. */
  function ListedCond(db: Db, name: Value): Cond
    requires PicklistTypes in db
  {
    Both(OneOf("picklist_type_id", TypeIds(db, name)), Equals("is_active", Int(1)))
  }

  /** The value row belongs to a type named `name` and is active. */
  predicate Listed(db: Db, name: Value, row: Row)
    requires PicklistTypes in db
  {
    Col(row, "picklist_type_id").Int? && NamedType(db, Col(row, "picklist_type_id").i, name)
    && SqlEq(Col(row, "is_active"), Int(1))
  }

  lemma ListedHolds(db: Db, name: Value, row: Row)
    requires PicklistTypes in db
    ensures Holds(ListedCond(db, name), row) <==> Listed(db, name, row)
  {
    HoldsBoth(OneOf("picklist_type_id", TypeIds(db, name)), Equals("is_active", Int(1)), row);
  }

  lemma HoldsBoth(a: Cond, b: Cond, row: Row)
    ensures Holds(Both(a, b), row) <==> Holds(a, row) && Holds(b, row)
  {
  }

  /** The lookup by (type id, value) matches exactly the rows holding both. */
  lemma PairHolds(tid: Value, value: Value, row: Row)
    ensures Holds(PairCond(tid, value), row) <==> SqlEq(Col(row, "picklist_type_id"), tid) && SqlEq(Col(row, "value"), value)
  {
    HoldsBoth(Equals("picklist_type_id", tid), Equals("value", value), row);
  }

  /** Two rows matching the same (type id, value) lookup clash on the pair's UNIQUE key. */
  lemma PairClash(tid: Value, value: Value, a: Row, b: Row)
    requires Holds(PairCond(tid, value), a) && Holds(PairCond(tid, value), b)
    ensures Clash(a, b, ["picklist_type_id", "value"])
  {
    PairHolds(tid, value, a);
    PairHolds(tid, value, b);
  }

  /** Clashing on the pair's key is agreeing on both columns, with neither NULL. */
  lemma PairClashIff(a: Row, b: Row)
    ensures Clash(a, b, ["picklist_type_id", "value"]) <==>
      (Col(a, "picklist_type_id") != Null && Col(a, "picklist_type_id") == Col(b, "picklist_type_id")
       && Col(a, "value") != Null && Col(a, "value") == Col(b, "value"))
  {
    var key := ["picklist_type_id", "value"];
    assert key[0] == "picklist_type_id" && key[1] == "value";
  }

  lemma NameClashIff(a: Row, b: Row)
    ensures Clash(a, b, ["name"]) <==> Col(a, "name") != Null && Col(a, "name") == Col(b, "name")
  {
    var key := ["name"];
    assert key[0] == "name";
  }

  // ---------------------------------------------------------------------------------------
  // create_picklist_type

  /** `create_picklist_type`: insert a type; when the insert breaks a constraint (the name is
      taken, or a NOT NULL field is missing) return the id of the type with that name, if any. */
  function CreatePicklistType(db: Db, name: Value, entity: Value, description: Value): (r: (Db, Option<int>))
    ensures r.1.None? ==> r.0 == db
    ensures r.0 != db ==>
      (PicklistTypes in db && r.1 == Some(db[PicklistTypes].nextId)
       && r.0 == db[PicklistTypes := Insert(db[PicklistTypes], TypeFields(name, entity, description)).0])
    ensures r.0 == db && r.1.Some? ==> PicklistTypes in db && NamedType(db, r.1.value, name)
  {
    var (db', res) := DbInsert(db, PicklistTypes, TypeFields(name, entity, description));
    match res
    case Ok(id) => (db', Some(id))
    case Err(IntegrityError) =>
      (db, First(db[PicklistTypes], Equals("name", name)))
    case Err(OperationalError) => (db, None)
  }

  function TypeFields(name: Value, entity: Value, description: Value): map<Column, Value> {
    map["name" := name, "description" := description, "entity_type" := entity]
  }

  /** A name that is already taken gives back that type's id and creates nothing. */
  lemma CreateTypeExisting(db: Db, name: Value, entity: Value, description: Value, tid: int)
    requires Ready(db) && NamedType(db, tid, name)
    ensures CreatePicklistType(db, name, entity, description) == (db, Some(tid))
  {
    var t := db[PicklistTypes];
    var row := NewRow(t, TypeFields(name, entity, description));
    NameClashIff(row, t.rows[tid]);
    assert t.uniques == {["name"]};
    assert Collides(t, row, {});
    var found := First(t, Equals("name", name));
    NameClashIff(t.rows[found.value], t.rows[tid]);
    assert found.value == tid;
  }

  /** A new name with an entity type is inserted as a fresh type row. */
  lemma CreateTypeFresh(db: Db, name: Value, entity: Value, description: Value)
    requires Ready(db) && name != Null && entity != Null
    requires forall tid :: tid in db[PicklistTypes].rows ==> !NamedType(db, tid, name)
    ensures var r := CreatePicklistType(db, name, entity, description);
      && r.1 == Some(db[PicklistTypes].nextId)
      && r.0[PicklistTypes].rows == db[PicklistTypes].rows[db[PicklistTypes].nextId := NewRow(db[PicklistTypes], TypeFields(name, entity, description))]
      && Ready(r.0) && NamedType(r.0, r.1.value, name)
  {
    var t := db[PicklistTypes];
    var sets := TypeFields(name, entity, description);
    var row := NewRow(t, sets);
    assert !NullViolation(t, row);
    assert !Collides(t, row, {}) by {
      assert t.uniques == {["name"]};
      forall id | id in t.rows ensures !Clash(row, t.rows[id], ["name"]) {
        NameClashIff(row, t.rows[id]);
      }
    }
    InsertKeepsUnique(t, sets);
  }

  /** Creating a type keeps the picklist tables in shape, with their constraints holding. */
  lemma CreateKeepsReady(db: Db, name: Value, entity: Value, description: Value)
    ensures Ready(db) ==> Ready(CreatePicklistType(db, name, entity, description).0)
  {
    if Ready(db) {
      var t := db[PicklistTypes];
      var sets := TypeFields(name, entity, description);
      if Insert(t, sets).1.Ok? {
        InsertKeepsUnique(t, sets);
      }
    }
  }

  /** With the tables in place, a name and an entity type, creating always yields an id: a fresh
      type or the one already holding the name. */
  lemma CreateTypeFound(db: Db, name: Value, entity: Value, description: Value)
    requires Ready(db) && name != Null && entity != Null
    ensures CreatePicklistType(db, name, entity, description).1.Some?
  {
    var t := db[PicklistTypes];
    var sets := TypeFields(name, entity, description);
    var row := NewRow(t, sets);
    if !Insert(t, sets).1.Ok? {
      assert !NullViolation(t, row);
      assert Collides(t, row, {});
      var id, k :| id in t.rows && k in t.uniques && Clash(row, t.rows[id], k);
      assert t.uniques == {["name"]};
      NameClashIff(row, t.rows[id]);
      assert Holds(Equals("name", name), t.rows[id]);
    }
  }

  /** With the tables in place, a name and an entity type, creating yields the id of a type
      holding that name, keeps every existing type and leaves the values alone. */
  lemma CreateTypeNamed(db: Db, name: Value, entity: Value, description: Value)
    requires Ready(db) && name != Null && entity != Null
    ensures var r := CreatePicklistType(db, name, entity, description);
      && r.1.Some? && r.1.value >= 1 && Ready(r.0) && NamedType(r.0, r.1.value, name)
      && RowsKept(db[PicklistTypes], r.0[PicklistTypes]) && r.0[PicklistValues] == db[PicklistValues]
  {
    if exists tid :: NamedType(db, tid, name) {
      var tid :| NamedType(db, tid, name);
      CreateTypeExisting(db, name, entity, description, tid);
    } else {
      CreateTypeFresh(db, name, entity, description);
    }
  }

  /** Creating the same type twice gives the same id, and the second call changes nothing. */
  lemma CreateTypeIdempotent(db: Db, name: Value, entity: Value, description: Value, entity2: Value, description2: Value)
    requires Ready(db)
    requires CreatePicklistType(db, name, entity, description).1.Some?
    ensures var (db1, id1) := CreatePicklistType(db, name, entity, description);
      CreatePicklistType(db1, name, entity2, description2) == (db1, id1)
  {
    var (db1, id1) := CreatePicklistType(db, name, entity, description);
    if db1 == db {
      CreateTypeExisting(db, name, entity2, description2, id1.value);
    } else {
      assert name != Null && entity != Null by {
        assert !NullViolation(db[PicklistTypes], NewRow(db[PicklistTypes], TypeFields(name, entity, description)));
      }
      assert forall tid :: tid in db[PicklistTypes].rows ==> !NamedType(db, tid, name) by {
        forall tid | tid in db[PicklistTypes].rows ensures !NamedType(db, tid, name) {
          var t := db[PicklistTypes];
          assert t.uniques == {["name"]};
          NameClashIff(NewRow(t, TypeFields(name, entity, description)), t.rows[tid]);
        }
      }
      CreateTypeFresh(db, name, entity, description);
      CreateTypeExisting(db1, name, entity2, description2, id1.value);
    }
  }

  // ---------------------------------------------------------------------------------------
  // add_picklist_value

  function ValueFields(tid: Value, value: Value, order: Value, isDefault: bool): map<Column, Value> {
    map["picklist_type_id" := tid, "value" := value, "display_order" := order,
        "is_default" := Int(if isDefault then 1 else 0)]
  }

  /** `add_picklist_value`: insert a value; when the insert breaks a constraint return the id of the
      row with that (type, value) pair, active or not, if any. */
  function AddPicklistValue(db: Db, tid: Value, value: Value, order: Value, isDefault: bool): (r: (Db, Option<int>))
    ensures r.1.None? ==> r.0 == db
    ensures r.0 != db ==>
      (PicklistValues in db && r.1 == Some(db[PicklistValues].nextId)
       && r.0 == db[PicklistValues := Insert(db[PicklistValues], ValueFields(tid, value, order, isDefault)).0])
    ensures r.0 == db && r.1.Some? ==>
      (PicklistValues in db && r.1.value in db[PicklistValues].rows
       && Holds(PairCond(tid, value), db[PicklistValues].rows[r.1.value]))
    ensures r.1.Some? ==>
      (PicklistValues in r.0 && r.1.value in r.0[PicklistValues].rows
       && Col(r.0[PicklistValues].rows[r.1.value], "picklist_type_id") == tid
       && Col(r.0[PicklistValues].rows[r.1.value], "value") == value)
  {
    var (db', res) := DbInsert(db, PicklistValues, ValueFields(tid, value, order, isDefault));
    match res
    case Ok(id) => (db', Some(id))
    case Err(IntegrityError) => (db, First(db[PicklistValues], PairCond(tid, value)))
    case Err(OperationalError) => (db, None)
  }

  /** Adding a value keeps the picklist tables in the shape `create_tables` gives them, with
      their constraints holding. */
  lemma AddKeepsReady(db: Db, tid: Value, value: Value, order: Value, isDefault: bool)
    ensures Ready(db) ==> Ready(AddPicklistValue(db, tid, value, order, isDefault).0)
  {
    if Ready(db) {
      var t := db[PicklistValues];
      var sets := ValueFields(tid, value, order, isDefault);
      if Insert(t, sets).1.Ok? {
        InsertKeepsUnique(t, sets);
      }
    }
  }

  /** With the tables in place, a type id and a value, adding always yields an id: either a fresh
      row or the one already holding the pair. */
  lemma AddValueFound(db: Db, tid: Value, value: Value, order: Value, isDefault: bool)
    requires Ready(db) && tid != Null && value != Null
    ensures AddPicklistValue(db, tid, value, order, isDefault).1.Some?
  {
    var t := db[PicklistValues];
    var sets := ValueFields(tid, value, order, isDefault);
    var row := NewRow(t, sets);
    if !Insert(t, sets).1.Ok? {
      assert !NullViolation(t, row);
      assert Collides(t, row, {});
      var id, k :| id in t.rows && k in t.uniques && Clash(row, t.rows[id], k);
      assert t.uniques == {["picklist_type_id", "value"]};
      PairClashIff(row, t.rows[id]);
      PairHolds(tid, value, t.rows[id]);
    }
  }

  /** With the tables in place, a type id and a value, adding yields the id of a row holding the
      pair, keeps every existing value and leaves the types alone. */
  lemma AddValueStored(db: Db, tid: Value, value: Value, order: Value, isDefault: bool)
    requires Ready(db) && tid != Null && value != Null
    ensures var r := AddPicklistValue(db, tid, value, order, isDefault);
      && r.1.Some? && r.1.value >= 1 && Ready(r.0)
      && RowsKept(db[PicklistValues], r.0[PicklistValues]) && r.0[PicklistTypes] == db[PicklistTypes]
  {
    AddValueFound(db, tid, value, order, isDefault);
    AddKeepsReady(db, tid, value, order, isDefault);
  }

  /** Adding a (type, value) pair that is already stored returns the stored row's id and adds nothing. */
  lemma AddValueExisting(db: Db, tid: Value, value: Value, order: Value, isDefault: bool, vid: int)
    requires Ready(db) && vid in db[PicklistValues].rows
    requires Holds(PairCond(tid, value), db[PicklistValues].rows[vid])
    ensures AddPicklistValue(db, tid, value, order, isDefault) == (db, Some(vid))
  {
    var t := db[PicklistValues];
    var key := ["picklist_type_id", "value"];
    var row := NewRow(t, ValueFields(tid, value, order, isDefault));
    PairHolds(tid, value, t.rows[vid]);
    PairClashIff(row, t.rows[vid]);
    assert t.uniques == {key};
    assert Collides(t, row, {});
    var found := First(t, PairCond(tid, value));
    PairClash(tid, value, t.rows[found.value], t.rows[vid]);
    assert found.value == vid;
  }

  /** A pair not yet stored, with a type id and a value, is inserted as a fresh row, whatever
      other types hold the same value text: values are unique per type, not globally. */
  lemma AddValueFresh(db: Db, tid: Value, value: Value, order: Value, isDefault: bool)
    requires Ready(db) && tid != Null && value != Null
    requires forall vid :: vid in db[PicklistValues].rows ==> !Holds(PairCond(tid, value), db[PicklistValues].rows[vid])
    ensures var r := AddPicklistValue(db, tid, value, order, isDefault);
      && r.1 == Some(db[PicklistValues].nextId)
      && r.0[PicklistValues].rows == db[PicklistValues].rows[db[PicklistValues].nextId := NewRow(db[PicklistValues], ValueFields(tid, value, order, isDefault))]
      && Ready(r.0)
  {
    var t := db[PicklistValues];
    var sets := ValueFields(tid, value, order, isDefault);
    var row := NewRow(t, sets);
    assert !NullViolation(t, row);
    assert !Collides(t, row, {}) by {
      assert t.uniques == {["picklist_type_id", "value"]};
      forall id | id in t.rows ensures !Clash(row, t.rows[id], ["picklist_type_id", "value"]) {
        PairHolds(tid, value, t.rows[id]);
        PairClashIff(row, t.rows[id]);
      }
    }
    InsertKeepsUnique(t, sets);
  }

  /** Adding the same pair twice gives the same id, and the second call changes nothing. */
  lemma AddValueIdempotent(db: Db, tid: Value, value: Value, order: Value, isDefault: bool, order2: Value, isDefault2: bool)
    requires Ready(db)
    requires AddPicklistValue(db, tid, value, order, isDefault).1.Some?
    ensures var (db1, id1) := AddPicklistValue(db, tid, value, order, isDefault);
      AddPicklistValue(db1, tid, value, order2, isDefault2) == (db1, id1)
  {
    var (db1, id1) := AddPicklistValue(db, tid, value, order, isDefault);
    var t := db[PicklistValues];
    var sets := ValueFields(tid, value, order, isDefault);
    if db1 == db {
      AddValueExisting(db, tid, value, order2, isDefault2, id1.value);
    } else {
      assert tid != Null && value != Null by {
        assert !NullViolation(t, NewRow(t, sets));
      }
      assert forall vid :: vid in t.rows ==> !Holds(PairCond(tid, value), t.rows[vid]) by {
        assert t.uniques == {["picklist_type_id", "value"]};
        forall vid | vid in t.rows ensures !Holds(PairCond(tid, value), t.rows[vid]) {
          PairHolds(tid, value, t.rows[vid]);
          PairClashIff(NewRow(t, sets), t.rows[vid]);
        }
      }
      AddValueFresh(db, tid, value, order, isDefault);
      PairHolds(tid, value, db1[PicklistValues].rows[id1.value]);
      AddValueExisting(db1, tid, value, order2, isDefault2, id1.value);
    }
  }

  // ---------------------------------------------------------------------------------------
  // get_picklist_value_by_id

  /** `get_picklist_value_by_id`: the text of the value row with this id, active or not. */
  function GetPicklistValueById(db: Db, id: Value): (r: Option<Value>)
    ensures r.Some? <==> id.Int? && PicklistValues in db && id.i in db[PicklistValues].rows
    ensures r.Some? ==> r.value == Col(db[PicklistValues].rows[id.i], "value")
  {
    if id.Null? then None
    else if PicklistValues !in db || !id.Int? then None
    else
      var t := db[PicklistValues];
      if id.i in t.rows then Some(Col(t.rows[id.i], "value")) else None
  }

  /** A value just added reads back by its id. */
  lemma AddThenGetValue(db: Db, tid: Value, value: Value, order: Value, isDefault: bool)
    requires Ready(db)
    requires AddPicklistValue(db, tid, value, order, isDefault).1.Some?
    ensures var (db1, id1) := AddPicklistValue(db, tid, value, order, isDefault);
      GetPicklistValueById(db1, Int(id1.value)) == Some(value)
  {
    var r := AddPicklistValue(db, tid, value, order, isDefault);
    var t := db[PicklistValues];
    if r.0 != db {
      var row := NewRow(t, ValueFields(tid, value, order, isDefault));
      assert r.0[PicklistValues].rows[r.1.value] == row;
      assert Col(row, "value") == value;
    } else {
      PairHolds(tid, value, t.rows[r.1.value]);
    }
  }

  // ---------------------------------------------------------------------------------------
  // get_picklist_id_by_value

  /** `get_picklist_id_by_value`: an empty or missing text finds nothing; otherwise the active value
      with that exact text under a type of that name. */
  function GetPicklistIdByValue(db: Db, name: Value, value: Value): (r: Option<int>)
    ensures !Truthy(value) ==> r.None?
    ensures r.Some? ==>
      (PicklistTypes in db && PicklistValues in db && r.value in db[PicklistValues].rows
       && Listed(db, name, db[PicklistValues].rows[r.value])
       && SqlEq(Col(db[PicklistValues].rows[r.value], "value"), value))
    ensures r.None? && Truthy(value) && PicklistTypes in db && PicklistValues in db && WellFormed(db[PicklistValues]) ==>
      forall vid :: vid in db[PicklistValues].rows ==>
        !(Listed(db, name, db[PicklistValues].rows[vid]) && SqlEq(Col(db[PicklistValues].rows[vid], "value"), value))
  {
    if !Truthy(value) then None
    else if PicklistTypes !in db || PicklistValues !in db then None
    else
      var cond := Both(Equals("value", value), ListedCond(db, name));
      forall row ensures Holds(cond, row) <==> Listed(db, name, row) && SqlEq(Col(row, "value"), value) {
        HoldsBoth(Equals("value", value), ListedCond(db, name), row);
      }
      First(db[PicklistValues], cond)
  }

  // ---------------------------------------------------------------------------------------
  // get_picklist_values: ORDER BY display_order, value

  /** SQLite's storage-class rank in comparisons: NULL, then numbers, then text. */
  function Rank(v: Value): nat {
    match v
    case Null => 0
    case Int(_) => 1
    case Real(_) => 1
    case Text(_) => 2
  }

  function Num(v: Value): real
    requires v.Int? || v.Real?
  {
    if v.Int? then v.i as real else v.r
  }

  /** Text order under SQLite's BINARY collation: code point by code point, a prefix first. */
  predicate TextLe(s: string, t: string) {
    s == [] || (t != [] && (s[0] < t[0] || (s[0] == t[0] && TextLe(s[1..], t[1..]))))
  }

  lemma {:induction false} TextLeTotal(s: string, t: string)
    ensures TextLe(s, t) || TextLe(t, s)
  {
    if s != [] && t != [] && s[0] == t[0] {
      TextLeTotal(s[1..], t[1..]);
    }
  }

  lemma {:induction false} TextLeTransitive(s: string, t: string, u: string)
    requires TextLe(s, t) && TextLe(t, u)
    ensures TextLe(s, u)
  {
    if s != [] && s[0] == t[0] && t[0] == u[0] {
      TextLeTransitive(s[1..], t[1..], u[1..]);
    }
  }

  /** `a` sorts no later than `b` in an ORDER BY. */
  predicate ValueLe(a: Value, b: Value) {
    if Rank(a) != Rank(b) then Rank(a) < Rank(b)
    else if a.Null? then true
    else if a.Text? then TextLe(a.s, b.s)
    else Num(a) <= Num(b)
  }

  lemma ValueLeTotal(a: Value, b: Value)
    ensures ValueLe(a, b) || ValueLe(b, a)
  {
    if a.Text? && b.Text? {
      TextLeTotal(a.s, b.s);
    }
  }

  lemma ValueLeTransitive(a: Value, b: Value, c: Value)
    ensures ValueLe(a, b) && ValueLe(b, c) ==> ValueLe(a, c)
  {
    if a.Text? && b.Text? && c.Text? && TextLe(a.s, b.s) && TextLe(b.s, c.s) {
      TextLeTransitive(a.s, b.s, c.s);
    }
  }

  /** `ORDER BY display_order, value`: `p` sorts no later than `q`. */
  predicate KeyLe(p: PickValue, q: PickValue) {
    !ValueLe(q.order, p.order) || (ValueLe(p.order, q.order) && ValueLe(p.value, q.value))
  }

  lemma KeyLeTotal(p: PickValue, q: PickValue)
    ensures KeyLe(p, q) || KeyLe(q, p)
  {
    ValueLeTotal(p.order, q.order);
    ValueLeTotal(p.value, q.value);
  }

  lemma KeyLeTransitive(p: PickValue, q: PickValue, s: PickValue)
    requires KeyLe(p, q) && KeyLe(q, s)
    ensures KeyLe(p, s)
  {
    ValueLeTotal(p.order, q.order);
    ValueLeTotal(q.order, s.order);
    ValueLeTotal(p.order, s.order);
    ValueLeTransitive(s.order, p.order, q.order);
    ValueLeTransitive(q.order, s.order, p.order);
    ValueLeTransitive(p.order, q.order, s.order);
    ValueLeTransitive(q.order, p.order, s.order);
    ValueLeTransitive(s.order, q.order, p.order);
    ValueLeTransitive(p.value, q.value, s.value);
  }

  predicate Sorted(s: seq<PickValue>) {
    forall i, j :: 0 <= i < j < |s| ==> KeyLe(s[i], s[j])
  }

  /** Places `x` before the first entry it sorts no later than. */
  function InsertSorted(x: PickValue, s: seq<PickValue>): (r: seq<PickValue>)
    requires Sorted(s)
    ensures Sorted(r)
    ensures multiset(r) == multiset(s) + multiset{x}
  {
    if s == [] then [x]
    else if KeyLe(x, s[0]) then
      forall j | 0 <= j < |s| ensures KeyLe(x, s[j]) {
        if j > 0 { KeyLeTransitive(x, s[0], s[j]); }
      }
      [x] + s
    else
      KeyLeTotal(x, s[0]);
      var rest := InsertSorted(x, s[1..]);
      assert multiset(s[1..]) + multiset{s[0]} == multiset(s) by {
        assert s == [s[0]] + s[1..];
      }
      forall j | 0 <= j < |rest| ensures KeyLe(s[0], rest[j]) {
        assert rest[j] in multiset(rest);
      }
      [s[0]] + rest
  }

  /** Insertion sort; entries with equal keys keep their relative order. */
  function SortByKey(s: seq<PickValue>): (r: seq<PickValue>)
    ensures Sorted(r)
    ensures multiset(r) == multiset(s)
  {
    if s == [] then []
    else
      assert s == [s[0]] + s[1..];
      InsertSorted(s[0], SortByKey(s[1..]))
  }

  function View(rec: Record): PickValue {
    PickValue(rec.id, Col(rec.row, "value"), Col(rec.row, "display_order"), Col(rec.row, "is_default"))
  }

  function Views(rs: seq<Record>): (vs: seq<PickValue>)
    ensures |vs| == |rs| && forall i :: 0 <= i < |rs| ==> vs[i] == View(rs[i])
  {
    if rs == [] then [] else [View(rs[0])] + Views(rs[1..])
  }

  /** The active values of the types named `name`, in id order. */
  function ListedViews(db: Db, name: Value): (vs: seq<PickValue>)
    requires PicklistTypes in db && PicklistValues in db
    ensures forall p :: p in vs ==>
      (p.id in db[PicklistValues].rows && Listed(db, name, db[PicklistValues].rows[p.id])
       && p == View(Record(p.id, db[PicklistValues].rows[p.id])))
    ensures WellFormed(db[PicklistValues]) ==>
      forall vid :: vid in db[PicklistValues].rows && Listed(db, name, db[PicklistValues].rows[vid]) ==>
        View(Record(vid, db[PicklistValues].rows[vid])) in vs
  {
    var t := db[PicklistValues];
    var cond := ListedCond(db, name);
    forall row ensures Holds(cond, row) <==> Listed(db, name, row) {
      ListedHolds(db, name, row);
    }
    var ids := Scan(t, cond);
    var vs := Views(Records(t, ids));
    forall vid | WellFormed(t) && vid in t.rows && Listed(db, name, t.rows[vid])
      ensures View(Record(vid, t.rows[vid])) in vs
    {
      var i :| 0 <= i < |ids| && ids[i] == vid;
      assert vs[i] == View(Record(vid, t.rows[vid]));
    }
    vs
  }

  /** `get_picklist_values`: the active values of the types named `name`, ordered by display
      order and then text; an empty list when the tables are missing. */
  function GetPicklistValues(db: Db, name: Value): (r: seq<PickValue>)
    ensures Sorted(r)
    ensures forall p :: p in r ==>
      (PicklistTypes in db && PicklistValues in db
       && p.id in db[PicklistValues].rows && Listed(db, name, db[PicklistValues].rows[p.id])
       && p == View(Record(p.id, db[PicklistValues].rows[p.id])))
    ensures PicklistTypes in db && PicklistValues in db && WellFormed(db[PicklistValues]) ==>
      forall vid :: vid in db[PicklistValues].rows && Listed(db, name, db[PicklistValues].rows[vid]) ==>
        View(Record(vid, db[PicklistValues].rows[vid])) in r
  {
    if PicklistTypes !in db || PicklistValues !in db then []
    else
      var vs := ListedViews(db, name);
      var r := SortByKey(vs);
      forall p | p in r ensures p in vs {
        assert p in multiset(vs);
      }
      forall p | p in vs ensures p in r {
        assert p in multiset(r);
      }
      r
  }

  /** The id lookup and the list agree: an active text value has an id exactly when it is listed
      for its picklist, and the id found is the listed entry's id. */
  lemma IdByValueMatchesList(db: Db, name: Value, value: Value)
    requires Ready(db) && Truthy(value)
    ensures var found := GetPicklistIdByValue(db, name, value);
      var list := GetPicklistValues(db, name);
      (found.Some? <==> exists i :: 0 <= i < |list| && SqlEq(list[i].value, value))
      && (found.Some? ==> exists i :: 0 <= i < |list| && list[i].id == found.value && list[i].value == value)
  {
    var found := GetPicklistIdByValue(db, name, value);
    var list := GetPicklistValues(db, name);
    var t := db[PicklistValues];
    if found.Some? {
      var p := View(Record(found.value, t.rows[found.value]));
      assert p in list;
      var i :| 0 <= i < |list| && list[i] == p;
    }
    if exists i :: 0 <= i < |list| && SqlEq(list[i].value, value) {
      var i :| 0 <= i < |list| && SqlEq(list[i].value, value);
      assert list[i] in list;
      assert found.Some?;
    }
  }

  // ---------------------------------------------------------------------------------------
  // get_picklist_selection

  /** The first value marked default, or the first value when none is marked. */
  function DefaultValue(values: seq<PickValue>): (d: PickValue)
    requires values != []
    ensures exists k ::
      (0 <= k < |values| && d == values[k]
       && (forall j :: 0 <= j < k ==> !Truthy(values[j].isDefault))
       && (Truthy(d.isDefault) || (k == 0 && forall j :: 0 <= j < |values| ==> !Truthy(values[j].isDefault))))
  {
    if Truthy(values[0].isDefault) || |values| == 1 then values[0]
    else
      var d := DefaultValue(values[1..]);
      if Truthy(d.isDefault) then d else values[0]
  }

  /** How one line of input is handled. */
  datatype Step = Choose(v: PickValue) | Cancel | Again

  /** The number typed on a line, as Python's `int()` reads the stripped line. */
  function Number(line: string): Option<int> {
    ParseInt(Strip(line))
  }

  /** One answer to the selection prompt: blank takes the default, `back` (any case) cancels, a
      number in 1..n takes that entry, anything else asks again. */
  function SelectionStep(values: seq<PickValue>, line: string): (r: Step)
    requires values != []
    ensures AllSpace(line) ==> r == Choose(DefaultValue(values))
    ensures !AllSpace(line) && Lower(Strip(line)) == "back" ==> r == Cancel
    ensures !AllSpace(line) && Lower(Strip(line)) != "back" ==>
      (r != Again <==> Number(line).Some? && 1 <= Number(line).value <= |values|)
    ensures r.Choose? && !AllSpace(line) ==> r.v == values[Number(line).value - 1]
    ensures r.Choose? ==> r.v in values
  {
    var text := Strip(line);
    if text == [] then Choose(DefaultValue(values))
    else if Lower(text) == "back" then Cancel
    else
      match ParseInt(text)
      case None => Again
      case Some(k) => if 1 <= k <= |values| then Choose(values[k - 1]) else Again
  }

  /** What `get_picklist_selection` returns: an entry, nothing (no values, or `back`), or the input
      ran out before a decision. */
  datatype Selection = Picked(id: int, value: Value) | NoneSelected | InputEnded

  /** The outcome of a run of answers: the first one that does not ask again decides. */
  function Outcome(steps: seq<Step>): (r: Selection)
    ensures r.Picked? ==> exists i :: 0 <= i < |steps| && steps[i].Choose? && r == Picked(steps[i].v.id, steps[i].v.value)
  {
    if steps == [] then InputEnded
    else
      match steps[0]
      case Choose(v) => Picked(v.id, v.value)
      case Cancel => NoneSelected
      case Again => Outcome(steps[1..])
  }

  /** Answers that ask again are skipped: the first deciding answer gives the outcome. */
  lemma {:induction false} OutcomeDecidedBy(steps: seq<Step>, k: nat)
    requires k < |steps| && steps[k] != Again
    requires forall i :: 0 <= i < k ==> steps[i] == Again
    ensures Outcome(steps) == match steps[k] case Choose(v) => Picked(v.id, v.value) case _ => NoneSelected
  {
    if k > 0 {
      assert steps[0] == Again;
      OutcomeDecidedBy(steps[1..], k - 1);
    }
  }

  function Steps(values: seq<PickValue>, lines: seq<string>): (steps: seq<Step>)
    requires values != []
    ensures |steps| == |lines| && forall i :: 0 <= i < |lines| ==> steps[i] == SelectionStep(values, lines[i])
  {
    seq(|lines|, i requires 0 <= i < |lines| => SelectionStep(values, lines[i]))
  }

  /** `get_picklist_selection` over the lines the user types: no values gives nothing at once;
      otherwise lines are read until one decides. */
  function GetPicklistSelection(values: seq<PickValue>, lines: seq<string>): (r: Selection)
    ensures values == [] ==> r == NoneSelected
    ensures r.Picked? ==> exists v :: v in values && r == Picked(v.id, v.value)
  {
    if values == [] then NoneSelected else Outcome(Steps(values, lines))
  }

  /** The first line that does not ask again decides the selection, whatever follows it. */
  lemma SelectionDecidedBy(values: seq<PickValue>, lines: seq<string>, k: nat)
    requires values != [] && k < |lines|
    requires forall i :: 0 <= i < k ==> SelectionStep(values, lines[i]) == Again
    requires SelectionStep(values, lines[k]) != Again
    ensures GetPicklistSelection(values, lines) ==
      match SelectionStep(values, lines[k])
      case Choose(v) => Picked(v.id, v.value)
      case _ => NoneSelected
  {
    OutcomeDecidedBy(Steps(values, lines), k);
  }
}
