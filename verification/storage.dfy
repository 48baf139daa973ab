/** The part of SQLite the CRM relies on, as values: typed cells, tables with NOT NULL,
    DEFAULT and UNIQUE constraints, AUTOINCREMENT row ids, and the statements the data
    access layer issues (INSERT, UPDATE ... WHERE, DELETE, SELECT ... WHERE,
    ALTER TABLE ... ADD COLUMN). A table absent from the database, or a statement that
    names a column the table lacks, fails with an operational error; a broken constraint
    fails with an integrity error. A failed statement changes nothing. */
module Storage {
  import opened Base

  /** A cell. Python's `None` is bound to SQL NULL, so `Null` also stands for a `None` argument. */
  datatype Value = Null | Int(i: int) | Real(r: real) | Text(s: string)

  type Column = string

  /** A row maps column names to cells; the row id is the key under which the table stores it. */
  type Row = map<Column, Value>

  /** `sqlite3.IntegrityError` versus every other `sqlite3.Error`. */
  datatype Failure = IntegrityError | OperationalError

  datatype Result<+T> = Ok(value: T) | Err(failure: Failure)

  /** A table: its column set and constraints, its rows by id, and the AUTOINCREMENT counter. */
  datatype Table = Table(
    columns: set<Column>,
    notNull: set<Column>,
    defaults: map<Column, Value>,
    uniques: set<seq<Column>>,
    rows: map<int, Row>,
    nextId: int)

  datatype TableName = Accounts | Contacts | Opportunities | PicklistTypes | PicklistValues

  /** The five table names of the current schema. */
  function AllTables(): (ns: set<TableName>)
    ensures forall n: TableName :: n in ns
  {
    var ns := {Accounts, Contacts, Opportunities, PicklistTypes, PicklistValues};
    assert forall n: TableName :: n in ns by {
      forall n: TableName ensures n in ns {
        InAllTables(n, ns);
      }
    }
    ns
  }

  lemma InAllTables(n: TableName, ns: set<TableName>)
    requires ns == {Accounts, Contacts, Opportunities, PicklistTypes, PicklistValues}
    ensures n in ns
  {
    match n
    case Accounts =>
    case Contacts =>
    case Opportunities =>
    case PicklistTypes =>
    case PicklistValues =>
  }

  /** A database file: the tables it holds. */
  type Db = map<TableName, Table>

  /** A row as `SELECT *` returns it, with its id. */
  datatype Record = Record(id: int, row: Row)

  /** A WHERE clause: every row, `col = v`, `col IN (...)`, `c1 LIKE '%q%' OR c2 LIKE '%q%' ...`,
      or both of two clauses. A join against another table's ids is written with `OneOf`. */
  datatype Cond =
    | Always
    | Equals(col: Column, v: Value)
    | OneOf(col: Column, vs: set<Value>)
    | Like(cols: seq<Column>, q: string)
    | Both(a: Cond, b: Cond)

  function Col(r: Row, c: Column): Value {
    if c in r then r[c] else Null
  }

  /** Python truthiness of a cell read back from SQLite. */
  predicate Truthy(v: Value) {
    match v
    case Null => false
    case Int(i) => i != 0
    case Real(x) => x != 0.0
    case Text(s) => s != []
  }

  /** SQL `a = b`: never true when either side is NULL. */
  predicate SqlEq(a: Value, b: Value) {
    a != Null && a == b
  }

  /** `v LIKE '%q%'` with SQLite's default ASCII case folding; wildcards inside `q` are not interpreted. */
  predicate LikeContains(v: Value, q: string) {
    v.Text? && Contains(Lower(v.s), Lower(q))
  }

  predicate Holds(cond: Cond, r: Row) {
    match cond
    case Always => true
    case Equals(c, v) => SqlEq(Col(r, c), v)
    case OneOf(c, vs) => Col(r, c) != Null && Col(r, c) in vs
    case Like(cs, q) => exists i | 0 <= i < |cs| :: LikeContains(Col(r, cs[i]), q)
    case Both(a, b) => Holds(a, r) && Holds(b, r)
  }

  function CondColumns(cond: Cond): set<Column> {
    match cond
    case Always => {}
    case Equals(c, _) => {c}
    case OneOf(c, _) => {c}
    case Like(cs, _) => set i | 0 <= i < |cs| :: cs[i]
    case Both(a, b) => CondColumns(a) + CondColumns(b)
  }

  /** Every stored id lies below the AUTOINCREMENT counter, which starts at 1. */
  predicate WellFormed(t: Table) {
    1 <= t.nextId && forall id :: id in t.rows ==> 1 <= id < t.nextId
  }

  predicate WellFormedDb(db: Db) {
    forall n :: n in db ==> WellFormed(db[n])
  }

  /** Same columns and constraints. */
  predicate SameShape(a: Table, b: Table) {
    a.columns == b.columns && a.notNull == b.notNull && a.defaults == b.defaults && a.uniques == b.uniques
  }

  /** Every row of `a` is still in `b`, unchanged. */
  predicate RowsKept(a: Table, b: Table) {
    forall id :: id in a.rows ==> id in b.rows && b.rows[id] == a.rows[id]
  }

  /** Two rows agree, with no NULL, on every column of a UNIQUE key. */
  predicate Clash(a: Row, b: Row, key: seq<Column>) {
    |key| > 0 && forall i :: 0 <= i < |key| ==> Col(a, key[i]) != Null && Col(a, key[i]) == Col(b, key[i])
  }

  predicate NullViolation(t: Table, r: Row) {
    exists c :: c in t.notNull && Col(r, c) == Null
  }

  /** `r` would break a UNIQUE constraint against a stored row whose id is not in `skip`. */
  predicate Collides(t: Table, r: Row, skip: set<int>) {
    exists id, k :: id in t.rows && id !in skip && k in t.uniques && Clash(r, t.rows[id], k)
  }

  /** Every UNIQUE constraint holds among the stored rows. */
  predicate Unique(t: Table) {
    forall i, j, k :: i in t.rows && j in t.rows && i != j && k in t.uniques ==> !Clash(t.rows[i], t.rows[j], k)
  }

  lemma ClashSymmetric(a: Row, b: Row, key: seq<Column>)
    requires Clash(a, b, key)
    ensures Clash(b, a, key)
  {
  }

  /** The row an INSERT naming the columns of `sets` stores: unnamed columns take their DEFAULT, or NULL. */
  function NewRow(t: Table, sets: map<Column, Value>): (r: Row)
    ensures r.Keys == t.columns
    ensures forall c :: c in sets && c in t.columns ==> r[c] == sets[c]
    ensures forall c :: c in t.columns && c !in sets ==> r[c] == if c in t.defaults then t.defaults[c] else Null
  {
    map c | c in t.columns :: if c in sets then sets[c] else if c in t.defaults then t.defaults[c] else Null
  }

  /** INSERT INTO t (columns of sets) VALUES (...); the result is `cursor.lastrowid`. */
  function Insert(t: Table, sets: map<Column, Value>): (r: (Table, Result<int>))
    ensures r.1 == Err(OperationalError) <==> !(sets.Keys <= t.columns)
    ensures r.1.Err? ==> r.0 == t
    ensures r.1.Ok? <==> sets.Keys <= t.columns && !NullViolation(t, NewRow(t, sets)) && !Collides(t, NewRow(t, sets), {})
    ensures r.1.Ok? ==> r.1.value == t.nextId && r.0.nextId == t.nextId + 1 && SameShape(r.0, t)
    ensures r.1.Ok? ==> r.0.rows == t.rows[t.nextId := NewRow(t, sets)]
    ensures WellFormed(t) ==> WellFormed(r.0)
    ensures WellFormed(t) && r.1.Ok? ==> t.nextId !in t.rows && r.0.rows.Keys == t.rows.Keys + {r.1.value}
  {
    if !(sets.Keys <= t.columns) then (t, Err(OperationalError))
    else
      var row := NewRow(t, sets);
      if NullViolation(t, row) || Collides(t, row, {}) then (t, Err(IntegrityError))
      else (t.(rows := t.rows[t.nextId := row], nextId := t.nextId + 1), Ok(t.nextId))
  }

  /** A successful INSERT keeps every UNIQUE constraint. */
  lemma InsertKeepsUnique(t: Table, sets: map<Column, Value>)
    requires WellFormed(t) && Unique(t) && Insert(t, sets).1.Ok?
    ensures Unique(Insert(t, sets).0)
  {
    var t' := Insert(t, sets).0;
    var row := NewRow(t, sets);
    forall i, j, k | i in t'.rows && j in t'.rows && i != j && k in t'.uniques
      ensures !Clash(t'.rows[i], t'.rows[j], k)
    {
      if i == t.nextId {
        assert !Clash(row, t.rows[j], k);
      } else if j == t.nextId {
        assert !Clash(row, t.rows[i], k);
        if Clash(t'.rows[i], t'.rows[j], k) {
          ClashSymmetric(t'.rows[i], t'.rows[j], k);
        }
      }
    }
  }

  /** UPDATE t SET (sets) WHERE id = ?; the result is `cursor.rowcount > 0`. */
  function Update(t: Table, id: int, sets: map<Column, Value>): (r: (Table, Result<bool>))
    ensures r.1 == Err(OperationalError) <==> !(sets.Keys <= t.columns)
    ensures r.1 == Ok(true) <==> (sets.Keys <= t.columns && id in t.rows
      && !NullViolation(t, t.rows[id] + sets) && !Collides(t, t.rows[id] + sets, {id}))
    ensures r.1 == Ok(false) <==> sets.Keys <= t.columns && id !in t.rows
    ensures r.1 != Ok(true) ==> r.0 == t
    ensures r.1 == Ok(true) ==> r.0 == t.(rows := t.rows[id := t.rows[id] + sets])
  {
    if !(sets.Keys <= t.columns) then (t, Err(OperationalError))
    else if id !in t.rows then (t, Ok(false))
    else
      var row := t.rows[id] + sets;
      if NullViolation(t, row) || Collides(t, row, {id}) then (t, Err(IntegrityError))
      else (t.(rows := t.rows[id := row]), Ok(true))
  }

  /** DELETE FROM t WHERE id = ?; the result is `cursor.rowcount > 0`. */
  function Delete(t: Table, id: int): (r: (Table, bool))
    ensures r.1 <==> id in t.rows
    ensures r.0.rows.Keys == t.rows.Keys - {id}
    ensures forall k :: k in r.0.rows ==> r.0.rows[k] == t.rows[k]
    ensures SameShape(r.0, t) && r.0.nextId == t.nextId
  {
    (t.(rows := t.rows - {id}), id in t.rows)
  }

  /** The ids from `lo` up to the counter whose rows satisfy `cond`, in increasing order
      (the order of a plain table scan). */
  function ScanFrom(t: Table, cond: Cond, lo: int): (s: seq<int>)
    ensures forall i, j :: 0 <= i < j < |s| ==> s[i] < s[j]
    ensures forall id :: id in s <==> lo <= id < t.nextId && id in t.rows && Holds(cond, t.rows[id])
    decreases t.nextId - lo
  {
    if lo >= t.nextId then []
    else
      var rest := ScanFrom(t, cond, lo + 1);
      assert forall k :: 0 <= k < |rest| ==> lo < rest[k] by {
        forall k | 0 <= k < |rest| ensures lo < rest[k] { assert rest[k] in rest; }
      }
      if lo in t.rows && Holds(cond, t.rows[lo]) then [lo] + rest else rest
  }

  function Scan(t: Table, cond: Cond): (s: seq<int>)
    ensures forall i, j :: 0 <= i < j < |s| ==> s[i] < s[j]
    ensures forall id :: id in s <==> 1 <= id < t.nextId && id in t.rows && Holds(cond, t.rows[id])
    ensures WellFormed(t) ==> forall id :: id in s <==> id in t.rows && Holds(cond, t.rows[id])
  {
    ScanFrom(t, cond, 1)
  }

  function Records(t: Table, ids: seq<int>): (rs: seq<Record>)
    requires forall i :: 0 <= i < |ids| ==> ids[i] in t.rows
    ensures |rs| == |ids|
    ensures forall i :: 0 <= i < |ids| ==> rs[i] == Record(ids[i], t.rows[ids[i]])
  {
    if ids == [] then [] else [Record(ids[0], t.rows[ids[0]])] + Records(t, ids[1..])
  }

  /** SELECT * FROM t WHERE cond, rows in id order. */
  function Select(t: Table, cond: Cond): (r: Result<seq<Record>>)
    ensures r.Err? <==> !(CondColumns(cond) <= t.columns)
    ensures r.Ok? ==> forall i, j :: 0 <= i < j < |r.value| ==> r.value[i].id < r.value[j].id
    ensures r.Ok? ==> forall i :: 0 <= i < |r.value| ==> var rec := r.value[i];
      rec.id in t.rows && rec.row == t.rows[rec.id] && Holds(cond, rec.row)
    ensures r.Ok? && WellFormed(t) ==> forall id :: id in t.rows && Holds(cond, t.rows[id]) ==>
      exists i :: 0 <= i < |r.value| && r.value[i].id == id
  {
    if !(CondColumns(cond) <= t.columns) then Err(OperationalError)
    else
      var ids := Scan(t, cond);
      var rs := Records(t, ids);
      forall id | id in ids ensures exists i :: 0 <= i < |rs| && rs[i].id == id {
        var i :| 0 <= i < |ids| && ids[i] == id;
        assert rs[i].id == id;
      }
      Ok(rs)
  }

  /** The first row (in id order) satisfying `cond`: what `cursor.fetchone()` returns. */
  function First(t: Table, cond: Cond): (r: Option<int>)
    ensures r.Some? ==> r.value in t.rows && Holds(cond, t.rows[r.value])
    ensures r.Some? ==> forall id :: id in t.rows && 1 <= id < r.value ==> !Holds(cond, t.rows[id])
    ensures WellFormed(t) && r.None? ==> forall id :: id in t.rows ==> !Holds(cond, t.rows[id])
  {
    var ids := Scan(t, cond);
    if ids == [] then None
    else
      assert forall x :: x in ids ==> ids[0] <= x by {
        forall x | x in ids ensures ids[0] <= x {
          var k :| 0 <= k < |ids| && ids[k] == x;
          assert k == 0 || ids[0] < ids[k];
        }
      }
      Some(ids[0])
  }

  /** UPDATE t SET (sets) WHERE cond, over every matching row at once. */
  function UpdateWhere(t: Table, cond: Cond, sets: map<Column, Value>): (r: Result<Table>)
    ensures r.Ok? ==> SameShape(r.value, t) && r.value.nextId == t.nextId && r.value.rows.Keys == t.rows.Keys
    ensures r.Ok? ==> forall id :: id in t.rows ==>
      r.value.rows[id] == if Holds(cond, t.rows[id]) then t.rows[id] + sets else t.rows[id]
    ensures r.Err? ==> (!(sets.Keys <= t.columns) || !(CondColumns(cond) <= t.columns)
      || exists id :: id in t.rows && Holds(cond, t.rows[id]))
  {
    if !(sets.Keys <= t.columns) || !(CondColumns(cond) <= t.columns) then Err(OperationalError)
    else
      var rows := map id | id in t.rows :: if Holds(cond, t.rows[id]) then t.rows[id] + sets else t.rows[id];
      var t' := t.(rows := rows);
      if exists id :: id in rows && Holds(cond, t.rows[id]) && (NullViolation(t, rows[id]) || Collides(t', rows[id], {id}))
      then Err(IntegrityError)
      else Ok(t')
  }

  /** ALTER TABLE t ADD COLUMN c: every existing row gets NULL in the new column. */
  function AddColumn(t: Table, c: Column): (r: Result<Table>)
    ensures r.Err? <==> c in t.columns
    ensures r.Ok? ==> r.value.columns == t.columns + {c} && r.value.rows.Keys == t.rows.Keys
    ensures r.Ok? ==> forall id, c' :: id in t.rows && c' != c ==> Col(r.value.rows[id], c') == Col(t.rows[id], c')
    ensures r.Ok? ==> forall id :: id in t.rows ==> Col(r.value.rows[id], c) == Null
    ensures r.Ok? ==> r.value.nextId == t.nextId
  {
    if c in t.columns then Err(OperationalError)
    else Ok(t.(columns := t.columns + {c}, rows := map id | id in t.rows :: t.rows[id][c := Null]))
  }

  /** `PRAGMA table_info(t)` names: the columns, or none at all when the table is absent. */
  function ColumnsOf(db: Db, n: TableName): (cs: set<Column>)
    ensures n !in db ==> cs == {}
  {
    if n in db then db[n].columns else {}
  }

  // Statements against a whole database: an absent table is an operational error.

  function DbInsert(db: Db, n: TableName, sets: map<Column, Value>): (r: (Db, Result<int>))
    ensures n !in db ==> r == (db, Err(OperationalError))
    ensures n in db ==> r.0 == db[n := Insert(db[n], sets).0] && r.1 == Insert(db[n], sets).1
  {
    if n !in db then (db, Err(OperationalError))
    else
      var (t, res) := Insert(db[n], sets);
      (db[n := t], res)
  }

  function DbUpdate(db: Db, n: TableName, id: int, sets: map<Column, Value>): (r: (Db, Result<bool>))
    ensures n !in db ==> r == (db, Err(OperationalError))
    ensures n in db ==> r.0 == db[n := Update(db[n], id, sets).0] && r.1 == Update(db[n], id, sets).1
  {
    if n !in db then (db, Err(OperationalError))
    else
      var (t, res) := Update(db[n], id, sets);
      (db[n := t], res)
  }

  function DbDelete(db: Db, n: TableName, id: int): (r: (Db, Result<bool>))
    ensures n !in db ==> r == (db, Err(OperationalError))
    ensures n in db ==> r.0 == db[n := Delete(db[n], id).0] && r.1 == Ok(Delete(db[n], id).1)
  {
    if n !in db then (db, Err(OperationalError))
    else
      var (t, found) := Delete(db[n], id);
      (db[n := t], Ok(found))
  }

  function DbSelect(db: Db, n: TableName, cond: Cond): (r: Result<seq<Record>>)
    ensures n !in db ==> r == Err(OperationalError)
    ensures n in db ==> r == Select(db[n], cond)
  {
    if n !in db then Err(OperationalError) else Select(db[n], cond)
  }

  /** SELECT ... FROM t WHERE cond, `fetchone()`: the id of the first matching row, if any. */
  function DbFirst(db: Db, n: TableName, cond: Cond): (r: Result<Option<int>>)
    ensures r.Err? <==> n !in db || !(CondColumns(cond) <= db[n].columns)
    ensures r.Ok? ==> r.value == First(db[n], cond)
  {
    if n !in db || !(CondColumns(cond) <= db[n].columns) then Err(OperationalError)
    else Ok(First(db[n], cond))
  }

  /** SELECT * FROM t WHERE id = ?, `fetchone()`. */
  function DbGet(db: Db, n: TableName, id: int): (r: Result<Option<Row>>)
    ensures n !in db ==> r == Err(OperationalError)
    ensures n in db ==> r == Ok(if id in db[n].rows then Some(db[n].rows[id]) else None)
  {
    if n !in db then Err(OperationalError)
    else if id in db[n].rows then Ok(Some(db[n].rows[id]))
    else Ok(None)
  }
}
