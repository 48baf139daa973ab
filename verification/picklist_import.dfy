/** The row logic of `import_picklists_from_csv` (src/picklist.py): picklist values read from a
    CSV file, each row checked against a closed whitelist of (entity type, picklist) pairs and
    counted exactly once, as imported or as an error. */
module PicklistImport {
  import opened Base
  import opened Storage
  import opened Schema
  import opened Picklist

  /** A data row as `csv.DictReader` yields it: header name to cell text. */
  type CsvRow = map<string, string>

  /** A readable CSV file: its header names and its data rows. */
  datatype Csv = Csv(header: seq<string>, rows: seq<CsvRow>)

  /** The running counts: rows seen, rows imported, rows skipped or failed. */
  datatype Tally = Tally(rows: nat, imported: nat, errors: nat)

  /** `row.get(key, '')`. */
  function Cell(row: CsvRow, key: string): string {
    if key in row then row[key] else ""
  }

  /** The picklists each entity type may carry; `None` for an entity type outside the list. */
  function Whitelist(entity: string): (names: Option<seq<string>>)
    ensures names.Some? <==> entity == "account" || entity == "contact" || entity == "opportunity"
  {
    if entity == "account" then Some(["industry"])
    else if entity == "contact" then Some([])
    else if entity == "opportunity" then Some(["stage"])
    else None
  }

  /** The header is present and names picklist_name, entity_type and value. */
  predicate HeaderOk(header: seq<string>) {
    header != [] && "picklist_name" in header && "entity_type" in header && "value" in header
  }

  /** `int(row.get('display_order', 0))`, or 0 when the cell does not parse. */
  function DisplayOrder(row: CsvRow): int {
    if "display_order" !in row then 0
    else match ParseInt(row["display_order"])
      case Some(n) => n
      case None => 0
  }

  /** `row.get('is_default', '').lower() in ('true', '1', 'yes', 'y')`. */
  predicate IsDefault(row: CsvRow) {
    var token := Lower(Cell(row, "is_default"));
    token == "true" || token == "1" || token == "yes" || token == "y"
  }

  /** The fields the loop reads from one row, stripped where the loop strips them. */
  datatype Entry = Entry(name: string, entity: string, description: string, value: string, order: int, isDefault: bool)

  function ReadEntry(row: CsvRow): Entry {
    Entry(Strip(Cell(row, "picklist_name")), Strip(Cell(row, "entity_type")), Strip(Cell(row, "description")),
          Strip(Cell(row, "value")), DisplayOrder(row), IsDefault(row))
  }

  /** The picklist and entity type are given and the picklist is one the entity type may carry. */
  predicate Whitelisted(e: Entry) {
    e.name != [] && e.entity != [] && Whitelist(e.entity).Some? && e.name in Whitelist(e.entity).value
  }

  /** The whitelist admits exactly industry on accounts and stage on opportunities. */
  lemma WhitelistedPairs(e: Entry)
    ensures Whitelisted(e) <==> (e.entity, e.name) == ("account", "industry") || (e.entity, e.name) == ("opportunity", "stage")
  {
  }

  /** An entry that imports whenever the picklist tables are in place: whitelisted, with a value. */
  predicate Valid(e: Entry) {
    Whitelisted(e) && e.value != []
  }

  predicate RowValid(row: CsvRow) {
    Valid(ReadEntry(row))
  }

  /** The type id for the entry's picklist: the cached one, or a new or existing type created now
      (and cached). `None` when creation yields no usable id. */
  function TypeFor(db: Db, types: map<string, int>, e: Entry): (r: (Db, map<string, int>, Option<int>))
    ensures r.2.Some? ==> e.name in r.1 && r.1[e.name] == r.2.value
    ensures r.2.None? ==> r.0 == db && r.1 == types
    ensures types.Keys <= r.1.Keys
  {
    if e.name in types then (db, types, Some(types[e.name]))
    else
      var (db', tid) := CreatePicklistType(db, Text(e.name), Text(e.entity), Text(e.description));
      if tid.None? || tid.value == 0 then (db, types, None) else (db', types[e.name := tid.value], tid)
  }

  /** One pass of the loop: the entry's picklist and entity type are checked first, then its type
      is fetched or created, and only then is the value checked and added. The flag says
      whether the row counted as imported. An id of 0 counts as a failure, as a falsy id does
      in the loop. */
  function ImportEntry(db: Db, types: map<string, int>, e: Entry): (r: (Db, map<string, int>, bool))
    ensures r.2 ==> Valid(e)
    ensures !Whitelisted(e) ==> r.0 == db && r.1 == types
    ensures types.Keys <= r.1.Keys
  {
    if !Whitelisted(e) then (db, types, false)
    else
      var (db1, types1, tid) := TypeFor(db, types, e);
      if tid.None? || e.value == [] then (db1, types1, false)
      else
        var (db2, vid) := AddPicklistValue(db1, Int(tid.value), Text(e.value), Int(e.order), e.isDefault);
        (db2, types1, vid.Some? && vid.value != 0)
  }

  /** The entries the loop reads, one per row, in order. */
  function Entries(rows: seq<CsvRow>): (es: seq<Entry>)
    ensures |es| == |rows|
    ensures forall i :: 0 <= i < |rows| ==> es[i] == ReadEntry(rows[i])
  {
    if rows == [] then [] else Entries(rows[..|rows| - 1]) + [ReadEntry(rows[|rows| - 1])]
  }

  /** The rows that import whenever the tables are in place. */
  function CountValid(es: seq<Entry>): nat {
    CountWhere(es, Valid)
  }

  /** The state the loop carries: the database, the cache of type ids by picklist name, the counts. */
  datatype Progress = Progress(db: Db, types: map<string, int>, tally: Tally)

  /** One row of the loop applied to the carried state. */
  function Advance(p: Progress, e: Entry): (q: Progress)
    ensures q.tally.rows == p.tally.rows + 1 && q.tally.imported + q.tally.errors == p.tally.imported + p.tally.errors + 1
    ensures q.tally.imported == p.tally.imported + (if ImportEntry(p.db, p.types, e).2 then 1 else 0)
  {
    var (db, types, imported) := ImportEntry(p.db, p.types, e);
    if imported then Progress(db, types, p.tally.(rows := p.tally.rows + 1, imported := p.tally.imported + 1))
    else Progress(db, types, p.tally.(rows := p.tally.rows + 1, errors := p.tally.errors + 1))
  }

  /** The loop over the entries, in order, from an empty type cache. */
  function ImportEntries(db: Db, es: seq<Entry>): (r: Progress)
    ensures r.tally.rows == |es| && r.tally.rows == r.tally.imported + r.tally.errors
    ensures r.tally.imported <= CountValid(es)
  {
    if es == [] then Progress(db, map[], Tally(0, 0, 0))
    else Advance(ImportEntries(db, es[..|es| - 1]), es[|es| - 1])
  }

  /** The loop's state after one more row is the state before it, advanced by that row. */
  lemma ImportEntriesSnoc(db: Db, rows: seq<CsvRow>, i: nat)
    requires i < |rows|
    ensures ImportEntries(db, Entries(rows[..i + 1])) == Advance(ImportEntries(db, Entries(rows[..i])), ReadEntry(rows[i]))
  {
    assert rows[..i + 1][..i] == rows[..i];
    assert Entries(rows[..i + 1])[..i] == Entries(rows[..i]);
  }

  /** Some row of the file reads as a valid entry. */
  predicate AnyValid(rows: seq<CsvRow>) {
    exists i :: 0 <= i < |rows| && Valid(Entries(rows)[i])
  }

  /** A row imports only if some row is valid. */
  lemma ImportNeedsValid(db: Db, rows: seq<CsvRow>)
    ensures ImportEntries(db, Entries(rows)).tally.imported > 0 ==> AnyValid(rows)
  {
    var es := Entries(rows);
    if ImportEntries(db, es).tally.imported > 0 {
      var _ := CountWhereWitness(es, Valid);
    }
  }

  /** With the tables in place exactly the valid rows import, so the import succeeds exactly when
      some row is valid. */
  lemma ImportSucceedsIff(db: Db, rows: seq<CsvRow>)
    requires Ready(db)
    ensures ImportEntries(db, Entries(rows)).tally.imported == CountValid(Entries(rows))
    ensures ImportEntries(db, Entries(rows)).tally.imported > 0 <==> AnyValid(rows)
  {
    var es := Entries(rows);
    ImportNeedsValid(db, rows);
    ImportEntriesOutcome(db, es);
    if AnyValid(rows) {
      var k :| 0 <= k < |rows| && Valid(es[k]);
      CountWhereCovers(es, Valid, k);
    }
  }

  /** `import_picklists_from_csv`. A missing file, an empty header or one lacking a required
      column fails before any row is read; otherwise every row is counted once, and the result
      is true exactly when at least one row was imported, which needs a valid row and, with the
      tables in place, happens whenever there is one. */
  method ImportPicklistsFromCsv(db: Db, file: Option<Csv>) returns (db': Db, ok: bool, tally: Tally)
    ensures file.None? || !HeaderOk(file.value.header) ==> db' == db && !ok && tally == Tally(0, 0, 0)
    ensures file.Some? && HeaderOk(file.value.header) ==>
      && tally.rows == |file.value.rows| && tally.rows == tally.imported + tally.errors
      && db' == ImportEntries(db, Entries(file.value.rows)).db
    ensures ok <==> tally.imported > 0
    ensures ok ==> file.Some? && AnyValid(file.value.rows)
    ensures file.Some? && HeaderOk(file.value.header) && Ready(db) ==>
      tally.imported == CountValid(Entries(file.value.rows)) && (ok <==> AnyValid(file.value.rows))
  {
    if file.None? || !HeaderOk(file.value.header) {
      return db, false, Tally(0, 0, 0);
    }
    var rows := file.value.rows;
    var p := Progress(db, map[], Tally(0, 0, 0));
    var i := 0;
    while i < |rows|
      invariant 0 <= i <= |rows|
      invariant p == ImportEntries(db, Entries(rows[..i]))
    {
      ImportEntriesSnoc(db, rows, i);
      p := Advance(p, ReadEntry(rows[i]));
      i := i + 1;
    }
    assert rows[..|rows|] == rows;
    ImportNeedsValid(db, rows);
    if Ready(db) {
      ImportSucceedsIff(db, rows);
    }
    db', tally := p.db, p.tally;
    ok := tally.imported > 0;
  }

  // ---------------------------------------------------------------------------------------
  // What an import leaves behind

  /** Every cached id names a type row holding that picklist name. */
  predicate CacheNamed(db: Db, types: map<string, int>)
    requires PicklistTypes in db
  {
    forall n :: n in types ==> NamedType(db, types[n], Text(n))
  }

  /** Both databases have the picklist tables in place, and `b` keeps every type and value of `a`. */
  predicate Extends(a: Db, b: Db) {
    && Ready(a) && Ready(b)
    && RowsKept(a[PicklistTypes], b[PicklistTypes]) && RowsKept(a[PicklistValues], b[PicklistValues])
  }

  lemma ExtendsTransitive(a: Db, b: Db, c: Db)
    requires Extends(a, b) && Extends(b, c)
    ensures Extends(a, c)
  {
  }

  /** Value row `vid` holds `value` under a type named `name`. */
  predicate StoredAt(db: Db, vid: int, name: string, value: string)
    requires Ready(db)
  {
    && vid in db[PicklistValues].rows
    && var row := db[PicklistValues].rows[vid];
    && Col(row, "picklist_type_id").Int? && NamedType(db, Col(row, "picklist_type_id").i, Text(name))
    && Col(row, "value") == Text(value)
  }

  /** Some value row holds the entry's value under a type with the entry's picklist name. */
  ghost predicate Stored(db: Db, e: Entry)
    requires Ready(db)
  {
    exists vid :: StoredAt(db, vid, e.name, e.value)
  }

  lemma StoredKept(a: Db, b: Db, e: Entry)
    requires Extends(a, b) && Stored(a, e)
    ensures Stored(b, e)
  {
    var vid :| StoredAt(a, vid, e.name, e.value);
    assert StoredAt(b, vid, e.name, e.value);
  }

  /** With the tables in place, a whitelisted entry always gets a type id: the cached one, the
      one already holding its picklist name, or a fresh one. The cache stays truthful. */
  lemma TypeForNamed(db: Db, types: map<string, int>, e: Entry)
    requires Ready(db) && CacheNamed(db, types) && Whitelisted(e)
    ensures var r := TypeFor(db, types, e);
      && r.2.Some? && Extends(db, r.0) && CacheNamed(r.0, r.1)
      && r.0[PicklistValues] == db[PicklistValues]
  {
    if e.name !in types {
      CreateTypeNamed(db, Text(e.name), Text(e.entity), Text(e.description));
      var (db', tid) := CreatePicklistType(db, Text(e.name), Text(e.entity), Text(e.description));
      var types' := types[e.name := tid.value];
      forall n | n in types' ensures NamedType(db', types'[n], Text(n)) {
        if n != e.name {
          assert NamedType(db, types[n], Text(n));
        }
      }
    }
  }

  /** One entry under the tables in place: it imports exactly when it is valid, its picklist's
      type is created and cached even when its value is empty, a valid entry's value is stored
      under a type with the entry's picklist name, and nothing already stored is lost. */
  lemma ImportEntryStep(db: Db, types: map<string, int>, e: Entry)
    requires Ready(db) && CacheNamed(db, types)
    ensures var r := ImportEntry(db, types, e);
      && Extends(db, r.0) && CacheNamed(r.0, r.1)
      && (r.2 <==> Valid(e))
      && (Whitelisted(e) ==> e.name in r.1)
      && (Valid(e) ==> Stored(r.0, e))
  {
    if Whitelisted(e) {
      TypeForNamed(db, types, e);
      var (db1, types1, tid) := TypeFor(db, types, e);
      if e.value != [] {
        var tidv, value := Int(tid.value), Text(e.value);
        AddValueStored(db1, tidv, value, Int(e.order), e.isDefault);
        var (db2, vid) := AddPicklistValue(db1, tidv, value, Int(e.order), e.isDefault);
        assert NamedType(db2, tid.value, Text(e.name));
        assert StoredAt(db2, vid.value, e.name, e.value);
        assert ImportEntry(db, types, e) == (db2, types1, true);
      }
    } else {
      assert Extends(db, db);
    }
  }

  lemma CountValidSnoc(es: seq<Entry>)
    requires es != []
    ensures CountValid(es) == CountValid(es[..|es| - 1]) + if Valid(es[|es| - 1]) then 1 else 0
  {
  }

  /** The whole loop under the tables in place: exactly the valid rows import and the rest count
      as errors; the tables stay in place and nothing stored before is lost. */
  lemma {:induction false} ImportEntriesOutcome(db: Db, es: seq<Entry>)
    requires Ready(db)
    ensures var p := ImportEntries(db, es);
      && Extends(db, p.db) && CacheNamed(p.db, p.types)
      && p.tally.imported == CountValid(es) && p.tally.errors == |es| - CountValid(es)
  {
    if es == [] {
      assert Extends(db, db);
    } else {
      var p := ImportEntries(db, es[..|es| - 1]);
      ImportEntriesOutcome(db, es[..|es| - 1]);
      ImportEntryStep(p.db, p.types, es[|es| - 1]);
      CountValidSnoc(es);
      ExtendsTransitive(db, p.db, ImportEntries(db, es).db);
    }
  }

  /** Every valid row's value is stored once the loop is over. */
  lemma {:induction false} ImportEntriesStored(db: Db, es: seq<Entry>)
    requires Ready(db)
    ensures var p := ImportEntries(db, es);
      Ready(p.db) && forall i :: 0 <= i < |es| && Valid(es[i]) ==> Stored(p.db, es[i])
  {
    ImportEntriesOutcome(db, es);
    if es != [] {
      var front, last := es[..|es| - 1], es[|es| - 1];
      ImportEntriesStored(db, front);
      ImportEntriesOutcome(db, front);
      var p := ImportEntries(db, front);
      ImportEntryStep(p.db, p.types, last);
      var q := ImportEntries(db, es);
      assert q == Advance(p, last);
      StoredSnoc(p.db, q.db, front, last);
      assert front + [last] == es;
    }
  }

  /** Rows stored before one more row is imported stay stored, and so does that row. */
  lemma StoredSnoc(a: Db, b: Db, front: seq<Entry>, last: Entry)
    requires Extends(a, b)
    requires forall i :: 0 <= i < |front| && Valid(front[i]) ==> Stored(a, front[i])
    requires Valid(last) ==> Stored(b, last)
    ensures forall i :: 0 <= i < |front + [last]| && Valid((front + [last])[i]) ==> Stored(b, (front + [last])[i])
  {
    var es := front + [last];
    forall i | 0 <= i < |es| && Valid(es[i])
      ensures Stored(b, es[i])
    {
      if i < |front| {
        assert es[i] == front[i];
        StoredKept(a, b, es[i]);
      } else {
        assert es[i] == last;
      }
    }
  }
}
