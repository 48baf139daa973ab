/** The database layout (src/database.py, and database.py for the older revision) and the
    start-up logic that decides between migrating and creating tables. */
module Schema {
  import opened Base
  import opened Storage

  /** An empty table with the given columns and constraints, counter at 1. */
  function EmptyTable(columns: set<Column>, notNull: set<Column>, defaults: map<Column, Value>, uniques: set<seq<Column>>): (t: Table)
    ensures WellFormed(t) && t.rows == map[] && t.columns == columns
  {
    Table(columns, notNull, defaults, uniques, map[], 1)
  }

  /** The tables `create_tables` in src/database.py creates, column for column. */
  function CurrentTable(n: TableName): (t: Table)
    ensures WellFormed(t) && t.rows == map[]
  {
    match n
    case PicklistTypes =>
      EmptyTable({"name", "description", "entity_type"}, {"name", "entity_type"}, map[], {["name"]})
    case PicklistValues =>
      EmptyTable({"picklist_type_id", "value", "display_order", "is_default", "is_active"},
                 {"picklist_type_id", "value"},
                 map["display_order" := Int(0), "is_default" := Int(0), "is_active" := Int(1)],
                 {["picklist_type_id", "value"]})
    case Accounts =>
      EmptyTable({"name", "industry_id", "description", "website", "street", "city", "state", "zip", "country"},
                 {"name"}, map[], {})
    case Contacts =>
      EmptyTable({"first_name", "last_name", "title", "email", "phone", "description", "website",
                  "street", "city", "state", "zip", "country", "account_id"},
                 {"first_name", "last_name", "email"}, map[], {["email"]})
    case Opportunities =>
      EmptyTable({"name", "description", "amount", "close_date", "account_id", "contact_id", "stage_id"},
                 {"name"}, map[], {})
  }

  /** The three tables of the first revision (database.py): free-text industry, no stage, no picklists. */
  function LegacyTable(n: TableName): (t: Option<Table>)
    ensures t.Some? <==> n in {Accounts, Contacts, Opportunities}
    ensures t.Some? ==> WellFormed(t.value) && t.value.rows == map[]
  {
    match n
    case Accounts => Some(EmptyTable({"name", "industry"}, {"name"}, map[], {}))
    case Contacts =>
      Some(EmptyTable({"first_name", "last_name", "email", "phone", "account_id"},
                      {"first_name", "last_name", "email"}, map[], {["email"]}))
    case Opportunities =>
      Some(EmptyTable({"name", "description", "amount", "close_date", "account_id", "contact_id"},
                      {"name"}, map[], {}))
    case _ => None
  }

  /** A freshly created first-revision database. */
  function LegacyDb(): (db: Db)
    ensures db.Keys == {Accounts, Contacts, Opportunities}
    ensures WellFormedDb(db)
  {
    map n | n in {Accounts, Contacts, Opportunities} :: LegacyTable(n).value
  }

  /** `create_tables`: CREATE TABLE IF NOT EXISTS for all five tables. A table already present is
      kept as it is, whatever its columns; only absent ones are created. */
  function CreateTables(db: Db): (r: Db)
    ensures r.Keys == AllTables()
    ensures forall n :: n in db ==> r[n] == db[n]
    ensures forall n :: n !in db ==> n in r && r[n] == CurrentTable(n)
  {
    map n | n in AllTables() ::
      if n in db then db[n] else CurrentTable(n)
  }

  /** Re-running `create_tables` changes nothing, and it never drops or alters a row. */
  lemma CreateTablesIdempotent(db: Db)
    ensures CreateTables(CreateTables(db)) == CreateTables(db)
    ensures forall n :: n in db ==> CreateTables(db)[n].rows == db[n].rows
  {
  }

  /** `check_schema`: is a migration needed? False when the database file is absent or a storage
      error occurs; otherwise true exactly when Accounts lacks description, website or industry_id,
      Contacts lacks title or description, or Opportunities lacks stage_id (an absent table has no columns). */
  function CheckSchema(file: Option<Db>, storageError: bool): (needed: bool)
    ensures file.None? || storageError ==> !needed
    ensures file.Some? && !storageError ==>
      (needed <==> !({"description", "website", "industry_id"} <= ColumnsOf(file.value, Accounts))
                   || !({"title", "description"} <= ColumnsOf(file.value, Contacts))
                   || "stage_id" !in ColumnsOf(file.value, Opportunities))
  {
    if file.None? then false
    else if storageError then false
    else
      var db := file.value;
      var accounts := ColumnsOf(db, Accounts);
      if "description" !in accounts || "website" !in accounts || "industry_id" !in accounts then true
      else
        var contacts := ColumnsOf(db, Contacts);
        if "title" !in contacts || "description" !in contacts then true
        else "stage_id" !in ColumnsOf(db, Opportunities)
  }

  /** A database created by the current `create_tables` needs no migration, while a
      first-revision one does. */
  lemma CheckSchemaOnKnownLayouts()
    ensures !CheckSchema(Some(CreateTables(map[])), false)
    ensures CheckSchema(Some(LegacyDb()), false)
  {
    assert CreateTables(map[])[Accounts] == CurrentTable(Accounts);
    assert CreateTables(map[])[Contacts] == CurrentTable(Contacts);
    assert CreateTables(map[])[Opportunities] == CurrentTable(Opportunities);
    assert LegacyDb()[Accounts] == LegacyTable(Accounts).value;
  }
}
