/** src/migrate_db.py: back up the database file, then add every expected-but-missing column to
    Accounts and Contacts with ALTER TABLE ... ADD COLUMN. Python's sqlite3 module runs DDL
    outside its implicit transactions, so each ALTER is durable as soon as it runs: a storage error
    part-way leaves the columns added before it in place. */
module Migration {
  import opened Base
  import opened Storage
  import opened Schema

  /** The data directory: the main database file (absent or present) and the backup copies by path. */
  datatype Disk = Disk(file: Option<Db>, backups: map<string, Db>)

  /** What `migrate_database` returned, with the backup path it reported; or that an exception
      (an OSError while preparing the backup) escaped it. */
  datatype Outcome = Done(ok: bool, backup: Option<string>) | Raised

  /** The Accounts columns the migration ensures, in the order it checks them. */
  const AccountColumns: seq<Column> := ["description", "website", "street", "city", "state", "zip", "country"]

  /** The Contacts columns the migration ensures, in the order it checks them. */
  const ContactColumns: seq<Column> := ["title", "description", "website", "street", "city", "state", "zip", "country"]

  function BackupPath(stamp: string): string {
    "data/backups/crm_backup_" + stamp + ".db"
  }

  /** `backup_database`: with no database file there is nothing to copy and no path; otherwise
      the file is copied to a path named by the timestamp, which is returned. */
  function BackupDatabase(disk: Disk, stamp: string): (r: (Disk, Option<string>))
    ensures disk.file.None? ==> r == (disk, None)
    ensures disk.file.Some? ==>
      (r.1 == Some(BackupPath(stamp)) && r.0.file == disk.file
       && r.0.backups == disk.backups[BackupPath(stamp) := disk.file.value])
  {
    if disk.file.None? then (disk, None)
    else
      var path := BackupPath(stamp);
      (disk.(backups := disk.backups[path := disk.file.value]), Some(path))
  }

  /** The entries of `required` not in `have`, in order. */
  function Missing(required: seq<Column>, have: set<Column>): (r: seq<Column>)
    ensures forall c :: c in r <==> c in required && c !in have
    ensures (forall i, j :: 0 <= i < j < |required| ==> required[i] != required[j]) ==>
      forall i, j :: 0 <= i < j < |r| ==> r[i] != r[j]
    ensures have == {} ==> r == required
    ensures (forall c :: c in required ==> c in have) ==> r == []
  {
    if required == [] then []
    else
      var rest := Missing(required[1..], have);
      if required[0] in have then rest
      else
        assert required[0] !in required[1..] ==> required[0] !in rest;
        assert (forall i, j :: 0 <= i < j < |required| ==> required[i] != required[j]) ==> required[0] !in required[1..];
        [required[0]] + rest
  }

  /** The ALTER TABLE statements for table `n`, one per column of `cols`. */
  function Tag(n: TableName, cols: seq<Column>): (plan: seq<(TableName, Column)>)
    ensures |plan| == |cols|
    ensures forall i :: 0 <= i < |plan| ==> plan[i] == (n, cols[i])
    ensures (forall i, j :: 0 <= i < j < |cols| ==> cols[i] != cols[j]) ==>
      forall i, j :: 0 <= i < j < |plan| ==> plan[i] != plan[j]
  {
    if cols == [] then [] else [(n, cols[0])] + Tag(n, cols[1..])
  }

  lemma TagMembers(n: TableName, cols: seq<Column>)
    ensures forall m, c :: (m, c) in Tag(n, cols) <==> m == n && c in cols
  {
    var plan := Tag(n, cols);
    forall m, c ensures (m, c) in plan <==> m == n && c in cols {
      if m == n && c in cols {
        var i :| 0 <= i < |cols| && cols[i] == c;
        assert plan[i] == (m, c);
      }
    }
  }

  /** The ALTER TABLE statements the migration issues against `db`: Accounts first, then Contacts. */
  function Plan(db: Db): (plan: seq<(TableName, Column)>)
    ensures forall n, c :: (n, c) in plan ==> n == Accounts || n == Contacts
    ensures forall c :: (Accounts, c) in plan <==> c in AccountColumns && c !in ColumnsOf(db, Accounts)
    ensures forall c :: (Contacts, c) in plan <==> c in ContactColumns && c !in ColumnsOf(db, Contacts)
    ensures ((forall c :: c in AccountColumns ==> c in ColumnsOf(db, Accounts))
             && (forall c :: c in ContactColumns ==> c in ColumnsOf(db, Contacts))) ==> plan == []
  {
    var a := Missing(AccountColumns, ColumnsOf(db, Accounts));
    var c := Missing(ContactColumns, ColumnsOf(db, Contacts));
    TagMembers(Accounts, a);
    TagMembers(Contacts, c);
    Tag(Accounts, a) + Tag(Contacts, c)
  }

  /** `after` is `before` with columns added: same rows, same counter, same constraints, every old cell kept. */
  predicate Extends(before: Table, after: Table) {
    && before.columns <= after.columns
    && after.rows.Keys == before.rows.Keys
    && after.nextId == before.nextId
    && after.notNull == before.notNull && after.defaults == before.defaults && after.uniques == before.uniques
    && forall id, c :: id in before.rows && c in before.columns ==> Col(after.rows[id], c) == Col(before.rows[id], c)
  }

  predicate DbExtends(before: Db, after: Db) {
    after.Keys == before.Keys && forall n :: n in before ==> Extends(before[n], after[n])
  }

  function DbAddColumn(db: Db, n: TableName, c: Column): (r: Result<Db>)
    ensures r.Ok? <==> n in db && c !in db[n].columns
    ensures r.Ok? ==> DbExtends(db, r.value) && r.value[n].columns == db[n].columns + {c}
    ensures r.Ok? ==> forall m :: m in db && m != n ==> r.value[m] == db[m]
  {
    if n !in db then Err(OperationalError)
    else
      match AddColumn(db[n], c)
      case Err(f) => Err(f)
      case Ok(t) => Ok(db[n := t])
  }

  /** Table `n` has no statement in `plan`. */
  ghost predicate Untouched(plan: seq<(TableName, Column)>, n: TableName) {
    forall c :: (n, c) !in plan
  }

  /** Runs the statements of `plan` in order. `fault == Some(k)` means a storage error strikes after
      `k` statements have run (at the commit, when `k` is at least the plan's length); the
      statements already run stay applied. The flag says whether the whole run succeeded. */
  function Run(db: Db, plan: seq<(TableName, Column)>, fault: Option<nat>): (r: (Db, bool))
    ensures DbExtends(db, r.0)
    ensures forall n :: n in db && Untouched(plan, n) ==> r.0[n] == db[n]
    ensures r.1 ==> fault.None?
    ensures r.1 ==> forall i :: 0 <= i < |plan| ==> plan[i].0 in db
    decreases |plan|
  {
    if plan == [] then (db, fault.None?)
    else if fault == Some(0) then (db, false)
    else
      match DbAddColumn(db, plan[0].0, plan[0].1)
      case Err(_) => (db, false)
      case Ok(db1) =>
        var r := Run(db1, plan[1..], if fault.Some? then Some(fault.value - 1) else None);
        UntouchedTail(plan);
        ExtendsTransitive(db, db1, r.0);
        assert r.1 ==> forall i :: 0 < i < |plan| ==> plan[i] == plan[1..][i - 1];
        r
  }

  lemma UntouchedTail(plan: seq<(TableName, Column)>)
    requires plan != []
    ensures forall n :: Untouched(plan, n) ==> Untouched(plan[1..], n) && n != plan[0].0
  {
    assert plan == [plan[0]] + plan[1..];
    assert (plan[0].0, plan[0].1) in plan;
  }

  /** After a successful run every table holds exactly its old columns plus the planned ones. */
  lemma {:induction false} RunColumns(db: Db, plan: seq<(TableName, Column)>, fault: Option<nat>)
    requires Run(db, plan, fault).1
    ensures forall n, c :: n in db ==> (c in Run(db, plan, fault).0[n].columns <==> c in db[n].columns || (n, c) in plan)
    decreases |plan|
  {
    if plan != [] {
      var step := DbAddColumn(db, plan[0].0, plan[0].1);
      assert step.Ok? && fault.None?;
      var db1 := step.value;
      assert Run(db, plan, fault).0 == Run(db1, plan[1..], None).0;
      RunColumns(db1, plan[1..], None);
      var after := Run(db1, plan[1..], None).0;
      forall n, c | n in db
        ensures c in after[n].columns <==> c in db[n].columns || (n, c) in plan
      {
        assert (n, c) in plan <==> (n, c) == plan[0] || (n, c) in plan[1..];
        assert c in db1[n].columns <==> c in db[n].columns || (n, c) == plan[0];
      }
    }
  }

  lemma ExtendsTransitive(a: Db, b: Db, c: Db)
    requires DbExtends(a, b) && DbExtends(b, c)
    ensures DbExtends(a, c)
  {
    forall n | n in a ensures Extends(a[n], c[n]) {
      forall id, col | id in a[n].rows && col in a[n].columns
        ensures Col(c[n].rows[id], col) == Col(a[n].rows[id], col)
      {
        assert Col(c[n].rows[id], col) == Col(b[n].rows[id], col);
      }
    }
  }

  /** `migrate_database`. With no database file it creates a fresh current schema and succeeds
      without a backup; otherwise it backs the file up, adds the missing columns, and reports
      failure, with the backup path, if a storage error occurs. */
  function MigrateDatabase(disk: Disk, stamp: string, osError: bool, fault: Option<nat>): (r: (Disk, Outcome))
    ensures osError ==> r == (disk, Raised)
    ensures !osError && disk.file.None? ==>
      r.0 == Disk(Some(CreateTables(map[])), disk.backups) && r.1 == Done(true, None)
    ensures !osError && disk.file.Some? ==>
      && r.1.Done? && r.1.backup == Some(BackupPath(stamp))
      && r.0.backups == disk.backups[BackupPath(stamp) := disk.file.value]
      && r.0.file == Some(Run(disk.file.value, Plan(disk.file.value), fault).0)
      && r.1.ok == Run(disk.file.value, Plan(disk.file.value), fault).1
  {
    if osError then (disk, Raised)
    else
      var (d1, backup) := BackupDatabase(disk, stamp);
      if backup.None? && d1.file.None? then
        (Disk(Some(CreateTables(map[])), d1.backups), Done(true, None))
      else
        var db := d1.file.value;
        var (db', ok) := Run(db, Plan(db), fault);
        (Disk(Some(db'), d1.backups), Done(ok, backup))
  }

  /** Whether or not it succeeds, the migration only adds columns: every table keeps its rows,
      counter, constraints and stored values, and every table but Accounts and Contacts (the
      Opportunities and picklist tables) is left exactly as it was. */
  lemma MigrationPreservesData(disk: Disk, stamp: string, fault: Option<nat>)
    requires disk.file.Some?
    ensures var db := disk.file.value; var db' := MigrateDatabase(disk, stamp, false, fault).0.file.value;
      && DbExtends(db, db')
      && (forall n :: n in db && n != Accounts && n != Contacts ==> db'[n] == db[n])
  {
    var db := disk.file.value;
    var plan := Plan(db);
    assert forall n :: n != Accounts && n != Contacts ==> Untouched(plan, n);
  }

  /** After a successful migration Accounts and Contacts hold every required column, and nothing
      but the missing ones was added. */
  lemma MigrationAddsMissingColumns(disk: Disk, stamp: string, fault: Option<nat>)
    requires disk.file.Some?
    requires MigrateDatabase(disk, stamp, false, fault).1.ok
    ensures var db := disk.file.value; var db' := MigrateDatabase(disk, stamp, false, fault).0.file.value;
      && Accounts in db && Contacts in db
      && (forall c :: c in db'[Accounts].columns <==> c in db[Accounts].columns || c in AccountColumns)
      && (forall c :: c in db'[Contacts].columns <==> c in db[Contacts].columns || c in ContactColumns)
  {
    var db := disk.file.value;
    assert MigrateDatabase(disk, stamp, false, fault).0.file.value == Run(db, Plan(db), fault).0;
    RunAddsRequired(db, fault);
  }

  lemma RunAddsRequired(db: Db, fault: Option<nat>)
    requires Run(db, Plan(db), fault).1
    ensures var db' := Run(db, Plan(db), fault).0;
      && Accounts in db && Contacts in db
      && (forall c :: c in db'[Accounts].columns <==> c in db[Accounts].columns || c in AccountColumns)
      && (forall c :: c in db'[Contacts].columns <==> c in db[Contacts].columns || c in ContactColumns)
  {
    PlanTablesPresent(db, fault);
    RunColumns(db, Plan(db), fault);
  }

  lemma PlanTablesPresent(db: Db, fault: Option<nat>)
    requires Run(db, Plan(db), fault).1
    ensures Accounts in db && Contacts in db
  {
    var plan := Plan(db);
    assert forall p :: p in plan ==> p.0 in db;
    assert (Accounts, "description") in plan || "description" in ColumnsOf(db, Accounts);
    assert (Contacts, "title") in plan || "title" in ColumnsOf(db, Contacts);
  }

  /** Running the migration again after a successful run changes no table: the plan is empty.
      (It still writes one more backup copy.) */
  lemma MigrationIdempotent(disk: Disk, stamp: string, fault: Option<nat>, stamp2: string)
    requires disk.file.Some?
    requires MigrateDatabase(disk, stamp, false, fault).1.ok
    ensures var d1 := MigrateDatabase(disk, stamp, false, fault).0;
      var r2 := MigrateDatabase(d1, stamp2, false, None);
      r2.1 == Done(true, Some(BackupPath(stamp2))) && r2.0.file == d1.file
  {
    MigrationAddsMissingColumns(disk, stamp, fault);
    var db := MigrateDatabase(disk, stamp, false, fault).0.file.value;
    assert Plan(db) == [];
  }

  /** A storage error before the last statement makes the migration report failure together
      with the backup path. */
  lemma MigrationFailureReportsBackup(disk: Disk, stamp: string, k: nat)
    requires disk.file.Some? && k < |Plan(disk.file.value)|
    ensures MigrateDatabase(disk, stamp, false, Some(k)).1 == Done(false, Some(BackupPath(stamp)))
  {
    RunFaultFails(disk.file.value, Plan(disk.file.value), k);
  }

  lemma {:induction false} RunFaultFails(db: Db, plan: seq<(TableName, Column)>, k: nat)
    ensures !Run(db, plan, Some(k)).1
    decreases |plan|
  {
    if plan != [] && k != 0 {
      match DbAddColumn(db, plan[0].0, plan[0].1)
      case Err(_) =>
      case Ok(db1) => RunFaultFails(db1, plan[1..], k - 1);
    }
  }

  /** With both tables present and no storage error the migration succeeds. */
  lemma MigrationSucceeds(disk: Disk, stamp: string)
    requires disk.file.Some? && Accounts in disk.file.value && Contacts in disk.file.value
    ensures MigrateDatabase(disk, stamp, false, None).1.ok
  {
    var db := disk.file.value;
    var plan := Plan(db);
    assert forall i :: 0 <= i < |plan| ==> plan[i] in plan;
    PlanDistinct(db);
    RunSucceeds(db, plan);
  }

  lemma PlanDistinct(db: Db)
    ensures var plan := Plan(db); forall i, j :: 0 <= i < j < |plan| ==> plan[i] != plan[j]
  {
    RequiredColumnsDistinct();
    var ta := Tag(Accounts, Missing(AccountColumns, ColumnsOf(db, Accounts)));
    var tc := Tag(Contacts, Missing(ContactColumns, ColumnsOf(db, Contacts)));
    assert Plan(db) == ta + tc;
    ConcatDistinct(ta, tc);
  }

  lemma RequiredColumnsDistinct()
    ensures forall i, j :: 0 <= i < j < |AccountColumns| ==> AccountColumns[i] != AccountColumns[j]
    ensures forall i, j :: 0 <= i < j < |ContactColumns| ==> ContactColumns[i] != ContactColumns[j]
  {
  }

  lemma ConcatDistinct(ta: seq<(TableName, Column)>, tc: seq<(TableName, Column)>)
    requires forall i, j :: 0 <= i < j < |ta| ==> ta[i] != ta[j]
    requires forall i, j :: 0 <= i < j < |tc| ==> tc[i] != tc[j]
    requires forall i :: 0 <= i < |ta| ==> ta[i].0 == Accounts
    requires forall i :: 0 <= i < |tc| ==> tc[i].0 == Contacts
    ensures var plan := ta + tc; forall i, j :: 0 <= i < j < |plan| ==> plan[i] != plan[j]
  {
    var plan := ta + tc;
    forall i, j | 0 <= i < j < |plan| ensures plan[i] != plan[j] {
      if j < |ta| {
        assert plan[i] == ta[i] && plan[j] == ta[j];
      } else if i >= |ta| {
        assert plan[i] == tc[i - |ta|] && plan[j] == tc[j - |ta|];
      } else {
        assert plan[i] == ta[i] && plan[j] == tc[j - |ta|];
      }
    }
  }

  /** What `check_schema` says after a successful migration: the migration adds neither
      Accounts.industry_id nor Opportunities.stage_id, so the database still needs migration
      exactly when one of those two was missing before. */
  lemma CheckSchemaAfterMigration(disk: Disk, stamp: string, fault: Option<nat>)
    requires disk.file.Some?
    requires MigrateDatabase(disk, stamp, false, fault).1.ok
    ensures var db := disk.file.value; var r := MigrateDatabase(disk, stamp, false, fault);
      CheckSchema(r.0.file, false) <==>
        "industry_id" !in db[Accounts].columns || "stage_id" !in ColumnsOf(db, Opportunities)
  {
    MigrationAddsMissingColumns(disk, stamp, fault);
    var db := disk.file.value;
    var db' := MigrateDatabase(disk, stamp, false, fault).0.file.value;
    MigrationPreservesData(disk, stamp, fault);
    assert ColumnsOf(db', Opportunities) == ColumnsOf(db, Opportunities);
    CheckSchemaOfMigrated(db, db');
  }

  lemma CheckSchemaOfMigrated(db: Db, db': Db)
    requires Accounts in db && Contacts in db && Accounts in db' && Contacts in db'
    requires forall c :: c in db'[Accounts].columns <==> c in db[Accounts].columns || c in AccountColumns
    requires forall c :: c in db'[Contacts].columns <==> c in db[Contacts].columns || c in ContactColumns
    requires ColumnsOf(db', Opportunities) == ColumnsOf(db, Opportunities)
    ensures CheckSchema(Some(db'), false) <==>
      "industry_id" !in db[Accounts].columns || "stage_id" !in ColumnsOf(db, Opportunities)
  {
    var a, c := db'[Accounts].columns, db'[Contacts].columns;
    assert "description" in a && "website" in a by {
      assert AccountColumns[0] == "description" && AccountColumns[1] == "website";
    }
    assert "title" in c && "description" in c by {
      assert ContactColumns[0] == "title" && ContactColumns[1] == "description";
    }
    assert "industry_id" in a <==> "industry_id" in db[Accounts].columns;
  }

  /** With no storage error, every planned ALTER succeeds when its table exists and its column
      is new and not repeated. */
  lemma {:induction false} RunSucceeds(db: Db, plan: seq<(TableName, Column)>)
    requires forall i :: 0 <= i < |plan| ==> plan[i].0 in db && plan[i].1 !in db[plan[i].0].columns
    requires forall i, j :: 0 <= i < j < |plan| ==> plan[i] != plan[j]
    ensures Run(db, plan, None).1
    decreases |plan|
  {
    if plan != [] {
      var db1 := DbAddColumn(db, plan[0].0, plan[0].1).value;
      forall i | 0 <= i < |plan[1..]|
        ensures plan[1..][i].0 in db1 && plan[1..][i].1 !in db1[plan[1..][i].0].columns
      {
        assert plan[1..][i] == plan[i + 1];
      }
      RunSucceeds(db1, plan[1..]);
    }
  }

  /** `create_tables` on the database file, creating the file when it is absent. */
  function CreateTablesOn(file: Option<Db>): (db: Db)
    ensures db.Keys == AllTables()
    ensures file.Some? ==> forall n :: n in file.value ==> db[n] == file.value[n]
  {
    CreateTables(if file.Some? then file.value else map[])
  }

  /** `initialize_database` as written: when `check_schema` asks for a migration it runs
      `migrate_database` and calls `create_tables` only if the migration raised; otherwise it
      calls `create_tables`. `schemaError` is a storage error inside `check_schema`, which then
      reports that no migration is needed. */
  function InitializeDatabase(disk: Disk, schemaError: bool, stamp: string, osError: bool, fault: Option<nat>): (r: Disk)
    ensures !CheckSchema(disk.file, schemaError) ==> r == disk.(file := Some(CreateTablesOn(disk.file)))
    ensures CheckSchema(disk.file, schemaError) && osError ==> r == disk.(file := Some(CreateTablesOn(disk.file)))
    ensures CheckSchema(disk.file, schemaError) && !osError ==> r == MigrateDatabase(disk, stamp, false, fault).0
  {
    if CheckSchema(disk.file, schemaError) then
      var (d, outcome) := MigrateDatabase(disk, stamp, osError, fault);
      if outcome.Raised? then d.(file := Some(CreateTablesOn(d.file))) else d
    else
      disk.(file := Some(CreateTablesOn(disk.file)))
  }

  /** A database without Accounts.industry_id (a first-revision one, say) never reaches the
      current schema: initialization migrates it but never creates the missing picklist tables,
      and every later start finds it needing migration again and changes no table. */
  lemma InitializationStalls(disk: Disk, stamp: string, stamp2: string)
    requires disk.file.Some? && Accounts in disk.file.value && Contacts in disk.file.value
    requires "industry_id" !in disk.file.value[Accounts].columns
    ensures var d1 := InitializeDatabase(disk, false, stamp, false, None);
      && d1.file.Some? && d1.file.value.Keys == disk.file.value.Keys
      && CheckSchema(d1.file, false)
      && InitializeDatabase(d1, false, stamp2, false, None).file == d1.file
  {
    MigrationSucceeds(disk, stamp);
    CheckSchemaAfterMigration(disk, stamp, None);
    var d1 := MigrateDatabase(disk, stamp, false, None).0;
    assert InitializeDatabase(disk, false, stamp, false, None) == d1;
    MigrationIdempotent(disk, stamp, None, stamp2);
  }

  /** The first-revision layout meets the conditions above and has no picklist tables. */
  lemma LegacyLayoutStalls()
    ensures var db := LegacyDb();
      && Accounts in db && Contacts in db && "industry_id" !in db[Accounts].columns
      && PicklistTypes !in db && PicklistValues !in db
  {
    assert LegacyDb()[Accounts] == LegacyTable(Accounts).value;
  }

  /** `initialize_database` with the missing `create_tables` call after a migration that
      returned: every start ends with all five tables present. */
  function InitializeDatabaseFixed(disk: Disk, schemaError: bool, stamp: string, osError: bool, fault: Option<nat>): (r: Disk)
    ensures r.file.Some? && r.file.value.Keys == AllTables()
    ensures r.backups == InitializeDatabase(disk, schemaError, stamp, osError, fault).backups
    ensures forall n :: n in InitializeDatabase(disk, schemaError, stamp, osError, fault).file.value ==>
      r.file.value[n] == InitializeDatabase(disk, schemaError, stamp, osError, fault).file.value[n]
  {
    var d := InitializeDatabase(disk, schemaError, stamp, osError, fault);
    d.(file := Some(CreateTablesOn(d.file)))
  }

  // ---------------------------------------------------------------------------------------
  // The migration with the two columns `check_schema` asks for

  /** The statements of `Plan`, followed by the two the migration leaves out: Accounts.industry_id
      and Opportunities.stage_id, each when missing. */
  function PlanFixed(db: Db): (plan: seq<(TableName, Column)>)
    ensures forall n, c :: (n, c) in plan ==> n == Accounts || n == Contacts || n == Opportunities
    ensures forall c :: (Accounts, c) in plan <==>
      (Accounts, c) in Plan(db) || (c == "industry_id" && c !in ColumnsOf(db, Accounts))
    ensures forall c :: (Contacts, c) in plan <==> (Contacts, c) in Plan(db)
    ensures forall c :: (Opportunities, c) in plan <==> c == "stage_id" && c !in ColumnsOf(db, Opportunities)
  {
    var ta := if "industry_id" in ColumnsOf(db, Accounts) then [] else [(Accounts, "industry_id")];
    var to := if "stage_id" in ColumnsOf(db, Opportunities) then [] else [(Opportunities, "stage_id")];
    PlanFixedMembers(db, Plan(db), ta, to);
    Plan(db) + ta + to
  }

  lemma PlanFixedMembers(db: Db, pa: seq<(TableName, Column)>, ta: seq<(TableName, Column)>, to: seq<(TableName, Column)>)
    requires forall n, c :: (n, c) in pa ==> n == Accounts || n == Contacts
    requires ta == if "industry_id" in ColumnsOf(db, Accounts) then [] else [(Accounts, "industry_id")]
    requires to == if "stage_id" in ColumnsOf(db, Opportunities) then [] else [(Opportunities, "stage_id")]
    ensures var plan := pa + ta + to;
      && (forall n, c :: (n, c) in plan ==> n == Accounts || n == Contacts || n == Opportunities)
      && (forall c :: (Accounts, c) in plan <==> (Accounts, c) in pa || (c == "industry_id" && c !in ColumnsOf(db, Accounts)))
      && (forall c :: (Contacts, c) in plan <==> (Contacts, c) in pa)
      && (forall c :: (Opportunities, c) in plan <==> c == "stage_id" && c !in ColumnsOf(db, Opportunities))
  {
    ConcatMembers(pa, ta, to);
  }

  lemma ConcatMembers<T>(a: seq<T>, b: seq<T>, c: seq<T>)
    ensures forall p :: p in a + b + c <==> p in a || p in b || p in c
  {
  }

  /** `migrate_database` running `PlanFixed` instead of `Plan`; everything else as written. */
  function MigrateDatabaseFixed(disk: Disk, stamp: string, osError: bool, fault: Option<nat>): (r: (Disk, Outcome))
    ensures osError ==> r == (disk, Raised)
    ensures !osError && disk.file.None? ==> r == MigrateDatabase(disk, stamp, false, fault)
    ensures !osError && disk.file.Some? ==>
      && r.1 == Done(Run(disk.file.value, PlanFixed(disk.file.value), fault).1, Some(BackupPath(stamp)))
      && r.0.backups == disk.backups[BackupPath(stamp) := disk.file.value]
      && r.0.file == Some(Run(disk.file.value, PlanFixed(disk.file.value), fault).0)
  {
    if osError then (disk, Raised)
    else
      var (d1, backup) := BackupDatabase(disk, stamp);
      if backup.None? && d1.file.None? then
        (Disk(Some(CreateTables(map[])), d1.backups), Done(true, None))
      else
        var db := d1.file.value;
        var (db', ok) := Run(db, PlanFixed(db), fault);
        (Disk(Some(db'), d1.backups), Done(ok, backup))
  }

  /** After a successful corrected migration `check_schema` finds nothing to migrate, and every
      stored value is kept. */
  lemma FixedMigrationSettlesSchema(disk: Disk, stamp: string, fault: Option<nat>)
    requires disk.file.Some?
    requires MigrateDatabaseFixed(disk, stamp, false, fault).1.ok
    ensures var db' := MigrateDatabaseFixed(disk, stamp, false, fault).0.file;
      db'.Some? && DbExtends(disk.file.value, db'.value) && !CheckSchema(db', false)
  {
    var db := disk.file.value;
    assert Run(db, PlanFixed(db), fault).1;
    RunFixedColumns(db, fault);
  }

  /** Every column `check_schema` asks for is present in `db` or planned by `PlanFixed`. */
  lemma PlanFixedCovers(db: Db)
    ensures var plan := PlanFixed(db);
      && ("description" in ColumnsOf(db, Accounts) || (Accounts, "description") in plan)
      && ("website" in ColumnsOf(db, Accounts) || (Accounts, "website") in plan)
      && ("industry_id" in ColumnsOf(db, Accounts) || (Accounts, "industry_id") in plan)
      && ("title" in ColumnsOf(db, Contacts) || (Contacts, "title") in plan)
      && ("description" in ColumnsOf(db, Contacts) || (Contacts, "description") in plan)
      && ("stage_id" in ColumnsOf(db, Opportunities) || (Opportunities, "stage_id") in plan)
  {
    PlanCovers(db, Plan(db));
  }

  lemma PlanCovers(db: Db, plan: seq<(TableName, Column)>)
    requires forall c :: (Accounts, c) in plan <==> c in AccountColumns && c !in ColumnsOf(db, Accounts)
    requires forall c :: (Contacts, c) in plan <==> c in ContactColumns && c !in ColumnsOf(db, Contacts)
    ensures "description" in ColumnsOf(db, Accounts) || (Accounts, "description") in plan
    ensures "website" in ColumnsOf(db, Accounts) || (Accounts, "website") in plan
    ensures "title" in ColumnsOf(db, Contacts) || (Contacts, "title") in plan
    ensures "description" in ColumnsOf(db, Contacts) || (Contacts, "description") in plan
  {
    assert AccountColumns[0] == "description" && AccountColumns[1] == "website";
    assert ContactColumns[0] == "title" && ContactColumns[1] == "description";
  }

  lemma RunFixedColumns(db: Db, fault: Option<nat>)
    requires Run(db, PlanFixed(db), fault).1
    ensures var db' := Run(db, PlanFixed(db), fault).0;
      DbExtends(db, db') && !CheckSchema(Some(db'), false)
  {
    var plan := PlanFixed(db);
    PlanFixedCovers(db);
    RunHas(db, plan, fault, Accounts, "description");
    RunHas(db, plan, fault, Accounts, "website");
    RunHas(db, plan, fault, Accounts, "industry_id");
    RunHas(db, plan, fault, Contacts, "title");
    RunHas(db, plan, fault, Contacts, "description");
    RunHas(db, plan, fault, Opportunities, "stage_id");
    SchemaSettled(Run(db, plan, fault).0);
  }

  /** `check_schema` finds nothing to migrate once the columns it asks for are there. */
  lemma SchemaSettled(db: Db)
    requires Accounts in db && Contacts in db && Opportunities in db
    requires "description" in db[Accounts].columns && "website" in db[Accounts].columns
    requires "industry_id" in db[Accounts].columns
    requires "title" in db[Contacts].columns && "description" in db[Contacts].columns
    requires "stage_id" in db[Opportunities].columns
    ensures !CheckSchema(Some(db), false)
  {
  }

  /** After a successful run a column is present when it was before or was planned, on a table
      that exists. */
  lemma RunHas(db: Db, plan: seq<(TableName, Column)>, fault: Option<nat>, n: TableName, c: Column)
    requires Run(db, plan, fault).1
    requires c in ColumnsOf(db, n) || (n, c) in plan
    ensures n in db && n in Run(db, plan, fault).0 && c in Run(db, plan, fault).0[n].columns
  {
    if (n, c) in plan {
      var i :| 0 <= i < |plan| && plan[i] == (n, c);
      assert n in db;
    }
    RunColumns(db, plan, fault);
  }

  /** With Accounts, Contacts and Opportunities present and no storage error the corrected
      migration succeeds; on the first-revision layout it therefore reaches a schema
      `check_schema` accepts. */
  lemma FixedMigrationSucceeds(disk: Disk, stamp: string)
    requires disk.file.Some?
    requires Accounts in disk.file.value && Contacts in disk.file.value && Opportunities in disk.file.value
    ensures MigrateDatabaseFixed(disk, stamp, false, None).1.ok
  {
    RunFixedSucceeds(disk.file.value);
  }

  lemma RunFixedSucceeds(db: Db)
    requires Accounts in db && Contacts in db && Opportunities in db
    ensures Run(db, PlanFixed(db), None).1
  {
    var plan := PlanFixed(db);
    PlanFixedDistinct(db);
    forall i | 0 <= i < |plan| ensures plan[i].0 in db && plan[i].1 !in db[plan[i].0].columns {
      PlanFixedFresh(db, plan[i].0, plan[i].1);
    }
    RunSucceeds(db, plan);
  }

  /** Every statement of `PlanFixed` adds a column its table lacks. */
  lemma PlanFixedFresh(db: Db, n: TableName, c: Column)
    requires (n, c) in PlanFixed(db)
    ensures c !in ColumnsOf(db, n)
  {
  }

  lemma PlanFixedDistinct(db: Db)
    ensures var plan := PlanFixed(db); forall i, j :: 0 <= i < j < |plan| ==> plan[i] != plan[j]
  {
    var ta := if "industry_id" in ColumnsOf(db, Accounts) then [] else [(Accounts, "industry_id")];
    var to := if "stage_id" in ColumnsOf(db, Opportunities) then [] else [(Opportunities, "stage_id")];
    assert PlanFixed(db) == Plan(db) + ta + to;
    PlanDistinct(db);
    IndustryIdNotPlanned(db);
    ExtraDistinct(Plan(db), ta, to);
  }

  /** The migration as written never adds Accounts.industry_id. */
  lemma IndustryIdNotPlanned(db: Db)
    ensures (Accounts, "industry_id") !in Plan(db)
  {
    assert "industry_id" !in AccountColumns;
  }

  lemma ExtraDistinct(pa: seq<(TableName, Column)>, ta: seq<(TableName, Column)>, to: seq<(TableName, Column)>)
    requires forall i, j :: 0 <= i < j < |pa| ==> pa[i] != pa[j]
    requires forall n, c :: (n, c) in pa ==> n == Accounts || n == Contacts
    requires (Accounts, "industry_id") !in pa
    requires ta == [] || ta == [(Accounts, "industry_id")]
    requires to == [] || to == [(Opportunities, "stage_id")]
    ensures var plan := pa + ta + to; forall i, j :: 0 <= i < j < |plan| ==> plan[i] != plan[j]
  {
    AppendDistinct(pa, ta);
    AppendDistinct(pa + ta, to);
  }

  /** Joining two repetition-free plans with no statement in common gives a repetition-free plan. */
  lemma AppendDistinct(a: seq<(TableName, Column)>, b: seq<(TableName, Column)>)
    requires forall i, j :: 0 <= i < j < |a| ==> a[i] != a[j]
    requires forall i, j :: 0 <= i < j < |b| ==> b[i] != b[j]
    requires forall p :: p in b ==> p !in a
    ensures var plan := a + b; forall i, j :: 0 <= i < j < |plan| ==> plan[i] != plan[j]
  {
    var plan := a + b;
    forall i, j | 0 <= i < j < |plan| ensures plan[i] != plan[j] {
      if j < |a| {
        assert plan[i] == a[i] && plan[j] == a[j];
      } else if i >= |a| {
        assert plan[i] == b[i - |a|] && plan[j] == b[j - |a|];
      } else {
        assert plan[i] == a[i] && plan[j] == b[j - |a|] && a[i] in a && b[j - |a|] in b;
      }
    }
  }
}
