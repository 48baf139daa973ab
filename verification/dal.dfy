/** The data access layer of src/crm_dal.py over the current schema: inserts that name every
    parameter, reads by id, lists, searches, partial updates and deletes for accounts, contacts
    and opportunities, each failing the way the Python functions do (None, False or an empty
    list), plus the stage resolution of the opportunity functions. */
module Dal {
  import opened Base
  import opened Storage
  import opened Schema
  import opened Picklist

  /** A call's keyword arguments by column name; `Null` stands for Python's None, which is also
      what an omitted keyword defaults to. */
  type Args = map<Column, Value>

  /** The three tables the layer serves. */
  predicate Entity(n: TableName) {
    n == Accounts || n == Contacts || n == Opportunities
  }

  /** The columns the create and update functions of each entity take as parameters. For
      opportunities `stage_id` is set from the `stage` argument, never passed directly. */
  function Params(n: TableName): (cs: set<Column>)
    ensures Entity(n) ==> cs <= CurrentTable(n).columns
  {
    match n
    case Accounts => {"name", "industry_id", "description", "website", "street", "city", "state", "zip", "country"}
    case Contacts =>
      {"first_name", "last_name", "email", "phone", "account_id", "title", "description", "website",
       "street", "city", "state", "zip", "country"}
    case Opportunities => {"name", "description", "amount", "close_date", "account_id", "contact_id", "stage_id"}
    case _ => {}
  }

  /** The table is present with the shape `create_tables` gives it and its ids below the counter. */
  predicate Current(db: Db, n: TableName) {
    && n in db && SameShape(db[n], CurrentTable(n)) && WellFormed(db[n]) && Unique(db[n])
    && forall id :: id in db[n].rows ==> !NullViolation(db[n], db[n].rows[id])
  }

  // ---------------------------------------------------------------------------------------
  // create_*

  /** The INSERT of a create function names every parameter; an omitted one is NULL. */
  function InsertFields(n: TableName, args: Args): (sets: map<Column, Value>)
    ensures sets.Keys == Params(n)
    ensures forall c :: c in Params(n) ==> sets[c] == Col(args, c)
  {
    map c | c in Params(n) :: Col(args, c)
  }

  /** `create_account`, `create_contact` and the insert of `create_opportunity`: the new row's id,
      or `None` with nothing written when the table is missing or lacks a column, a NOT NULL
      column gets None, or a UNIQUE column (a contact's email) is already taken. */
  function Create(db: Db, n: TableName, args: Args): (r: (Db, Option<int>))
    requires Entity(n) && args.Keys <= Params(n)
    ensures r.1.None? ==> r.0 == db
    ensures r.1.Some? <==>
      (n in db && Params(n) <= db[n].columns
       && !NullViolation(db[n], NewRow(db[n], InsertFields(n, args)))
       && !Collides(db[n], NewRow(db[n], InsertFields(n, args)), {}))
    ensures r.1.Some? ==>
      && r.0 == db[n := db[n].(rows := db[n].rows[r.1.value := NewRow(db[n], InsertFields(n, args))], nextId := db[n].nextId + 1)]
      && r.1.value == db[n].nextId
  {
    var (db', res) := DbInsert(db, n, InsertFields(n, args));
    match res
    case Ok(id) => (db', Some(id))
    case Err(_) => (db, None)
  }

  // ---------------------------------------------------------------------------------------
  // get_*, list_*, search_*, get_*_by_account

  /** `get_account`, `get_contact`, `get_opportunity`: the row, or `None` when there is none or
      the table is missing. */
  function Get(db: Db, n: TableName, id: int): (r: Option<Row>)
    ensures r.Some? <==> n in db && id in db[n].rows
    ensures r.Some? ==> r.value == db[n].rows[id]
  {
    match DbGet(db, n, id)
    case Ok(row) => row
    case Err(_) => None
  }

  /** The rows a SELECT with `cond` returns, or the empty list the functions return on an error. */
  function Rows(db: Db, n: TableName, cond: Cond): (rs: seq<Record>)
    ensures forall i, j :: 0 <= i < j < |rs| ==> rs[i].id < rs[j].id
    ensures forall i :: 0 <= i < |rs| ==> n in db && rs[i].id in db[n].rows && rs[i].row == db[n].rows[rs[i].id] && Holds(cond, rs[i].row)
    ensures n in db && CondColumns(cond) <= db[n].columns && WellFormed(db[n]) ==>
      forall id :: id in db[n].rows && Holds(cond, db[n].rows[id]) ==> exists i :: 0 <= i < |rs| && rs[i].id == id
  {
    match DbSelect(db, n, cond)
    case Ok(rs) => rs
    case Err(_) => []
  }

  /** `list_accounts`, `list_contacts`, `list_opportunities`: every row, in id order. */
  function List(db: Db, n: TableName): (rs: seq<Record>)
    ensures forall i, j :: 0 <= i < j < |rs| ==> rs[i].id < rs[j].id
    ensures forall i :: 0 <= i < |rs| ==> n in db && rs[i].id in db[n].rows && rs[i].row == db[n].rows[rs[i].id]
    ensures n in db && WellFormed(db[n]) ==> forall id :: id in db[n].rows ==> exists i :: 0 <= i < |rs| && rs[i].id == id
  {
    Rows(db, n, Always)
  }

  /** The columns each search matches against. */
  function SearchColumns(n: TableName): seq<Column> {
    match n
    case Accounts => ["name"]
    case Contacts => ["first_name", "last_name", "email"]
    case Opportunities => ["name", "description"]
    case _ => []
  }

  /** The query text appears, ignoring ASCII case, in one of the searched columns. */
  predicate Matches(n: TableName, row: Row, q: string) {
    exists i :: 0 <= i < |SearchColumns(n)| && LikeContains(Col(row, SearchColumns(n)[i]), q)
  }

  /** `search_accounts`, `search_contacts`, `search_opportunities`: exactly the rows whose searched
      columns contain the query, in id order. */
  function Search(db: Db, n: TableName, q: string): (rs: seq<Record>)
    requires Entity(n)
    ensures forall i, j :: 0 <= i < j < |rs| ==> rs[i].id < rs[j].id
    ensures forall i :: 0 <= i < |rs| ==> n in db && rs[i].id in db[n].rows && rs[i].row == db[n].rows[rs[i].id] && Matches(n, rs[i].row, q)
    ensures Current(db, n) ==> forall id :: id in db[n].rows && Matches(n, db[n].rows[id], q) ==> exists i :: 0 <= i < |rs| && rs[i].id == id
  {
    var cond := Like(SearchColumns(n), q);
    SearchCond(db, n, q);
    Rows(db, n, cond)
  }

  /** The search condition holds exactly on matching rows, and names only current columns. */
  lemma SearchCond(db: Db, n: TableName, q: string)
    requires Entity(n)
    ensures forall row :: Holds(Like(SearchColumns(n), q), row) <==> Matches(n, row, q)
    ensures Current(db, n) ==> CondColumns(Like(SearchColumns(n), q)) <= db[n].columns
  {
    assert CondColumns(Like(SearchColumns(n), q)) <= Params(n);
  }

  /** `get_contacts_by_account`, `get_opportunities_by_account`: exactly the rows linked to the
      account, in id order; a None account id links nothing. */
  function ByAccount(db: Db, n: TableName, accountId: Value): (rs: seq<Record>)
    requires n == Contacts || n == Opportunities
    ensures forall i, j :: 0 <= i < j < |rs| ==> rs[i].id < rs[j].id
    ensures forall i :: 0 <= i < |rs| ==>
      (n in db && rs[i].id in db[n].rows && rs[i].row == db[n].rows[rs[i].id]
       && accountId != Null && Col(rs[i].row, "account_id") == accountId)
    ensures Current(db, n) ==> forall id :: id in db[n].rows && accountId != Null && Col(db[n].rows[id], "account_id") == accountId ==>
      exists i :: 0 <= i < |rs| && rs[i].id == id
  {
    ByAccountCond(db, n, accountId);
    Rows(db, n, Equals("account_id", accountId))
  }

  /** The account condition holds exactly on rows linked to that account, and names a current
      column. */
  lemma ByAccountCond(db: Db, n: TableName, accountId: Value)
    requires n == Contacts || n == Opportunities
    ensures forall row :: Holds(Equals("account_id", accountId), row) <==> accountId != Null && Col(row, "account_id") == accountId
    ensures Current(db, n) ==> CondColumns(Equals("account_id", accountId)) <= db[n].columns
  {
  }

  // ---------------------------------------------------------------------------------------
  // update_* and delete_*

  /** The assignments an update makes: one per argument that is not None. */
  function Assigned(args: Args): (sets: map<Column, Value>)
    ensures forall c :: c in sets <==> c in args && args[c] != Null
    ensures forall c :: c in sets ==> sets[c] == args[c]
  {
    map c | c in args && args[c] != Null :: args[c]
  }

  /** `update_account`, `update_contact` and the statement of `update_opportunity`: with no
      argument to assign, `False` before any write; otherwise one UPDATE of the row, reporting
      whether it changed a row, with `False` and nothing written on an error. */
  function Update(db: Db, n: TableName, id: int, args: Args): (r: (Db, bool))
    requires Entity(n) && args.Keys <= Params(n)
    ensures Assigned(args) == map[] ==> r == (db, false)
    ensures !r.1 ==> r.0 == db
    ensures r.1 <==>
      (Assigned(args) != map[] && n in db && Assigned(args).Keys <= db[n].columns && id in db[n].rows
       && !NullViolation(db[n], db[n].rows[id] + Assigned(args)) && !Collides(db[n], db[n].rows[id] + Assigned(args), {id}))
    ensures r.1 ==> r.0 == db[n := db[n].(rows := db[n].rows[id := db[n].rows[id] + Assigned(args)])]
  {
    var sets := Assigned(args);
    if sets == map[] then (db, false)
    else
      var (db', res) := DbUpdate(db, n, id, sets);
      match res
      case Ok(changed) => (if changed then db' else db, changed)
      case Err(_) => (db, false)
  }

  /** `delete_account`, `delete_contact`, `delete_opportunity`: removes the row with that id and
      nothing else, and reports whether there was one. */
  function Delete(db: Db, n: TableName, id: int): (r: (Db, bool))
    ensures r.1 <==> n in db && id in db[n].rows
    ensures n !in db ==> r.0 == db
    ensures n in db ==> r.0 == db[n := db[n].(rows := db[n].rows - {id})]
  {
    var (db', res) := DbDelete(db, n, id);
    match res
    case Ok(found) => (db', found)
    case Err(_) => (db, false)
  }

  // ---------------------------------------------------------------------------------------
  // Stage resolution for opportunities

  const Stage: Value := Text("stage")

  /** The stage a new opportunity gets: an int is stored as given, other non-empty input is looked
      up among the active stage values (NULL when absent), and no stage takes the first active
      stage marked default, else the first active stage, else NULL. */
  function CreateStage(db: Db, stage: Value): (r: Value)
    ensures Truthy(stage) && stage.Int? ==> r == stage
    ensures Truthy(stage) && !stage.Int? ==> (r != Null <==> GetPicklistIdByValue(db, Stage, stage).Some?)
    ensures Truthy(stage) && !stage.Int? && r != Null ==> r == Int(GetPicklistIdByValue(db, Stage, stage).value)
    ensures !Truthy(stage) ==> (r == Null <==> GetPicklistValues(db, Stage) == [])
    ensures !Truthy(stage) && r != Null ==> r == Int(DefaultValue(GetPicklistValues(db, Stage)).id)
  {
    if Truthy(stage) then
      if stage.Int? then stage
      else match GetPicklistIdByValue(db, Stage, stage)
        case Some(id) => Int(id)
        case None => Null
    else
      var stages := GetPicklistValues(db, Stage);
      if stages == [] then Null else Int(DefaultValue(stages).id)
  }

  /** `create_opportunity`: the insert with the resolved stage. The new row holds the arguments
      and that stage; with the table in place only a missing name makes it fail. */
  function CreateOpportunity(db: Db, args: Args, stage: Value): (r: (Db, Option<int>))
    requires args.Keys <= Params(Opportunities) - {"stage_id"}
    ensures r.1.None? ==> r.0 == db
    ensures r.1.Some? ==>
      && Get(r.0, Opportunities, r.1.value).Some?
      && Col(Get(r.0, Opportunities, r.1.value).value, "stage_id") == CreateStage(db, stage)
      && forall c :: c in Params(Opportunities) - {"stage_id"} ==> Col(Get(r.0, Opportunities, r.1.value).value, c) == Col(args, c)
    ensures Current(db, Opportunities) ==> (r.1.Some? <==> Col(args, "name") != Null)
  {
    var args' := args["stage_id" := CreateStage(db, stage)];
    CreateSucceedsIff(db, Opportunities, args');
    assert Current(db, Opportunities) ==> CurrentTable(Opportunities).notNull == {"name"};
    Create(db, Opportunities, args')
  }

  /** The stage assignment an update makes: none for a None stage; otherwise the int given or the
      id the text looks up, kept only when truthy. */
  function UpdateStage(db: Db, stage: Value): (r: Value)
    ensures stage == Null ==> r == Null
    ensures stage.Int? ==> r == (if stage.i != 0 then stage else Null)
    ensures stage != Null && !stage.Int? ==>
      (r != Null <==> GetPicklistIdByValue(db, Stage, stage).Some? && GetPicklistIdByValue(db, Stage, stage).value != 0)
    ensures stage != Null && !stage.Int? && r != Null ==> r == Int(GetPicklistIdByValue(db, Stage, stage).value)
  {
    if stage == Null then Null
    else
      var id := if stage.Int? then stage
        else match GetPicklistIdByValue(db, Stage, stage)
          case Some(v) => Int(v)
          case None => Null;
      if Truthy(id) then id else Null
  }

  /** `update_opportunity`: the partial update, with the stage column assigned only when the stage
      resolves to an id. A stage that resolves to nothing, with no other argument, writes nothing. */
  function UpdateOpportunity(db: Db, id: int, args: Args, stage: Value): (r: (Db, bool))
    requires args.Keys <= Params(Opportunities) - {"stage_id"}
    ensures UpdateStage(db, stage) == Null && Assigned(args) == map[] ==> r == (db, false)
    ensures !r.1 ==> r.0 == db
    ensures r.1 ==>
      && Get(db, Opportunities, id).Some? && Get(r.0, Opportunities, id).Some?
      && Col(Get(r.0, Opportunities, id).value, "stage_id") ==
           (if UpdateStage(db, stage) != Null then UpdateStage(db, stage) else Col(Get(db, Opportunities, id).value, "stage_id"))
      && forall c :: c != "stage_id" ==>
           Col(Get(r.0, Opportunities, id).value, c) ==
             (if c in args && args[c] != Null then args[c] else Col(Get(db, Opportunities, id).value, c))
    ensures r.1 ==> forall other :: other != id ==> Get(r.0, Opportunities, other) == Get(db, Opportunities, other)
    ensures r.1 ==> forall m :: m != Opportunities && m in db ==> m in r.0 && r.0[m] == db[m]
  {
    var args' := args["stage_id" := UpdateStage(db, stage)];
    OpportunityAssignments(db, id, args, args', UpdateStage(db, stage));
    Update(db, Opportunities, id, args')
  }

  /** The update `update_opportunity` runs, with the resolved stage among its arguments. */
  lemma OpportunityAssignments(db: Db, id: int, args: Args, args': Args, stageId: Value)
    requires args.Keys <= Params(Opportunities) - {"stage_id"} && args' == args["stage_id" := stageId]
    ensures args'.Keys <= Params(Opportunities)
    ensures stageId == Null && Assigned(args) == map[] ==> Assigned(args') == map[]
    ensures var r := Update(db, Opportunities, id, args');
      r.1 ==>
      && Get(db, Opportunities, id).Some? && Get(r.0, Opportunities, id).Some?
      && Col(Get(r.0, Opportunities, id).value, "stage_id") ==
           (if stageId != Null then stageId else Col(Get(db, Opportunities, id).value, "stage_id"))
      && (forall c :: c != "stage_id" ==>
           Col(Get(r.0, Opportunities, id).value, c) ==
             (if c in args && args[c] != Null then args[c] else Col(Get(db, Opportunities, id).value, c)))
      && (forall other :: other != id ==> Get(r.0, Opportunities, other) == Get(db, Opportunities, other))
      && (forall m :: m != Opportunities && m in db ==> m in r.0 && r.0[m] == db[m])
  {
    if Update(db, Opportunities, id, args').1 {
      UpdateAssignsExactly(db, Opportunities, id, args');
    }
  }

  /** With the current table and something to write (an argument or a resolved stage), an
      opportunity update is true exactly when a row with that id exists. */
  lemma UpdateOpportunityReportsExistence(db: Db, id: int, args: Args, stage: Value)
    requires args.Keys <= Params(Opportunities) - {"stage_id"} && Current(db, Opportunities)
    requires Assigned(args) != map[] || UpdateStage(db, stage) != Null
    ensures UpdateOpportunity(db, id, args, stage).1 <==> id in db[Opportunities].rows
  {
    var args' := args["stage_id" := UpdateStage(db, stage)];
    if UpdateStage(db, stage) != Null {
      assert "stage_id" in Assigned(args');
    } else {
      var c :| c in Assigned(args);
      assert c in Assigned(args');
    }
    UpdateReportsExistence(db, Opportunities, id, args');
  }

  // ---------------------------------------------------------------------------------------
  // What the operations promise together

  /** Clashing on the contacts' only UNIQUE key means holding the same email. */
  lemma EmailClashIff(a: Row, b: Row)
    ensures Clash(a, b, ["email"]) <==> Col(a, "email") != Null && Col(a, "email") == Col(b, "email")
  {
    var key := ["email"];
    assert key[0] == "email";
  }

  /** Another contact than `id` already holds `email`. */
  predicate EmailTaken(db: Db, id: int, email: Value)
    requires Contacts in db
  {
    email != Null && exists other :: other in db[Contacts].rows && other != id && Col(db[Contacts].rows[other], "email") == email
  }

  /** With the email as the only UNIQUE key, a row collides exactly when it has an email that a
      stored row outside `skip` holds. */
  lemma EmailCollidesIff(t: Table, row: Row, skip: set<int>)
    requires t.uniques == {["email"]}
    ensures Collides(t, row, skip) <==>
      Col(row, "email") != Null && exists other :: other in t.rows && other !in skip && Col(t.rows[other], "email") == Col(row, "email")
  {
    if Collides(t, row, skip) {
      var other, k :| other in t.rows && other !in skip && k in t.uniques && Clash(row, t.rows[other], k);
      EmailClashIff(row, t.rows[other]);
    }
    if Col(row, "email") != Null && exists other :: other in t.rows && other !in skip && Col(t.rows[other], "email") == Col(row, "email") {
      var other :| other in t.rows && other !in skip && Col(t.rows[other], "email") == Col(row, "email");
      EmailClashIff(row, t.rows[other]);
    }
  }

  /** With the table in place a create succeeds exactly when every NOT NULL parameter is given
      and, for a contact, no stored contact holds its email. */
  lemma CreateSucceedsIff(db: Db, n: TableName, args: Args)
    requires Entity(n) && args.Keys <= Params(n)
    ensures Current(db, n) ==>
      (Create(db, n, args).1.Some? <==>
         && (forall c :: c in CurrentTable(n).notNull ==> Col(args, c) != Null)
         && (n == Contacts ==> !EmailTaken(db, 0, Col(args, "email"))))
  {
    if !Current(db, n) { return; }
    var t := db[n];
    var row := NewRow(t, InsertFields(n, args));
    assert forall c :: c in t.notNull ==> Col(row, c) == Col(args, c);
    if n == Contacts {
      assert t.uniques == {["email"]};
      EmailCollidesIff(t, row, {});
      assert Col(row, "email") == Col(args, "email");
      assert forall id :: id in t.rows ==> id != 0;
    } else {
      assert t.uniques == {};
    }
  }

  /** `create_contact` with an email another contact holds returns None and inserts nothing. */
  lemma CreateContactDuplicateEmail(db: Db, args: Args, holder: int)
    requires args.Keys <= Params(Contacts) && Current(db, Contacts)
    requires holder in db[Contacts].rows && Col(args, "email") != Null
    requires Col(db[Contacts].rows[holder], "email") == Col(args, "email")
    ensures Create(db, Contacts, args) == (db, None)
  {
    assert holder != 0 by { assert WellFormed(db[Contacts]); }
    CreateSucceedsIff(db, Contacts, args);
  }

  /** A created row reads back under the returned id, which was free, with every parameter as
      given; every other row and table is as before. */
  lemma CreateThenGet(db: Db, n: TableName, args: Args)
    requires Entity(n) && args.Keys <= Params(n) && Current(db, n)
    requires Create(db, n, args).1.Some?
    ensures var (db', id) := Create(db, n, args);
      && Get(db, n, id.value).None? && Get(db', n, id.value).Some?
      && (forall c :: c in Params(n) ==> Col(Get(db', n, id.value).value, c) == Col(args, c))
      && (forall other :: other != id.value ==> Get(db', n, other) == Get(db, n, other))
      && (forall m :: m != n && m in db ==> m in db' && db'[m] == db[m])
  {
  }

  /** A successful update assigns exactly the arguments that are not None: every other column of
      the row, every other row and every other table keep their values. */
  lemma UpdateAssignsExactly(db: Db, n: TableName, id: int, args: Args)
    requires Entity(n) && args.Keys <= Params(n)
    requires Update(db, n, id, args).1
    ensures var db' := Update(db, n, id, args).0;
      && Get(db, n, id).Some? && Get(db', n, id).Some?
      && (forall c :: Col(Get(db', n, id).value, c) == if c in args && args[c] != Null then args[c] else Col(Get(db, n, id).value, c))
      && (forall other :: other != id ==> Get(db', n, other) == Get(db, n, other))
      && (forall m :: m != n && m in db ==> m in db' && db'[m] == db[m])
  {
  }

  /** With the table in place and something to assign, an update reports whether the row exists;
      for a contact it also fails when the new email belongs to another contact. */
  lemma UpdateReportsExistence(db: Db, n: TableName, id: int, args: Args)
    requires Entity(n) && args.Keys <= Params(n) && Current(db, n) && Assigned(args) != map[]
    ensures Update(db, n, id, args).1 <==> id in db[n].rows && (n == Contacts ==> !EmailTaken(db, id, Col(args, "email")))
  {
    var t := db[n];
    if id in t.rows {
      var row := t.rows[id] + Assigned(args);
      assert !NullViolation(t, t.rows[id]);
      assert !NullViolation(t, row);
      if n == Contacts {
        assert t.uniques == {["email"]};
        EmailCollidesIff(t, row, {id});
        if Col(args, "email") == Null {
          assert Col(row, "email") == Col(t.rows[id], "email");
          forall other | other in t.rows && other != id
            ensures !(Col(row, "email") != Null && Col(t.rows[other], "email") == Col(row, "email"))
          {
            EmailClashIff(t.rows[id], t.rows[other]);
          }
        } else {
          assert Col(row, "email") == Col(args, "email");
        }
      } else {
        assert t.uniques == {};
      }
    }
  }

  /** After a delete the row is gone and every other row reads as before. */
  lemma DeleteThenGet(db: Db, n: TableName, id: int)
    ensures Get(Delete(db, n, id).0, n, id).None?
    ensures forall other :: other != id ==> Get(Delete(db, n, id).0, n, other) == Get(db, n, other)
  {
  }

  /** Deleting an account does not cascade: the contacts and opportunities linked to it are still
      there, still linked. */
  lemma DeleteAccountKeepsLinks(db: Db, id: int)
    ensures ByAccount(Delete(db, Accounts, id).0, Contacts, Int(id)) == ByAccount(db, Contacts, Int(id))
    ensures ByAccount(Delete(db, Accounts, id).0, Opportunities, Int(id)) == ByAccount(db, Opportunities, Int(id))
  {
  }
}
