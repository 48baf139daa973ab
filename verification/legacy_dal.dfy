/** The data access layer of the first revision (crm_dal.py): creates that insert the listed
    columns and updates that overwrite every listed column, None included. Reads by id and deletes
    behave as in the current layer and are `Dal.Get` and `Dal.Delete`. */
module LegacyDal {
  import opened Base
  import opened Storage
  import opened Schema
  import opened Dal

  /** The columns each create and update of the first revision lists. */
  function LegacyParams(n: TableName): (cs: set<Column>)
    ensures Entity(n) ==> cs == LegacyTable(n).value.columns
  {
    match n
    case Accounts => {"name", "industry"}
    case Contacts => {"first_name", "last_name", "email", "phone", "account_id"}
    case Opportunities => {"name", "description", "amount", "close_date", "account_id", "contact_id"}
    case _ => {}
  }

  /** The table is present with the first revision's shape, its ids below the counter and its
      constraints holding. */
  predicate LegacyShaped(db: Db, n: TableName)
    requires Entity(n)
  {
    && n in db && SameShape(db[n], LegacyTable(n).value) && WellFormed(db[n]) && Unique(db[n])
    && forall id :: id in db[n].rows ==> !NullViolation(db[n], db[n].rows[id])
  }

  /** Every listed column with its argument; None is written as NULL. */
  function Listed(n: TableName, args: Args): (sets: map<Column, Value>)
    ensures sets.Keys == LegacyParams(n)
    ensures forall c :: c in LegacyParams(n) ==> sets[c] == Col(args, c)
  {
    map c | c in LegacyParams(n) :: Col(args, c)
  }

  /** `create_account`, `create_contact`, `create_opportunity`: the new id, or `None` with nothing
      written on any storage error (a missing table or column, a NOT NULL column given None, a
      contact email already held). */
  function LegacyCreate(db: Db, n: TableName, args: Args): (r: (Db, Option<int>))
    requires Entity(n) && args.Keys <= LegacyParams(n)
    ensures r.1.None? ==> r.0 == db
    ensures r.1.Some? <==>
      (n in db && LegacyParams(n) <= db[n].columns
       && !NullViolation(db[n], NewRow(db[n], Listed(n, args)))
       && !Collides(db[n], NewRow(db[n], Listed(n, args)), {}))
    ensures r.1.Some? ==>
      && r.0 == db[n := db[n].(rows := db[n].rows[r.1.value := NewRow(db[n], Listed(n, args))], nextId := db[n].nextId + 1)]
      && r.1.value == db[n].nextId
  {
    var (db', res) := DbInsert(db, n, Listed(n, args));
    match res
    case Ok(id) => (db', Some(id))
    case Err(_) => (db, None)
  }

  /** `update_account`, `update_contact`, `update_opportunity`: every listed column is overwritten
      with its argument, None included; the result says whether a row was changed, and on any
      storage error nothing is written. */
  function LegacyUpdate(db: Db, n: TableName, id: int, args: Args): (r: (Db, bool))
    requires Entity(n) && args.Keys <= LegacyParams(n)
    ensures !r.1 ==> r.0 == db
    ensures r.1 <==>
      (n in db && LegacyParams(n) <= db[n].columns && id in db[n].rows
       && !NullViolation(db[n], db[n].rows[id] + Listed(n, args))
       && !Collides(db[n], db[n].rows[id] + Listed(n, args), {id}))
  {
    var (db', res) := DbUpdate(db, n, id, Listed(n, args));
    match res
    case Ok(changed) => (if changed then db' else db, changed)
    case Err(_) => (db, false)
  }

  /** The returned id is fresh and reading it back gives every listed column with its argument,
      None included; no other row changes. */
  lemma LegacyCreateThenGet(db: Db, n: TableName, args: Args)
    requires Entity(n) && args.Keys <= LegacyParams(n) && n in db && WellFormed(db[n])
    requires LegacyCreate(db, n, args).1.Some?
    ensures var (db', id) := LegacyCreate(db, n, args);
      && Get(db, n, id.value).None? && Get(db', n, id.value).Some?
      && (forall c :: c in LegacyParams(n) ==> Col(Get(db', n, id.value).value, c) == Col(args, c))
      && (forall other :: other != id.value ==> Get(db', n, other) == Get(db, n, other))
  {
  }

  /** A successful update is a full replace: every listed column holds its argument, even where
      that is None, the unlisted columns, the other rows and the other tables are as before. */
  lemma LegacyUpdateOverwrites(db: Db, n: TableName, id: int, args: Args)
    requires Entity(n) && args.Keys <= LegacyParams(n)
    requires LegacyUpdate(db, n, id, args).1
    ensures var db' := LegacyUpdate(db, n, id, args).0;
      && Get(db, n, id).Some? && Get(db', n, id).Some?
      && (forall c :: c in LegacyParams(n) ==> Col(Get(db', n, id).value, c) == Col(args, c))
      && (forall c :: c !in LegacyParams(n) ==> Col(Get(db', n, id).value, c) == Col(Get(db, n, id).value, c))
      && (forall other :: other != id ==> Get(db', n, other) == Get(db, n, other))
      && (forall m :: m != n && m in db ==> m in db' && db'[m] == db[m])
  {
  }

  /** Unlike the current layer, leaving the name out of an account or opportunity update does not
      keep the old name: it writes NULL into a NOT NULL column, so the update fails. */
  lemma LegacyUpdateNeedsName(db: Db, n: TableName, id: int, args: Args)
    requires (n == Accounts || n == Opportunities) && args.Keys <= LegacyParams(n) && LegacyShaped(db, n)
    requires Col(args, "name") == Null
    ensures LegacyUpdate(db, n, id, args) == (db, false)
  {
    if id in db[n].rows {
      assert "name" in db[n].notNull;
      assert Col(db[n].rows[id] + Listed(n, args), "name") == Null;
    }
  }

  /** With the first revision's tables and every NOT NULL column given, an update reports whether
      the row exists; for a contact it also fails when the email belongs to another contact. */
  lemma LegacyUpdateReportsExistence(db: Db, n: TableName, id: int, args: Args)
    requires Entity(n) && args.Keys <= LegacyParams(n) && LegacyShaped(db, n)
    requires forall c :: c in LegacyTable(n).value.notNull ==> Col(args, c) != Null
    ensures LegacyUpdate(db, n, id, args).1 <==> id in db[n].rows && (n == Contacts ==> !EmailTaken(db, id, Col(args, "email")))
  {
    var t := db[n];
    if id in t.rows {
      var row := t.rows[id] + Listed(n, args);
      assert forall c :: c in t.notNull ==> Col(row, c) == Col(args, c);
      if n == Contacts {
        assert t.uniques == {["email"]};
        EmailCollidesIff(t, row, {id});
        assert Col(row, "email") == Col(args, "email");
      } else {
        assert t.uniques == {};
      }
    }
  }

  /** With the first revision's tables a create succeeds exactly when every NOT NULL column is
      given and, for a contact, no stored contact holds its email. */
  lemma LegacyCreateSucceedsIff(db: Db, n: TableName, args: Args)
    requires Entity(n) && args.Keys <= LegacyParams(n) && LegacyShaped(db, n)
    ensures LegacyCreate(db, n, args).1.Some? <==>
      && (forall c :: c in LegacyTable(n).value.notNull ==> Col(args, c) != Null)
      && (n == Contacts ==> !EmailTaken(db, 0, Col(args, "email")))
  {
    var t := db[n];
    var row := NewRow(t, Listed(n, args));
    assert forall c :: c in t.notNull ==> Col(row, c) == Col(args, c);
    if n == Contacts {
      assert t.uniques == {["email"]};
      EmailCollidesIff(t, row, {});
      assert Col(row, "email") == Col(args, "email");
      assert forall id :: id in t.rows ==> id != 0;
    } else {
      assert t.uniques == {};
    }
  }

  /** `delete_account` of the first revision removes the account row only: the contacts and
      opportunities that name it keep their rows and their `account_id`. */
  lemma LegacyDeleteAccountKeepsReferences(db: Db, id: int)
    ensures var (db', deleted) := Dal.Delete(db, Accounts, id);
      && (deleted <==> Accounts in db && id in db[Accounts].rows)
      && Get(db', Accounts, id).None?
      && (forall m :: m != Accounts && m in db ==> m in db' && db'[m] == db[m])
  {
  }
}
