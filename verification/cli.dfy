/** The text helpers of the interactive front end (src/main.py) and the way its update flows turn
    the user's answers into arguments for the data access layer. Terminal input arrives as the
    sequence of lines typed; what the prompts print is not modelled. */
module Cli {
  import opened Base
  import opened Storage
  import opened Dal

  // ---------------------------------------------------------------------------------------
  // truncate_text

  /** `str.replace('\n', ' ')`. */
  function SingleLine(s: string): (r: string)
    ensures |r| == |s|
    ensures forall i :: 0 <= i < |s| ==> r[i] == (if s[i] == '\n' then ' ' else s[i])
  {
    seq(|s|, i requires 0 <= i < |s| => if s[i] == '\n' then ' ' else s[i])
  }

  /** Python's `s[:k]`, where a negative `k` counts from the end. */
  function PyPrefix(s: string, k: int): (r: string)
    ensures k >= 0 ==> |r| == if k <= |s| then k else |s|
    ensures k < 0 ==> |r| == if |s| + k >= 0 then |s| + k else 0
    ensures r == s[..|r|]
  {
    if k >= 0 then (if k <= |s| then s[..k] else s)
    else if |s| + k >= 0 then s[..|s| + k]
    else []
  }

  /** `truncate_text(text, max_length)`: "N/A" for None, the empty string or "N/A"; otherwise the
      text on one line, cut to `max_length` characters ending in "..." when it is longer. */
  function TruncateText(text: Option<string>, maxLength: int): (r: string)
    ensures text == None || text == Some("") || text == Some("N/A") ==> r == "N/A"
    ensures text.Some? && text.value != "" && text.value != "N/A" ==>
      && (|text.value| <= maxLength ==> r == SingleLine(text.value))
      && (|text.value| > maxLength >= 3 ==>
            |r| == maxLength && r[..maxLength - 3] == SingleLine(text.value)[..maxLength - 3] && r[maxLength - 3..] == "...")
    ensures forall i :: 0 <= i < |r| ==> r[i] != '\n'
  {
    if text.None? || text.value == "" || text.value == "N/A" then "N/A"
    else
      var line := SingleLine(text.value);
      if |line| <= maxLength then line
      else PyPrefix(line, maxLength - 3) + "..."
  }

  /** Truncating what `truncate_text` returned changes nothing, as long as there is room for the
      ellipsis. */
  lemma TruncateTextIdempotent(text: Option<string>, maxLength: int)
    requires maxLength >= 3
    ensures TruncateText(Some(TruncateText(text, maxLength)), maxLength) == TruncateText(text, maxLength)
  {
    var r := TruncateText(text, maxLength);
    if r != "N/A" {
      assert text.Some? && text.value != "" && text.value != "N/A";
      assert |r| <= maxLength;
      assert r != "" by {
        if |text.value| <= maxLength { assert |r| == |text.value|; }
      }
      assert SingleLine(r) == r;
    }
  }

  // ---------------------------------------------------------------------------------------
  // get_multiline_input

  /** What `get_multiline_input` gives back: 'back', None for a blank answer, the text, or the
      end of the program when input runs out (`graceful_exit`). */
  datatype Answer = Back | Blank | Entered(text: string) | Exit

  /** The line is the command `cmd` once stripped and upper-cased. */
  predicate IsCommand(line: string, cmd: string) {
    Upper(Strip(line)) == cmd
  }

  predicate Ends(line: string) {
    IsCommand(line, "DONE") || IsCommand(line, "BACK")
  }

  /** The position of the first element satisfying `p`, or the length when there is none. */
  function FirstWhere<T>(s: seq<T>, p: T -> bool): (k: nat)
    ensures k <= |s|
    ensures forall j :: 0 <= j < k ==> !p(s[j])
    ensures k < |s| ==> p(s[k])
  {
    if s == [] then 0
    else if p(s[0]) then 0
    else 1 + FirstWhere(s[1..], p)
  }

  /** The position of the first DONE or BACK line, or the number of lines when there is none. */
  function FirstCommand(lines: seq<string>): (k: nat)
    ensures k <= |lines|
    ensures k < |lines| ==> Ends(lines[k])
  {
    FirstWhere(lines, Ends)
  }

  /** `get_multiline_input`: reads lines up to the first DONE or BACK (any case, surrounding
      whitespace ignored); BACK gives `Back`, DONE gives the lines before it joined with
      newlines, or `Blank` when that is only whitespace. */
  method GetMultilineInput(lines: seq<string>) returns (a: Answer)
    ensures a == Exit <==> FirstCommand(lines) == |lines|
    ensures a == Back <==> FirstCommand(lines) < |lines| && IsCommand(lines[FirstCommand(lines)], "BACK")
    ensures (a.Entered? || a == Blank) <==> FirstCommand(lines) < |lines| && IsCommand(lines[FirstCommand(lines)], "DONE")
    ensures a.Entered? ==> a.text == Join(lines[..FirstCommand(lines)], "\n") && !AllSpace(a.text)
    ensures a == Blank ==> AllSpace(Join(lines[..FirstCommand(lines)], "\n"))
  {
    var i := FindFirst(lines, Ends);
    if i == |lines| {
      return Exit;
    }
    if IsCommand(lines[i], "DONE") {
      var text := Join(lines[..i], "\n");
      if Strip(text) == [] {
        return Blank;
      }
      return Entered(text);
    }
    return Back;
  }

  /** The reading loop: the position of the first element satisfying `p`. */
  method FindFirst<T>(s: seq<T>, p: T -> bool) returns (i: nat)
    ensures i == FirstWhere(s, p)
  {
    i := 0;
    while i < |s| && !p(s[i])
      invariant i <= |s|
      invariant forall j :: 0 <= j < i ==> !p(s[j])
    {
      i := i + 1;
    }
    FirstWhereAt(s, p, i);
  }

  /** The first match is where the scan stopped. */
  lemma {:induction false} FirstWhereAt<T>(s: seq<T>, p: T -> bool, i: nat)
    requires i <= |s|
    requires forall j :: 0 <= j < i ==> !p(s[j])
    requires i < |s| ==> p(s[i])
    ensures FirstWhere(s, p) == i
  {
    if i > 0 {
      assert !p(s[0]);
      FirstWhereAt(s[1..], p, i - 1);
    }
  }

  /** Splitting at every `c`, Python's `str.split(c)`. */
  function Split(s: string, c: char): (parts: seq<string>)
    ensures |parts| >= 1
  {
    if s == [] then [[]]
    else
      var rest := Split(s[1..], c);
      if s[0] == c then [[]] + rest
      else [[s[0]] + rest[0]] + rest[1..]
  }

  lemma {:induction false} SplitNoSeparator(s: string, c: char)
    requires forall i :: 0 <= i < |s| ==> s[i] != c
    ensures Split(s, c) == [s]
  {
    if s != [] {
      SplitNoSeparator(s[1..], c);
      assert [s[0]] + s[1..] == s;
    }
  }

  lemma {:induction false} SplitAfter(a: string, c: char, b: string)
    requires forall i :: 0 <= i < |a| ==> a[i] != c
    ensures Split(a + [c] + b, c) == [a] + Split(b, c)
  {
    if a == [] {
      assert a + [c] + b == [c] + b;
      assert ([c] + b)[1..] == b;
    } else {
      var s := a + [c] + b;
      assert s[1..] == a[1..] + [c] + b;
      SplitAfter(a[1..], c, b);
      assert [a[0]] + a[1..] == a;
    }
  }

  /** The entered text gives back the lines typed: no line read by `input()` holds a newline, so
      splitting the joined text at newlines recovers them. */
  lemma {:induction false} SplitJoinLines(lines: seq<string>)
    requires lines != []
    requires forall k, i :: 0 <= k < |lines| && 0 <= i < |lines[k]| ==> lines[k][i] != '\n'
    ensures Split(Join(lines, "\n"), '\n') == lines
  {
    if |lines| == 1 {
      SplitNoSeparator(lines[0], '\n');
    } else {
      SplitJoinLines(lines[1..]);
      SplitAfter(lines[0], '\n', Join(lines[1..], "\n"));
      assert [lines[0]] + lines[1..] == lines;
    }
  }

  // ---------------------------------------------------------------------------------------
  // Location display in the account and contact lists

  /** A column Python treats as true: present and non-empty. */
  predicate Given(s: Option<string>) {
    s.Some? && s.value != ""
  }

  /** The part as the list it contributes: itself when given, nothing otherwise. */
  function Kept(s: Option<string>): (r: seq<string>)
    ensures |r| <= 1
    ensures r != [] <==> Given(s)
    ensures r != [] ==> r[0] == s.value
  {
    if Given(s) then [s.value] else []
  }

  /** The given parts, in order. */
  function Present(parts: seq<Option<string>>): (r: seq<string>)
    ensures |r| <= |parts|
    ensures forall i :: 0 <= i < |r| ==> r[i] != ""
    ensures forall s :: s in r <==> exists i :: 0 <= i < |parts| && Given(parts[i]) && parts[i].value == s
  {
    if parts == [] then []
    else
      var r := Kept(parts[0]) + Present(parts[1..]);
      assert forall i :: 0 < i < |parts| ==> parts[1..][i - 1] == parts[i];
      r
  }

  /** City, state and country: the given ones joined with ", " in that order, or "N/A" when none
      is given. */
  function Location(city: Option<string>, state: Option<string>, country: Option<string>): (r: string)
    ensures r == (if !Given(city) && !Given(state) && !Given(country) then "N/A"
                  else Join(Kept(city) + Kept(state) + Kept(country), ", "))
    ensures Given(city) ==> |city.value| <= |r| && r[..|city.value|] == city.value
  {
    var parts := Present([city, state, country]);
    PresentThree(city, state, country);
    if parts == [] then "N/A"
    else
      JoinHead(parts, ", ");
      Join(parts, ", ")
  }

  /** The location of every combination of given parts, spelled out. */
  lemma LocationSpelledOut(city: Option<string>, state: Option<string>, country: Option<string>)
    ensures var r := Location(city, state, country);
      && (!Given(city) && !Given(state) && !Given(country) ==> r == "N/A")
      && (Given(city) && !Given(state) && !Given(country) ==> r == city.value)
      && (!Given(city) && Given(state) && !Given(country) ==> r == state.value)
      && (!Given(city) && !Given(state) && Given(country) ==> r == country.value)
      && (Given(city) && Given(state) && !Given(country) ==> r == city.value + ", " + state.value)
      && (Given(city) && !Given(state) && Given(country) ==> r == city.value + ", " + country.value)
      && (!Given(city) && Given(state) && Given(country) ==> r == state.value + ", " + country.value)
      && (Given(city) && Given(state) && Given(country) ==> r == city.value + ", " + state.value + ", " + country.value)
  {
    var parts := Kept(city) + Kept(state) + Kept(country);
    if |parts| == 2 {
      assert parts[1..] == [parts[1]];
    } else if |parts| == 3 {
      assert parts[1..][1..] == [parts[2]];
      assert Join(parts[1..], ", ") == parts[1] + ", " + parts[2];
    }
  }

  lemma PresentThree(a: Option<string>, b: Option<string>, c: Option<string>)
    ensures Present([a, b, c]) == Kept(a) + Kept(b) + Kept(c)
  {
    assert [a, b, c][1..] == [b, c];
    assert [b, c][1..] == [c];
    assert [c][1..] == [];
    assert Present([c]) == Kept(c) + Present([]);
    assert Present([b, c]) == Kept(b) + Present([c]);
  }

  /** The first part starts the joined text. */
  lemma JoinHead(parts: seq<string>, sep: string)
    requires parts != []
    ensures |parts[0]| <= |Join(parts, sep)| && Join(parts, sep)[..|parts[0]|] == parts[0]
  {
  }

  // ---------------------------------------------------------------------------------------
  // Building the update arguments

  /** `or None` applied to a stripped answer: a blank answer is no answer. */
  function OrNone(s: string): (r: Option<string>)
    ensures r.None? <==> s == ""
    ensures r.Some? ==> r.value == s
  {
    if s == "" then None else Some(s)
  }

  /** What an update flow ends in: it goes back to the menu ('back' was entered), there is
      nothing to update, input ran out, or it calls the data access layer with these keywords. */
  datatype Call = Skipped | NoParams | Ended | Call(kwargs: Args)

  /** The answers to the account update prompts, each as `input(...).strip()` returned it. */
  datatype AccountAnswers = AccountAnswers(
    name: string, industry: string, description: Answer, website: string,
    street: string, city: string, state: string, zip: string, country: string)

  /** The description answer as `update_params` sees it. */
  function DescriptionText(a: Answer): Option<string> {
    if a.Entered? then Some(a.text) else None
  }

  /** The answer the account update flow gives for each keyword; `industryKey` is the keyword
      the industry answer is passed under. */
  function AccountAnswer(ans: AccountAnswers, industryKey: Column, key: Column): Option<string> {
    if key == "name" then OrNone(ans.name)
    else if key == industryKey then OrNone(ans.industry)
    else if key == "description" then DescriptionText(ans.description)
    else if key == "website" then OrNone(ans.website)
    else if key == "street" then OrNone(ans.street)
    else if key == "city" then OrNone(ans.city)
    else if key == "state" then OrNone(ans.state)
    else if key == "zip" then OrNone(ans.zip)
    else if key == "country" then OrNone(ans.country)
    else None
  }

  /** The keywords of the account update flow, with the industry under `industryKey`. */
  function AccountKeys(industryKey: Column): set<Column> {
    {"name", industryKey, "description", "website", "street", "city", "state", "zip", "country"}
  }

  /** The account update flow's arguments: every answered prompt, and no others. */
  function AccountUpdateCallWith(ans: AccountAnswers, industryKey: Column): (r: Call)
    requires industryKey !in {"name", "description", "website", "street", "city", "state", "zip", "country"}
    ensures r == Skipped <==> ans.description == Back
    ensures r == Ended <==> ans.description == Exit
    ensures r.Call? ==> forall k :: k in r.kwargs <==> k in AccountKeys(industryKey) && AccountAnswer(ans, industryKey, k).Some?
    ensures r.Call? ==> forall k :: k in r.kwargs ==> r.kwargs[k] == Text(AccountAnswer(ans, industryKey, k).value)
    ensures r == NoParams ==> forall k :: k in AccountKeys(industryKey) ==> AccountAnswer(ans, industryKey, k).None?
  {
    if ans.description == Back then Skipped
    else if ans.description == Exit then Ended
    else
      var args := map k | k in AccountKeys(industryKey) && AccountAnswer(ans, industryKey, k).Some?
                    :: Text(AccountAnswer(ans, industryKey, k).value);
      if args == map[] then
        assert forall k :: k in AccountKeys(industryKey) ==> k !in args;
        NoParams
      else Call(args)
  }

  /** The account update flow as written: the industry answer goes under the keyword `industry`. */
  function AccountUpdateCallAsWritten(ans: AccountAnswers): (r: Call)
    ensures r == AccountUpdateCallWith(ans, "industry")
  {
    AccountUpdateCallWith(ans, "industry")
  }

  /** `update_account` takes no keyword `industry`, so any industry answer makes the call raise
      `TypeError`, which the menu does not catch. */
  lemma IndustryAnswerNotAccepted(ans: AccountAnswers)
    requires OrNone(ans.industry).Some? && ans.description != Back && ans.description != Exit
    ensures AccountUpdateCallAsWritten(ans).Call?
    ensures "industry" in AccountUpdateCallAsWritten(ans).kwargs && "industry" !in Params(Accounts)
  {
    assert AccountAnswer(ans, "industry", "industry") == Some(ans.industry);
    var r := AccountUpdateCallWith(ans, "industry");
    assert r != NoParams;
    assert "industry" in r.kwargs;
    IndustryIsNoParameter();
  }

  lemma IndustryIsNoParameter()
    ensures "industry" !in Params(Accounts)
  {
  }

  /** The account update flow with the industry answer passed as `industry_id`, the parameter
      `update_account` declares for it. */
  function AccountUpdateCall(ans: AccountAnswers): (r: Call)
    ensures r.Call? ==> r.kwargs.Keys <= Params(Accounts)
    ensures r.Call? ==> forall k :: k in r.kwargs ==> r.kwargs[k] != Null
  {
    AccountUpdateCallWith(ans, "industry_id")
  }

  /** A blank answer keeps the stored value and an answered prompt replaces it: after the
      update every column holds the answer when there is one and its old value otherwise. */
  lemma AccountUpdateKeepsBlankAnswers(db: Db, id: int, ans: AccountAnswers)
    requires AccountUpdateCall(ans).Call?
    requires Dal.Update(db, Accounts, id, AccountUpdateCall(ans).kwargs).1
    ensures var db' := Dal.Update(db, Accounts, id, AccountUpdateCall(ans).kwargs).0;
      && Get(db, Accounts, id).Some? && Get(db', Accounts, id).Some?
      && forall k :: k in Params(Accounts) ==>
           Col(Get(db', Accounts, id).value, k) ==
             (if AccountAnswer(ans, "industry_id", k).Some? then Text(AccountAnswer(ans, "industry_id", k).value)
              else Col(Get(db, Accounts, id).value, k))
  {
    var args := AccountUpdateCall(ans).kwargs;
    UpdateAssignsExactly(db, Accounts, id, args);
  }

  /** The account update flow from the fetched account on. With no stored account of that id it
      goes back to the menu. Otherwise it shows the account's industry, read from the row under
      `industryKey` (src/main.py:650 and 660); when that names no column of Accounts the IndexError
      escapes every handler up to the top level and the program ends: None. Otherwise the answers
      make the call. */
  function AccountUpdateFlow(db: Db, id: int, ans: AccountAnswers, industryKey: Column): (r: Option<Call>)
    requires industryKey !in {"name", "description", "website", "street", "city", "state", "zip", "country"}
    ensures Get(db, Accounts, id).None? ==> r == Some(Skipped)
    ensures r.None? <==> Get(db, Accounts, id).Some? && industryKey !in ColumnsOf(db, Accounts)
    ensures r.Some? && Get(db, Accounts, id).Some? ==> r.value == AccountUpdateCallWith(ans, industryKey)
  {
    match Get(db, Accounts, id)
    case None => Some(Skipped)
    case Some(account) =>
      if Item(db, Accounts, account, industryKey).None? then None
      else Some(AccountUpdateCallWith(ans, industryKey))
  }

  /** As written the flow reads the key `industry`, which the Accounts table `create_tables`
      makes does not have: updating any stored account ends the program. */
  lemma AccountUpdateAbortsOnCreatedTables(db: Db, id: int, ans: AccountAnswers)
    requires Current(db, Accounts) && id in db[Accounts].rows
    ensures AccountUpdateFlow(db, id, ans, "industry").None?
  {
    IndustryColumnOfCurrent(db);
  }

  /** The Accounts table `create_tables` makes keeps the industry as `industry_id`, with no
      `industry` column. */
  lemma IndustryColumnOfCurrent(db: Db)
    requires Current(db, Accounts)
    ensures "industry" !in ColumnsOf(db, Accounts) && "industry_id" in ColumnsOf(db, Accounts)
  {
  }

  /** Read through `industry_id`, the flow reaches the update on the current layout, with
      keywords `update_account` accepts. */
  lemma AccountUpdateWithIndustryId(db: Db, id: int, ans: AccountAnswers)
    requires Current(db, Accounts)
    ensures AccountUpdateFlow(db, id, ans, "industry_id")
      == Some(if id in db[Accounts].rows then AccountUpdateCall(ans) else Skipped)
    ensures AccountUpdateCall(ans).Call? ==> AccountUpdateCall(ans).kwargs.Keys <= Params(Accounts)
  {
  }

  /** The answers to the contact update prompts, each as `input(...).strip()` returned it, and
      what the account search prompt returned. */
  datatype ContactAnswers = ContactAnswers(
    firstName: string, lastName: string, title: string, email: string, phone: string,
    description: Answer, website: string, street: string, city: string, state: string,
    zip: string, country: string, account: Selection)

  /** The argument the contact update flow passes under `key`, if any: a text answer when not
      blank, and for the account link the chosen id, with 0 or less passed as None. */
  function ContactUpdateArg(ans: ContactAnswers, key: Column): Option<Value> {
    var text := if key == "first_name" then OrNone(ans.firstName)
      else if key == "last_name" then OrNone(ans.lastName)
      else if key == "title" then OrNone(ans.title)
      else if key == "email" then OrNone(ans.email)
      else if key == "phone" then OrNone(ans.phone)
      else if key == "description" then DescriptionText(ans.description)
      else if key == "website" then OrNone(ans.website)
      else if key == "street" then OrNone(ans.street)
      else if key == "city" then OrNone(ans.city)
      else if key == "state" then OrNone(ans.state)
      else if key == "zip" then OrNone(ans.zip)
      else if key == "country" then OrNone(ans.country)
      else None;
    if key == "account_id" then LinkArg(ans.account, true)
    else if text.Some? then Some(Text(text.value)) else None
  }

  /** The contact update flow (src/main.py:960-1035): 'back' at the description or the account
      prompt returns to the menu, running out of input ends the program, and otherwise every
      answered prompt becomes a keyword of `update_contact`. */
  function ContactUpdateCall(ans: ContactAnswers): (r: Call)
    ensures r == Ended <==> ans.description == Exit
    ensures r == Skipped <==> ans.description == Back || (ans.description != Exit && ans.account == SelectBack)
    ensures r.Call? ==> r.kwargs.Keys <= Params(Contacts)
    ensures r.Call? ==> forall k :: k in r.kwargs <==> k in Params(Contacts) && ContactUpdateArg(ans, k).Some?
    ensures r.Call? ==> forall k :: k in r.kwargs ==> r.kwargs[k] == ContactUpdateArg(ans, k).value
    ensures r == NoParams ==> forall k :: k in Params(Contacts) ==> ContactUpdateArg(ans, k).None?
  {
    if ans.description == Back then Skipped
    else if ans.description == Exit then Ended
    else if ans.account == SelectBack then Skipped
    else
      var args := map k | k in Params(Contacts) && ContactUpdateArg(ans, k).Some? :: ContactUpdateArg(ans, k).value;
      if args == map[] then
        assert forall k :: k in Params(Contacts) ==> k !in args;
        NoParams
      else Call(args)
  }

  /** A blank answer keeps the stored value and an answered prompt replaces it. */
  lemma ContactUpdateKeepsBlankAnswers(db: Db, id: int, ans: ContactAnswers)
    requires ContactUpdateCall(ans).Call?
    requires Dal.Update(db, Contacts, id, ContactUpdateCall(ans).kwargs).1
    ensures var db' := Dal.Update(db, Contacts, id, ContactUpdateCall(ans).kwargs).0;
      && Get(db, Contacts, id).Some? && Get(db', Contacts, id).Some?
      && forall k :: k in Params(Contacts) ==>
           Col(Get(db', Contacts, id).value, k) ==
             (if ContactUpdateArg(ans, k).Some? && ContactUpdateArg(ans, k).value != Null then ContactUpdateArg(ans, k).value
              else Col(Get(db, Contacts, id).value, k))
  {
    UpdateAssignsExactly(db, Contacts, id, ContactUpdateCall(ans).kwargs);
  }

  /** The flow never clears a contact's account link: afterwards the link is the positive id
      chosen at the account prompt, or the old link. The flow's branch for 0 passes None, which
      `update_contact` drops (src/crm_dal.py:345-347). */
  lemma ContactUpdateNeverClearsAccount(db: Db, id: int, ans: ContactAnswers)
    requires ContactUpdateCall(ans).Call?
    requires Dal.Update(db, Contacts, id, ContactUpdateCall(ans).kwargs).1
    ensures var db' := Dal.Update(db, Contacts, id, ContactUpdateCall(ans).kwargs).0;
      && Get(db, Contacts, id).Some? && Get(db', Contacts, id).Some?
      && (|| Col(Get(db', Contacts, id).value, "account_id") == Col(Get(db, Contacts, id).value, "account_id")
          || (ans.account.Chosen? && ans.account.id > 0
              && Col(Get(db', Contacts, id).value, "account_id") == Int(ans.account.id)))
  {
    ContactUpdateKeepsBlankAnswers(db, id, ans);
    assert "account_id" in Params(Contacts);
  }

  /** The answers to the opportunity update prompts, each as `input(...).strip()` returned it;
      `parsedAmount` is what `float()` made of the amount answer, None when it raised
      `ValueError`. */
  datatype OpportunityAnswers = OpportunityAnswers(
    name: string, description: Answer, amount: string, parsedAmount: Option<real>,
    closeDate: string, account: Selection, contact: Selection)

  /** What the account and contact search prompts return: 'back', None to keep the link, or an id.
      `SelectContact` gives the contact prompt's. */
  datatype Selection = SelectBack | Keep | Chosen(id: int)

  /** The answer is 'back' in any case. */
  predicate SaysBack(answer: string) {
    Lower(answer) == "back"
  }

  /** The amount argument: left out for a blank answer, the parsed number, or the old amount
      when the answer does not parse. */
  function AmountArg(ans: OpportunityAnswers, oldAmount: Value): (r: Option<Value>)
    ensures r.None? <==> ans.amount == ""
    ensures r.Some? && ans.parsedAmount.None? ==> r.value == oldAmount
    ensures r.Some? && ans.parsedAmount.Some? ==> r.value == Real(ans.parsedAmount.value)
  {
    if ans.amount == "" then None
    else if ans.parsedAmount.Some? then Some(Real(ans.parsedAmount.value))
    else Some(oldAmount)
  }

  /** A chosen link: the id for an account, and for a contact the id, with 0 standing for None. */
  function LinkArg(sel: Selection, zeroIsNone: bool): Option<Value> {
    match sel
    case Chosen(id) => Some(if zeroIsNone && id <= 0 then Null else Int(id))
    case _ => None
  }

  /** The keywords of the opportunity update flow. */
  function OpportunityKeys(): set<Column> {
    {"name", "description", "amount", "close_date", "account_id", "contact_id"}
  }

  /** The argument the opportunity update flow passes under `key`, if any. */
  function OpportunityArg(ans: OpportunityAnswers, oldAmount: Value, key: Column): Option<Value> {
    if key == "name" then (if OrNone(ans.name).Some? then Some(Text(OrNone(ans.name).value)) else None)
    else if key == "description" then (if ans.description.Entered? then Some(Text(ans.description.text)) else None)
    else if key == "amount" then AmountArg(ans, oldAmount)
    else if key == "close_date" then (if OrNone(ans.closeDate).Some? then Some(Text(OrNone(ans.closeDate).value)) else None)
    else if key == "account_id" then LinkArg(ans.account, false)
    else if key == "contact_id" then LinkArg(ans.contact, true)
    else None
  }

  /** 'back' at any prompt returns to the menu before anything is written. */
  predicate OpportunityBack(ans: OpportunityAnswers) {
    ans.description == Back
    || (ans.description != Exit
        && (SaysBack(ans.amount) || SaysBack(ans.closeDate) || ans.account == SelectBack || ans.contact == SelectBack))
  }

  /** The opportunity update flow's arguments, given the opportunity's stored amount. */
  function OpportunityUpdateCall(ans: OpportunityAnswers, oldAmount: Value): (r: Call)
    ensures r == Ended <==> ans.description == Exit
    ensures r == Skipped <==> OpportunityBack(ans)
    ensures r.Call? ==> r.kwargs.Keys <= Params(Opportunities) - {"stage_id"}
    ensures r.Call? ==> forall k :: k in r.kwargs <==> k in OpportunityKeys() && OpportunityArg(ans, oldAmount, k).Some?
    ensures r.Call? ==> forall k :: k in r.kwargs ==> r.kwargs[k] == OpportunityArg(ans, oldAmount, k).value
    ensures r == NoParams ==> forall k :: k in OpportunityKeys() ==> OpportunityArg(ans, oldAmount, k).None?
  {
    if ans.description == Exit then Ended
    else if OpportunityBack(ans) then Skipped
    else
      var args := map k | k in OpportunityKeys() && OpportunityArg(ans, oldAmount, k).Some? :: OpportunityArg(ans, oldAmount, k).value;
      if args == map[] then
        assert forall k :: k in OpportunityKeys() ==> k !in args;
        NoParams
      else Call(args)
  }

  /** A blank amount leaves the amount out; one that does not parse passes the stored amount
      back unchanged. */
  lemma AmountAnswer(ans: OpportunityAnswers, oldAmount: Value)
    requires OpportunityUpdateCall(ans, oldAmount).Call?
    ensures ans.amount == "" ==> "amount" !in OpportunityUpdateCall(ans, oldAmount).kwargs
    ensures ans.amount != "" && ans.parsedAmount.None? ==> OpportunityUpdateCall(ans, oldAmount).kwargs["amount"] == oldAmount
    ensures ans.amount != "" && ans.parsedAmount.Some? ==>
      OpportunityUpdateCall(ans, oldAmount).kwargs["amount"] == Real(ans.parsedAmount.value)
  {
    assert "amount" in OpportunityKeys();
  }

  /** An amount answer that does not parse keeps the stored amount: the flow passes the old
      amount back, and `update_opportunity` skips it when it is None. */
  lemma UnparsedAmountKeepsAmount(db: Db, id: int, ans: OpportunityAnswers)
    requires Get(db, Opportunities, id).Some?
    requires ans.parsedAmount.None?
    requires OpportunityUpdateCall(ans, Col(Get(db, Opportunities, id).value, "amount")).Call?
    requires UpdateOpportunity(db, id, OpportunityUpdateCall(ans, Col(Get(db, Opportunities, id).value, "amount")).kwargs, Null).1
    ensures var args := OpportunityUpdateCall(ans, Col(Get(db, Opportunities, id).value, "amount")).kwargs;
      Col(Get(UpdateOpportunity(db, id, args, Null).0, Opportunities, id).value, "amount") == Col(Get(db, Opportunities, id).value, "amount")
  {
  }

  /** The flow's branch for a contact id of 0 or less passes None, which `update_opportunity`
      skips, so that branch keeps the link. The branch is dead as written (see
      `ZeroAnswerAsksAgain`); it shows that a helper returning 0 would not be enough. */
  lemma ContactZeroKeepsLink(db: Db, id: int, ans: OpportunityAnswers, oldAmount: Value)
    requires ans.contact == Chosen(0)
    requires OpportunityUpdateCall(ans, oldAmount).Call?
    requires UpdateOpportunity(db, id, OpportunityUpdateCall(ans, oldAmount).kwargs, Null).1
    ensures var args := OpportunityUpdateCall(ans, oldAmount).kwargs;
      && "contact_id" in args && args["contact_id"] == Null
      && Get(db, Opportunities, id).Some?
      && Col(Get(UpdateOpportunity(db, id, args, Null).0, Opportunities, id).value, "contact_id")
         == Col(Get(db, Opportunities, id).value, "contact_id")
  {
    ContactZeroArg(ans, oldAmount);
    assert "contact_id" != "stage_id";
  }

  /** The contact answer 0 is passed as None. */
  lemma ContactZeroArg(ans: OpportunityAnswers, oldAmount: Value)
    requires ans.contact == Chosen(0)
    requires OpportunityUpdateCall(ans, oldAmount).Call?
    ensures "contact_id" in OpportunityUpdateCall(ans, oldAmount).kwargs
    ensures OpportunityUpdateCall(ans, oldAmount).kwargs["contact_id"] == Null
  {
    assert OpportunityArg(ans, oldAmount, "contact_id") == Some(Null);
    assert "contact_id" in OpportunityKeys();
  }

  /** The assignments the flow means to make: every argument that is not None, and a contact link
      of None written as NULL, as the "enter 0 for none" prompt offers. */
  function IntendedAssignments(args: Args): (sets: map<Column, Value>)
    ensures forall c :: c in sets <==> c in args && (args[c] != Null || c == "contact_id")
    ensures forall c :: c in sets ==> sets[c] == args[c]
  {
    map c | c in args && (args[c] != Null || c == "contact_id") :: args[c]
  }

  /** The opportunity update the flow means: the partial update of `update_opportunity`, except
      that a contact link passed as None clears the link. */
  function UpdateOpportunityClearing(db: Db, id: int, args: Args): (r: (Db, bool))
    requires args.Keys <= Params(Opportunities) - {"stage_id"}
    ensures !r.1 ==> r.0 == db
    ensures r.1 <==>
      (IntendedAssignments(args) != map[] && Opportunities in db && id in db[Opportunities].rows
       && IntendedAssignments(args).Keys <= db[Opportunities].columns
       && !NullViolation(db[Opportunities], db[Opportunities].rows[id] + IntendedAssignments(args))
       && !Collides(db[Opportunities], db[Opportunities].rows[id] + IntendedAssignments(args), {id}))
    ensures r.1 ==>
      && Get(db, Opportunities, id).Some? && Get(r.0, Opportunities, id).Some?
      && forall c :: Col(Get(r.0, Opportunities, id).value, c) ==
           (if c in IntendedAssignments(args) then args[c] else Col(Get(db, Opportunities, id).value, c))
  {
    var sets := IntendedAssignments(args);
    if sets == map[] then (db, false)
    else
      var (db', res) := DbUpdate(db, Opportunities, id, sets);
      match res
      case Ok(changed) => (if changed then db' else db, changed)
      case Err(_) => (db, false)
  }

  /** With the intended update, the contact answer 0 leaves the opportunity with no contact. */
  lemma ContactZeroClearsLink(db: Db, id: int, ans: OpportunityAnswers, oldAmount: Value)
    requires ans.contact == Chosen(0)
    requires OpportunityUpdateCall(ans, oldAmount).Call?
    requires UpdateOpportunityClearing(db, id, OpportunityUpdateCall(ans, oldAmount).kwargs).1
    ensures var r := UpdateOpportunityClearing(db, id, OpportunityUpdateCall(ans, oldAmount).kwargs);
      Get(r.0, Opportunities, id).Some? && Col(Get(r.0, Opportunities, id).value, "contact_id") == Null
  {
    ContactZeroArg(ans, oldAmount);
  }

  /** When no contact link is cleared, the intended update is exactly `update_opportunity` without
      a stage. */
  lemma ClearingAgreesOtherwise(db: Db, id: int, args: Args)
    requires args.Keys <= Params(Opportunities) - {"stage_id"}
    requires "contact_id" in args ==> args["contact_id"] != Null
    ensures UpdateOpportunityClearing(db, id, args) == UpdateOpportunity(db, id, args, Null)
  {
    var args' := args["stage_id" := UpdateStage(db, Null)];
    assert IntendedAssignments(args) == Assigned(args');
  }

  // ---------------------------------------------------------------------------------------
  // select_contact_by_search

  /** How the search of one round ended, for an answer that is not an integer: 'back', asking
      again (no match, or the match not confirmed), or the id the user confirmed or typed from
      the list of matches. */
  datatype SearchEnd = SearchBack | SearchAgain | SearchPicked(id: int)

  /** One round of `select_contact_by_search`: the stripped answer and, when it is not an
      integer, how its search ended. The result is the selection the round decides, or None to
      ask again. An integer answer is looked up with `get_contact`, and an id no contact holds
      asks again. With `zeroForNone`, the answer 0 is taken as "no contact", as the opportunity
      update prompt offers; as written there is no such case. */
  function ContactRound(db: Db, query: string, search: SearchEnd, zeroForNone: bool): (r: Option<Selection>)
    ensures Lower(query) == "back" ==> r == Some(SelectBack)
    ensures query == "" ==> r == Some(Keep)
    ensures r.Some? && r.value.Chosen? ==> Get(db, Contacts, r.value.id).Some? || (zeroForNone && r.value.id == 0)
    ensures Lower(query) != "back" && ParseInt(query).Some? ==>
      if zeroForNone && ParseInt(query).value == 0 then r == Some(Chosen(0))
      else (r.Some? <==> Get(db, Contacts, ParseInt(query).value).Some?) && (r.Some? ==> r.value == Chosen(ParseInt(query).value))
  {
    if Lower(query) == "back" then Some(SelectBack)
    else if query == "" then Some(Keep)
    else
      match ParseInt(query)
      case Some(n) =>
        if zeroForNone && n == 0 then Some(Chosen(0))
        else if Get(db, Contacts, n).Some? then Some(Chosen(n)) else None
      case None =>
        match search
        case SearchBack => Some(SelectBack)
        case SearchAgain => None
        case SearchPicked(id) => if Get(db, Contacts, id).Some? then Some(Chosen(id)) else None
  }

  /** `select_contact_by_search` over the rounds the user goes through: the first round that
      decides, or None when the rounds run out (the end of input exits the program). */
  function SelectContact(db: Db, rounds: seq<(string, SearchEnd)>, zeroForNone: bool): (r: Option<Selection>)
    ensures r.Some? <==> exists i :: 0 <= i < |rounds| && ContactRound(db, rounds[i].0, rounds[i].1, zeroForNone).Some?
    ensures r.Some? && r.value.Chosen? ==> Get(db, Contacts, r.value.id).Some? || (zeroForNone && r.value.id == 0)
  {
    if rounds == [] then None
    else
      var first := ContactRound(db, rounds[0].0, rounds[0].1, zeroForNone);
      assert forall i :: 0 < i < |rounds| ==> rounds[1..][i - 1] == rounds[i];
      if first.Some? then first else SelectContact(db, rounds[1..], zeroForNone)
  }

  /** The first round that decides gives the selection, whatever follows it. */
  lemma {:induction false} ContactDecidedBy(db: Db, rounds: seq<(string, SearchEnd)>, zeroForNone: bool, k: nat)
    requires k < |rounds|
    requires forall i :: 0 <= i < k ==> ContactRound(db, rounds[i].0, rounds[i].1, zeroForNone).None?
    requires ContactRound(db, rounds[k].0, rounds[k].1, zeroForNone).Some?
    ensures SelectContact(db, rounds, zeroForNone) == ContactRound(db, rounds[k].0, rounds[k].1, zeroForNone)
  {
    if k > 0 {
      var tail := rounds[1..];
      assert ContactRound(db, rounds[0].0, rounds[0].1, zeroForNone).None?;
      assert SelectContact(db, rounds, zeroForNone) == SelectContact(db, tail, zeroForNone);
      forall i | 0 <= i < k - 1
        ensures ContactRound(db, tail[i].0, tail[i].1, zeroForNone).None?
      {
        assert tail[i] == rounds[i + 1];
      }
      assert tail[k - 1] == rounds[k];
      ContactDecidedBy(db, tail, zeroForNone, k - 1);
    }
  }

  /** As written, the answer 0 asks again: stored ids start at 1, so `get_contact(0)` finds
      nothing and the selection is whatever the later rounds decide. */
  lemma ZeroAnswerAsksAgain(db: Db, rounds: seq<(string, SearchEnd)>)
    requires Contacts in db ==> WellFormed(db[Contacts])
    requires rounds != [] && rounds[0].0 == "0"
    ensures SelectContact(db, rounds, false) == SelectContact(db, rounds[1..], false)
  {
    ParseIntDecimal(0);
    assert DecimalText(0) == "0";
    assert Get(db, Contacts, 0).None?;
  }

  /** As written, a contact the helper selects is a stored contact, so its id is at least 1. */
  lemma SelectedContactStored(db: Db, rounds: seq<(string, SearchEnd)>)
    requires Contacts in db ==> WellFormed(db[Contacts])
    ensures var r := SelectContact(db, rounds, false);
      r.Some? && r.value.Chosen? ==> Get(db, Contacts, r.value.id).Some? && r.value.id >= 1
  {
  }

  /** As written, the opportunity update flow never clears a contact link: the contact argument
      is left out or is the id of a stored contact, so afterwards the link is that contact or the
      old one. */
  lemma ContactLinkNeverCleared(db: Db, id: int, rounds: seq<(string, SearchEnd)>, ans: OpportunityAnswers, oldAmount: Value)
    requires Contacts in db ==> WellFormed(db[Contacts])
    requires SelectContact(db, rounds, false) == Some(ans.contact)
    requires OpportunityUpdateCall(ans, oldAmount).Call?
    requires UpdateOpportunity(db, id, OpportunityUpdateCall(ans, oldAmount).kwargs, Null).1
    ensures var db' := UpdateOpportunity(db, id, OpportunityUpdateCall(ans, oldAmount).kwargs, Null).0;
      && Get(db, Opportunities, id).Some? && Get(db', Opportunities, id).Some?
      && Col(Get(db', Opportunities, id).value, "contact_id") ==
           (if ans.contact.Chosen? then Int(ans.contact.id) else Col(Get(db, Opportunities, id).value, "contact_id"))
  {
    SelectedContactStored(db, rounds);
    var args := OpportunityUpdateCall(ans, oldAmount).kwargs;
    ContactArg(ans, oldAmount);
    assert "contact_id" != "stage_id";
    var db' := UpdateOpportunity(db, id, args, Null).0;
    assert Col(Get(db', Opportunities, id).value, "contact_id") ==
      (if "contact_id" in args && args["contact_id"] != Null then args["contact_id"] else Col(Get(db, Opportunities, id).value, "contact_id"));
  }

  /** The contact argument of the flow: left out unless a contact was chosen, and the chosen id
      when it is positive. */
  lemma ContactArg(ans: OpportunityAnswers, oldAmount: Value)
    requires OpportunityUpdateCall(ans, oldAmount).Call?
    requires ans.contact.Chosen? ==> ans.contact.id >= 1
    ensures "contact_id" in OpportunityUpdateCall(ans, oldAmount).kwargs <==> ans.contact.Chosen?
    ensures ans.contact.Chosen? ==> OpportunityUpdateCall(ans, oldAmount).kwargs["contact_id"] == Int(ans.contact.id)
  {
    assert "contact_id" in OpportunityKeys();
  }

  /** With the helper taking 0 as "no contact" and the update writing that link as NULL, the
      answer 0 at the contact prompt leaves the opportunity with no contact. */
  lemma ZeroAnswerClearsLink(db: Db, id: int, rounds: seq<(string, SearchEnd)>, ans: OpportunityAnswers, oldAmount: Value)
    requires rounds != [] && rounds[0].0 == "0"
    requires SelectContact(db, rounds, true) == Some(ans.contact)
    requires OpportunityUpdateCall(ans, oldAmount).Call?
    requires UpdateOpportunityClearing(db, id, OpportunityUpdateCall(ans, oldAmount).kwargs).1
    ensures ans.contact == Chosen(0)
    ensures var r := UpdateOpportunityClearing(db, id, OpportunityUpdateCall(ans, oldAmount).kwargs);
      Get(r.0, Opportunities, id).Some? && Col(Get(r.0, Opportunities, id).value, "contact_id") == Null
  {
    ParseIntDecimal(0);
    assert DecimalText(0) == "0";
    ContactDecidedBy(db, rounds, true, 0);
    ContactZeroClearsLink(db, id, ans, oldAmount);
  }

  // ---------------------------------------------------------------------------------------
  // The summary view's de-duplication

  /** The ids of `ids` that are not in `shown`, in order. */
  function Without(ids: seq<int>, shown: set<int>): (r: seq<int>)
    ensures |r| <= |ids|
    ensures forall x :: x in r <==> x in ids && x !in shown
  {
    if ids == [] then []
    else Without(ids[..|ids| - 1], shown) + (if ids[|ids| - 1] in shown then [] else [ids[|ids| - 1]])
  }

  /** `row[key]` on a `sqlite3.Row` fetched from table `n`: the cell, or None for the IndexError a
      key naming no column of the table raises. (The id and creation-time columns are not among
      the model's columns and are not read through this.) */
  function Item(db: Db, n: TableName, row: Row, key: Column): (r: Option<Value>)
    ensures r.Some? <==> key in ColumnsOf(db, n)
    ensures r.Some? ==> r.value == Col(row, key)
  {
    if key in ColumnsOf(db, n) then Some(Col(row, key)) else None
  }

  /** The ids of the rows of table `n` the summary lists under the accounts `accounts`. */
  function ListedUnder(db: Db, n: TableName, accounts: seq<Record>): (r: set<int>)
    requires n == Contacts || n == Opportunities
    ensures forall x :: x in r ==> Linked(db, n, x, accounts)
    ensures Current(db, n) ==> forall x :: x in db[n].rows && Linked(db, n, x, accounts) ==> x in r
    decreases |accounts|
  {
    if accounts == [] then {}
    else
      var last := ByAccount(db, n, Int(accounts[|accounts| - 1].id));
      var part := set k | 0 <= k < |last| :: last[k].id;
      var r0 := ListedUnder(db, n, accounts[..|accounts| - 1]);
      ListedStep(db, n, accounts, r0, last, part);
      r0 + part
  }

  /** The ids listed under all of `accounts` are those listed under all but the last, and those
      of the rows `last` linked to the last. */
  lemma ListedStep(db: Db, n: TableName, accounts: seq<Record>, r0: set<int>, last: seq<Record>, part: set<int>)
    requires accounts != []
    requires forall x :: x in r0 ==> Linked(db, n, x, accounts[..|accounts| - 1])
    requires Current(db, n) ==> forall x :: x in db[n].rows && Linked(db, n, x, accounts[..|accounts| - 1]) ==> x in r0
    requires forall k :: 0 <= k < |last| ==>
      (n in db && last[k].id in db[n].rows && Col(db[n].rows[last[k].id], "account_id") == Int(accounts[|accounts| - 1].id))
    requires Current(db, n) ==> forall x :: x in db[n].rows && Col(db[n].rows[x], "account_id") == Int(accounts[|accounts| - 1].id) ==>
      exists k :: 0 <= k < |last| && last[k].id == x
    requires forall x :: x in part ==> exists k :: 0 <= k < |last| && last[k].id == x
    requires forall k :: 0 <= k < |last| ==> last[k].id in part
    ensures forall x :: x in r0 + part ==> Linked(db, n, x, accounts)
    ensures Current(db, n) ==> forall x :: x in db[n].rows && Linked(db, n, x, accounts) ==> x in r0 + part
  {
    ListedFront(db, n, accounts, r0);
    ListedLast(db, n, accounts, last, part);
    if Current(db, n) {
      ListedAll(db, n, accounts, r0, last, part);
    }
  }

  lemma ListedFront(db: Db, n: TableName, accounts: seq<Record>, r0: set<int>)
    requires accounts != []
    requires forall x :: x in r0 ==> Linked(db, n, x, accounts[..|accounts| - 1])
    ensures forall x :: x in r0 ==> Linked(db, n, x, accounts)
  {
    var front := accounts[..|accounts| - 1];
    forall x | x in r0 ensures Linked(db, n, x, accounts) {
      var i :| 0 <= i < |front| && Col(db[n].rows[x], "account_id") == Int(front[i].id);
      assert front[i] == accounts[i];
    }
  }

  lemma ListedLast(db: Db, n: TableName, accounts: seq<Record>, last: seq<Record>, part: set<int>)
    requires accounts != []
    requires forall k :: 0 <= k < |last| ==>
      (n in db && last[k].id in db[n].rows && Col(db[n].rows[last[k].id], "account_id") == Int(accounts[|accounts| - 1].id))
    requires forall x :: x in part ==> exists k :: 0 <= k < |last| && last[k].id == x
    requires forall k :: 0 <= k < |last| ==> last[k].id in part
    ensures forall x :: x in part ==> Linked(db, n, x, accounts)
  {
    forall x | x in part ensures Linked(db, n, x, accounts) {
      var k :| 0 <= k < |last| && last[k].id == x;
      assert Col(db[n].rows[x], "account_id") == Int(accounts[|accounts| - 1].id);
    }
  }

  lemma ListedAll(db: Db, n: TableName, accounts: seq<Record>, r0: set<int>, last: seq<Record>, part: set<int>)
    requires accounts != [] && n in db
    requires forall x :: x in db[n].rows && Linked(db, n, x, accounts[..|accounts| - 1]) ==> x in r0
    requires forall x :: x in db[n].rows && Col(db[n].rows[x], "account_id") == Int(accounts[|accounts| - 1].id) ==>
      exists k :: 0 <= k < |last| && last[k].id == x
    requires forall x :: x in part ==> exists k :: 0 <= k < |last| && last[k].id == x
    requires forall k :: 0 <= k < |last| ==> last[k].id in part
    ensures forall x :: x in db[n].rows && Linked(db, n, x, accounts) ==> x in r0 + part
  {
    var front := accounts[..|accounts| - 1];
    forall x | x in db[n].rows && Linked(db, n, x, accounts) ensures x in r0 + part {
      var i :| 0 <= i < |accounts| && Col(db[n].rows[x], "account_id") == Int(accounts[i].id);
      if i < |front| {
        assert front[i] == accounts[i];
        assert Linked(db, n, x, front);
      } else {
        var k :| 0 <= k < |last| && last[k].id == x;
      }
    }
  }

  /** Row `x` of table `n` is stored and linked to one of the accounts. */
  predicate Linked(db: Db, n: TableName, x: int, accounts: seq<Record>) {
    n in db && x in db[n].rows && exists i :: 0 <= i < |accounts| && Col(db[n].rows[x], "account_id") == Int(accounts[i].id)
  }

  /** What the summary view (src/main.py:395-468) lists as standalone: the matching contacts and
      the matching opportunities (ids, in search order) not listed under a matching account.
      Before listing an account's contacts it reads the account's industry under `industryKey`;
      when that names no column of Accounts the IndexError reaches the `except Exception` at
      src/main.py:475, which ends the view before the standalone sections: None. */
  function SummaryStandalone(db: Db, accounts: seq<Record>, contacts: seq<int>, opportunities: seq<int>, industryKey: Column)
    : (r: Option<(seq<int>, seq<int>)>)
    ensures r.None? <==> accounts != [] && industryKey !in ColumnsOf(db, Accounts)
    ensures r.Some? ==> forall x :: x in r.value.0 <==> x in contacts && x !in ListedUnder(db, Contacts, accounts)
    ensures r.Some? ==> forall x :: x in r.value.1 <==> x in opportunities && x !in ListedUnder(db, Opportunities, accounts)
    ensures r.Some? ==> |r.value.0| <= |contacts| && |r.value.1| <= |opportunities|
  {
    if accounts != [] && Item(db, Accounts, accounts[0].row, industryKey).None? then None
    else Some((Without(contacts, ListedUnder(db, Contacts, accounts)),
               Without(opportunities, ListedUnder(db, Opportunities, accounts))))
  }

  /** As written the summary reads the key `industry`, which the Accounts table `create_tables`
      makes does not have: once the search matches an account, no standalone section is shown. */
  lemma SummaryAbortsOnCreatedTables(db: Db, accounts: seq<Record>, contacts: seq<int>, opportunities: seq<int>)
    requires Current(db, Accounts) && accounts != []
    ensures SummaryStandalone(db, accounts, contacts, opportunities, "industry").None?
  {
    IndustryColumnOfCurrent(db);
  }

  /** Read through `industry_id`, the summary on the current layout lists as standalone exactly
      the matching contacts and opportunities linked to none of the matching accounts. */
  lemma SummaryWithIndustryId(db: Db, accounts: seq<Record>, contacts: seq<int>, opportunities: seq<int>)
    requires Current(db, Accounts) && Current(db, Contacts) && Current(db, Opportunities)
    ensures var r := SummaryStandalone(db, accounts, contacts, opportunities, "industry_id");
      && r.Some?
      && (forall x :: x in r.value.0 <==> x in contacts && !Linked(db, Contacts, x, accounts))
      && (forall x :: x in r.value.1 <==> x in opportunities && !Linked(db, Opportunities, x, accounts))
  {
  }

  /** The summary view: `linked[i]` are the ids listed under the i-th matching account, and
      `matching` the ids the search found. The standalone section lists the matching ids that
      were not listed under an account, in search order. */
  method StandaloneIds(linked: seq<seq<int>>, matching: seq<int>) returns (shown: set<int>, standalone: seq<int>)
    ensures forall x :: x in shown <==> exists i :: 0 <= i < |linked| && x in linked[i]
    ensures forall x :: x in standalone <==> x in matching && x !in shown
    ensures standalone == Without(matching, shown)
  {
    shown := {};
    var i := 0;
    while i < |linked|
      invariant i <= |linked|
      invariant forall x :: x in shown <==> exists j :: 0 <= j < i && x in linked[j]
    {
      shown := shown + set x | x in linked[i];
      i := i + 1;
    }
    standalone := [];
    var k := 0;
    while k < |matching|
      invariant k <= |matching|
      invariant standalone == Without(matching[..k], shown)
      invariant forall x :: x in standalone <==> x in matching[..k] && x !in shown
    {
      assert matching[..k + 1][..k] == matching[..k];
      if matching[k] !in shown {
        standalone := standalone + [matching[k]];
      }
      k := k + 1;
    }
    assert matching[..k] == matching;
  }
}
