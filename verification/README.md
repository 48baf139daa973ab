# py-crm core in Dafny

This project models the rules under the py-crm command-line CRM, a Python program that keeps
accounts, contacts and opportunities in SQLite. It proves properties of that model. The model
covers these parts:

- **Storage** (`storage.dfy`). The database is an immutable map from table name to table. A
  table carries:
  - its column set, NOT NULL columns, defaults and UNIQUE keys;
  - its rows, as a map from id to row (a map from column to value);
  - its AUTOINCREMENT counter.

  `Value` is NULL, an integer, a real or a text; Python's None is NULL. An INSERT or UPDATE
  that names an unknown column is an `OperationalError`, and so is any statement on a missing
  table. A NOT NULL or UNIQUE violation is an `IntegrityError`. Nothing is written when a
  statement fails.
- **Schema** (`schema.dfy`). The tables `create_tables` creates, in the current revision
  (`src/database.py`, `src/picklist.py`) and in the first one (`database.py`).
  - `create_tables` only creates absent tables.
  - `check_schema` is a predicate over the column sets.
- **Migration** (`migration.dfy`). `backup_database`, `migrate_database` and the dispatch of
  `initialize_database`. The disk holds the database file and the backup copies. ALTER TABLE
  statements are durable one by one, so a failure part-way keeps the columns added before it.
- **Picklists** (`picklist.dfy`). Types and values with their UNIQUE keys, and the two
  idempotent "insert, or find the existing row" operations. Also:
  - the reads of active values, ordered by (display_order, value) with SQLite's ordering of
    mixed values;
  - lookups by id and by text;
  - the selection prompt as a function of the lines typed.
- **CSV import** (`picklist_import.dfy`). The row loop of `import_picklists_from_csv` over
  already-parsed rows: header check, stripping, the entity whitelist, the type cache, and the
  counts.
- **Back-fill** (`backfill.dfy`). `migrate_existing_data` maps the free-text industry and stage
  columns onto picklist value ids:
  - an exact lookup first;
  - for stages, then a case-insensitive match;
  - otherwise a value is created.

  When the stage step fails the transaction is rolled back, and the values already added stay.
- **Current data access layer** (`dal.dfy`). Create, get, list, search and by-account reads.
  Partial updates assign only arguments that are not None. Deletes do not cascade. Opportunity
  stages are resolved against the stage picklist.
- **First-revision data access layer** (`legacy_dal.dfy`). Creates insert the listed columns,
  and updates overwrite every listed column, None included.
- **Front end** (`cli.dfy`). The helpers of `src/main.py`:
  - `truncate_text`;
  - the line loop of `get_multiline_input`;
  - location formatting;
  - the arguments the account and opportunity update flows build from the answers;
  - the de-duplication of the summary view.

Terminal input is the sequence of lines typed. Clock readings and outcomes of external code are
parameters, as listed under "Left out":
- the backup time stamp;
- whether an OSError occurs;
- which ALTER fails;
- a parsed float.

## Model

| member | source | states |
|---|---|---|
| Schema.CurrentTable | src/database.py:38-116 | each table of the current revision starts empty, with every id below its counter |
| Schema.LegacyTable | database.py:20-74 | the first revision has exactly Accounts, Contacts and Opportunities, each created empty and well formed |
| Schema.CreateTables | src/database.py:26-124 | afterwards all five tables exist; a table that was present is kept as it was, and an absent one is created empty |
| Schema.CreateTablesIdempotent | src/database.py:38-116 | running `create_tables` twice is the same as once, and no stored row changes |
| Schema.CheckSchema | src/database.py:126-168 | no file or a storage error means no migration. Otherwise a migration is needed exactly when Accounts lacks description, website or industry_id, Contacts lacks title or description, or Opportunities lacks stage_id |
| Schema.CheckSchemaOnKnownLayouts | src/database.py:143-162 | a freshly created database needs no migration, and a first-revision one does |
| Migration.BackupDatabase | src/migrate_db.py:22-42 | with no database file there is no copy and no path; otherwise the file is copied under the time-stamped path, which is returned |
| Migration.Missing | src/migrate_db.py:88-89 | the columns to add are exactly the required ones not yet present, without repeats; none when all are present |
| Migration.Plan | src/migrate_db.py:77-113 | the migration adds to Accounts and Contacts only, exactly their missing required columns; it adds nothing when all are present |
| Migration.Run | src/migrate_db.py:88-113 | the ALTERs keep every table's rows and values and only add columns; tables they do not name are untouched; success means no ALTER failed |
| Migration.RunColumns | src/migrate_db.py:88-113 | after a successful run a table's columns are its old columns plus the planned ones for it |
| Migration.MigrateDatabase | src/migrate_db.py:53-130 | an OSError escapes with nothing changed. With no file a fresh schema is created and the result is true. Otherwise the backup is made, the planned columns are added, and the result says whether all ALTERs succeeded |
| Migration.MigrationPreservesData | src/migrate_db.py:115-116 | migration never removes or changes a row or value; Opportunities and the picklist tables are untouched |
| Migration.MigrationAddsMissingColumns | src/migrate_db.py:77-113 | after a successful migration Accounts and Contacts have exactly their old columns plus the required ones |
| Migration.MigrationIdempotent | src/migrate_db.py:88-113 | a second migration after a successful one succeeds and changes no table |
| Migration.MigrationFailureReportsBackup | src/migrate_db.py:123-127 | a failing ALTER gives result false and reports the backup path |
| Migration.MigrationSucceeds | src/migrate_db.py:68-121 | with Accounts and Contacts present and no storage fault, migration succeeds |
| Migration.PlanDistinct | src/migrate_db.py:77-113 | no column is added twice |
| Migration.CheckSchemaAfterMigration | src/database.py:143-162 | after a successful migration `check_schema` still asks for one exactly when Accounts lacked industry_id or Opportunities lacks stage_id |
| Migration.CreateTablesOn | src/database.py:187-190 | `create_tables` on the file creates the missing tables and keeps the present ones |
| Migration.InitializeDatabase | src/database.py:170-190 | migrates exactly when `check_schema` asks for it, falls back to `create_tables` when the migration raises, and otherwise calls `create_tables` |
| Migration.InitializationStalls | src/database.py:175-180 | as written, a database without Accounts.industry_id is migrated, gains no table and still needs migration; the next start changes nothing |
| Migration.LegacyLayoutStalls | database.py:20-74 | the first-revision layout lacks industry_id and both picklist tables |
| Migration.InitializeDatabaseFixed | src/database.py:170-190 | with `create_tables` after every branch, initialization always ends with all five tables and keeps every table it found |
| Migration.IndustryIdNotPlanned | src/migrate_db.py:77-85 | the migration as written never adds Accounts.industry_id |
| Migration.PlanFixed | src/migrate_db.py:74-116 | the corrected plan: the statements of the migration, plus Accounts.industry_id and Opportunities.stage_id each when missing, and no others |
| Migration.MigrateDatabaseFixed | src/migrate_db.py:53-127 | the migration running the corrected plan: same backup, same reporting, and the file is the result of that plan |
| Migration.FixedMigrationSettlesSchema | src/database.py:143-162 | after a successful corrected migration `check_schema` asks for nothing, and every stored value is kept |
| Migration.FixedMigrationSucceeds | src/migrate_db.py:88-116 | with Accounts, Contacts and Opportunities present and no storage error the corrected migration succeeds |
| Migration.SchemaSettled | src/database.py:143-162 | `check_schema` asks for nothing once the six columns it checks are present |
| Picklist.TypeIds | src/picklist.py:87-89 | the ids found for a name are exactly those of type rows with that name |
| Picklist.CreatePicklistType | src/picklist.py:61-95 | either inserts one type row and returns its new id, or writes nothing; an id returned without a write names a type with that name |
| Picklist.CreateTypeExisting | src/picklist.py:85-89 | an existing name returns that type's id and creates nothing |
| Picklist.CreateTypeFresh | src/picklist.py:79-84 | a new name inserts one row under the next id, and that id now names the type |
| Picklist.CreateTypeFound | src/picklist.py:79-89 | with the tables in place and a name and entity given, an id is always returned |
| Picklist.CreateTypeNamed | src/picklist.py:79-89 | the returned id names the type, every earlier type row is kept, and the values table is untouched |
| Picklist.CreateTypeIdempotent | src/picklist.py:79-89 | creating the same name again, with any entity or description, changes nothing and returns the same id |
| Picklist.AddPicklistValue | src/picklist.py:97-135 | either inserts one value row under the next id or writes nothing; a returned id holds that (type, value) pair |
| Picklist.AddValueExisting | src/picklist.py:122-129 | an existing (type, value) pair, active or not, returns its id and adds nothing |
| Picklist.AddValueFresh | src/picklist.py:116-121 | a new pair inserts one row with the given order and default flag under the next id |
| Picklist.AddValueFound | src/picklist.py:116-129 | with the tables in place and a type and value given, an id is always returned |
| Picklist.AddValueStored | src/picklist.py:116-129 | every earlier value row is kept and the types table is untouched |
| Picklist.AddValueIdempotent | src/picklist.py:116-129 | adding the same pair again changes nothing and returns the same id |
| Picklist.GetPicklistValueById | src/picklist.py:169-199 | the text of the value row with that id, active or not, or None when there is none |
| Picklist.AddThenGetValue | src/picklist.py:116-129 | the id `add_picklist_value` returns reads back as the value added |
| Picklist.GetPicklistIdByValue | src/picklist.py:201-234 | an empty text finds nothing; a found id is an active value of a type with that name holding the text; None means there is no such value |
| Picklist.SortByKey | src/picklist.py:153-159 | the result is a permutation of its input, ordered by (display_order, value) |
| Picklist.ListedViews | src/picklist.py:152-159 | the joined query yields exactly the active values of the types with that name, before ordering |
| Picklist.GetPicklistValues | src/picklist.py:137-167 | exactly the active values of types with that name, ordered by (display_order, value) |
| Picklist.IdByValueMatchesList | src/picklist.py:212-228 | the lookup by text finds an id exactly when the listed values hold that text, and the id is one of them |
| Picklist.DefaultValue | src/picklist.py:276-277 | the first value marked default, or the first value when none is marked |
| Picklist.SelectionStep | src/picklist.py:276-297 | a blank answer takes the default; `back` cancels; a number k with 1 ≤ k ≤ n takes the k-th value; anything else asks again |
| Picklist.OutcomeDecidedBy | src/picklist.py:279-299 | the selection is decided by the first answer that does not ask again |
| Picklist.GetPicklistSelection | src/picklist.py:259-299 | no values gives no selection; a selection is always one of the values |
| Picklist.SelectionDecidedBy | src/picklist.py:279-299 | the selection is the choice made by the first answer that does not ask again |
| PicklistImport.Whitelist | src/picklist.py:319-323 | exactly account, contact and opportunity have a whitelist |
| PicklistImport.WhitelistedPairs | src/picklist.py:356-372 | a row passes the whitelist exactly for industry on accounts and stage on opportunities |
| PicklistImport.TypeFor | src/picklist.py:374-380 | a type id found is cached under the picklist name; without one, nothing changes; the cache only grows |
| PicklistImport.ImportEntry | src/picklist.py:349-409 | a row imports only if valid; a row failing the whitelist changes nothing |
| PicklistImport.ImportEntries | src/picklist.py:349-409 | every row is counted once, as imported or as an error, and no more rows import than are valid |
| PicklistImport.ImportNeedsValid | src/picklist.py:418-423 | whatever tables are present, a true result needs at least one valid row |
| PicklistImport.ImportSucceedsIff | src/picklist.py:418-423 | with the tables in place exactly the valid rows import, so the result is true exactly when some row is valid |
| PicklistImport.ImportPicklistsFromCsv | src/picklist.py:301-426 | a missing file or a header lacking picklist_name, entity_type or value fails before any row. Otherwise rows = imported + errors, and the result is true exactly when a row was imported |
| PicklistImport.TypeForNamed | src/picklist.py:374-380 | a whitelisted row always gets a type id that names its picklist; no value is written |
| PicklistImport.ImportEntryStep | src/picklist.py:383-409 | a row imports exactly when it is valid, and then its value is stored under its picklist |
| PicklistImport.ImportEntriesOutcome | src/picklist.py:349-409 | the imported count is the number of valid rows and the errors are the rest |
| PicklistImport.ImportEntriesStored | src/picklist.py:383-408 | after the import every valid row's value is stored under its picklist |
| Backfill.StageRows | src/picklist.py:504-509 | the read succeeds when the picklist tables are in place; every row read is a stored value of a type named stage, and every stored value of such a type is read |
| Backfill.LastFolding | src/picklist.py:510-515 | the id is that of the last row whose lower-cased value equals the key, as a dict comprehension keeps it; none when no row folds to it |
| Backfill.CaseMatch | src/picklist.py:504-515 | the match is taken exactly when the join can be read; it is the last joined row whose text equals the stage ignoring case, and none means no joined row folds to the stage |
| Backfill.AddUnderType | src/picklist.py:466-473 | only picklist values are added; an id found points at a value of the field's type with that text |
| Backfill.Lookup | src/picklist.py:500-528 | an exact hit among active values is taken with nothing written; otherwise, for a stage, a case-insensitive match is taken with nothing written; only when neither finds a row is a value added, and an id found points at a value of the field's type matching the text |
| Backfill.LookupFinds | src/picklist.py:462-476 | with the type present, every non-empty text is mapped to an id |
| Backfill.MapAll | src/picklist.py:462-476 | every mapping pairs a text with a value of the right type, and distinct texts give distinct keys |
| Backfill.MapAllComplete | src/picklist.py:462-476 | with the type present, every distinct text is mapped |
| Backfill.UpdateAll | src/picklist.py:479-484 | a row whose text has a mapping gets that id; every other row is unchanged |
| Backfill.ColumnCells | src/picklist.py:457-458 | the cells read are exactly the column's values in the stored rows |
| Backfill.DistinctFilled | src/picklist.py:457 | exactly the non-empty, non-NULL texts, each once |
| Backfill.BackfillField | src/picklist.py:457-484 | only picklist values are added; on success each row with a mapped text holds its id and the others are unchanged |
| Backfill.BackfillFieldComplete | src/picklist.py:457-484 | with the type present, every row with a non-empty text gets an id of that text |
| Backfill.MigrateExistingData | src/picklist.py:440-546 | no industry column means false with nothing written. On failure only picklist values were added. On success the industry ids are set; stage ids are set only when both stage columns exist; no other table changes |
| Backfill.MigrateExistingDataComplete | src/picklist.py:457-536 | when it succeeds, every account with an industry gets a matching value id if the industry type exists, and every opportunity with a stage gets one if both stage columns and the stage type exist |
| Dal.Params | src/crm_dal.py:8 | the arguments of each create and update are columns of the current table |
| Dal.Create | src/crm_dal.py:8-43 | with no error, one row is inserted under the next id, holding every argument and NULL for the omitted ones; on any error nothing is written |
| Dal.Get | src/crm_dal.py:45-64 | the row with that id, or None exactly when there is none |
| Dal.Rows | src/crm_dal.py:66-85 | the rows meeting the condition, each with its stored values, in id order, none missing |
| Dal.List | src/crm_dal.py:66-85 | every stored row, once, in id order |
| Dal.Search | src/crm_dal.py:87-108 | exactly the rows whose searched columns contain the query, ignoring ASCII case, in id order |
| Dal.ByAccount | src/crm_dal.py:297-316 | exactly the rows whose account_id equals the given id; none for None |
| Dal.Assigned | src/crm_dal.py:128-154 | the assignments are exactly the arguments that are not None |
| Dal.Update | src/crm_dal.py:111-172 | nothing to assign gives false with no write. Otherwise one UPDATE of exactly those columns; true exactly when the row exists and no constraint breaks |
| Dal.Delete | src/crm_dal.py:174-196 | removes that row only, and reports whether it existed |
| Dal.CreateStage | src/crm_dal.py:436-452 | an integer stage is kept; a text stage is resolved among active stage values; with no stage, the default stage, else the first, else NULL |
| Dal.CreateOpportunity | src/crm_dal.py:416-465 | the new row holds every argument and the resolved stage; with the current tables it succeeds exactly when a name is given |
| Dal.UpdateStage | src/crm_dal.py:596-606 | no stage, the integer 0, or a text that resolves to nothing or to 0 gives no stage assignment; any other integer is assigned as given, and a text that resolves is assigned its id |
| Dal.UpdateOpportunity | src/crm_dal.py:557-627 | the row gets exactly the non-None arguments and the resolved stage, if any; no other row or table changes; a stage that resolves to nothing with no other argument gives false |
| Dal.UpdateOpportunityReportsExistence | src/crm_dal.py:608-618 | with the current table and something to write, the result is true exactly when a row with that id exists |
| Dal.EmailClashIff | src/database.py:86 | two contacts clash on the UNIQUE key exactly when both hold the same non-NULL email |
| Dal.EmailCollidesIff | src/database.py:86 | a contact row collides exactly when another stored contact holds its non-NULL email |
| Dal.CreateSucceedsIff | src/crm_dal.py:219-221 | with the current tables a create succeeds exactly when every NOT NULL column is given and, for a contact, no contact holds the email |
| Dal.CreateContactDuplicateEmail | src/crm_dal.py:219-221 | an email held by another contact gives None and inserts nothing |
| Dal.CreateThenGet | src/crm_dal.py:8-43 | the new id was unused and reads back as the arguments; no other row or table changes |
| Dal.UpdateAssignsExactly | src/crm_dal.py:128-154 | after a successful update each column holds its argument if one was given, else its old value; other rows and tables are unchanged |
| Dal.UpdateReportsExistence | src/crm_dal.py:166 | with something to assign, an update is true exactly when the row exists (for a contact, when the email is free) |
| Dal.DeleteThenGet | src/crm_dal.py:186-188 | after a delete, get gives None and every other row is unchanged |
| Dal.DeleteAccountKeepsLinks | src/crm_dal.py:174-196 | deleting an account leaves its contacts and opportunities, with their account_id |
| LegacyDal.LegacyParams | crm_dal.py:7-27 | the columns a first-revision create or update lists are exactly that revision's columns |
| LegacyDal.LegacyCreate | crm_dal.py:7-27 | with no error, one row is inserted under the next id with every listed column; any error gives None and no write |
| LegacyDal.LegacyUpdate | crm_dal.py:49-72 | true exactly when the row exists and the full replacement breaks no constraint; otherwise nothing is written |
| LegacyDal.LegacyCreateThenGet | crm_dal.py:17-24 | the returned id was unused and reads back as the arguments, None included; no other row changes |
| LegacyDal.LegacyUpdateOverwrites | crm_dal.py:142-165 | every listed column holds its argument, even None; other columns, rows and tables are unchanged |
| LegacyDal.LegacyUpdateNeedsName | crm_dal.py:59-66 | an account or opportunity update without a name writes NULL into a NOT NULL column, so it fails |
| LegacyDal.LegacyUpdateReportsExistence | crm_dal.py:61-66 | with every required column given, an update is true exactly when the row exists (for a contact, when the email is free) |
| LegacyDal.LegacyCreateSucceedsIff | crm_dal.py:110-117 | a create succeeds exactly when every NOT NULL column is given and, for a contact, no contact holds the email |
| LegacyDal.LegacyDeleteAccountKeepsReferences | crm_dal.py:74-99 | true exactly when the account existed; afterwards it reads as None and contacts and opportunities are untouched |
| Cli.TruncateText | src/main.py:34-51 | "N/A" for None, "" or "N/A". Otherwise newlines become spaces, and a short text comes back whole; a longer one is cut to exactly max_length, ending in "...". The result has no newline |
| Cli.TruncateTextIdempotent | src/main.py:41-51 | truncating a truncated text changes nothing |
| Cli.GetMultilineInput | src/main.py:159-195 | input stops at the first line reading DONE or BACK, ignoring case and spaces. BACK gives back. DONE gives the lines before it joined by newlines, or None when that is blank. No command means the input ended |
| Cli.FindFirst | src/main.py:174-184 | the position of the first line satisfying the test, or the length |
| Cli.SplitJoinLines | src/main.py:189 | splitting the joined text at newlines gives back the lines typed |
| Cli.Location | src/main.py:546-553 | the given parts among city, state and country, in that order, joined by ", ", or "N/A" when none is given; the same code builds the contact location at src/main.py:829-836 |
| Cli.Present | src/main.py:545-551 | a text is among the parts kept exactly when some part gives it, and no kept part is empty |
| Cli.LocationSpelledOut | src/main.py:546-553 | the location text for each of the eight combinations of given parts |
| Cli.PresentThree | src/main.py:545-551 | the parts kept are city, state and country, each only when given, in that order |
| Cli.AccountUpdateCallWith | src/main.py:659-698 | back on the description prompt skips the update. Otherwise the arguments are exactly the answered prompts with their texts, and no call is made when none was answered |
| Cli.AccountUpdateCallAsWritten | src/main.py:676-679 | the flow passes the industry answer under the keyword `industry` |
| Cli.IndustryAnswerNotAccepted | src/main.py:678-698 | any industry answer puts `industry` among the arguments, and `update_account` has no such parameter |
| Cli.AccountUpdateCall | src/crm_dal.py:111-112 | with the industry passed as `industry_id`, every argument is a parameter of `update_account` and none is None |
| Cli.AccountUpdateKeepsBlankAnswers | src/main.py:674-698 | after the update each account column holds its answer if one was given, and its old value otherwise |
| Cli.AccountUpdateFlow | src/main.py:642-699 | no stored account goes back to the menu; the flow ends the program exactly when the account is stored and its industry key names no column of Accounts; otherwise the answers make the call |
| Cli.AccountUpdateAbortsOnCreatedTables | src/main.py:650 | as written, on the Accounts table `create_tables` makes, updating a stored account ends the program |
| Cli.AccountUpdateWithIndustryId | src/main.py:642-699 | reading the industry through `industry_id`, the flow reaches the update on the current layout with keywords `update_account` accepts |
| Cli.IndustryColumnOfCurrent | src/database.py:64-77 | the Accounts table `create_tables` makes has `industry_id` and no `industry` column |
| Cli.ContactUpdateCall | src/main.py:957-1035 | back at the description or account prompt skips the update, input running out ends the program; otherwise the arguments are exactly the answered prompts, with the account link as chosen and 0 as None |
| Cli.ContactUpdateKeepsBlankAnswers | src/main.py:1003-1035 | after the update each contact column holds its answer if one was given and not None, and its old value otherwise |
| Cli.ContactUpdateNeverClearsAccount | src/main.py:982-1035 | after the update the account link is the positive id chosen or the old link, never cleared |
| Cli.AmountArg | src/main.py:1289-1299 | a blank amount is left out; an unparsed one keeps the old amount; a parsed one is that number |
| Cli.OpportunityUpdateCall | src/main.py:1282-1374 | back at any prompt skips the update. Otherwise the arguments are exactly the answered prompts, with a contact id of 0 or less passed as None, and no call is made when none was answered |
| Cli.AmountAnswer | src/main.py:1358-1359 | the amount argument is absent for a blank answer, the old amount for an unparsed one, and the number otherwise |
| Cli.UnparsedAmountKeepsAmount | src/main.py:1296-1298 | an amount that does not parse leaves the stored amount unchanged |
| Cli.ContactZeroKeepsLink | src/main.py:1338-1369 | the flow's branch for a contact id of 0 or less passes None, which `update_opportunity` drops, so that branch would keep the link even if the helper returned 0 |
| Cli.UpdateOpportunityClearing | src/crm_dal.py:578-595 | the update the prompt offers: the non-None arguments are assigned, and a contact link of None is written as NULL |
| Cli.ContactZeroClearsLink | src/main.py:1334-1342 | with the update writing a None link as NULL, a contact choice of 0 leaves the opportunity with no contact |
| Cli.ClearingAgreesOtherwise | src/crm_dal.py:578-618 | when no link is cleared, the intended update is exactly `update_opportunity` |
| Cli.ContactRound | src/main.py:261-315 | back gives back and blank keeps the link; an integer answer selects that id exactly when `get_contact` finds it and otherwise asks again; a selected id is a stored contact |
| Cli.SelectContact | src/main.py:261-315 | a selection is made exactly when some round decides, and a selected contact is stored |
| Cli.ContactDecidedBy | src/main.py:261-315 | the first round that decides gives the selection, whatever follows it |
| Cli.ZeroAnswerAsksAgain | src/main.py:273-282 | the answer 0 finds no contact and asks again, so the later rounds decide |
| Cli.SelectedContactStored | src/main.py:273-307 | a selected contact is stored, so its id is at least 1 |
| Cli.ContactArg | src/main.py:1338-1369 | the contact argument is present exactly when a contact was chosen, and is that id when it is positive |
| Cli.ContactLinkNeverCleared | src/main.py:1334-1369 | as written, after the update the contact link is the chosen stored contact or the old link, never cleared |
| Cli.ZeroAnswerClearsLink | src/main.py:1334-1342 | with the helper taking 0 as "no contact" and the update writing it as NULL, answering 0 leaves the opportunity with no contact |
| Cli.StandaloneIds | src/main.py:395-442 | the shown ids are exactly those listed under an account; a matching id is listed as standalone exactly when it was not shown, in order |
| Cli.Without | src/main.py:424-427 | the ids kept are exactly those not shown, never more than were given |
| Cli.Item | src/main.py:403 | reading a key of a fetched row succeeds exactly when it names a column of the table, and gives that cell |
| Cli.ListedUnder | src/main.py:405-417 | every id listed is of a row linked to a matching account, and on a current table every such row is listed |
| Cli.SummaryStandalone | src/main.py:400-475 | the view ends before the standalone sections exactly when an account matched and its industry key names no column; otherwise the standalone ids are exactly the matching ones not listed under an account |
| Cli.SummaryAbortsOnCreatedTables | src/main.py:403 | as written, on the Accounts table `create_tables` makes, a search matching an account shows no standalone section |
| Cli.SummaryWithIndustryId | src/main.py:395-468 | reading the industry through `industry_id`, the standalone sections list exactly the matching rows linked to no matching account |
| Base.ParseIntDecimal | src/picklist.py:385-389 | a display_order written in decimal parses back to that number |

## Left out

- Connections: `get_db_connection` returning None, and the per-call connect and close, are not
  modelled. Every operation works on the current state.
- Dal.Search: LIKE wildcards (`%`, `_`) inside the query are not interpreted, and case folding is
  ASCII only; search is substring containment ignoring ASCII case.
- Base.ParseInt: accepts sign and ASCII digits only; Python's `int()` also takes underscores and
  non-ASCII digits.
- Base.Lower: ASCII case mapping only; Python's `str.lower()` maps all of Unicode.
- Cli.TruncateText: takes an optional string; `str(text)` of other types is not modelled.
- The first definition of `truncate_text` (src/main.py:8-26) is overridden by the second and is
  not modelled.
- Float parsing: `float()` of the amount answer is a parameter (`parsedAmount`), and amounts are
  opaque reals.
- `select_account_by_search` is not modelled; its outcome is the account `Selection`
  parameter. `select_contact_by_search` is Cli.SelectContact, but a round whose answer is not an
  integer is reduced to how its search ended (`SearchEnd`): the search and its listing are not
  modelled. The opportunity flow lemmas other than Cli.ContactLinkNeverCleared and
  Cli.ZeroAnswerClearsLink take the contact `Selection` as a parameter.
- Menus, prompts, `print` output, column-width rendering, `graceful_exit`, `admin.py`,
  `display_picklist_menu` and the first revision's `main.py` argument wiring are not modelled.
  They are interactive output with nothing to state.
- Clock: `created_at` defaults, the backup time stamp (a parameter) and
  `convert_utc_to_local_display` are not modelled, because they depend on the host clock and
  time zone.
- The backup file copy, CSV file reading (rows arrive parsed) and CSV export are not modelled,
  because they are file I/O.
- Backfill.MigrateExistingData: the lookups through separate connections share the committed
  state. The lock conflict a second connection would meet while the first holds uncommitted
  updates is not modelled.
- Backfill.MigrateExistingDataComplete: its stage half holds only because that lock conflict is
  not modelled; with the conflict, adding a stage value while the industry updates are
  uncommitted fails and the stage rows stay unmapped.
- Backfill.StageRows: the rows come in id order. The join at src/picklist.py:504-509 has no
  ORDER BY, and SQLite may return the rows in the order of the (type, value) index instead.
  When several stage values fold to the same lower-case text, which one the dictionary keeps
  (Backfill.LastFolding) may therefore differ from the model.
- SQLite type affinity is not modelled: values are stored as given.
- CSV rows are taken to be full length. A column missing from the header reads as "", as
  `row.get(key, '')` gives. `csv.DictReader` fills the missing cells of a short row with None,
  and the `.strip()` at src/picklist.py:352-354 then raises AttributeError. The
  `except (IOError, csv.Error)` at src/picklist.py:424 does not catch it, so the whole import
  stops with that exception. The model has no such rows.
- `create_picklist_tables` and `initialize_default_picklists` are covered by Schema.CreateTables.
  Their create-if-absent of the two picklist tables is the same step.
- The account search prompt (`select_account_by_search`) is not modelled; the contact update
  flow takes what it returns as a Cli.Selection. It asks again for id 0, so the flow's branch
  for 0 is dead; Cli.ContactUpdateNeverClearsAccount shows that branch would keep the link anyway.
- Cli.StandaloneIds, Cli.AccountUpdateCallWith, Cli.AccountUpdateKeepsBlankAnswers: they model
  what follows the read of the account's industry. As written that read (src/main.py:403, 650
  and 660) uses the key `industry`, which only a migrated first-revision file has; on the tables
  `create_tables` makes it raises IndexError (Cli.SummaryAbortsOnCreatedTables,
  Cli.AccountUpdateAbortsOnCreatedTables). They describe the flows with the read made through
  `industry_id`, or on a migrated first-revision file.
- Migration.InitializeDatabase: the `except ImportError` branch (src/database.py:181-183), which
  prints a message and skips `create_tables` when the migration module cannot be imported, is
  not modelled; the module is taken to be present.
- Exceptions other than storage errors inside the data access functions (a TypeError from a
  wrong keyword, say) are not modelled as results. Cli.IndustryAnswerNotAccepted states the
  mismatch instead.

## Findings

| source | as written | input that shows it | evidently intended | confidence | as-written member | corrected member |
|---|---|---|---|---|---|---|
| src/database.py:175-190 | after a migration that returns, `create_tables` is not called, so the picklist tables a first-revision file lacks are never created | a first-revision database file (no picklist tables) | initialization creates every table the program uses | medium, not executed | Migration.InitializationStalls | Migration.InitializeDatabaseFixed |
| src/migrate_db.py:77-116 | the migration adds neither Accounts.industry_id nor Opportunities.stage_id, both of which `check_schema` asks for (src/database.py:143-160), so the migrated file needs migration at every start and the INSERT of `create_account` naming industry_id (src/crm_dal.py:26-28) fails | a first-revision database file | the migration adds every column `check_schema` asks for | medium, not executed | Migration.CheckSchemaAfterMigration | Migration.FixedMigrationSettlesSchema |
| src/main.py:678-679 | the account update flow passes the industry answer as `industry=`, but `update_account` takes `industry_id` (src/crm_dal.py:111-112) | a non-blank answer to "Enter new industry" on a migrated first-revision file, the only layout whose Accounts has an `industry` column (elsewhere the flow fails earlier, see the row for src/main.py:650) | the answer is passed under a keyword `update_account` accepts | high, not executed | Cli.IndustryAnswerNotAccepted | Cli.AccountUpdateCall |
| src/main.py:403 | the summary reads `acc['industry']`, but the Accounts table `create_tables` makes (src/database.py:64-77) has `industry_id` and no `industry` column, so the `sqlite3.Row` lookup raises IndexError, caught at src/main.py:475, and the view ends before the standalone sections | a summary whose search matches at least one account, on a database made by `create_tables` | the summary shows each account's industry, read through `industry_id` | high, not executed | Cli.SummaryAbortsOnCreatedTables | Cli.SummaryWithIndustryId |
| src/main.py:650 | the account update flow reads `account['industry']` to show it, which raises IndexError on the same layout; only KeyboardInterrupt and EOFError are caught (src/main.py:725), so the program ends | updating any stored account on a database made by `create_tables` | the flow shows the industry read through `industry_id` and goes on to the prompts | high, not executed | Cli.AccountUpdateAbortsOnCreatedTables | Cli.AccountUpdateWithIndustryId |
| src/main.py:273-282 | the opportunity update prompt offers "enter 0 for none", but `select_contact_by_search` looks 0 up with `get_contact`, finds no contact (stored ids start at 1) and asks again, so the flow's branch for 0 (src/main.py:1340-1342) is dead and no answer clears the link; that branch would pass None anyway, which `update_opportunity` drops (src/crm_dal.py:593-595) | answer 0 at the contact prompt of the opportunity update | answering 0 clears the opportunity's contact link | medium, not executed | Cli.ZeroAnswerAsksAgain | Cli.ZeroAnswerClearsLink |
