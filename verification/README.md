# RoutinInspection backend: a verified model

The backend keeps inspection forms and their users in SQL Server. This project models the four parts of
it that carry real invariants and proves what they promise.

* **Form tables** (`models/form_schema.py`). A recursive walk lists the item ids of a form's JSON tree;
  creating, evolving and renaming a form's table build on it. `ItemPaths`, `ItemIds`, `Columns`,
  `FormStore`, `FormSchema`, and the theorems in `SchemaEvolution`, `SchemaRuns`, `SchemaRenames`,
  `RenameRequests`.
* **Form registry** (`models/table_manager.py`). Registering, archiving under a fresh name, changing
  mode. `FormRegistry`, and the theorems in `Archiving`, `RegistryRuns`,
  `RegistryEffects`, `FormRuns`.
* **Users and signing data** (`models/user.py`). Two tables without a foreign key, a dynamically built
  UPDATE, hand-written positional INSERT and UPDATE statements, validation and repair. `StaffStore`,
  `SqlUpdate`, `SqlStatements`, `SigningTable`, `UserTable`, `Staff`, and the theorems in `Repair`,
  `Agreement`, `SigningWrites`.
* **Endpoints** (`routes/auth_routes.py`, `models/route.py`). Administration guards, the CSV import,
  the paged lists. `Administration`, `BulkImport`, `UserListing`, `Routes`, `Paging`, and the theorems
  in `StaffRuns`, `SigningRuns`, `FileColumns`, `ImportedLines`, `RequestEffects`.

## How the model is built

A `Session` (module `Database`) is the request's connection: a working state and the committed state.
Every operation is a method over a session that sends its statements one by one, in the order of the
source, and is proved equal to a function from the old pair of states to the new one; the theorems are
about those functions. A call is given the set of its statements that fail, so a theorem without a
condition on that set holds under every combination of failures. A statement that fails has no effect
of its own; commit, rollback and closing a connection do what db.py asks of them.

The schema objects are modelled with SQL Server's rule that tables and constraints share one set of
names: a table carries its column list and the name of its primary key constraint, and renaming a table
renames neither. A user row is a map from column names to cells; a signing row has a cell in each of its
22 columns. The statements that write them are column lists and positional parameter lists run by a
small server (`SqlUpdate`, `SqlStatements`), which refuses lists that do not fit. A request body is a list of key and
value pairs with distinct keys, in insertion order. A stored password is the text it hashes, so the salt
is not visible.

## What the code does that its documentation does not say

* Evolving a table equals rebuilding it exactly when no negative item id is required by two forms:
  the catalog query `Item[0-9]%` does not report `Item-3` (`SchemaEvolution.IncrementalIsRebuild`,
  `SchemaEvolution.NegativeIdComesBack`).
* Create strips an identifier and respects a `user_` already there; update does neither
  (`SchemaEvolution.IdentifiersAgree`, `SchemaEvolution.PrefixedFormCannotEvolve`).
* A rename request that brings no new column answers with success and commits nothing
  (`SchemaRenames.RenamePersistsIff`, `SchemaRenames.RenameLost`).
* A missing table is answered with status 500 although the code asks for 404, because the abort is raised
  inside the `try` that turns every exception into 500 (`SchemaEvolution.MissingTableAnswers500`,
  `SchemaEvolution.NeverAnswers404`).
* Archiving a form "user" renames a table of that very name, if there is one, to "user_old1", a name form
  tables have: every run keeps all form tables in shape exactly when such a table is laid out like one
  (`FormRuns.RunsKeepFormTablesIff`).
* Archiving a form leaves its table where it is unless the identifier carries `user_`; then the table is
  renamed but its constraint name is not, and the form cannot be added again (`RegistryRuns.AddAgainIff`,
  `RegistryRuns.PrefixedFormStaysGone`). Otherwise the table stays behind without a row that names it
  (`RegistryRuns.DeleteKeepsRowsIff`).
* A mode change brings an archived form back (`RegistryRuns.ModeRevivesIff`).
* A user added with signing data and a UserID is consistent exactly when a department was given; any other
  added user exactly when a signing row already waiting under its UserID carries its name and department
  (`Agreement.AddLeavesConsistentIff`).
* An update with signing data leaves a user inconsistent exactly when it gives NULL for a name or department
  the user has. Without signing data, or with a NULL UserID, the signing row is not rewritten, so a rename
  or a change of department leaves it stale (`Agreement.UpdateLeavesConsistentIff`; failing inputs for
  each branch stand in `Agreement` too).
* The isolation between departments covers `SysUser` only: an update that gives a user the UserID of a user
  in another department rewrites the signing row they then share (`StaffRuns.DepartmentIsolation`,
  `SigningRuns.SigningRowCrossesDepartments`). What an owner reads after a request is decided by the request
  exactly when it names the owner (`SigningRuns.RequestReads`, `SigningRuns.RequestKeepsIff`).
* The create endpoint compares no priority levels (`StaffRuns.CreateKeepsBoundIff`,
  `StaffRuns.CreateExceedsBound`).
* The department abbreviation column of an imported file is read and not stored
  (`SigningWrites.ImportedLinesSigned`).
* In a route search the characters `%` and `_` are wildcards: a search finds exactly the texts that contain
  it if and only if it has neither (`Routes.LikeIsContainsIff`, `Routes.UnderscoreMatchesAnything`).

## Model

| member | source | states |
|---|---|---|
| Text.ParseOfIntText | models/form_schema.py:18 | reading an integer's decimal text gives the integer back, so an id sent as text or as a number names the same item |
| Text.IntTextInjective | models/form_schema.py:312-313 | different ids give different column suffixes |
| TextFacts.StripIsExact | models/form_schema.py:82 | stripping takes white space off both ends, and nothing else, until none is left there |
| TextFacts.SpacesListed | models/form_schema.py:82 | the white space characters are these 29 |
| TextFacts.LowerIsExact | routes/auth_routes.py:184-189 | lowering replaces capital letters one for one and keeps everything else |
| TextFacts.ParseTakes | models/form_schema.py:18 | an id sent as text may carry a sign, leading zeros and single underscores between digits |
| TextFacts.ParseRefuses | models/form_schema.py:18-24 | a doubled, leading or trailing underscore, a lone sign and the empty text are no ids |
| ItemPaths.IntOfIff | models/form_schema.py:17-18 | the id of a value is the number itself, a real cut off towards zero, a boolean as 0 or 1, a text as it parses, and nothing else has one |
| ItemPaths.FirstPathOnce | models/form_schema.py:27-43 | an id has at most one first path in a tree |
| ItemIds.CollectItems | models/form_schema.py:9-45 | the in-place walk leaves the list extended by the tree's valid item ids in preorder, each only if not yet there; what it adds is exactly the ids some path into "Elements" and list positions leads to |
| ItemIds.AccumulatorLaw | models/form_schema.py:18-21 | the starting list stays a prefix, exactly the first occurrences not in it are appended, the result is complete, and duplicate-free if the start was |
| ItemIds.RequiredIdsExact | models/form_schema.py:97-99 | what a form requires has no duplicates and is exactly the ids in its `Elements` tree |
| ItemIds.RequiredIdsAreItems | models/form_schema.py:14-45 | an id is required exactly when some path from the form into its "Elements", at any depth, leads to an object of type "Item" whose "ItemId" stands for it |
| ItemIds.RequiredIdsInPreorder | models/form_schema.py:20-43 | the required ids stand in the order of their first paths, a node before what is below it and list positions in order |
| ItemIds.CollectListInTurn | models/form_schema.py:41-43 | collecting a list of trees is collecting the trees in turn |
| Columns.PatternFindsNonNegative | models/form_schema.py:300-307 | the catalog query reports an item's column exactly when its id is not negative |
| Columns.ColumnNamesInjective | models/form_schema.py:312-313 | item and remark column names of all items are pairwise different |
| Columns.LayoutInvariant | models/form_schema.py:109-121 | a table laid out for some ids has distinct columns exactly when the ids are distinct, and has an item's column and its remark column exactly for those ids |
| Columns.LayoutInWords | models/form_schema.py:109-121 | the identity column, the six named columns, and for each item `Item<id>` and `Item<id>_Remark`, in order |
| Columns.EvolveLayout | models/form_schema.py:307-323 | adding what the diff finds missing gives the layout of the ids extended by the new ones, or fails exactly when a negative id comes back |
| Columns.MissingFromLayout | models/form_schema.py:307-317 | the diff reports the ids a table lacks and every negative id, and nothing else |
| Database.Session.Execute | db.py:105 | a statement takes effect or leaves the working state alone |
| Database.Session.Commit | db.py:119-120 | a commit makes the working state the committed one, or leaves the committed one |
| Database.Session.Rollback | db.py:125-129 | the working state is the committed one again |
| Database.Session.ExecuteQuery | db.py:86-136 | run, then commit if asked; on an error roll back if a commit was asked |
| FormSchema.CreateFormTable | models/form_schema.py:56-155 | drop, create and commit, with rollback on any error, come to replacing the form's table in one transaction |
| FormSchema.DiffColumns | models/form_schema.py:307-317 | the loop builds the clauses and the reported names of exactly the missing pairs, in order |
| FormSchema.UpdateFormTableSchema | models/form_schema.py:257-336 | the update's outcome on both states and its answer, for an own or a borrowed cursor and for every set of failing statements |
| FormSchema.RenamePhysicalTable | models/form_schema.py:202-228 | the table's rename decides; failures to rename its key or id column are passed over |
| FormSchema.RenameAndUpdateFormTable | models/form_schema.py:158-254 | the rename request's outcome on both states and its answer, for every set of failing statements |
| FormSchema.UpdateOutcome | models/form_schema.py:292-336 | an update of an existing table appends and commits the missing pairs, or commits nothing because nothing is missing, or rolls everything back |
| SchemaEvolution.IdentifiersAgree | models/form_schema.py:82-83 | create and update address the same table exactly for trimmed identifiers without the prefix |
| SchemaEvolution.MissingTableAnswers500 | models/form_schema.py:288-334 | an update of a table that is not there answers 500 for every form and changes nothing |
| SchemaEvolution.NeverAnswers404 | models/form_schema.py:288-334 | no update on its own connection answers 404 |
| SchemaEvolution.UpdateOfLayout | models/form_schema.py:292-329 | one update of a form table adds and reports exactly the new pairs, or fails without effect exactly when a negative id comes back |
| SchemaEvolution.IdentifiersDisagree | models/form_schema.py:82-83 | "user_x", and "x" after an ideographic space, are created under one name and looked for under another |
| SchemaEvolution.PrefixedFormCannotEvolve | models/form_schema.py:257-290 | a form created as "user_x" in an empty database is not found by an update of "user_x" |
| SchemaEvolution.CreateSucceedsIff | models/form_schema.py:82-121 | with no statement failing, creating a table succeeds exactly for a non-empty identifier when no other object has the table's name or its constraint's |
| SchemaEvolution.CreateAnswers | models/form_schema.py:78-95 | 400 exactly for a missing or empty identifier or a form that is no object; nothing changes unless the creation succeeds |
| SchemaEvolution.CreatedTable | models/form_schema.py:82-131 | the created table's name, key and columns, spelled out |
| SchemaEvolution.IncrementalIsRebuild | models/form_schema.py:97-121 | for a trimmed, unprefixed identifier whose table can be placed, creating from the first form and updating with the others succeeds throughout exactly when no negative id is required twice, and then the whole database is the one a rebuild from all the forms gives, name for name in order |
| SchemaEvolution.NegativeIdComesBack | models/form_schema.py:304 | a form with item -3, created and then sent again, fails |
| SchemaEvolution.RerunAddsNothing | models/form_schema.py:319-329 | sending a form again adds and reports nothing exactly when it has no negative id, and otherwise fails; nothing changes either way |
| SchemaEvolution.RunSucceedsIff | models/form_schema.py:292-329 | a run of updates succeeds exactly when no negative id is required twice or is in the table already |
| SchemaEvolution.ColumnsOrderFree | models/form_schema.py:292-329 | two histories of the same forms, in any order and with repetitions, in which no negative id comes twice or is there already, both succeed and give the same columns, and the columns at the start stay a prefix |
| SchemaRuns.RunKeepsFormTables | models/form_schema.py:109-121 | after any run of create, update and rename requests with any statements failing, every form table has distinct columns, its fixed columns in place, and each item column together with its remark column |
| FormRuns.RunKeepsFormTables | models/table_manager.py:226-257 | the same over runs that also add, archive and change modes, if a table called "user" is not there at the start or is laid out like a form table |
| FormRuns.DeleteKeepsIff | models/table_manager.py:236-252 | archiving a form keeps all form tables in shape exactly when it does not rename a table "user" that is none |
| FormRuns.RunsKeepFormTablesIff | models/table_manager.py:236-252 | every run keeps all form tables in shape exactly when they are at the start and a table "user", if there is one, is laid out like them |
| SchemaRuns.CreateIsAtomic | models/form_schema.py:104-152 | whatever fails, the committed database is the old one or has exactly this table replaced, with the columns of exactly the ids in the form |
| SchemaRuns.UpdateOnlyAppends | models/form_schema.py:319-329 | whatever fails, an update keeps every table and appends exactly the reported columns to one of them |
| SchemaRuns.BorrowedCursorKeepsTransaction | models/form_schema.py:324-336 | with a borrowed cursor nothing is committed or rolled back, errors change nothing, and success leaves the working state an own update would commit |
| SchemaRuns.RunNeverDrops | models/form_schema.py:106-152 | no run of create and update requests, whatever fails, leaves a table dropped |
| SchemaRenames.RenameCommutes | models/form_schema.py:182-249 | renaming and then updating gives the working state, and the answer, of updating first and renaming afterwards |
| SchemaRenames.RenameTouchesOneTable | models/form_schema.py:202-228 | the old name is gone, the new one is there, and every other table keeps its columns |
| SchemaRenames.RenamePersistsIff | models/form_schema.py:319-327 | a successful rename request commits its rename exactly when the form brings a column the table lacks |
| SchemaRenames.RenameLost | models/form_schema.py:230-249 | renaming "a" to "b" with a form without items answers with success and leaves the committed database as it was |
| RenameRequests.RenameNeedsNames | models/form_schema.py:159-160 | an empty identifier is answered with 400 |
| RenameRequests.RenameEvolvesInPlace | models/form_schema.py:168-187 | with equal identifiers, or no table under the old name, the new name's table gets and reports exactly the new pairs, committed, or the request fails without effect exactly when a negative id comes back |
| RenameRequests.RenameFindsNothing | models/form_schema.py:182-187 | with no table under either name the request fails and changes nothing |
| RenameRequests.RenameIsBlocked | models/form_schema.py:189-200 | with a table under both names the request fails and changes nothing |
| RenameRequests.RenameMovesTable | models/form_schema.py:202-249 | otherwise the old table is gone and the new one is the table a form of that name with all the ids would have, its key and id column renamed too; it is committed exactly when there is a new pair |
| FormRegistry.GenerateUniqueTableName | models/table_manager.py:275-304 | the search terminates with the least counter whose name is free in registry and catalog, or reports all 9999 taken, or a failed query |
| FormRegistry.AddFormDefinition | models/table_manager.py:6-63 | the outcome of adding a form on both states, for every set of failing statements |
| FormRegistry.DeleteFormDefinition | models/table_manager.py:209-273 | the outcome of deleting a form on both states, for every set of failing statements |
| FormRegistry.UpdateFormMode | models/table_manager.py:306-325 | the outcome of a mode change on both states, for every set of failing statements |
| RegistryEffects.ModeChangeIsExact | models/table_manager.py:306-325 | exactly the rows with this id get the mode, and keep their id, name and display; the answer is whether there is one; a failing statement changes nothing |
| RegistryEffects.AdditionIsExact | models/table_manager.py:11-36 | exactly one row is appended, with the identifier and display name given and mode 0, or nothing changes |
| RegistryEffects.DeletionIsExact | models/table_manager.py:209-273 | a tombstoned form is not found; otherwise exactly this row takes the first name `<identifier>_old<k>` not taken and mode 3, and at most its table takes that name too; with all 9999 taken the deletion fails |
| Archiving.CandidateInjective | models/table_manager.py:279 | different counters give different archive names |
| Archiving.SearchFailsIff | models/table_manager.py:277-302 | with no query failing the search fails exactly when all 9999 candidates are taken, which needs at least 9999 different names |
| Archiving.RoundsArchiveInOrder | models/table_manager.py:215-257 | n rounds of adding and deleting one identifier, its table made or not, leave the registry with its rows and the names _old1 to _oldn, one per round |
| Archiving.ArchivedNamesDistinct | models/table_manager.py:275-304 | no archive name is used twice or equals a name the registry had |
| Archiving.ArchiveFull | models/table_manager.py:300-302 | with all candidates taken, deleting fails and changes nothing |
| RegistryRuns.DeleteCarries | models/table_manager.py:236-257 | one deletion, whatever fails, renames at most one table and keeps all tables and their contents |
| RegistryRuns.RunCarries | models/table_manager.py:236-257 | over any run of deletions and mode changes, whatever fails, tables before and after correspond one to one with unchanged contents |
| RegistryRuns.RunKeepsNamesDistinct | models/table_manager.py:215-257 | distinct registry names stay distinct over any run in which each added identifier is new |
| RegistryRuns.AddCommits | models/table_manager.py:26-60 | adding a form commits nothing, its row alone, or its row and its table |
| RegistryRuns.DeleteKeepsRowsIff | models/table_manager.py:226-257 | when a deletion goes through, a form table stays with its row exactly when the identifier carries the prefix and the physical rename goes through |
| RegistryRuns.UserXDeleted | models/table_manager.py:236-257 | deleting "user_x" leaves its table without a row exactly when the physical rename fails |
| RegistryRuns.RunTablesHaveRows | models/table_manager.py:26-60 | over any run of additions, mode changes and deletions that are of prefixed forms and rename their table too, whatever fails, no new table is committed or left without its row |
| RegistryRuns.AddSucceedsIff | models/table_manager.py:26-60 | with no statement failing, adding a form succeeds exactly for a non-empty identifier when neither its table's name nor its constraint's is taken by another object, and commits its row alone otherwise |
| RegistryRuns.AddAgainIff | models/table_manager.py:236-252 | a form whose table can be placed and that has a free archive name is added and archived; it can then be added again exactly when its identifier does not carry the prefix, and exactly then its table was left in place |
| RegistryRuns.PrefixedFormStaysGone | models/table_manager.py:236-252 | "user_x", added to an empty database and archived, cannot be added again |
| RegistryRuns.DeleteTombstones | models/table_manager.py:226-265 | a deletion changes nothing, or tombstones this row alone under a name neither registry nor catalog had |
| RegistryRuns.ModeRevivesIff | models/table_manager.py:306-315 | a mode change brings an archived form back exactly when the mode is not the tombstone |
| StaffStore.CellsInWords | models/user.py:549-554 | what a cell counts as in a truth test, in a comparison of levels, and when its first three characters are taken |
| SqlUpdate.BuildUpdate | models/user.py:401-424 | the clause and parameter lists built side by side, run by the server, overwrite exactly the row with this id by exactly the allowed non-null fields and the time stamp |
| SqlUpdate.BindAligns | models/user.py:405-417 | each placeholder takes its own value, the time stamp takes none, and the id is left for the WHERE clause |
| SqlUpdate.SettingsDistinct | models/user.py:405-416 | no column is set twice |
| SqlUpdate.UpdateIsOverwrite | models/user.py:415-424 | for every dictionary the statement is accepted and touches one row only |
| SigningTable.WriteFiles | models/user.py:24-75 | the server accepts the UPDATE or the INSERT, and with it the owner's rows hold the person's data and every detail in the column it is for |
| SigningTable.UpdateFiles | models/user.py:26-51 | the UPDATE's columns and parameters stand in the same order, the owner last |
| SigningTable.InsertFiles | models/user.py:55-74 | the INSERT's columns and parameters stand in the same order, the owner second |
| SigningTable.ReadFiled | models/user.py:329-349 | the reading dictionary takes every field from the column it was written to, and the abbreviation from the department |
| UserTable.InsertGivesRow | models/user.py:230-256 | the user INSERT is accepted, GETDATE() taking no parameter, and each field lands in its own column |
| Staff.AddSigningData | models/user.py:6-77 | the positional statements update or insert the owner's signing row with every detail, or nothing changes |
| Staff.AddUserRecord | models/user.py:195-310 | the outcome of adding a user on both tables, for every set of failing statements and both ways of learning the new id |
| Staff.InsertStoresFields | models/user.py:225-256 | run by the server, the positional INSERT stores each prepared field in its own column, the password hashed, and the missing ones as NULL |
| Staff.InsertedIsFound | models/user.py:270-278 | when the identity query gives nothing, the lookup by UserID finds the very row inserted |
| Staff.UpdateUserRecord | models/user.py:369-447 | the outcome of updating a user on both tables, for every set of failing statements |
| Staff.DeleteUserRecord | models/user.py:484-512 | the outcome of deleting a user on both tables, for every set of failing statements |
| Staff.SigningRoundTrip | models/user.py:312-351 | after signing data is written through the positional statements, the profile read back has every detail under its own name as supplied, the empty text for one not supplied, and the department as abbreviation |
| Repair.ValidateUserDataConsistency | models/user.py:107-154 | a failing query it meets, a missing user, a differing name and a differing department are each reported exactly when they occur; a user is consistent exactly when nothing is |
| Repair.RepairStatement | models/user.py:177-189 | the repair's UPDATE is accepted and stamps name, owner and department on the owner's rows only |
| Repair.FixUserDataConsistency | models/user.py:156-193 | the outcome of repairing one user, for every set of failing statements |
| Repair.RepairIsExact | models/user.py:164-193 | the repair succeeds exactly when its queries do, the user is there and its signing rows, if any, can be written; then exactly those rows carry its name, UserID and department, every other column as before |
| Repair.FixAllUsersConsistency | routes/auth_routes.py:518-554 | every listed user is repaired in turn and reported with whether its own repair succeeded after those before it, and the successes are counted |
| Repair.PassStampsRows | routes/auth_routes.py:527-536 | a pass without failures stamps every signing row from the last user that owns it |
| Repair.RepairConvergesIff | routes/auth_routes.py:527-536 | after a pass without failures every user is consistent exactly when users sharing the UserID of a signing row agree on name and department |
| Repair.RepairConverges | routes/auth_routes.py:527-536 | distinct UserIDs are enough for a pass to make every user consistent |
| Repair.RepairIsIdempotent | models/user.py:176-189 | a second pass changes nothing |
| Repair.PassKeepsDetails | models/user.py:177-189 | whatever fails, a pass changes no user and, of a signing row, no column but name and department |
| Agreement.AddLeavesConsistentIff | models/user.py:243-292 | every addition without failing statements: with signing data and a UserID the user is consistent exactly when a department was given, otherwise exactly when a signing row waiting under its UserID, if any, carries its name and department |
| Agreement.AddWithoutDepartmentDisagrees | models/user.py:283-291 | a user added with signing data and no department is inconsistent |
| Agreement.AddMeetsWaitingRow | models/user.py:283-284 | a user added without signing data under whose UserID another person's row waits is inconsistent |
| Agreement.UpdateLeavesConsistentIff | models/user.py:405-437 | every update without failing statements: with signing data for an owner the user is consistent exactly when no NULL is given for a name or department it has, otherwise exactly when the signing row under its resulting UserID, if any, carries its resulting name and department |
| Agreement.NullUserIdLeavesStale | models/user.py:434 | an update with a new name, signing data and a NULL UserID leaves the user inconsistent |
| Agreement.RenameLeavesStale | models/user.py:427 | an update with a new name and no signing data leaves the user inconsistent |
| Agreement.NullNameLeavesStale | models/user.py:433 | an update with a NULL name and signing data leaves the user inconsistent |
| Agreement.NullDepartmentLeavesStale | models/user.py:435 | an update with a NULL department and signing data leaves the user inconsistent |
| Agreement.AddThenDelete | models/user.py:484-510 | deleting a user just added restores the users, and the signing table exactly when no signing row was waiting under that UserID |
| Agreement.OthersKeepTheirs | models/user.py:19-75 | writing one owner's signing data leaves what every other owner reads |
| SigningWrites.WriteReads | models/user.py:19-75 | after signing data is written for a key, exactly that key's owner reads the new row; for NULL nobody does |
| SigningWrites.AddReads | models/user.py:209-292 | after an addition, whatever fails, an owner reads the new signing row exactly when a user of that UserID was inserted and its signing data written, and the old row otherwise |
| SigningWrites.UpdateReads | models/user.py:380-437 | after an update, whatever fails, an owner reads the rewritten row, with the values given or else the user's own, exactly when it is the UserID given or else the user's own and the statements went through; the old row otherwise |
| SigningWrites.DeleteReads | models/user.py:484-510 | after a deletion, whatever fails, exactly the deleted user's UserID reads nothing, unless it is empty or the statement failed |
| SigningWrites.ImportReads | routes/auth_routes.py:617-711 | after an import, whatever fails, a UserID not known before reads the signing row of the first line that brought it, if that was written; everyone else the old row |
| SigningWrites.ImportKnows | routes/auth_routes.py:617-711 | after an import, whatever fails, the UserIDs known are the old ones and those some line brought |
| SigningWrites.ImportedLinesSigned | routes/auth_routes.py:651-690 | after an import every imported line's UserID reads exactly that line's signing data, whatever lines follow |
| FileColumns.LineIsFiled | routes/auth_routes.py:627-690 | each of the 22 signing columns of a line's row and the file column, by number, its stripped text comes from |
| ImportedLines.PassesIff | routes/auth_routes.py:621-648 | a line is acceptable exactly with 23 columns, a name, a UserID, level 1 or 2 and a department of the prefix |
| ImportedLines.ImportedLineIsExact | routes/auth_routes.py:621-704 | for every acceptable line with a new UserID there is a new user and a signing row with every column from its file column by number, the password being the hash of the last six characters of the UserID, and an entry under the line's number |
| ImportedLines.FirstLineIsFiled | routes/auth_routes.py:651-694 | whatever fails, a new UserID reads a signing row filled from the first line that brought it, if that was written |
| ImportedLines.RejectedLineIsReported | routes/auth_routes.py:623-648 | whatever fails, a line that is not acceptable is reported under its number with the first reason that applies |
| BulkImport.ImportDataRows | routes/auth_routes.py:617-711 | the loop over the rows leaves both tables, the imported list and the errors as the fold over the rows says |
| BulkImport.EveryRowCounted | routes/auth_routes.py:621-715 | whatever fails, each data row is reported exactly once, as imported or as an error, under its line number |
| BulkImport.InsertedIsUserOf | routes/auth_routes.py:651-694 | the row inserted for a line has in each column what the line gives for it, the password being the hash of the last six characters of the UserID |
| BulkImport.ChosenRowsExact | routes/auth_routes.py:621-648 | the chosen lines are all lines that pass with a new UserID and no earlier passing line with it, in file order |
| BulkImport.ImportSelectsFirstPassing | routes/auth_routes.py:621-711 | without failures the users are the old ones and the chosen lines with consecutive ids, and exactly those are reported as imported |
| BulkImport.ReimportIsNoOp | routes/auth_routes.py:697-706 | importing the same file again imports nobody, reports every row as an error and changes neither table |
| Administration.CreateUser | routes/auth_routes.py:223-283 | the create endpoint's checks in their order, its answer and its effect |
| Administration.UpdateUserInfo | routes/auth_routes.py:285-362 | the update endpoint's field translation, checks in their order, its answer and its effect |
| Administration.DeleteUserAccount | routes/auth_routes.py:364-397 | the delete endpoint's checks in their order, its answer and its effect |
| Administration.BulkImportUsers | routes/auth_routes.py:577-711 | the import endpoint's checks, its answer and its effect |
| Administration.MappedDistinct | routes/auth_routes.py:294-309 | the translated fields form a dictionary again |
| Administration.UpdateLetThroughIff | routes/auth_routes.py:323-351 | documentation: the guards of an update collected into one condition |
| Administration.DeleteLetThroughIff | routes/auth_routes.py:364-390 | documentation: the guards of a deletion collected into one condition |
| Administration.CreateStoresRequest | routes/auth_routes.py:242-275 | a create request that succeeds appends one user whose every column holds what the request gives for it, its defaults and its hashed password included |
| RequestEffects.CreateStoresColumns | routes/auth_routes.py:242-275 | after a create request that succeeds every column of the new row holds the value of the key it is for, or its default |
| RequestEffects.CreateGoesThroughIff | routes/auth_routes.py:223-283 | a create request succeeds exactly with authority, the four required keys, a department of the prefix below level 3, a password or a UserID to make one from, and a UserID not taken |
| RequestEffects.UpdateStoresRequest | routes/auth_routes.py:294-362 | after an update request that succeeds each of the ten columns holds the value given for its key, a password hashed, the work status as 1 or 0, or the old cell when none or NULL is given; the time stamp is set exactly when something is; every other column and user is as it was |
| RequestEffects.DeleteRemovesOne | models/user.py:503-507 | a delete request that succeeds removes the target's row and no other |
| RequestEffects.ImportGoesThroughIff | routes/auth_routes.py:566-615 | an import is answered Ok exactly for an operator of level 1 or 2 with a text department and a file of 23 columns |
| RequestEffects.OperatorInWords | models/user.py:549-554 | authority and department are those of the operator's own row, the prefix its first three characters |
| RequestEffects.CreateRefusals | routes/auth_routes.py:223-283 | which refusal a create request meets, and that it changes nothing |
| RequestEffects.UpdateRefusals | routes/auth_routes.py:311-362 | which refusal an update request meets, and that it changes nothing |
| RequestEffects.DeleteRefusals | routes/auth_routes.py:366-397 | which refusal a delete request meets, and that it changes nothing |
| StaffRuns.ImportAppends | routes/auth_routes.py:640-648 | whatever fails, an import only appends users of its prefix and of level 1 or 2 |
| StaffRuns.DepartmentIsolation | routes/auth_routes.py:257-267 | any run of requests by operators that start below level 3 in one prefix, whatever fails, leaves every `SysUser` row outside it as it was and in order |
| SigningRuns.RequestReads | routes/auth_routes.py:223-395 | after any request, whatever fails, an owner reads what the request leaves for it when the request names it, and the old row when it does not |
| SigningRuns.RequestKeepsIff | routes/auth_routes.py:223-395 | a request leaves an owner's row exactly when it does not name the owner or leaves the row already there |
| SigningRuns.RunKeepsSigning | routes/auth_routes.py:223-395 | over any run of requests by anyone, whatever fails, an owner reads the signing row it read at the start as long as no request names it |
| SigningRuns.LastNamingDecides | routes/auth_routes.py:223-395 | at the end of a run an owner reads what the last request naming it left |
| SigningRuns.SigningRowCrossesDepartments | models/user.py:427-437 | an update that gives a user the UserID of a user in another department rewrites that user's signing row |
| SigningRuns.Translated | routes/auth_routes.py:294-309 | a column is in the translated fields exactly when its key is in the request, with its value; `RequestEffects.UpdateStoresRequest` spells the ten pairs out |
| StaffRuns.NoRowLeavesPrefix | routes/auth_routes.py:339-346 | such a run moves no row out of the prefix |
| StaffRuns.LevelBound | routes/auth_routes.py:348-351 | no run of updates, deletions and imports raises a level above the larger of 2 and the highest at the start; create requests keep the bound when they ask within it |
| StaffRuns.CreateKeepsBoundIff | routes/auth_routes.py:242-255 | a create request that succeeds keeps the bound exactly when the level it asks for is within it |
| StaffRuns.CreateExceedsBound | routes/auth_routes.py:242-280 | a level-1 operator's request for level 4 succeeds and exceeds the bound |
| Paging.PagesCover | routes/auth_routes.py:193-200 | pages 1 to the last, put together, are the list |
| Paging.PageBounds | routes/auth_routes.py:194-213 | a next page exists exactly when an element lies beyond this one; earlier pages are full, later ones empty |
| UserListing.AccessibleUsers | routes/auth_routes.py:161-182 | the loop collects exactly the users the operator may see, with their profiles, in order |
| UserListing.Paginate | routes/auth_routes.py:142-200 | page and size are clamped and the page of the list and its figures are returned |
| UserListing.GetUsers | routes/auth_routes.py:131-221 | a page of the visible, matching users for a valid request, and an error exactly for an invalid one |
| UserListing.VisibleExact | routes/auth_routes.py:153-191 | the list names exactly the users the operator may see and the search matches, each once in id order, without passwords |
| UserListing.ListedInWords | routes/auth_routes.py:153-191 | exactly the users of the operator's prefix, itself, or everyone from level 3 on, whose UserID contains the keyword without regard to case; each entry is the user's own row without the password, and its signing row as it reads |
| UserListing.PagesGiveEveryoneOnce | routes/auth_routes.py:143-213 | for every size after clamping the pages give everyone once in order, later pages are empty, and a next page is announced exactly when someone lies beyond |
| Routes.GetAllRoutes | models/route.py:35-119 | a page of the matching routes in id order with their total, or an error exactly for a page or limit below 1 |
| Routes.SelectIsMatching | models/route.py:48-76 | the built clauses take exactly their own parameters, whatever follows them, and select exactly the matching routes |
| Routes.QueriesAgree | models/route.py:81-105 | the count query and the page query select the same rows |
| Routes.RoutePagesSumToTotal | models/route.py:83-118 | the pages hold the matching routes in order and their lengths sum to the reported total |
| Routes.ModesSplit | models/route.py:54-61 | modes '1' and '0' split what any other mode shows, for every search |
| Routes.LikeIsContainsIff | models/route.py:48-52 | a search finds exactly the texts that contain it if and only if it has no `%` and no `_` |
| Routes.FoundIff | models/route.py:48-61 | a search without wildcards finds exactly the routes whose name or bound name contains it, bound for mode '1' and unbound for mode '0' |
| Routes.MatchingAscends | models/route.py:98-105 | the routes found stay in id order, each once |
| Routes.SearchMissesNothing | models/route.py:48-52 | whatever it holds, a search finds every text that contains it |
| Routes.UnderscoreMatchesAnything | models/route.py:48-52 | the search '_' finds a text without that character |

## Left out

* Flask, blueprints, CORS, configuration (`get_configured_db_name` included), logging and the wording of answers: wiring. Answers keep their status and the data they carry.
* JWT and bcrypt: the operator's id is a parameter, and a hash is represented by the text it was made from.
* CSV, JSON and upload parsing: an import starts from parsed rows and a form from a parsed tree. JSON numbers beyond the range of a Python float, and digits outside ASCII in `int(text)`, are not modelled.
* SQL text: statements are operations on the modelled tables. `fetchall` after a statement without a result set (db.py:115), cursor lifetimes and double closes are taken to do nothing.
* SQL Server's limits: an identifier with `'` or `]`, a name beyond 128 characters, or a form of more than 508 items (1024 columns) makes a CREATE or ALTER fail that succeeds here.
* Collation, trailing blanks and the conversion of numbers to text by the server: names and ids are compared exactly, and `[` in a LIKE pattern is an ordinary character.
* A table whose own name is `PK_...`: renaming a constraint looks only at constraints.
* Identity gaps: a rolled back insertion gives its id back to the next one.
* A rollback that fails itself: rollbacks are taken to succeed, and a commit that fails to leave the committed state alone.
* `SchemaContent` and `ItemsCnt` of a registry row: stored and not read by the modelled operations. A new row's `TestMode` is taken to be 0.
* Case folding outside ASCII in the listing's search (`lower()`).
* Floats and nested values in the cells of a user request.
* An explicit null `formIdentifier`, for which the source inserts a row with NULL: treated like a missing one.
* A textual PriorityLevel of the operator, for which `check_priority_level` raises: answered with 403.
* Columns of the signing table the statements do not name, its identity column among them.
* Failing queries in the two listing endpoints: they answer 500 and change nothing.
* Concurrent requests: the uniqueness checks are check-then-act, and the database's own constraints are not in the repository.
* `update_form`, `get_all_forms`, `search_department`, single-row getters, login, logout and the create, update and delete of routes: easy members without a property across steps.
