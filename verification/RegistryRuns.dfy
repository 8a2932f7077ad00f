/** Runs of registry requests with failing statements, and what becomes of the physical tables. */
module RegistryRuns {
  import opened Outcomes
  import opened Database
  import opened Text
  import opened Json
  import opened ItemIds
  import opened Columns
  import opened FormStore
  import opened FormSchema
  import opened SchemaEvolution
  import opened FormRegistry
  import opened Archiving

  datatype Request =
    | Add(form: FormData, faults: set<Stmt>)
    | Delete(id: nat, faults: set<Stmt>)
    | Mode(id: nat, mode: int, faults: set<Stmt>)

  function Serve(db: FormDb, r: Request): FormDb {
    match r
    case Add(form, faults) => AddForm(Tx(db, db), form, faults).tx.saved
    case Delete(id, faults) => DeleteForm(Tx(db, db), id, faults).tx.saved
    case Mode(id, mode, faults) => SetFormMode(Tx(db, db), id, mode, faults).tx.saved
  }

  function ServeAll(db: FormDb, rs: seq<Request>): FormDb
    decreases |rs|
  {
    if rs == [] then db else ServeAll(Serve(db, rs[0]), rs[1..])
  }

  // ----- Tables are carried along -------------------------------------------------------------

  /** Where each table went, and where each table came from. */
  datatype Moves = Moves(to: map<string, string>, from: map<string, string>)

  /** A one-to-one correspondence between the tables before and after that keeps their contents. */
  ghost predicate Carries(before: Catalog, after: Catalog, m: Moves) {
    && m.to.Keys == before.Keys && m.from.Keys == after.Keys
    && (forall t :: t in before ==> m.to[t] in after && m.from[m.to[t]] == t && after[m.to[t]] == before[t])
    && (forall t :: t in after ==> m.from[t] in before && m.to[m.from[t]] == t)
  }

  function Still(c: Catalog): Moves { Moves(map t | t in c :: t, map t | t in c :: t) }

  /** Whatever fails, deleting a form renames at most one table and keeps all of them. */
  lemma DeleteCarries(db: FormDb, id: nat, faults: set<Stmt>) returns (m: Moves)
    ensures Carries(db.catalog, DeleteForm(Tx(db, db), id, faults).tx.saved.catalog, m)
    ensures forall t, u :: t in m.to && u in m.to && m.to[t] != t && m.to[u] != u ==> t == u
  {
    var c, after := db.catalog, DeleteForm(Tx(db, db), id, faults).tx.saved.catalog;
    m := Still(c);
    if after != c {
      var name := Strip(FindActive(db.forms, id).value.name);
      var target := Candidate(name, SearchFrom(db, name, faults, 1).counter);
      assert after == (c - {name})[target := c[name]];
      m := Moves(m.to[name := target], (m.from - {name})[target := name]);
    }
  }

  lemma CarriesInTurn(a: Catalog, b: Catalog, c: Catalog, f: Moves, g: Moves) returns (m: Moves)
    requires Carries(a, b, f) && Carries(b, c, g)
    ensures Carries(a, c, m)
  {
    m := Moves(map t | t in a :: g.to[f.to[t]], map t | t in c :: f.from[g.from[t]]);
  }

  /** Over any run of deletions and mode changes, with any statements failing, no table is lost,
      overwritten or altered: the tables before and after correspond one to one. */
  lemma {:induction false} RunCarries(db: FormDb, rs: seq<Request>) returns (m: Moves)
    requires forall r :: r in rs ==> !r.Add?
    ensures Carries(db.catalog, ServeAll(db, rs).catalog, m)
    decreases |rs|
  {
    if rs == [] {
      m := Still(db.catalog);
    } else {
      var first := Still(db.catalog);
      if rs[0].Delete? { first := DeleteCarries(db, rs[0].id, rs[0].faults); }
      var later := RunCarries(Serve(db, rs[0]), rs[1..]);
      m := CarriesInTurn(db.catalog, Serve(db, rs[0]).catalog, ServeAll(db, rs).catalog, first, later);
    }
  }

  // ----- Registry names stay distinct ----------------------------------------------------------

  /** Row ids are distinct and below the next identity value. */
  predicate IdsDistinct(db: FormDb) {
    FreshIds(db) && forall i, j :: 0 <= i < j < |db.forms| ==> db.forms[i].id != db.forms[j].id
  }

  predicate WellFormed(db: FormDb) {
    IdsDistinct(db) && forall i, j :: 0 <= i < j < |db.forms| ==> db.forms[i].name != db.forms[j].name
  }

  lemma ServeKeepsIds(db: FormDb, r: Request)
    requires IdsDistinct(db)
    ensures IdsDistinct(Serve(db, r))
  {
    var after := Serve(db, r);
    if r.Add? {
      assert forall row :: row in db.forms ==> row.id != db.nextId;
    } else {
      assert |after.forms| == |db.forms| && forall i :: 0 <= i < |db.forms| ==> after.forms[i].id == db.forms[i].id;
    }
  }

  /** Every added identifier is new to the registry when it is added. */
  predicate NewNames(db: FormDb, rs: seq<Request>)
    decreases |rs|
  {
    rs == [] || (&& (rs[0].Add? && rs[0].form.identifier.Some? ==> !Registered(db.forms, rs[0].form.identifier.value))
                 && NewNames(Serve(db, rs[0]), rs[1..]))
  }

  lemma {:induction false} SearchFindsFree(db: FormDb, original: string, faults: set<Stmt>, from: nat)
    requires 1 <= from <= LIMIT && SearchFrom(db, original, faults, from).Found?
    ensures Free(db, Candidate(original, SearchFrom(db, original, faults, from).counter))
    decreases LIMIT - from
  {
    if !Free(db, Candidate(original, from)) { SearchFindsFree(db, original, faults, from + 1); }
  }

  lemma ArchiveKeepsWellFormed(db: FormDb, id: nat, name: string, catalog: Catalog)
    requires WellFormed(db) && !Registered(db.forms, name)
    ensures WellFormed(db.(forms := ArchiveRows(db.forms, id, name), catalog := catalog))
  {
    assert forall row :: row in db.forms ==> row.name != name;
  }

  lemma DeleteKeepsWellFormed(db: FormDb, id: nat, faults: set<Stmt>)
    requires WellFormed(db)
    ensures WellFormed(Serve(db, Delete(id, faults)))
  {
    if DeleteForm(Tx(db, db), id, faults).reply == Deleted(true) {
      var name := Strip(FindActive(db.forms, id).value.name);
      SearchFindsFree(db, name, faults, 1);
      ArchiveKeepsWellFormed(db, id, Candidate(name, SearchFrom(db, name, faults, 1).counter),
                             Serve(db, Delete(id, faults)).catalog);
    }
  }

  lemma ServeKeepsWellFormed(db: FormDb, r: Request)
    requires WellFormed(db) && NewNames(db, [r])
    ensures WellFormed(Serve(db, r))
  {
    match r
    case Add(form, faults) =>
      assert forall row :: row in db.forms ==> row.id != db.nextId;
      if form.identifier.Some? { assert forall row :: row in db.forms ==> row.name != form.identifier.value; }
    case Delete(id, faults) => DeleteKeepsWellFormed(db, id, faults);
    case Mode(id, mode, faults) =>
  }

  /** Distinct registry names stay distinct over any run in which each added identifier is new,
      whatever statements fail. */
  lemma {:induction false} RunKeepsNamesDistinct(db: FormDb, rs: seq<Request>)
    requires WellFormed(db) && NewNames(db, rs)
    ensures WellFormed(ServeAll(db, rs))
    decreases |rs|
  {
    if rs != [] {
      assert [rs[0]][1..] == [];
      ServeKeepsWellFormed(db, rs[0]);
      RunKeepsNamesDistinct(Serve(db, rs[0]), rs[1..]);
    }
  }

  // ----- What an added form commits -----------------------------------------------------------

  /** Nothing, the row alone, or the row with its table: never a table without its row. */
  lemma AddCommits(db: FormDb, form: FormData, faults: set<Stmt>)
    ensures var r := AddForm(Tx(db, db), form, faults);
            && r.tx.work == r.tx.saved
            && (|| r.tx.saved == db
                || (&& form.identifier.Some? && form.display.Some?
                    && (|| r.tx.saved == WithRow(db, form)
                        || (&& r.reply == Added(db.nextId, CreatedName(form.identifier.value))
                            && r.tx.saved.(catalog := db.catalog) == WithRow(db, form)
                            && r.tx.saved.catalog.Keys == db.catalog.Keys + {CreatedName(form.identifier.value)}
                            && forall t :: t in db.catalog && t != CreatedName(form.identifier.value) ==>
                                 r.tx.saved.catalog[t] == db.catalog[t]))))
  {}

  // ----- Adding again after archiving ---------------------------------------------------------

  /** Constraint names are of the kind `create_form_table` gives. */
  predicate KeysNamed(c: Catalog) { forall t :: t in c ==> "PK_" <= c[t].key }

  lemma KeyIsNoFormName(c: Catalog, name: string)
    requires KeysNamed(c) && PREFIX <= name
    ensures ObjectExists(c, name) <==> name in c
  {
    forall t | t in c ensures c[t].key != name { assert c[t].key[0] == 'P' && name[0] == 'u'; }
  }

  /** Adding a form, no statement failing, succeeds exactly for an identifier that is not empty and
      whose table can be placed; otherwise its row is committed alone. */
  lemma AddSucceedsIff(db: FormDb, form: FormData, fields: Form)
    requires form.identifier.Some? && form.display.Some? && JsonOf(form.json) == Some(Obj(fields))
    ensures var r := AddForm(Tx(db, db), form, {});
            var name := CreatedName(form.identifier.value);
            && (r.reply.Added? <==> form.identifier.value != "" && Placeable(db.catalog, name))
            && (r.reply.Added? ==> r.reply == Added(db.nextId, name))
            && (!r.reply.Added? ==> r.tx.saved == WithRow(db, form))
  {
    CreateSucceedsIff(WithRow(db, form), form, fields);
  }

  /** What a successful addition, no statement failing, leaves in the catalog. */
  lemma AddedCatalog(db: FormDb, form: FormData, fields: Form)
    requires KeysNamed(db.catalog) && AddForm(Tx(db, db), form, {}).reply.Added?
    requires form.identifier.Some? && form.display.Some? && JsonOf(form.json) == Some(Obj(fields))
    ensures var added := AddForm(Tx(db, db), form, {}).tx.saved;
            var table := CreatedName(form.identifier.value);
            && added.(catalog := db.catalog) == WithRow(db, form) && KeysNamed(added.catalog)
            && added.catalog == db.catalog[table := NewTable(table, RequiredIds(fields))]
  {
    var table := CreatedName(form.identifier.value);
    var t := NewTable(table, RequiredIds(fields));
    assert (db.catalog - {table})[table := t] == db.catalog[table := t];
  }

  /** A free archive name of the form is still free once the form has been added. */
  lemma StillFree(db: FormDb, form: FormData, fields: Form, k: nat)
    requires KeysNamed(db.catalog) && AddForm(Tx(db, db), form, {}).reply.Added?
    requires form.identifier.Some? && form.display.Some? && JsonOf(form.json) == Some(Obj(fields))
    requires Free(db, Candidate(Strip(form.identifier.value), k))
    ensures Free(AddForm(Tx(db, db), form, {}).tx.saved, Candidate(Strip(form.identifier.value), k))
  {
    AddedCatalog(db, form, fields);
    CandidateIsNotStripped(form.identifier.value, k);
    CreatedIsNoCandidate(form.identifier.value, k);
    var added := AddForm(Tx(db, db), form, {}).tx.saved;
    var last := FormRow(db.nextId, form.identifier.value, form.display.value, DEFAULT_MODE);
    assert added.forms == db.forms + [last];
  }

  /** What archiving the form then answers and does to the catalog. */
  lemma ArchivedCatalog(db: FormDb, form: FormData, fields: Form) returns (k: nat)
    requires FreshIds(db) && KeysNamed(db.catalog) && AddForm(Tx(db, db), form, {}).reply.Added?
    requires form.identifier.Some? && form.display.Some? && JsonOf(form.json) == Some(Obj(fields))
    requires exists i :: 1 <= i <= LIMIT && Free(db, Candidate(Strip(form.identifier.value), i))
    ensures var added := AddForm(Tx(db, db), form, {}).tx.saved;
            var archived := DeleteForm(Tx(added, added), db.nextId, {});
            var x := Strip(form.identifier.value);
            && archived.reply == Deleted(true) && Candidate(x, k) !in added.catalog
            && archived.tx.saved.catalog
               == Attempt(added.catalog, RenameTable(added.catalog, x, Candidate(x, k)), false)
  {
    var x := Strip(form.identifier.value);
    var i :| 1 <= i <= LIMIT && Free(db, Candidate(x, i));
    var added := AddForm(Tx(db, db), form, {}).tx.saved;
    AddedCatalog(db, form, fields);
    FindNewest(db.forms, FormRow(db.nextId, form.identifier.value, form.display.value, DEFAULT_MODE));
    StillFree(db, form, fields, i);
    SearchFailsIff(added, x, {});
    SearchFindsFree(added, x, {}, 1);
    k := SearchFrom(added, x, {}, 1).counter;
  }

  /** Adding a form, archiving it and adding it again, with no statement failing: the first two go
      through when the table can be placed and an archive name is free. When the identifier carries
      the prefix, archiving renames the table but leaves its constraint name behind, and the second
      table cannot be made: only the row is committed. Otherwise archiving leaves the table where it
      is, and the second form replaces it. */
  lemma AddAgainIff(db: FormDb, form: FormData, fields: Form)
    requires FreshIds(db) && KeysNamed(db.catalog)
    requires form.identifier.Some? && form.display.Some? && JsonOf(form.json) == Some(Obj(fields))
    requires form.identifier.value != "" && Placeable(db.catalog, CreatedName(form.identifier.value))
    requires exists k :: 1 <= k <= LIMIT && Free(db, Candidate(Strip(form.identifier.value), k))
    ensures var added := AddForm(Tx(db, db), form, {});
            var archived := DeleteForm(Tx(added.tx.saved, added.tx.saved), db.nextId, {});
            var again := AddForm(Tx(archived.tx.saved, archived.tx.saved), form, {});
            var carriesPrefix := PREFIX <= Strip(form.identifier.value);
            && added.reply == Added(db.nextId, CreatedName(form.identifier.value))
            && archived.reply == Deleted(true)
            && (again.reply.Added? <==> !carriesPrefix)
            && (CreatedName(form.identifier.value) in archived.tx.saved.catalog <==> !carriesPrefix)
            && (carriesPrefix ==> again.tx.saved == WithRow(archived.tx.saved, form))
  {
    var x, table := Strip(form.identifier.value), CreatedName(form.identifier.value);
    AddSucceedsIff(db, form, fields);
    AddedCatalog(db, form, fields);
    var added := AddForm(Tx(db, db), form, {}).tx.saved;
    var k := ArchivedCatalog(db, form, fields);
    AddSucceedsIff(DeleteForm(Tx(added, added), db.nextId, {}).tx.saved, form, fields);
    CreatedIsNoCandidate(form.identifier.value, k);
    if PREFIX <= x {
      AddAgainWithPrefix(added.catalog, x, k);
    } else {
      CandidateIsNoPrefixing("PK_user_", x, k);
      assert KeyName(table) == "PK_user_" + x;
      AddAgainWithoutPrefix(added.catalog, x, Candidate(x, k));
    }
  }

  lemma AddAgainWithPrefix(c: Catalog, x: string, k: nat)
    requires KeysNamed(c) && PREFIX <= x && x in c && c[x].key == KeyName(x)
    requires Candidate(x, k) !in c && Candidate(x, k) != x
    ensures var after := Attempt(c, RenameTable(c, x, Candidate(x, k)), false);
            x !in after && !Placeable(after, x)
  {
    var to := Candidate(x, k);
    assert PREFIX <= to by { assert to[..5] == x[..5]; }
    KeyIsNoFormName(c, to);
    var after := (c - {x})[to := c[x]];
    assert to in after && to != x && after[to].key == KeyName(x);
  }

  lemma AddAgainWithoutPrefix(c: Catalog, x: string, to: string)
    requires KeysNamed(c) && PREFIX + x in c && x != PREFIX + x && to !in c
    requires to != KeyName(PREFIX + x)
    requires Placeable(c, PREFIX + x)
    ensures var after := Attempt(c, RenameTable(c, x, to), false);
            PREFIX + x in after && Placeable(after, PREFIX + x)
  {
    var after := Attempt(c, RenameTable(c, x, to), false);
    forall t | t in after && t != PREFIX + x
      ensures after[t].key != PREFIX + x && after[t].key != KeyName(PREFIX + x) && t != KeyName(PREFIX + x)
    {
      var source := if t == to then x else t;
      assert source in c - {PREFIX + x} && after[t] == c[source];
      assert after[t].key[0] == 'P';
    }
  }

  const EMPTY_DB: FormDb := FormDb(map[], [], 1)

  const USER_X_FORM: FormData := FormData(Some("user_x"), Some("X"), Parsed(Obj(map[])))

  lemma UserXAdded()
    ensures AddForm(Tx(EMPTY_DB, EMPTY_DB), USER_X_FORM, {}).reply == Added(1, "user_x")
    ensures Strip("user_x") == "user_x"
  {
    StripKeeps("user_x");
    AddSucceedsIff(EMPTY_DB, USER_X_FORM, map[]);
  }

  function UserXDb(): FormDb { AddForm(Tx(EMPTY_DB, EMPTY_DB), USER_X_FORM, {}).tx.saved }

  lemma UserXState()
    ensures var row := FormRow(1, "user_x", "X", DEFAULT_MODE);
            && UserXDb().forms == [row] && FindActive(UserXDb().forms, 1) == Some(row) && UserXDb().nextId == 2
            && UserXDb().catalog.Keys == {"user_x"} && KeysNamed(UserXDb().catalog)
    ensures Free(UserXDb(), Candidate("user_x", 1)) && !ObjectExists(UserXDb().catalog, Candidate("user_x", 1))
  {
    UserXAdded();
    AddedCatalog(EMPTY_DB, USER_X_FORM, map[]);
    AddCommits(EMPTY_DB, USER_X_FORM, {});
    assert |Candidate("user_x", 1)| > |"user_x"|;
    KeyIsNoFormName(UserXDb().catalog, Candidate("user_x", 1));
  }

  lemma UserXArchived(faults: set<Stmt>)
    requires faults <= {RenamePhysical}
    ensures SearchFrom(UserXDb(), "user_x", faults, 1) == Found(1)
    ensures DeleteForm(Tx(UserXDb(), UserXDb()), 1, faults).reply == Deleted(true)
  {
    UserXAdded();
    UserXState();
    SearchReaches(UserXDb(), "user_x", faults, 1, 1);
  }

  /** A form "user_x" added to an empty database and archived cannot be added again. */
  lemma PrefixedFormStaysGone()
    ensures var added := AddForm(Tx(EMPTY_DB, EMPTY_DB), USER_X_FORM, {}).tx.saved;
            var archived := DeleteForm(Tx(added, added), 1, {}).tx.saved;
            var again := AddForm(Tx(archived, archived), USER_X_FORM, {});
            !again.reply.Added? && again.tx.saved == WithRow(archived, USER_X_FORM)
  {
    UserXAdded();
    assert Free(EMPTY_DB, Candidate(Strip("user_x"), 1));
    AddAgainIff(EMPTY_DB, USER_X_FORM, map[]);
  }

  // ----- Rows and tables ------------------------------------------------------------------------

  /** Every table that was not there at the start is the table of a registered form. */
  predicate TablesHaveRows(start: Catalog, db: FormDb) {
    forall t :: t in db.catalog ==> t in start || exists row :: row in db.forms && CreatedName(row.name) == t
  }

  lemma ModeKeepsNames(forms: seq<FormRow>, id: nat, mode: int, name: string)
    requires exists row :: row in forms && CreatedName(row.name) == name
    ensures exists row :: row in ModeRows(forms, id, mode) && CreatedName(row.name) == name
  {
    var row :| row in forms && CreatedName(row.name) == name;
    var i :| 0 <= i < |forms| && forms[i] == row;
    assert ModeRows(forms, id, mode)[i].name == row.name;
  }

  lemma AddKeepsRows(start: Catalog, db: FormDb, form: FormData, faults: set<Stmt>)
    requires TablesHaveRows(start, db)
    ensures TablesHaveRows(start, Serve(db, Add(form, faults)))
  {
    var after := Serve(db, Add(form, faults));
    AddCommits(db, form, faults);
    if after != db {
      var added := after.forms[|db.forms|];
      assert added in after.forms && added.name == form.identifier.value;
      assert forall row :: row in db.forms ==> row in after.forms;
    }
  }

  lemma ModeKeepsRows(start: Catalog, db: FormDb, id: nat, mode: int, faults: set<Stmt>)
    requires TablesHaveRows(start, db)
    ensures TablesHaveRows(start, Serve(db, Mode(id, mode, faults)))
  {
    var after := Serve(db, Mode(id, mode, faults));
    forall t | t in after.catalog && t !in start
      ensures exists row :: row in after.forms && CreatedName(row.name) == t
    {
      if after != db { ModeKeepsNames(db.forms, id, mode, t); }
    }
  }

  /** An archive name is stripped already; it carries the prefix when its form does, and never names
      the table of its form. */
  lemma ArchiveNameCreates(identifier: string, k: nat)
    ensures var c := Candidate(Strip(identifier), k);
            && CreatedName(c) != CreatedName(identifier)
            && (PREFIX <= Strip(identifier) ==> CreatedName(c) == c)
  {
    var x := Strip(identifier);
    var c := Candidate(x, k);
    StripEnds(identifier);
    DecimalIsDigits(k);
    assert c[|c| - 1] == Decimal(k)[|Decimal(k)| - 1];
    assert c[0] == if x == "" then '_' else x[0];
    StripKeeps(c);
    CreatedIsNoCandidate(identifier, k);
    if PREFIX <= x { assert c[..5] == x[..5]; }
    assert |c| > |x|;
  }

  /** The row a deletion archives. */
  function ArchivedRow(db: FormDb, id: nat): FormRow
    requires FindActive(db.forms, id).Some?
  {
    FindActive(db.forms, id).value
  }

  /** The deletion's rename of the physical table goes through, or there is nothing to rename. */
  predicate TableMoves(db: FormDb, id: nat, faults: set<Stmt>)
    requires FindActive(db.forms, id).Some? && SearchFrom(db, Strip(ArchivedRow(db, id).name), faults, 1).Found?
  {
    var name := Strip(ArchivedRow(db, id).name);
    name !in db.catalog
    || (faults !! {FindPhysical, RenamePhysical}
        && !ObjectExists(db.catalog, Candidate(name, SearchFrom(db, name, faults, 1).counter)))
  }

  lemma OneRowArchived(db: FormDb, id: nat, name: string)
    requires IdsDistinct(db) && FindActive(db.forms, id).Some?
    ensures exists row :: row in ArchiveRows(db.forms, id, name) && row.name == name
    ensures forall row :: row in db.forms && row.id == id ==> row == ArchivedRow(db, id)
  {
    var rows := ArchiveRows(db.forms, id, name);
    FindActiveIff(db.forms, id);
    var archived := FindActive(db.forms, id).value;
    var i :| 0 <= i < |db.forms| && db.forms[i] == archived;
    assert archived.id == id;
    assert rows[i] == archived.(name := name, mode := TOMBSTONE);
    assert rows[i] in rows;
  }

  lemma ArchivedNames(db: FormDb, id: nat, name: string)
    requires IdsDistinct(db) && FindActive(db.forms, id).Some?
    ensures forall row :: row in ArchiveRows(db.forms, id, name) ==>
              row.name == name || (row in db.forms && row.id != id)
    ensures forall row :: row in db.forms && row.id != id ==> row in ArchiveRows(db.forms, id, name)
    ensures exists row :: row in ArchiveRows(db.forms, id, name) && row.name == name
    ensures forall row :: row in db.forms && row.id == id ==> row == ArchivedRow(db, id)
  {
    var rows := ArchiveRows(db.forms, id, name);
    OneRowArchived(db, id, name);
    forall row | row in db.forms && row.id != id ensures row in rows {
      var j :| 0 <= j < |db.forms| && db.forms[j] == row;
      assert rows[j] == row;
    }
  }

  /** A deletion that goes through, of a form whose table is there, is not from the start and is no
      other form's: no table is left without its row exactly when the identifier carries the prefix
      and the table is renamed with it. */
  lemma DeleteKeepsRowsIff(start: Catalog, db: FormDb, id: nat, faults: set<Stmt>)
    requires IdsDistinct(db) && TablesHaveRows(start, db)
    requires DeleteForm(Tx(db, db), id, faults).reply == Deleted(true)
    requires var table := CreatedName(ArchivedRow(db, id).name);
             && table in db.catalog && table !in start
             && forall row :: row in db.forms && CreatedName(row.name) == table ==> row.id == id
    ensures TablesHaveRows(start, Serve(db, Delete(id, faults))) <==>
              PREFIX <= Strip(ArchivedRow(db, id).name) && TableMoves(db, id, faults)
  {
    var identifier, after := ArchivedRow(db, id).name, Serve(db, Delete(id, faults));
    var table, k := CreatedName(identifier), SearchFrom(db, Strip(identifier), faults, 1).counter;
    if PREFIX <= Strip(identifier) && TableMoves(db, id, faults) {
      DeleteKeepsRows(start, db, id, faults);
    } else {
      ArchiveNameCreates(identifier, k);
      ArchivedNames(db, id, Candidate(Strip(identifier), k));
      TableStays(db, id, faults);
    }
  }

  /** The form "user_x" in an otherwise empty database: deleting it leaves no table without a row when
      the table is renamed with it, and leaves one when that rename fails. */
  lemma UserXDeleted(faults: set<Stmt>)
    requires faults <= {RenamePhysical}
    ensures TablesHaveRows(map[], Serve(UserXDb(), Delete(1, faults))) <==> faults == {}
  {
    UserXAdded();
    UserXState();
    UserXArchived(faults);
    assert UserXDb().forms[0] in UserXDb().forms;
    DeleteKeepsRowsIff(map[], UserXDb(), 1, faults);
  }

  lemma TableStays(db: FormDb, id: nat, faults: set<Stmt>)
    requires DeleteForm(Tx(db, db), id, faults).reply == Deleted(true)
    requires CreatedName(ArchivedRow(db, id).name) in db.catalog
    requires PREFIX <= Strip(ArchivedRow(db, id).name) ==> !TableMoves(db, id, faults)
    ensures CreatedName(ArchivedRow(db, id).name) in Serve(db, Delete(id, faults)).catalog
  {
    var x := Strip(ArchivedRow(db, id).name);
    if !(PREFIX <= x) { assert CreatedName(ArchivedRow(db, id).name) != x; }
  }

  lemma DeleteKeepsRows(start: Catalog, db: FormDb, id: nat, faults: set<Stmt>)
    requires IdsDistinct(db) && TablesHaveRows(start, db)
    requires DeleteForm(Tx(db, db), id, faults).reply == Deleted(true)
    requires PREFIX <= Strip(ArchivedRow(db, id).name) && TableMoves(db, id, faults)
    ensures TablesHaveRows(start, Serve(db, Delete(id, faults)))
  {
    var identifier, after := ArchivedRow(db, id).name, Serve(db, Delete(id, faults));
    var k := SearchFrom(db, Strip(identifier), faults, 1).counter;
    var name := Candidate(Strip(identifier), k);
    SearchFindsFree(db, Strip(identifier), faults, 1);
    ArchiveNameCreates(identifier, k);
    ArchivedNames(db, id, name);
    forall t | t in after.catalog && t !in start
      ensures exists row :: row in after.forms && CreatedName(row.name) == t
    {
      if t == name {
        var row :| row in after.forms && row.name == name;
      } else {
        var row :| row in db.forms && CreatedName(row.name) == t;
        assert row in after.forms;
      }
    }
  }

  /** Every deletion of the run that goes through is of a prefixed form and renames its table too. */
  predicate TablesMove(db: FormDb, rs: seq<Request>)
    decreases |rs|
  {
    rs == [] || (&& (rs[0].Delete? && DeleteForm(Tx(db, db), rs[0].id, rs[0].faults).reply == Deleted(true) ==>
                       PREFIX <= Strip(ArchivedRow(db, rs[0].id).name) && TableMoves(db, rs[0].id, rs[0].faults))
                 && TablesMove(Serve(db, rs[0]), rs[1..]))
  }

  /** Over any run whose deletions rename prefixed tables, with any statements failing, no table is
      ever committed, or left behind, without its row. */
  lemma {:induction false} RunTablesHaveRows(start: Catalog, db: FormDb, rs: seq<Request>)
    requires IdsDistinct(db) && TablesHaveRows(start, db) && TablesMove(db, rs)
    ensures TablesHaveRows(start, ServeAll(db, rs))
    decreases |rs|
  {
    if rs != [] {
      var after := Serve(db, rs[0]);
      match rs[0] {
        case Add(form, faults) => AddKeepsRows(start, db, form, faults);
        case Mode(id, mode, faults) => ModeKeepsRows(start, db, id, mode, faults);
        case Delete(id, faults) =>
          if DeleteForm(Tx(db, db), id, faults).reply == Deleted(true) { DeleteKeepsRows(start, db, id, faults); }
      }
      ServeKeepsIds(db, rs[0]);
      RunTablesHaveRows(start, after, rs[1..]);
    }
  }

  lemma {:induction false} FindActiveIff(forms: seq<FormRow>, id: nat)
    ensures FindActive(forms, id).Some? <==> exists row :: row in forms && row.id == id && row.mode != TOMBSTONE
    ensures FindActive(forms, id).Some? ==> FindActive(forms, id).value in forms && FindActive(forms, id).value.id == id
  {
    if forms != [] {
      FindActiveIff(forms[1..], id);
      assert forms == [forms[0]] + forms[1..];
    }
  }

  /** A deletion either changes nothing or tombstones the form's row, and only that row, under a name
      that neither the registry nor the catalog had; the form is no longer found. */
  lemma DeleteTombstones(db: FormDb, id: nat, faults: set<Stmt>)
    requires WellFormed(db)
    ensures var r := DeleteForm(Tx(db, db), id, faults);
            && (r.reply != Deleted(true) ==> r.tx == Tx(db, db))
            && (r.reply == Deleted(true) ==>
                  && r.tx.work == r.tx.saved && |r.tx.saved.forms| == |db.forms|
                  && FindActive(db.forms, id).Some? && FindActive(r.tx.saved.forms, id).None?
                  && forall i :: 0 <= i < |db.forms| ==>
                       if db.forms[i].id != id then r.tx.saved.forms[i] == db.forms[i]
                       else r.tx.saved.forms[i].mode == TOMBSTONE && r.tx.saved.forms[i].display == db.forms[i].display
                            && Free(db, r.tx.saved.forms[i].name))
  {
    var r := DeleteForm(Tx(db, db), id, faults);
    if r.reply == Deleted(true) {
      SearchFindsFree(db, Strip(FindActive(db.forms, id).value.name), faults, 1);
      FindActiveIff(r.tx.saved.forms, id);
    }
  }

  /** A mode change does not look for a tombstone: it brings an archived form back exactly when the
      mode it sets is not the tombstone itself. */
  lemma ModeRevivesIff(db: FormDb, row: FormRow, mode: int)
    requires row in db.forms && row.mode == TOMBSTONE
    ensures FindActive(SetFormMode(Tx(db, db), row.id, mode, {}).tx.saved.forms, row.id).Some? <==> mode != TOMBSTONE
  {
    var forms := ModeRows(db.forms, row.id, mode);
    FindActiveIff(forms, row.id);
    var i :| 0 <= i < |db.forms| && db.forms[i] == row;
    assert forms[i] in forms && forms[i].mode == mode;
  }
}
