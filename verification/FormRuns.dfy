/** Runs in which schema requests and registry requests meet. */
module FormRuns {
  import opened Outcomes
  import opened Database
  import opened Text
  import opened Json
  import opened Columns
  import opened FormStore
  import opened FormSchema
  import opened FormRegistry
  import opened Archiving
  import SchemaRuns
  import RegistryRuns

  datatype Request = Schema(s: SchemaRuns.Request) | Registry(r: RegistryRuns.Request)

  function Serve(db: FormDb, r: Request): FormDb {
    match r
    case Schema(s) => SchemaRuns.Serve(db, s)
    case Registry(r) => RegistryRuns.Serve(db, r)
  }

  function ServeAll(db: FormDb, rs: seq<Request>): FormDb
    decreases |rs|
  {
    if rs == [] then db else ServeAll(Serve(db, rs[0]), rs[1..])
  }

  /** The one table without the prefix whose archive names carry it. */
  const BARE := "user"

  /** A table called "user", if there is one, is laid out like a form table. */
  ghost predicate BareIsForm(c: Catalog) { BARE in c ==> SchemaRuns.IsFormTable(c[BARE].columns) }

  // ----- Archive names with the prefix ----------------------------------------------------------

  lemma CandidatePrefixedIff(original: string, k: nat)
    ensures PREFIX <= Candidate(original, k) <==> PREFIX <= original || original == BARE
    ensures Candidate(original, k) != BARE
  {
    var c := Candidate(original, k);
    DecimalIsDigits(k);
    if |original| >= 5 {
      assert c[..5] == original[..5];
    } else if |original| < 4 {
      assert c[|original|] == '_' && PREFIX[|original|] != '_';
    } else {
      assert c[..5] == original + "_";
      assert PREFIX == BARE + "_";
      assert (original + "_")[..4] == original && PREFIX[..4] == BARE;
    }
  }

  // ----- One request ----------------------------------------------------------------------------

  lemma SchemaKeepsBare(db: FormDb, s: SchemaRuns.Request)
    requires BareIsForm(db.catalog)
    ensures BareIsForm(SchemaRuns.Serve(db, s).catalog)
  {
    match s
    case Create(form, faults) =>
    case Update(identifier, json, faults) => UpdateKeepsBare(Tx(db, db), identifier, json, faults);
    case Rename(from, to, json, faults) =>
      UpdateKeepsBare(Tx(db, db), to, json, faults);
      if RenameTable(db.catalog, UpdatedName(from), UpdatedName(to)).Some? {
        RenameKeepsBare(db, from, to, json, faults);
      }
  }

  lemma UpdateKeepsBare(tx: Tx<FormDb>, identifier: string, json: FormJson, faults: set<Stmt>)
    requires BareIsForm(tx.work.catalog) && BareIsForm(tx.saved.catalog)
    ensures BareIsForm(UpdateSchema(tx, identifier, json, faults, false).tx.saved.catalog)
  {
    assert |UpdatedName(identifier)| > |BARE|;
  }

  lemma RenameKeepsBare(db: FormDb, from: string, to: string, json: FormJson, faults: set<Stmt>)
    requires BareIsForm(db.catalog) && RenameTable(db.catalog, UpdatedName(from), UpdatedName(to)).Some?
    ensures var source, target := UpdatedName(from), UpdatedName(to);
            var c := RenameParts(RenameTable(db.catalog, source, target).value, source, target, faults);
            BareIsForm(UpdateSchema(Tx(db.(catalog := c), db), to, json, faults, false).tx.saved.catalog)
  {
    var source, target := UpdatedName(from), UpdatedName(to);
    assert |source| > |BARE| && |target| > |BARE|;
    var c := RenameParts(RenameTable(db.catalog, source, target).value, source, target, faults);
    UpdateKeepsBare(Tx(db.(catalog := c), db), to, json, faults);
  }

  lemma AddKeeps(db: FormDb, form: FormData, faults: set<Stmt>)
    requires SchemaRuns.FormTables(db.catalog)
    ensures var after := RegistryRuns.Serve(db, RegistryRuns.Add(form, faults)).catalog;
            SchemaRuns.FormTables(after) && (BareIsForm(after) <==> BareIsForm(db.catalog))
  {
    if form.identifier.Some? && form.display.Some? {
      SchemaRuns.CreateKeepsFormTables(WithRow(db, form), form, faults);
    }
  }

  /** The deletion goes through to its commit. */
  predicate Archives(db: FormDb, id: nat, faults: set<Stmt>) {
    && faults !! {FindForm, ArchiveRow, SaveDelete} && FindActive(db.forms, id).Some?
    && SearchFrom(db, Strip(FindActive(db.forms, id).value.name), faults, 1).Found?
  }

  /** It archives a form "user" whose table of that very name is no form table, and renames the table. */
  ghost predicate MovesBare(db: FormDb, id: nat, faults: set<Stmt>) {
    && Archives(db, id, faults) && Strip(FindActive(db.forms, id).value.name) == BARE
    && RegistryRuns.TableMoves(db, id, faults) && !BareIsForm(db.catalog)
  }

  /** What a deletion does to the catalog. */
  lemma DeleteComesTo(db: FormDb, id: nat, faults: set<Stmt>)
    ensures var after := RegistryRuns.Serve(db, RegistryRuns.Delete(id, faults)).catalog;
            if !Archives(db, id, faults) then after == db.catalog
            else
              var name := Strip(FindActive(db.forms, id).value.name);
              var to := Candidate(name, SearchFrom(db, name, faults, 1).counter);
              after == if name in db.catalog && RegistryRuns.TableMoves(db, id, faults)
                       then (db.catalog - {name})[to := db.catalog[name]] else db.catalog
  {}

  /** A deletion keeps the form tables exactly when it does not move such a table. */
  lemma DeleteKeepsIff(db: FormDb, id: nat, faults: set<Stmt>)
    requires SchemaRuns.FormTables(db.catalog)
    ensures SchemaRuns.FormTables(RegistryRuns.Serve(db, RegistryRuns.Delete(id, faults)).catalog)
            <==> !MovesBare(db, id, faults)
    ensures BareIsForm(db.catalog) ==> BareIsForm(RegistryRuns.Serve(db, RegistryRuns.Delete(id, faults)).catalog)
  {
    DeleteComesTo(db, id, faults);
    if Archives(db, id, faults) {
      var name := Strip(FindActive(db.forms, id).value.name);
      CandidatePrefixedIff(name, SearchFrom(db, name, faults, 1).counter);
      var to := Candidate(name, SearchFrom(db, name, faults, 1).counter);
      if name in db.catalog && RegistryRuns.TableMoves(db, id, faults) { MovedFormsIff(db.catalog, name, to); }
    }
  }

  lemma MovedFormsIff(c: Catalog, name: string, to: string)
    requires SchemaRuns.FormTables(c) && name in c && (PREFIX <= to <==> PREFIX <= name || name == BARE)
    ensures SchemaRuns.FormTables((c - {name})[to := c[name]]) <==> name != BARE || BareIsForm(c)
  {
    var after := (c - {name})[to := c[name]];
    assert to in after && after[to] == c[name];
    forall t | t in after && t != to ensures t in c && after[t] == c[t] {}
  }

  // ----- Runs -----------------------------------------------------------------------------------

  lemma ServeKeeps(db: FormDb, r: Request)
    requires SchemaRuns.FormTables(db.catalog) && BareIsForm(db.catalog)
    ensures SchemaRuns.FormTables(Serve(db, r).catalog) && BareIsForm(Serve(db, r).catalog)
  {
    match r
    case Schema(s) =>
      SchemaRuns.ServeKeepsFormTables(db, s);
      SchemaKeepsBare(db, s);
    case Registry(Add(form, faults)) => AddKeeps(db, form, faults);
    case Registry(Delete(id, faults)) => DeleteKeepsIff(db, id, faults);
    case Registry(Mode(id, mode, faults)) =>
  }

  /** Over any run of create, update, rename, add, delete and mode requests, with any statements
      failing, every form table keeps distinct columns, its fixed columns in place and its items in
      pairs, if a table called "user" is not there at the start or is laid out like one. */
  lemma {:induction false} RunKeepsFormTables(db: FormDb, rs: seq<Request>)
    requires SchemaRuns.FormTables(db.catalog) && BareIsForm(db.catalog)
    ensures SchemaRuns.FormTables(ServeAll(db, rs).catalog)
    ensures forall name :: name in ServeAll(db, rs).catalog && PREFIX <= name ==>
              var columns := ServeAll(db, rs).catalog[name].columns;
              && Distinct(columns) && |columns| >= 7 && columns[1..7] == FIXED_COLUMNS
              && forall id :: ItemColumn(id) in columns <==> RemarkColumn(id) in columns
    decreases |rs|
  {
    if rs == [] {
      forall name | name in db.catalog && PREFIX <= name
        ensures var columns := db.catalog[name].columns;
                && Distinct(columns) && |columns| >= 7 && columns[1..7] == FIXED_COLUMNS
                && forall id :: ItemColumn(id) in columns <==> RemarkColumn(id) in columns
      {
        SchemaRuns.FormTableColumns(db.catalog[name].columns);
      }
    } else {
      ServeKeeps(db, rs[0]);
      RunKeepsFormTables(Serve(db, rs[0]), rs[1..]);
    }
  }

  /** Registers a form "user" and archives it. */
  function BareRun(id: nat): seq<Request> {
    [Registry(RegistryRuns.Add(FormData(Some(BARE), Some(""), Parsed(Obj(map[]))), {})),
     Registry(RegistryRuns.Delete(id, {}))]
  }

  lemma FreeStays(db: FormDb, added: FormDb, k: nat)
    requires Free(db, Candidate(BARE, k))
    requires added.forms == db.forms + [FormRow(db.nextId, BARE, "", DEFAULT_MODE)]
    requires added.catalog.Keys <= db.catalog.Keys + {CreatedName(BARE)}
    ensures Free(added, Candidate(BARE, k))
  {
    StripKeeps(BARE);
    CandidateIsNotStripped(BARE, k);
    CreatedIsNoCandidate(BARE, k);
  }

  lemma BareAdded(db: FormDb)
    requires RegistryRuns.KeysNamed(db.catalog)
    ensures var added := Serve(db, BareRun(db.nextId)[0]);
            && added.forms == db.forms + [FormRow(db.nextId, BARE, "", DEFAULT_MODE)]
            && added.catalog.Keys <= db.catalog.Keys + {CreatedName(BARE)} && RegistryRuns.KeysNamed(added.catalog)
            && (BareIsForm(added.catalog) <==> BareIsForm(db.catalog))
  {
    RegistryRuns.AddCommits(db, FormData(Some(BARE), Some(""), Parsed(Obj(map[]))), {});
  }

  /** The state between the two requests of `BareRun`: the form is registered, its archive name free. */
  lemma BareRegistered(db: FormDb)
    requires FreshIds(db) && RegistryRuns.KeysNamed(db.catalog)
    requires exists k :: 1 <= k <= LIMIT && Free(db, Candidate(BARE, k))
    ensures var added := Serve(db, BareRun(db.nextId)[0]);
            && Archives(added, db.nextId, {}) && Strip(FindActive(added.forms, db.nextId).value.name) == BARE
            && RegistryRuns.TableMoves(added, db.nextId, {})
  {
    var added := Serve(db, BareRun(db.nextId)[0]);
    StripKeeps(BARE);
    BareAdded(db);
    FindNewest(db.forms, FormRow(db.nextId, BARE, "", DEFAULT_MODE));
    var k :| 1 <= k <= LIMIT && Free(db, Candidate(BARE, k));
    FreeStays(db, added, k);
    SearchFailsIff(added, BARE, {});
    BareMoves(added);
  }

  lemma BareMoves(db: FormDb)
    requires RegistryRuns.KeysNamed(db.catalog) && SearchFrom(db, BARE, {}, 1).Found?
    ensures !ObjectExists(db.catalog, Candidate(BARE, SearchFrom(db, BARE, {}, 1).counter))
  {
    RegistryRuns.SearchFindsFree(db, BARE, {}, 1);
    CandidatePrefixedIff(BARE, SearchFrom(db, BARE, {}, 1).counter);
    RegistryRuns.KeyIsNoFormName(db.catalog, Candidate(BARE, SearchFrom(db, BARE, {}, 1).counter));
  }

  /** The run leaves every form table one. */
  ghost predicate KeptBy(db: FormDb, rs: seq<Request>) { SchemaRuns.FormTables(ServeAll(db, rs).catalog) }

  /** Every run keeps the form tables exactly when they are there at the start and a table called
      "user", if there is one, is laid out like them. */
  lemma RunsKeepFormTablesIff(db: FormDb)
    requires FreshIds(db) && RegistryRuns.KeysNamed(db.catalog)
    requires exists k :: 1 <= k <= LIMIT && Free(db, Candidate(BARE, k))
    ensures (forall rs :: KeptBy(db, rs)) <==> SchemaRuns.FormTables(db.catalog) && BareIsForm(db.catalog)
  {
    if SchemaRuns.FormTables(db.catalog) && BareIsForm(db.catalog) {
      forall rs ensures KeptBy(db, rs) { RunKeepsFormTables(db, rs); }
    } else if SchemaRuns.FormTables(db.catalog) {
      BareRunBreaks(db);
    } else {
      var none: seq<Request> := [];
      assert !KeptBy(db, none);
    }
  }

  lemma BareRunBreaks(db: FormDb)
    requires FreshIds(db) && RegistryRuns.KeysNamed(db.catalog)
    requires exists k :: 1 <= k <= LIMIT && Free(db, Candidate(BARE, k))
    requires SchemaRuns.FormTables(db.catalog) && !BareIsForm(db.catalog)
    ensures !KeptBy(db, BareRun(db.nextId))
  {
    var rs := BareRun(db.nextId);
    var added := Serve(db, rs[0]);
    BareAdded(db);
    BareRegistered(db);
    AddKeeps(db, rs[0].r.form, {});
    DeleteKeepsIff(added, db.nextId, {});
    assert rs[1..] == [rs[1]] && rs[1..][1..] == [];
    assert ServeAll(added, rs[1..]) == Serve(added, rs[1]);
  }
}
