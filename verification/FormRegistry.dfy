/** `models/table_manager.py`: registering forms, archiving them under a fresh name, changing mode. */
module FormRegistry {
  import opened Outcomes
  import opened Database
  import opened Text
  import opened FormStore
  import opened FormSchema

  const LIMIT := 9999

  datatype Search = Found(counter: nat) | Exhausted | Failed

  /** f"{original_table_name}_old{counter}" */
  function Candidate(original: string, counter: nat): string { original + ("_old" + Decimal(counter)) }

  predicate Registered(forms: seq<FormRow>, name: string) {
    exists row :: row in forms && row.name == name
  }

  /** The name is neither in the registry nor in the catalog. */
  predicate Free(db: FormDb, name: string) {
    !Registered(db.forms, name) && name !in db.catalog
  }

  /** The search for a fresh name from a given counter on. */
  function SearchFrom(db: FormDb, original: string, faults: set<Stmt>, counter: nat): Search
    requires 1 <= counter <= LIMIT
    decreases LIMIT - counter
  {
    if Probe(counter) in faults then Failed
    else if Free(db, Candidate(original, counter)) then Found(counter)
    else if counter == LIMIT then Exhausted
    else SearchFrom(db, original, faults, counter + 1)
  }

  /** `SELECT TableName ... WHERE TableManagerId = ? AND TestMode != 3`. */
  function FindActive(forms: seq<FormRow>, id: nat): Option<FormRow>
    decreases |forms|
  {
    if forms == [] then None
    else if forms[0].id == id && forms[0].mode != TOMBSTONE then Some(forms[0])
    else FindActive(forms[1..], id)
  }

  function ArchiveRows(forms: seq<FormRow>, id: nat, name: string): seq<FormRow> {
    seq(|forms|, i requires 0 <= i < |forms| =>
      if forms[i].id == id then forms[i].(name := name, mode := TOMBSTONE) else forms[i])
  }

  function ModeRows(forms: seq<FormRow>, id: nat, mode: int): seq<FormRow> {
    seq(|forms|, i requires 0 <= i < |forms| => if forms[i].id == id then forms[i].(mode := mode) else forms[i])
  }

  // ----- What each operation comes to ---------------------------------------------------------

  /** The new row, committed before the table is made. */
  function WithRow(db: FormDb, form: FormData): FormDb
    requires form.identifier.Some? && form.display.Some?
  {
    db.(forms := db.forms + [FormRow(db.nextId, form.identifier.value, form.display.value, DEFAULT_MODE)],
        nextId := db.nextId + 1)
  }

  /** `add_form`. */
  function AddForm(tx: Tx<FormDb>, form: FormData, faults: set<Stmt>): Outcome {
    if form.identifier.None? || form.display.None? || InsertForm in faults || SaveForm in faults
    then RolledBack(tx, Abort(500))
    else
      var db := WithRow(tx.work, form);
      if ReadIdentity in faults then Done(db, Abort(500))
      else
        var made := CreateForm(Tx(db, db), form, faults);
        if made.reply.Created? then Outcome(made.tx, Added(tx.work.nextId, made.reply.table)) else Done(db, Abort(500))
  }

  /** `delete_form`: tombstone the row under a fresh name; the table with the registry's name, if
      there is one, is renamed too, and a failure to do so is only logged. */
  function DeleteForm(tx: Tx<FormDb>, id: nat, faults: set<Stmt>): Outcome {
    var row := FindActive(tx.work.forms, id);
    if FindForm in faults then RolledBack(tx, Abort(500))
    else if row.None? then Outcome(tx, Deleted(false))
    else
      var name := Strip(row.value.name);
      var search := SearchFrom(tx.work, name, faults, 1);
      if !search.Found? || ArchiveRow in faults || SaveDelete in faults then RolledBack(tx, Abort(500))
      else
        var archived := Candidate(name, search.counter);
        var catalog := Attempt(tx.work.catalog, RenameTable(tx.work.catalog, name, archived),
                               FindPhysical in faults || RenamePhysical in faults);
        Done(tx.work.(forms := ArchiveRows(tx.work.forms, id, archived), catalog := catalog), Deleted(true))
  }

  /** `update_form_mode`: no look at the mode the row has. */
  function SetFormMode(tx: Tx<FormDb>, id: nat, mode: int, faults: set<Stmt>): Outcome {
    if SetMode in faults || SaveMode in faults then RolledBack(tx, Abort(500))
    else Done(tx.work.(forms := ModeRows(tx.work.forms, id, mode)),
              ModeSet(exists row :: row in tx.work.forms && row.id == id))
  }

  // ----- The operations, statement by statement -----------------------------------------------

  /** `_generate_unique_table_name`: the least free counter, or the limit reached. */
  method GenerateUniqueTableName(db: FormDb, original: string, faults: set<Stmt>) returns (r: Search)
    ensures r == SearchFrom(db, original, faults, 1)
    ensures r.Found? ==> 1 <= r.counter <= LIMIT && Free(db, Candidate(original, r.counter))
    ensures r.Found? ==> forall k :: 1 <= k < r.counter ==> !Free(db, Candidate(original, k))
    ensures r.Exhausted? ==> forall k :: 1 <= k <= LIMIT ==> !Free(db, Candidate(original, k))
    ensures r.Failed? ==> exists k :: 1 <= k <= LIMIT && Probe(k) in faults
  {
    var counter: nat := 1;
    while true
      invariant 1 <= counter <= LIMIT
      invariant SearchFrom(db, original, faults, 1) == SearchFrom(db, original, faults, counter)
      invariant forall k :: 1 <= k < counter ==> !Free(db, Candidate(original, k))
      decreases LIMIT - counter
    {
      var name := Candidate(original, counter);
      if Probe(counter) in faults { return Failed; }
      var managerExists := Registered(db.forms, name);
      var tableExists := name in db.catalog;
      if !managerExists && !tableExists { return Found(counter); }
      if counter + 1 > LIMIT { return Exhausted; }
      counter := counter + 1;
    }
  }

  method AddFormDefinition(s: Session<FormDb>, form: FormData, faults: set<Stmt>) returns (reply: Reply)
    modifies s
    ensures Outcome(s.View(), reply) == AddForm(old(s.View()), form, faults)
  {
    var ok := form.identifier.Some? && form.display.Some?;
    var id := s.work.nextId;
    if ok { ok := s.Execute(Some(WithRow(s.work, form)), InsertForm in faults); }
    if ok { ok := s.Commit(SaveForm in faults); }
    if ok && ReadIdentity !in faults {
      reply := CreateFormTable(s, form, faults);
      if reply.Created? { return Added(id, reply.table); }
    }
    s.Rollback();
    return Abort(500);
  }

  method DeleteFormDefinition(s: Session<FormDb>, id: nat, faults: set<Stmt>) returns (reply: Reply)
    modifies s
    ensures Outcome(s.View(), reply) == DeleteForm(old(s.View()), id, faults)
  {
    var row := FindActive(s.work.forms, id);
    var ok := FindForm !in faults;
    if ok {
      if row.None? { return Deleted(false); }
      var name := Strip(row.value.name);
      var search := GenerateUniqueTableName(s.work, name, faults);
      ok := search.Found?;
      if ok {
        var archived := Candidate(name, search.counter);
        ok := s.Execute(Some(s.work.(forms := ArchiveRows(s.work.forms, id, archived))), ArchiveRow in faults);
        if ok {
          if FindPhysical !in faults && name in s.work.catalog {
            var _ := s.Execute(WithCatalog(s.work, RenameTable(s.work.catalog, name, archived)),
                               RenamePhysical in faults);
          }
          ok := s.Commit(SaveDelete in faults);
        }
      }
    }
    if ok { return Deleted(true); }
    s.Rollback();
    return Abort(500);
  }

  method UpdateFormMode(s: Session<FormDb>, id: nat, mode: int, faults: set<Stmt>) returns (reply: Reply)
    modifies s
    ensures Outcome(s.View(), reply) == SetFormMode(old(s.View()), id, mode, faults)
  {
    var found := exists row :: row in s.work.forms && row.id == id;
    var ok := s.Execute(Some(s.work.(forms := ModeRows(s.work.forms, id, mode))), SetMode in faults);
    if ok { ok := s.Commit(SaveMode in faults); }
    if ok { return ModeSet(found); }
    s.Rollback();
    return Abort(500);
  }
}
