/** What each registry request does to every row, row by row. */
module RegistryEffects {
  import opened Outcomes
  import opened Database
  import opened Text
  import opened FormStore
  import opened FormSchema
  import opened FormRegistry
  import opened RegistryRuns

  /** The rows at i are the same but for those with this id, which have the mode. */
  predicate ModeIsSet(before: seq<FormRow>, after: seq<FormRow>, id: nat, mode: int) {
    && |after| == |before|
    && forall i :: 0 <= i < |before| ==>
         if before[i].id == id then after[i] == FormRow(id, before[i].name, before[i].display, mode)
         else after[i] == before[i]
  }

  /** A mode change sets the mode of the rows with this id and touches nothing else; it answers whether
      there is one; with a statement failing nothing changes. */
  lemma ModeChangeIsExact(db: FormDb, id: nat, mode: int, faults: set<Stmt>)
    ensures var r := SetFormMode(Tx(db, db), id, mode, faults);
            if faults !! {SetMode, SaveMode} then
              && r.tx.work == r.tx.saved && ModeIsSet(db.forms, r.tx.saved.forms, id, mode)
              && r.tx.saved.catalog == db.catalog && r.tx.saved.nextId == db.nextId
              && r.reply == ModeSet(exists i :: 0 <= i < |db.forms| && db.forms[i].id == id)
            else r == Outcome(Tx(db, db), Abort(500))
  {
    if row :| row in db.forms && row.id == id {
      var i :| 0 <= i < |db.forms| && db.forms[i] == row;
    }
  }

  /** An addition appends the form's row, not tombstoned, with mode 0, when it has an identifier and a
      display name and its two statements go through, whatever becomes of its table; otherwise nothing
      changes. */
  lemma AdditionIsExact(db: FormDb, form: FormData, faults: set<Stmt>)
    ensures var r := AddForm(Tx(db, db), form, faults);
            if form.identifier.Some? && form.display.Some? && faults !! {InsertForm, SaveForm} then
              && r.tx.work == r.tx.saved && r.tx.saved.nextId == db.nextId + 1
              && r.tx.saved.forms == db.forms + [FormRow(db.nextId, form.identifier.value, form.display.value, 0)]
            else r == Outcome(Tx(db, db), Abort(500))
  {}

  /** All the names an archived form could take are taken. */
  predicate NoNameLeft(db: FormDb, name: string) {
    forall k :: 1 <= k <= 9999 ==> Taken(db, name + ("_old" + Decimal(k)))
  }

  predicate Taken(db: FormDb, name: string) {
    name in db.catalog || exists i :: 0 <= i < |db.forms| && db.forms[i].name == name
  }

  lemma TakenIff(db: FormDb, name: string)
    ensures Taken(db, name) <==> !Free(db, name)
  {
    if row :| row in db.forms && row.name == name {
      var i :| 0 <= i < |db.forms| && db.forms[i] == row;
    }
  }

  /** The row at i is tombstoned under the k-th name, the first not taken; every other row is as it was. */
  predicate IsArchived(db: FormDb, after: seq<FormRow>, i: nat, k: nat)
    requires i < |db.forms|
  {
    var original := Strip(db.forms[i].name);
    && 1 <= k <= 9999 && !Taken(db, original + ("_old" + Decimal(k)))
    && (forall j :: 1 <= j < k ==> Taken(db, original + ("_old" + Decimal(j))))
    && |after| == |db.forms|
    && after[i] == FormRow(db.forms[i].id, original + ("_old" + Decimal(k)), db.forms[i].display, 3)
    && forall j :: 0 <= j < |after| && j != i ==> after[j] == db.forms[j]
  }

  /** The table of the form's trimmed identifier, if there is one, has the new name, unless that is
      refused; every other table is as it was. */
  predicate TableFollows(before: Catalog, after: Catalog, from: string, to: string, refused: bool) {
    if from in before && !refused then after == (before - {from})[to := before[from]] else after == before
  }

  lemma FindsRowAt(db: FormDb, i: nat)
    requires IdsDistinct(db) && i < |db.forms|
    ensures FindActive(db.forms, db.forms[i].id)
            == if db.forms[i].mode == 3 then None else Some(db.forms[i])
  {
    FindActiveIff(db.forms, db.forms[i].id);
    assert db.forms[i] in db.forms;
  }

  lemma {:induction false} SearchIsLeast(db: FormDb, original: string, from: nat)
    requires 1 <= from <= LIMIT
    ensures match SearchFrom(db, original, {}, from)
            case Found(k) => from <= k <= LIMIT && Free(db, Candidate(original, k))
                             && forall j :: from <= j < k ==> !Free(db, Candidate(original, j))
            case Exhausted => forall j :: from <= j <= LIMIT ==> !Free(db, Candidate(original, j))
            case Failed => false
    decreases LIMIT - from
  {
    if !Free(db, Candidate(original, from)) && from < LIMIT { SearchIsLeast(db, original, from + 1); }
  }

  /** Deleting the form at i, no statement on its row failing: a tombstoned form is not found, a form
      without a name left is answered with an error, and otherwise exactly its row is archived and at
      most its table renamed. */
  lemma DeletionIsExact(db: FormDb, i: nat, faults: set<Stmt>)
    requires IdsDistinct(db) && i < |db.forms| && faults <= {FindPhysical, RenamePhysical}
    ensures var r := DeleteForm(Tx(db, db), db.forms[i].id, faults);
            var original := Strip(db.forms[i].name);
            if db.forms[i].mode == 3 then r == Outcome(Tx(db, db), Deleted(false))
            else if NoNameLeft(db, original) then r == Outcome(Tx(db, db), Abort(500))
            else
              && r.reply == Deleted(true) && r.tx.work == r.tx.saved && r.tx.saved.nextId == db.nextId
              && exists k :: IsArchived(db, r.tx.saved.forms, i, k)
                             && TableFollows(db.catalog, r.tx.saved.catalog, original, original + ("_old" + Decimal(k)),
                                             faults != {} || KeyIs(db.catalog, original + ("_old" + Decimal(k))))
  {
    FindsRowAt(db, i);
    SearchSettles(db, Strip(db.forms[i].name), faults);
    var search := SearchFrom(db, Strip(db.forms[i].name), faults, 1);
    if db.forms[i].mode != 3 && search.Found? {
      RowIsArchived(db, i, search.counter);
      DeletionGoesThrough(db, i, faults, search.counter);
    }
  }

  /** The search settles on the first name not taken, or finds none left. */
  lemma SearchSettles(db: FormDb, original: string, faults: set<Stmt>)
    requires faults <= {FindPhysical, RenamePhysical}
    ensures match SearchFrom(db, original, faults, 1)
            case Found(k) => 1 <= k <= 9999 && !Taken(db, original + ("_old" + Decimal(k)))
                             && forall j :: 1 <= j < k ==> Taken(db, original + ("_old" + Decimal(j)))
            case Exhausted => NoNameLeft(db, original)
            case Failed => false
  {
    SearchIgnores(db, original, faults, 1);
    SearchIsLeast(db, original, 1);
    forall k ensures Taken(db, original + ("_old" + Decimal(k))) <==> !Free(db, Candidate(original, k)) {
      TakenIff(db, Candidate(original, k));
    }
  }

  lemma RowIsArchived(db: FormDb, i: nat, k: nat)
    requires IdsDistinct(db) && i < |db.forms|
    requires var original := Strip(db.forms[i].name);
             && 1 <= k <= 9999 && !Taken(db, original + ("_old" + Decimal(k)))
             && forall j :: 1 <= j < k ==> Taken(db, original + ("_old" + Decimal(j)))
    ensures IsArchived(db, ArchiveRows(db.forms, db.forms[i].id, Strip(db.forms[i].name) + ("_old" + Decimal(k))), i, k)
  {}

  lemma DeletionGoesThrough(db: FormDb, i: nat, faults: set<Stmt>, k: nat)
    requires IdsDistinct(db) && i < |db.forms| && faults <= {FindPhysical, RenamePhysical} && db.forms[i].mode != 3
    requires var original := Strip(db.forms[i].name);
             SearchFrom(db, original, faults, 1) == Found(k) && original + ("_old" + Decimal(k)) !in db.catalog
    ensures var r := DeleteForm(Tx(db, db), db.forms[i].id, faults);
            var original := Strip(db.forms[i].name);
            var name := original + ("_old" + Decimal(k));
            && r.reply == Deleted(true) && r.tx.work == r.tx.saved && r.tx.saved.nextId == db.nextId
            && r.tx.saved.forms == ArchiveRows(db.forms, db.forms[i].id, name)
            && TableFollows(db.catalog, r.tx.saved.catalog, original, name, faults != {} || KeyIs(db.catalog, name))
  {
    FindsRowAt(db, i);
  }

  predicate KeyIs(c: Catalog, name: string) { exists t :: t in c && c[t].key == name }

  lemma {:induction false} SearchIgnores(db: FormDb, original: string, faults: set<Stmt>, from: nat)
    requires 1 <= from <= LIMIT && faults <= {FindPhysical, RenamePhysical}
    ensures SearchFrom(db, original, faults, from) == SearchFrom(db, original, {}, from)
    decreases LIMIT - from
  {
    if from < LIMIT { SearchIgnores(db, original, faults, from + 1); }
  }
}
