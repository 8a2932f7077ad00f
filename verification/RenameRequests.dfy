/** What a rename request does to tables laid out for items, case by case. */
module RenameRequests {
  import opened Outcomes
  import opened Database
  import opened ItemIds
  import opened Columns
  import opened FormStore
  import opened FormSchema
  import opened SchemaEvolution

  // ----- Nothing to rename ----------------------------------------------------------------------

  /** With equal identifiers, or no table under the old name, the request evolves the table of the new
      name: it commits and reports exactly the new pairs, or fails without effect exactly when a
      negative id comes back. */
  lemma RenameEvolvesInPlace(db: FormDb, oldIdentifier: string, newIdentifier: string, idColumn: string,
                             have: seq<int>, form: Form)
    requires oldIdentifier != "" && newIdentifier != ""
    requires oldIdentifier == newIdentifier || UpdatedName(oldIdentifier) !in db.catalog
    requires UpdatedName(newIdentifier) in db.catalog && PREFIX <= idColumn && Distinct(have)
    requires db.catalog[UpdatedName(newIdentifier)].columns == Layout(idColumn, have)
    ensures var need := RequiredIds(form);
            RenameAndUpdate(Tx(db, db), oldIdentifier, newIdentifier, JsonForm(form), {})
            == if NegativeOverlap(have, need) then Outcome(Tx(db, db), Abort(500))
               else Done(WithColumns(db, UpdatedName(newIdentifier), Layout(idColumn, Extend(have, need))),
                         Evolved(Pairs(FirstSeen(have, need))))
  {
    UpdateOfLayout(db, newIdentifier, idColumn, have, form);
  }

  /** With no table under either name the request fails and changes nothing. */
  lemma RenameFindsNothing(db: FormDb, oldIdentifier: string, newIdentifier: string, form: Form, faults: set<Stmt>)
    requires oldIdentifier != "" && newIdentifier != ""
    requires UpdatedName(oldIdentifier) !in db.catalog && UpdatedName(newIdentifier) !in db.catalog
    ensures RenameAndUpdate(Tx(db, db), oldIdentifier, newIdentifier, JsonForm(form), faults)
            == Outcome(Tx(db, db), Abort(500))
  {}

  /** With a table under both of two different names the request fails and changes nothing. */
  lemma RenameIsBlocked(db: FormDb, oldIdentifier: string, newIdentifier: string, json: FormJson, faults: set<Stmt>)
    requires oldIdentifier != "" && newIdentifier != "" && oldIdentifier != newIdentifier
    requires UpdatedName(oldIdentifier) in db.catalog && UpdatedName(newIdentifier) in db.catalog
    ensures RenameAndUpdate(Tx(db, db), oldIdentifier, newIdentifier, json, faults) == Outcome(Tx(db, db), Abort(500))
  {}

  /** An empty identifier is answered with 400, before anything else. */
  lemma RenameNeedsNames(db: FormDb, oldIdentifier: string, newIdentifier: string, json: FormJson, faults: set<Stmt>)
    requires oldIdentifier == "" || newIdentifier == ""
    ensures RenameAndUpdate(Tx(db, db), oldIdentifier, newIdentifier, json, faults) == Outcome(Tx(db, db), Abort(400))
  {}

  // ----- Renaming -------------------------------------------------------------------------------

  /** The table is as `create_form_table` makes it, and no other object has a name that is involved. */
  predicate Movable(c: Catalog, source: string, target: string, have: seq<int>) {
    && source in c && c[source] == NewTable(source, have) && Distinct(have) && source != target
    && !ObjectExists(c, target) && !ObjectExists(c, KeyName(target))
    && forall t :: t in c && t != source ==> c[t].key != KeyName(source)
  }

  lemma IdColumnOnce(source: string, target: string, have: seq<int>)
    requires PREFIX <= source && PREFIX <= target && source != target
    ensures Replace(Layout(IdColumn(source), have), IdColumn(source), IdColumn(target))
            == Layout(IdColumn(target), have)
    ensures IdColumn(source) in Layout(IdColumn(source), have) && IdColumn(target) !in Layout(IdColumn(source), have)
  {
    var columns := Layout(IdColumn(source), have);
    assert columns[0] == IdColumn(source);
    assert IdColumn(source)[..|source|] == source && IdColumn(target)[..|target|] == target;
    assert IdColumn(source) != IdColumn(target) by {
      assert |IdColumn(source)| == |source| + 2 && |IdColumn(target)| == |target| + 2;
    }
    forall i | 1 <= i < |columns| ensures columns[i] != IdColumn(source) && columns[i] != IdColumn(target) {
      NoUserColumn(IdColumn(source), have, i);
      assert IdColumn(source)[0] == 'u' && IdColumn(target)[0] == 'u';
    }
  }

  lemma NoUserColumn(idColumn: string, have: seq<int>, i: nat)
    requires 1 <= i < |Layout(idColumn, have)|
    ensures Layout(idColumn, have)[i] != "" && Layout(idColumn, have)[i][0] != 'u'
  {
    if i >= 7 {
      assert Layout(idColumn, have)[i] == Pairs(have)[i - 7];
      PairNames(have, Pairs(have)[i - 7]);
    } else {
      assert Layout(idColumn, have)[i] == FIXED_COLUMNS[i - 1];
    }
  }

  /** No statement failing, the three renames move the table with its key and its id column. */
  lemma PartsMove(c: Catalog, source: string, target: string, have: seq<int>)
    requires Movable(c, source, target, have) && PREFIX <= source && PREFIX <= target
    ensures RenameTable(c, source, target).Some?
    ensures RenameParts(RenameTable(c, source, target).value, source, target, {})
            == (c - {source})[target := NewTable(target, have)]
  {
    var c0 := RenameTable(c, source, target).value;
    KeyMoves(c, source, target, have);
    var c1 := (c - {source})[target := Table(Layout(IdColumn(source), have), KeyName(target))];
    IdColumnOnce(source, target, have);
    assert c1[target := NewTable(target, have)] == (c - {source})[target := NewTable(target, have)];
  }

  lemma KeyMoves(c: Catalog, source: string, target: string, have: seq<int>)
    requires Movable(c, source, target, have)
    ensures RenameTable(c, source, target).Some?
    ensures RenameKey(RenameTable(c, source, target).value, KeyName(source), KeyName(target))
            == Some((c - {source})[target := Table(Layout(IdColumn(source), have), KeyName(target))])
  {
    var c0 := RenameTable(c, source, target).value;
    assert KeyName(source)[3..] == source && KeyName(target)[3..] == target;
    assert |KeyName(target)| > |target|;
    assert c0[target].key == KeyName(source);
    assert !ObjectExists(c0, KeyName(target)) by {
      forall t | t in c0 ensures t != KeyName(target) && c0[t].key != KeyName(target) {
        if t != target { assert c0[t] == c[t]; }
      }
    }
    forall t | t in c0 && t != target ensures c0[t].key != KeyName(source) { assert c0[t] == c[t]; }
    assert RenameKey(c0, KeyName(source), KeyName(target)).value
           == (c - {source})[target := Table(Layout(IdColumn(source), have), KeyName(target))];
  }

  /** The update of a connection that has renamed and not committed. */
  lemma UpdateOnWork(work: FormDb, saved: FormDb, identifier: string, have: seq<int>, form: Form)
    requires UpdatedName(identifier) in work.catalog && Distinct(have)
    requires work.catalog[UpdatedName(identifier)] == NewTable(UpdatedName(identifier), have)
    ensures var name, need := UpdatedName(identifier), RequiredIds(form);
            var after := work.(catalog := work.catalog[name := NewTable(name, Extend(have, need))]);
            UpdateSchema(Tx(work, saved), identifier, JsonForm(form), {}, false)
            == if NegativeOverlap(have, need) then Outcome(Tx(saved, saved), Abort(500))
               else Outcome(Tx(after, if FirstSeen(have, need) == [] then saved else after),
                            Evolved(Pairs(FirstSeen(have, need))))
  {
    var name, need := UpdatedName(identifier), RequiredIds(form);
    UpdateOfLayout(work, identifier, IdColumn(name), have, form);
    UpdateOutcome(Tx(work, work), identifier, form, {});
    UpdateOutcome(Tx(work, saved), identifier, form, {});
    PairsEmpty(MissingIds(work.catalog[name].columns, need));
    PairsEmpty(FirstSeen(have, need));
  }

  /** A rename request, no statement failing: the old table is gone and the new one is the table a form
      of that name with all the ids would have; the request reports the new pairs, commits when there
      are any, and fails without effect exactly when a negative id comes back. */
  lemma RenameMovesTable(db: FormDb, oldIdentifier: string, newIdentifier: string, have: seq<int>, form: Form)
    requires oldIdentifier != "" && newIdentifier != ""
    requires Movable(db.catalog, UpdatedName(oldIdentifier), UpdatedName(newIdentifier), have)
    ensures var source, target := UpdatedName(oldIdentifier), UpdatedName(newIdentifier);
            var need := RequiredIds(form);
            var after := db.(catalog := (db.catalog - {source})[target := NewTable(target, Extend(have, need))]);
            RenameAndUpdate(Tx(db, db), oldIdentifier, newIdentifier, JsonForm(form), {})
            == if NegativeOverlap(have, need) then Outcome(Tx(db, db), Abort(500))
               else Outcome(Tx(after, if FirstSeen(have, need) == [] then db else after),
                            Renamed(target, Pairs(FirstSeen(have, need))))
  {
    var source, target := UpdatedName(oldIdentifier), UpdatedName(newIdentifier);
    PartsMove(db.catalog, source, target, have);
    var moved := db.(catalog := (db.catalog - {source})[target := NewTable(target, have)]);
    UpdateOnWork(moved, db, newIdentifier, have, form);
    var grown := NewTable(target, Extend(have, RequiredIds(form)));
    assert moved.catalog[target := grown] == (db.catalog - {source})[target := grown];
  }
}
