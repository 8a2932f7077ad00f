/** `models/form_schema.py`: creating, evolving and renaming the tables of forms. */
module FormSchema {
  import opened Outcomes
  import opened Database
  import opened Json
  import opened ItemIds
  import opened Columns
  import opened FormStore

  datatype Outcome = Outcome(tx: Tx<FormDb>, reply: Reply)

  /** Everything is as committed, and the request answers with an error. */
  function RolledBack(tx: Tx<FormDb>, reply: Reply): Outcome { Outcome(Tx(tx.saved, tx.saved), reply) }

  function Done(db: FormDb, reply: Reply): Outcome { Outcome(Tx(db, db), reply) }

  function KeyName(table: string): string { "PK_" + table }

  function IdColumn(table: string): string { table + "Id" }

  function NewTable(name: string, ids: seq<int>): Table { Table(Layout(IdColumn(name), ids), KeyName(name)) }

  // ----- What each operation comes to ---------------------------------------------------------

  /** `create_form_table`: replace the form's table in one transaction. */
  function CreateForm(tx: Tx<FormDb>, form: FormData, faults: set<Stmt>): Outcome {
    var json := JsonOf(form.json);
    if form.identifier.None? || form.identifier.value == "" || json.None? || !json.value.Obj?
    then Outcome(tx, Abort(400))
    else
      var name := CreatedName(form.identifier.value);
      var created := CreateTable(tx.work.catalog - {name}, name, NewTable(name, RequiredIds(json.value.fields)));
      if faults !! {DropOld, CreateNew, SaveCreate} && created.Some?
      then Done(tx.work.(catalog := created.value), Created(name))
      else RolledBack(tx, Abort(500))
  }

  /** `update_form_table_schema`: add the missing columns. With a borrowed cursor the caller owns
      the transaction: nothing is committed or rolled back and errors are passed on. */
  function UpdateSchema(tx: Tx<FormDb>, identifier: string, json: FormJson, faults: set<Stmt>,
                        borrowed: bool): Outcome {
    var parsed := JsonOf(json);
    if parsed.None? || !parsed.value.Obj? then Outcome(tx, Abort(400))
    else
      var name := UpdatedName(identifier);
      var ids := RequiredIds(parsed.value.fields);
      var failure := if borrowed then Outcome(tx, Raised) else RolledBack(tx, Abort(500));
      if FindTable in faults || name !in tx.work.catalog then failure
      else if ids == [] then Outcome(tx, Evolved([]))
      else if ReadColumns in faults then failure
      else
        var added := Pairs(MissingIds(tx.work.catalog[name].columns, ids));
        var grown := AddColumns(tx.work.catalog, name, added);
        if added == [] then Outcome(tx, Evolved([]))
        else if AlterColumns in faults || grown.None? || (!borrowed && SaveAlter in faults) then failure
        else
          var db := tx.work.(catalog := grown.value);
          Outcome(Tx(db, if borrowed then tx.saved else db), Evolved(added))
  }

  /** The renames of the table's primary key and id column, each allowed to fail. */
  function RenameParts(c: Catalog, from: string, to: string, faults: set<Stmt>): Catalog {
    var c1 := Attempt(c, RenameKey(c, KeyName(from), KeyName(to)), RenamePk in faults);
    Attempt(c1, RenameColumn(c1, to, IdColumn(from), IdColumn(to)), FindIdColumn in faults || RenameIdColumn in faults)
  }

  /** `rename_and_update_form_table`. */
  function RenameAndUpdate(tx: Tx<FormDb>, oldIdentifier: string, newIdentifier: string, json: FormJson,
                           faults: set<Stmt>): Outcome {
    if oldIdentifier == "" || newIdentifier == "" then Outcome(tx, Abort(400))
    else if oldIdentifier == newIdentifier then UpdateSchema(tx, newIdentifier, json, faults, false)
    else
      var from, to := UpdatedName(oldIdentifier), UpdatedName(newIdentifier);
      var c := tx.work.catalog;
      if FindOld in faults then Outcome(tx, Abort(500))
      else if from !in c then
        var update := UpdateSchema(tx, newIdentifier, json, faults, false);
        Outcome(update.tx, if update.reply.Evolved? then update.reply else Abort(500))
      else if FindNew in faults || to in c || RenameTab in faults || RenameTable(c, from, to).None?
      then Outcome(tx, Abort(500))
      else
        var renamed := RenameParts(RenameTable(c, from, to).value, from, to, faults);
        var update := UpdateSchema(tx.(work := tx.work.(catalog := renamed)), newIdentifier, json, faults, false);
        Outcome(update.tx, if update.reply.Evolved? then Renamed(to, update.reply.added) else Abort(500))
  }

  // ----- The operations, statement by statement -----------------------------------------------

  method CreateFormTable(s: Session<FormDb>, form: FormData, faults: set<Stmt>) returns (reply: Reply)
    modifies s
    ensures Outcome(s.View(), reply) == CreateForm(old(s.View()), form, faults)
  {
    if form.identifier.None? || form.identifier.value == "" { return Abort(400); }
    var name := CreatedName(form.identifier.value);
    var json := JsonOf(form.json);
    if json.None? || !json.value.Obj? { return Abort(400); }

    var itemIds := new ItemList();
    CollectItems(ElementsOf(json.value.fields), itemIds);
    var dropped := s.work.catalog - {name};
    var ok := s.Execute(WithCatalog(s.work, Some(dropped)), DropOld in faults);
    if ok {
      var created := CreateTable(dropped, name, NewTable(name, itemIds.items));
      ok := s.Execute(WithCatalog(s.work, created), CreateNew in faults);
    }
    if ok { ok := s.Commit(SaveCreate in faults); }
    if !ok {
      s.Rollback();
      return Abort(500);
    }
    return Created(name);
  }

  /** The column diff: clauses of the ALTER statement and the names reported to the caller. */
  method DiffColumns(columns: seq<string>, ids: seq<int>) returns (columnsToAdd: seq<string>, addedNames: seq<string>)
    ensures columnsToAdd == addedNames == Pairs(MissingIds(columns, ids))
  {
    var existing := set c | c in columns && MatchesItemPattern(c);
    columnsToAdd, addedNames := [], [];
    for i := 0 to |ids|
      invariant columnsToAdd == addedNames == Pairs(MissingIds(columns, ids[..i]))
    {
      var column, remark := ItemColumn(ids[i]), RemarkColumn(ids[i]);
      MissingPairsOfPrefix(columns, ids, i);
      if column !in existing {
        columnsToAdd := columnsToAdd + [column] + [remark];
        addedNames := addedNames + [column, remark];
      }
    }
    assert ids[..|ids|] == ids;
  }

  method UpdateFormTableSchema(s: Session<FormDb>, identifier: string, json: FormJson, faults: set<Stmt>,
                               borrowed: bool) returns (reply: Reply)
    modifies s
    ensures Outcome(s.View(), reply) == UpdateSchema(old(s.View()), identifier, json, faults, borrowed)
  {
    var parsed := JsonOf(json);
    if parsed.None? || !parsed.value.Obj? { return Abort(400); }
    var name := UpdatedName(identifier);

    var ok := FindTable !in faults && name in s.work.catalog;
    if ok {
      var required := new ItemList();
      CollectItems(ElementsOf(parsed.value.fields), required);
      var ids := required.items;
      if ids == [] { return Evolved([]); }
      ok := ReadColumns !in faults;
      if ok {
        var columns := s.work.catalog[name].columns;
        var columnsToAdd, addedNames := DiffColumns(columns, ids);
        if columnsToAdd == [] { return Evolved(addedNames); }
        ok := s.Execute(WithCatalog(s.work, AddColumns(s.work.catalog, name, columnsToAdd)), AlterColumns in faults);
        if ok && !borrowed { ok := s.Commit(SaveAlter in faults); }
        if ok { return Evolved(addedNames); }
      }
    }
    if borrowed { return Raised; }
    s.Rollback();
    return Abort(500);
  }

  /** The table's own rename decides; the renames of its key and id column may fail unnoticed. */
  method RenamePhysicalTable(s: Session<FormDb>, from: string, to: string, faults: set<Stmt>) returns (ok: bool)
    modifies s`work
    ensures ok <==> RenameTab !in faults && RenameTable(old(s.work.catalog), from, to).Some?
    ensures s.work
            == if ok
               then old(s.work).(catalog := RenameParts(RenameTable(old(s.work.catalog), from, to).value,
                                                        from, to, faults))
               else old(s.work)
  {
    ok := s.Execute(WithCatalog(s.work, RenameTable(s.work.catalog, from, to)), RenameTab in faults);
    if !ok { return; }
    var _ := s.Execute(WithCatalog(s.work, RenameKey(s.work.catalog, KeyName(from), KeyName(to))), RenamePk in faults);
    if FindIdColumn !in faults && IdColumn(from) in s.work.catalog[to].columns {
      var _ := s.Execute(WithCatalog(s.work, RenameColumn(s.work.catalog, to, IdColumn(from), IdColumn(to))),
                         RenameIdColumn in faults);
    }
  }

  method RenameAndUpdateFormTable(s: Session<FormDb>, oldIdentifier: string, newIdentifier: string, json: FormJson,
                                  faults: set<Stmt>) returns (reply: Reply)
    modifies s
    ensures Outcome(s.View(), reply) == RenameAndUpdate(old(s.View()), oldIdentifier, newIdentifier, json, faults)
  {
    if oldIdentifier == "" || newIdentifier == "" { return Abort(400); }
    if oldIdentifier == newIdentifier {
      reply := UpdateFormTableSchema(s, newIdentifier, json, faults, false);
      return;
    }
    var from, to := UpdatedName(oldIdentifier), UpdatedName(newIdentifier);
    if FindOld in faults { return Abort(500); }
    if from !in s.work.catalog {
      reply := UpdateFormTableSchema(s, newIdentifier, json, faults, false);
      if !reply.Evolved? { reply := Abort(500); }
      return;
    }
    if FindNew in faults || to in s.work.catalog { return Abort(500); }
    var ok := RenamePhysicalTable(s, from, to, faults);
    if !ok { return Abort(500); }
    reply := UpdateFormTableSchema(s, newIdentifier, json, faults, false);
    reply := if reply.Evolved? then Renamed(to, reply.added) else Abort(500);
  }

  // ----- An update in one piece -----------------------------------------------------------------

  predicate UpdateGoesThrough(columns: seq<string>, ids: seq<int>, faults: set<Stmt>) {
    var missing := MissingIds(columns, ids);
    && FindTable !in faults
    && (ids == [] || (&& ReadColumns !in faults
                      && (missing == [] || (faults !! {AlterColumns, SaveAlter}
                                            && Distinct(columns + Pairs(missing))))))
  }

  lemma PairsEmpty(ids: seq<int>)
    ensures Pairs(ids) == [] <==> ids == []
  {}

  /** An update of an existing table on a connection of its own: the missing pairs are appended and
      committed, or there is nothing to do and nothing is committed, or all is rolled back. */
  lemma UpdateOutcome(tx: Tx<FormDb>, identifier: string, form: map<string, Json>, faults: set<Stmt>)
    requires UpdatedName(identifier) in tx.work.catalog
    ensures var name := UpdatedName(identifier);
            var columns := tx.work.catalog[name].columns;
            var missing := MissingIds(columns, RequiredIds(form));
            var grown := tx.work.(catalog := SetColumns(tx.work.catalog, name, columns + Pairs(missing)));
            && UpdateSchema(tx, identifier, Parsed(Obj(form)), faults, false)
               == (if !UpdateGoesThrough(columns, RequiredIds(form), faults) then RolledBack(tx, Abort(500))
                   else Outcome(Tx(grown, if missing == [] then tx.saved else grown), Evolved(Pairs(missing))))
            && (missing == [] ==> grown == tx.work)
  {
    var name := UpdatedName(identifier);
    var columns := tx.work.catalog[name].columns;
    PairsEmpty(MissingIds(columns, RequiredIds(form)));
    assert columns + [] == columns;
    assert tx.work.catalog[name := tx.work.catalog[name]] == tx.work.catalog;
  }
}
