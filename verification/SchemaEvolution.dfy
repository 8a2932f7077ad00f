/**
 What the schema operations add up to: evolving a table form by form gives the table a rebuild from
 all the forms would give, exactly when no negative item id comes back.
 */
module SchemaEvolution {
  import opened Outcomes
  import opened Database
  import opened Text
  import opened Json
  import opened ItemIds
  import opened Columns
  import opened FormStore
  import opened FormSchema

  type Form = map<string, Json>

  function JsonForm(form: Form): FormJson { Parsed(Obj(form)) }

  /** The `Elements` values of some forms. */
  function Trees(forms: seq<Form>): seq<Json> {
    if forms == [] then [] else [ElementsOf(forms[0])] + Trees(forms[1..])
  }

  /** One form holding the `Elements` values of several. */
  function Combined(forms: seq<Form>): Form { map["Elements" := Arr(Trees(forms))] }

  datatype Run = Run(db: FormDb, ok: bool)

  /** Update requests one after another; `ok` when none of them answers with an error. */
  function UpdateRun(db: FormDb, identifier: string, forms: seq<Form>): Run
    decreases |forms|
  {
    if forms == [] then Run(db, true)
    else
      var first := UpdateSchema(Tx(db, db), identifier, JsonForm(forms[0]), {}, false);
      var rest := UpdateRun(first.tx.saved, identifier, forms[1..]);
      Run(rest.db, first.reply.Evolved? && rest.ok)
  }

  /** No negative item id is required by two of the forms. */
  predicate NegativesOnce(forms: seq<Form>) {
    forall i, j :: 0 <= i < j < |forms| ==> !NegativeOverlap(RequiredIds(forms[i]), RequiredIds(forms[j]))
  }

  function WithColumns(db: FormDb, name: string, columns: seq<string>): FormDb
    requires name in db.catalog
  {
    db.(catalog := SetColumns(db.catalog, name, columns))
  }

  // ----- Which table the operations talk about -------------------------------------------------

  /** Create and update address the same table exactly for trimmed identifiers that do not carry
      the prefix themselves. */
  lemma IdentifiersAgree(identifier: string)
    ensures CreatedName(identifier) == UpdatedName(identifier)
            <==> Strip(identifier) == identifier && !(PREFIX <= identifier)
  {
    StripShrinks(identifier);
    if CreatedName(identifier) == UpdatedName(identifier) {
      assert UpdatedName(identifier)[5..] == identifier;
      assert !(PREFIX <= Strip(identifier));
      assert CreatedName(identifier)[5..] == Strip(identifier);
    }
  }

  /** A prefixed identifier and one with white space in front: created under one name, looked for
      under another. */
  lemma IdentifiersDisagree()
    ensures CreatedName("user_x") == "user_x" && UpdatedName("user_x") == "user_user_x"
    ensures CreatedName("\U{3000}x") == "user_x" && UpdatedName("\U{3000}x") == "user_\U{3000}x"
    ensures CreatedName("\U{3000}x") != UpdatedName("\U{3000}x")
  {
    StripKeeps("user_x");
    assert Strip("\U{3000}x") == Strip("x") == "x";
    assert UpdatedName("\U{3000}x")[5] == '\U{3000}';
  }

  /** A form created as "user_x" in an empty database is not found by an update of "user_x". */
  lemma PrefixedFormCannotEvolve(form: Form)
    ensures var data := FormData(Some("user_x"), None, JsonForm(form));
            var created := CreateForm(Tx(FormDb(map[], [], 1), FormDb(map[], [], 1)), data, {});
            && created.reply == Created("user_x")
            && UpdateSchema(created.tx, "user_x", JsonForm(form), {}, false) == Outcome(created.tx, Abort(500))
  {
    var db := FormDb(map[], [], 1);
    IdentifiersDisagree();
    CreateSucceedsIff(db, FormData(Some("user_x"), None, JsonForm(form)), form);
    assert |UpdatedName("user_x")| > |"user_x"|;
  }

  // ----- Creating -----------------------------------------------------------------------------

  /** No object but the table itself has its name or the name of its constraint. */
  predicate Placeable(c: Catalog, table: string) {
    KeyName(table) !in c && forall t :: t in c && t != table ==> c[t].key != table && c[t].key != KeyName(table)
  }

  /** With no statement failing, creating a form's table succeeds exactly for an identifier that is
      not empty and whose table can be placed. */
  lemma CreateSucceedsIff(db: FormDb, data: FormData, form: Form)
    requires data.identifier.Some? && JsonOf(data.json) == Some(Obj(form))
    ensures CreateForm(Tx(db, db), data, {}).reply.Created? <==>
              data.identifier.value != "" && Placeable(db.catalog, CreatedName(data.identifier.value))
  {
    var name := CreatedName(data.identifier.value);
    RequiredIdsExact(form);
    LayoutInvariant(IdColumn(name), RequiredIds(form));
    assert |KeyName(name)| > |name|;
    var others := db.catalog - {name};
    if Placeable(db.catalog, name) {
      assert !ObjectExists(others, name) && !ObjectExists(others, KeyName(name));
    } else if KeyName(name) in db.catalog {
      assert ObjectExists(others, KeyName(name));
    } else {
      var t :| t in db.catalog && t != name && (db.catalog[t].key == name || db.catalog[t].key == KeyName(name));
      assert t in others && others[t] == db.catalog[t];
    }
  }

  /** A creation is answered with 400 exactly for a missing or empty identifier or a form that is no object;
      otherwise with the table's name or with 500. Unless it succeeds nothing changes. */
  lemma CreateAnswers(db: FormDb, data: FormData, faults: set<Stmt>)
    ensures var r := CreateForm(Tx(db, db), data, faults);
            && (r.reply == Abort(400) <==>
                data.identifier.None? || data.identifier.value == "" || JsonOf(data.json).None?
                || !JsonOf(data.json).value.Obj?)
            && (r.reply.Created? || r == Outcome(Tx(db, db), Abort(400)) || r == Outcome(Tx(db, db), Abort(500)))
  {}

  /** The table a successful creation makes, in words: its name, its key, its columns in order. */
  lemma CreatedTable(db: FormDb, data: FormData, form: Form)
    requires data.identifier.Some? && JsonOf(data.json) == Some(Obj(form))
    requires CreateForm(Tx(db, db), data, {}).reply.Created?
    ensures var trimmed := Strip(data.identifier.value);
            var name := if "user_" <= trimmed then trimmed else "user_" + trimmed;
            var r := CreateForm(Tx(db, db), data, {});
            && r.reply == Created(name) && r.tx.work == r.tx.saved && name in r.tx.saved.catalog
            && r.tx.saved.catalog[name].key == "PK_" + name
            && var columns, ids := r.tx.saved.catalog[name].columns, RequiredIds(form);
            && |columns| == 7 + 2 * |ids|
            && columns[..7]
               == [name + "Id", "UserId", "PointInfoId", "TableName", "ReviewerId", "ReviewerComment", "CheckDate"]
            && forall k :: 0 <= k < |ids| ==>
                 && columns[7 + 2 * k] == "Item" + IntText(ids[k])
                 && columns[8 + 2 * k] == "Item" + IntText(ids[k]) + "_Remark"
  {
    LayoutInWords(IdColumn(CreatedName(data.identifier.value)), RequiredIds(form));
  }

  // ----- One update ---------------------------------------------------------------------------

  lemma {:induction false} ExtendRequired(acc: seq<int>, ids: seq<int>)
    ensures Extend(acc, Extend([], ids)) == Extend(acc, ids)
    decreases |ids|
  {
    if ids != [] {
      var init, x := ids[..|ids| - 1], ids[|ids| - 1];
      assert ids == init + [x];
      var e := Extend([], init);
      ExtendRequired(acc, init);
      ExtendInTurn([], init, [x]);
      ExtendByOne(e, x);
      ExtendInTurn(acc, init, [x]);
      ExtendByOne(Extend(acc, init), x);
      AccumulatorLaw([], init);
      AccumulatorLaw(acc, init);
      if x !in e { ExtendInTurn(acc, e, [x]); }
    }
  }

  /** An update of a form table adds exactly the new pairs and reports them, or changes nothing and
      fails because a negative id comes back. */
  lemma UpdateOfLayout(db: FormDb, identifier: string, idColumn: string, have: seq<int>, form: Form)
    requires UpdatedName(identifier) in db.catalog && PREFIX <= idColumn && Distinct(have)
    requires db.catalog[UpdatedName(identifier)].columns == Layout(idColumn, have)
    ensures UpdateSchema(Tx(db, db), identifier, JsonForm(form), {}, false)
            == if NegativeOverlap(have, RequiredIds(form)) then Outcome(Tx(db, db), Abort(500))
               else Done(WithColumns(db, UpdatedName(identifier), Layout(idColumn, Extend(have, RequiredIds(form)))),
                         Evolved(Pairs(FirstSeen(have, RequiredIds(form)))))
  {
    var need := RequiredIds(form);
    var columns := Layout(idColumn, have);
    var missing := MissingIds(columns, need);
    UpdateOutcome(Tx(db, db), identifier, form, {});
    RequiredIdsExact(form);
    EvolveLayout(idColumn, have, need);
    if NegativeOverlap(have, need) {
      MissingFromLayout(idColumn, have, need);
      assert missing != [] && need != [];
    } else {
      MissingIsFirstSeen(idColumn, have, need);
      assert columns + Pairs(missing) == Layout(idColumn, Extend(have, need));
    }
  }

  /** A missing table is answered with 500: the 404 the code asks for is caught on the way out. */
  lemma MissingTableAnswers500(tx: Tx<FormDb>, identifier: string, form: Form, faults: set<Stmt>)
    requires UpdatedName(identifier) !in tx.work.catalog
    ensures UpdateSchema(tx, identifier, JsonForm(form), faults, false) == RolledBack(tx, Abort(500))
  {}

  /** No update on its own connection answers with 404. */
  lemma NeverAnswers404(tx: Tx<FormDb>, identifier: string, json: FormJson, faults: set<Stmt>)
    ensures UpdateSchema(tx, identifier, json, faults, false).reply != Abort(404)
  {}

  // ----- A run of updates ---------------------------------------------------------------------

  /** `have` and the forms' ids, taken in turn, never bring a negative id back. */
  predicate NegativesFresh(have: seq<int>, forms: seq<Form>)
    decreases |forms|
  {
    forms == [] || (&& !NegativeOverlap(have, RequiredIds(forms[0]))
                    && NegativesFresh(Extend(have, RequiredIds(forms[0])), forms[1..]))
  }

  lemma {:induction false} RunOfLayout(db: FormDb, identifier: string, idColumn: string, have: seq<int>,
                                       forms: seq<Form>)
    requires UpdatedName(identifier) in db.catalog && PREFIX <= idColumn && Distinct(have)
    requires db.catalog[UpdatedName(identifier)].columns == Layout(idColumn, have)
    ensures var run := UpdateRun(db, identifier, forms);
            && (NegativesFresh(have, forms) ==>
                  run == Run(WithColumns(db, UpdatedName(identifier),
                                         Layout(idColumn, Extend(have, IdsAll(Trees(forms))))), true))
            && (!NegativesFresh(have, forms) ==> !run.ok)
    decreases |forms|
  {
    var name := UpdatedName(identifier);
    if forms == [] {
      assert db.catalog[name := db.catalog[name]] == db.catalog;
    } else {
      var need := RequiredIds(forms[0]);
      FirstUpdate(db, identifier, idColumn, have, forms);
      if !NegativeOverlap(have, need) {
        AccumulatorLaw(have, need);
        var db1 := WithColumns(db, name, Layout(idColumn, Extend(have, need)));
        RunOfLayout(db1, identifier, idColumn, Extend(have, need), forms[1..]);
        IdsInTurn(have, forms);
      }
    }
  }

  lemma FirstUpdate(db: FormDb, identifier: string, idColumn: string, have: seq<int>, forms: seq<Form>)
    requires UpdatedName(identifier) in db.catalog && PREFIX <= idColumn && Distinct(have) && forms != []
    requires db.catalog[UpdatedName(identifier)].columns == Layout(idColumn, have)
    ensures var need := RequiredIds(forms[0]);
            if NegativeOverlap(have, need) then !UpdateRun(db, identifier, forms).ok
            else UpdateRun(db, identifier, forms)
                 == UpdateRun(WithColumns(db, UpdatedName(identifier), Layout(idColumn, Extend(have, need))),
                              identifier, forms[1..])
  {
    UpdateOfLayout(db, identifier, idColumn, have, forms[0]);
  }

  /** Extending by the first form's ids and then by the others' is extending by all. */
  lemma IdsInTurn(have: seq<int>, forms: seq<Form>)
    requires forms != []
    ensures Extend(Extend(have, RequiredIds(forms[0])), IdsAll(Trees(forms[1..]))) == Extend(have, IdsAll(Trees(forms)))
  {
    ExtendRequired(have, Ids(ElementsOf(forms[0])));
    assert Trees(forms)[1..] == Trees(forms[1..]);
    ExtendInTurn(have, Ids(ElementsOf(forms[0])), IdsAll(Trees(forms[1..])));
  }

  lemma {:induction false} FreshIsOnce(have: seq<int>, forms: seq<Form>)
    ensures NegativesFresh(have, forms) <==>
            NegativesOnce(forms) && forall j :: 0 <= j < |forms| ==> !NegativeOverlap(have, RequiredIds(forms[j]))
    decreases |forms|
  {
    if forms != [] {
      var need, rest := RequiredIds(forms[0]), forms[1..];
      FreshIsOnce(Extend(have, need), rest);
      AccumulatorLaw(have, need);
      assert forall j :: 0 <= j < |rest| ==> rest[j] == forms[j + 1];
      forall j | 0 <= j < |rest|
        ensures NegativeOverlap(Extend(have, need), RequiredIds(rest[j]))
                <==> NegativeOverlap(have, RequiredIds(rest[j])) || NegativeOverlap(need, RequiredIds(rest[j]))
      {}
      assert NegativesOnce(forms) <==>
             NegativesOnce(rest) && forall j :: 0 <= j < |rest| ==> !NegativeOverlap(need, RequiredIds(rest[j])) by {
        OnceFromFirst(forms);
      }
      if forall j :: 0 <= j < |rest| ==> !NegativeOverlap(have, RequiredIds(rest[j])) {
        if !NegativeOverlap(have, need) {
          forall j | 0 <= j < |forms| ensures !NegativeOverlap(have, RequiredIds(forms[j])) {
            if j > 0 { assert forms[j] == rest[j - 1]; }
          }
        }
      }
    }
  }

  lemma OnceFromFirst(forms: seq<Form>)
    requires forms != []
    ensures NegativesOnce(forms) <==>
            && NegativesOnce(forms[1..])
            && forall j :: 0 <= j < |forms[1..]| ==> !NegativeOverlap(RequiredIds(forms[0]), RequiredIds(forms[1..][j]))
  {
    var rest := forms[1..];
    if NegativesOnce(forms) {
      forall i, j | 0 <= i < j < |rest| ensures !NegativeOverlap(RequiredIds(rest[i]), RequiredIds(rest[j])) {
        assert !NegativeOverlap(RequiredIds(forms[i + 1]), RequiredIds(forms[j + 1]));
      }
    } else {
      var i, j :| 0 <= i < j < |forms| && NegativeOverlap(RequiredIds(forms[i]), RequiredIds(forms[j]));
      assert forms[j] == rest[j - 1];
      if i > 0 { assert forms[i] == rest[i - 1]; }
    }
  }

  // ----- Incremental evolution is a rebuild ----------------------------------------------------

  /** Creating a table from the first form and updating it with the others: every request succeeds
      exactly when no negative id is required twice, and then the database is, name for name and in
      the same order, the one a rebuild from all the `Elements` values gives. */
  lemma IncrementalIsRebuild(db: FormDb, data: FormData, first: Form, rest: seq<Form>)
    requires data.identifier.Some? && data.json == JsonForm(first)
    requires Strip(data.identifier.value) == data.identifier.value && !(PREFIX <= data.identifier.value)
    requires data.identifier.value != "" && Placeable(db.catalog, CreatedName(data.identifier.value))
    ensures var created := CreateForm(Tx(db, db), data, {}).tx.saved;
            var run := UpdateRun(created, data.identifier.value, rest);
            var rebuilt := CreateForm(Tx(db, db), data.(json := JsonForm(Combined([first] + rest))), {});
            && CreateForm(Tx(db, db), data, {}).reply.Created?
            && (run.ok <==> NegativesOnce([first] + rest))
            && (run.ok ==> rebuilt.reply.Created? && run.db == rebuilt.tx.saved)
  {
    var identifier := data.identifier.value;
    var name := CreatedName(identifier);
    var have := RequiredIds(first);
    var created := CreateForm(Tx(db, db), data, {}).tx.saved;
    IdentifiersAgree(identifier);
    CreateSucceedsIff(db, data, first);
    RequiredIdsExact(first);
    RunOfLayout(created, identifier, IdColumn(name), have, rest);
    FreshIsOnce(have, rest);
    OnceFromFirst([first] + rest);
    assert ([first] + rest)[1..] == rest;
    RebuildOf(db, data, first, rest);
  }

  /** The rebuild is the first table with the columns of all the forms. */
  lemma RebuildOf(db: FormDb, data: FormData, first: Form, rest: seq<Form>)
    requires data.identifier.Some? && data.json == JsonForm(first)
    requires CreateForm(Tx(db, db), data, {}).reply.Created?
    ensures var name := CreatedName(data.identifier.value);
            var created := CreateForm(Tx(db, db), data, {}).tx.saved;
            var ids := Extend(RequiredIds(first), IdsAll(Trees(rest)));
            && name in created.catalog
            && CreateForm(Tx(db, db), data.(json := JsonForm(Combined([first] + rest))), {})
               == Done(WithColumns(created, name, Layout(IdColumn(name), ids)), Created(name))
  {
    var name := CreatedName(data.identifier.value);
    var ids := Extend(RequiredIds(first), IdsAll(Trees(rest)));
    CombinedRequires(first, rest);
    RequiredIdsExact(Combined([first] + rest));
    SameTableWithIds(db.catalog - {name}, name, RequiredIds(first), ids);
  }

  lemma SameTableWithIds(c: Catalog, name: string, have: seq<int>, ids: seq<int>)
    requires PREFIX <= name && Distinct(ids) && CreateTable(c, name, NewTable(name, have)).Some?
    ensures CreateTable(c, name, NewTable(name, ids))
            == Some(SetColumns(CreateTable(c, name, NewTable(name, have)).value, name, Layout(IdColumn(name), ids)))
  {
    LayoutInvariant(IdColumn(name), ids);
    var t := NewTable(name, ids);
    assert c[name := NewTable(name, have)][name := t] == c[name := t];
  }

  lemma CombinedRequires(first: Form, rest: seq<Form>)
    ensures RequiredIds(Combined([first] + rest)) == Extend(RequiredIds(first), IdsAll(Trees(rest)))
  {
    var forms := [first] + rest;
    assert forms[1..] == rest;
    assert Trees(forms) == [ElementsOf(first)] + Trees(rest);
    assert Trees(forms)[1..] == Trees(rest);
    assert ElementsOf(Combined(forms)) == Arr(Trees(forms));
    assert Ids(Arr(Trees(forms))) == IdsAll(Trees(forms)) == Ids(ElementsOf(first)) + IdsAll(Trees(rest));
    ExtendInTurn([], Ids(ElementsOf(first)), IdsAll(Trees(rest)));
  }

  /** A form whose only item has id -3. */
  const NEGATIVE_FORM: Form :=
    map["Elements" := Obj(map["ElmentType" := Str("Item"), "ItemId" := Int(-3)])]

  lemma NegativeFormRequires()
    ensures -3 in RequiredIds(NEGATIVE_FORM)
  {
    var item: Form := map["ElmentType" := Str("Item"), "ItemId" := Int(-3)];
    assert NEGATIVE_FORM["Elements"] == Obj(item);
    assert IsItem(item) && IntOf(item["ItemId"]) == Some(-3);
    assert -3 in Ids(Obj(item));
    RequiredIdsExact(NEGATIVE_FORM);
  }

  /** A form with one negative item, sent to create and then to update: the update fails. */
  lemma NegativeIdComesBack(db: FormDb, data: FormData)
    requires data.identifier.Some? && data.json == JsonForm(NEGATIVE_FORM)
    requires Strip(data.identifier.value) == data.identifier.value && !(PREFIX <= data.identifier.value)
    requires data.identifier.value != "" && Placeable(db.catalog, CreatedName(data.identifier.value))
    ensures !UpdateRun(CreateForm(Tx(db, db), data, {}).tx.saved, data.identifier.value, [NEGATIVE_FORM]).ok
  {
    IncrementalIsRebuild(db, data, NEGATIVE_FORM, [NEGATIVE_FORM]);
    NegativeFormRequires();
    var forms := [NEGATIVE_FORM] + [NEGATIVE_FORM];
    assert NegativeOverlap(RequiredIds(forms[0]), RequiredIds(forms[1]));
  }

  /** Sending a form again reports no added column exactly when it has no negative id; otherwise it
      fails. Either way nothing changes. */
  lemma RerunAddsNothing(db: FormDb, identifier: string, idColumn: string, have: seq<int>, form: Form)
    requires UpdatedName(identifier) in db.catalog && PREFIX <= idColumn && Distinct(have)
    requires db.catalog[UpdatedName(identifier)].columns == Layout(idColumn, have)
    requires forall id :: id in RequiredIds(form) ==> id in have
    ensures UpdateSchema(Tx(db, db), identifier, JsonForm(form), {}, false)
            == Outcome(Tx(db, db), if forall id :: id in RequiredIds(form) ==> id >= 0 then Evolved([]) else Abort(500))
  {
    var need, name := RequiredIds(form), UpdatedName(identifier);
    UpdateOfLayout(db, identifier, idColumn, have, form);
    if !NegativeOverlap(have, need) {
      AccumulatorLaw(have, need);
      var added := FirstSeen(have, need);
      assert Extend(have, need) == have by {
        RequiredIdsExact(form);
        if added != [] {
          assert added[0] in Extend(have, need);
          DistinctOfConcat(have, added);
        }
      }
      assert db.catalog[name := db.catalog[name]] == db.catalog;
    }
  }

  lemma {:induction false} IdsOfTrees(forms: seq<Form>, id: int)
    ensures id in IdsAll(Trees(forms)) <==> exists f :: f in forms && id in RequiredIds(f)
  {
    if forms != [] {
      IdsOfTrees(forms[1..], id);
      RequiredIdsExact(forms[0]);
      assert Trees(forms)[1..] == Trees(forms[1..]);
      assert forms == [forms[0]] + forms[1..];
    }
  }

  /** A run of updates succeeds exactly when no negative id is required twice or is there already. */
  lemma RunSucceedsIff(db: FormDb, identifier: string, idColumn: string, have: seq<int>, forms: seq<Form>)
    requires UpdatedName(identifier) in db.catalog && PREFIX <= idColumn && Distinct(have)
    requires db.catalog[UpdatedName(identifier)].columns == Layout(idColumn, have)
    ensures UpdateRun(db, identifier, forms).ok <==>
              NegativesOnce(forms) && forall form :: form in forms ==> !NegativeOverlap(have, RequiredIds(form))
  {
    RunOfLayout(db, identifier, idColumn, have, forms);
    FreshIsOnce(have, forms);
  }

  /** Two histories of the same forms, in any order and with any repetitions, whose negative ids are
      required once and are not there at the start: both succeed and give the same set of columns,
      and no column the table started with is lost or moved. */
  lemma ColumnsOrderFree(db: FormDb, identifier: string, idColumn: string, have: seq<int>, f: seq<Form>, g: seq<Form>)
    requires UpdatedName(identifier) in db.catalog && PREFIX <= idColumn && Distinct(have)
    requires db.catalog[UpdatedName(identifier)].columns == Layout(idColumn, have)
    requires forall form :: form in f <==> form in g
    requires NegativesOnce(f) && NegativesOnce(g)
    requires forall form :: form in f ==> !NegativeOverlap(have, RequiredIds(form))
    ensures UpdateRun(db, identifier, f).ok && UpdateRun(db, identifier, g).ok
    ensures UpdatedName(identifier) in UpdateRun(db, identifier, f).db.catalog
    ensures UpdatedName(identifier) in UpdateRun(db, identifier, g).db.catalog
    ensures var a := UpdateRun(db, identifier, f).db.catalog[UpdatedName(identifier)].columns;
            var b := UpdateRun(db, identifier, g).db.catalog[UpdatedName(identifier)].columns;
            && Layout(idColumn, have) <= a
            && (forall column :: column in a <==> column in b)
  {
    RunSucceedsIff(db, identifier, idColumn, have, f);
    RunSucceedsIff(db, identifier, idColumn, have, g);
    RunOfLayout(db, identifier, idColumn, have, f);
    RunOfLayout(db, identifier, idColumn, have, g);
    var idsF, idsG := Extend(have, IdsAll(Trees(f))), Extend(have, IdsAll(Trees(g)));
    AccumulatorLaw(have, IdsAll(Trees(f)));
    AccumulatorLaw(have, IdsAll(Trees(g)));
    forall id: int ensures id in idsF <==> id in idsG {
      IdsOfTrees(f, id);
      IdsOfTrees(g, id);
    }
    forall column: string ensures column in Pairs(idsF) <==> column in Pairs(idsG) {
      PairsMembers(idsF, column);
      PairsMembers(idsG, column);
    }
    LayoutGrows(idColumn, have, FirstSeen(have, IdsAll(Trees(f))));
  }
}
