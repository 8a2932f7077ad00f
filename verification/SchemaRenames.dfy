/** Renaming a form's table and then evolving it, against evolving it first. */
module SchemaRenames {
  import opened Outcomes
  import opened Database
  import opened Json
  import opened ItemIds
  import opened Columns
  import opened FormStore
  import opened FormSchema

  // ----- Renaming a column commutes with adding others ------------------------------------------

  lemma ReplaceKeepsDistinct(columns: seq<string>, from: string, to: string)
    requires to !in columns
    ensures Distinct(Replace(columns, from, to)) <==> Distinct(columns)
  {
    var after := Replace(columns, from, to);
    forall i, j | 0 <= i < j < |columns| ensures after[i] == after[j] <==> columns[i] == columns[j] {}
    if Distinct(after) {
      forall i, j | 0 <= i < j < |columns| ensures columns[i] != columns[j] { assert after[i] != after[j]; }
    }
  }

  lemma ReplaceOfConcat(columns: seq<string>, added: seq<string>, from: string, to: string)
    requires from !in added
    ensures Replace(columns + added, from, to) == Replace(columns, from, to) + added
  {}

  lemma ReplaceMembers(columns: seq<string>, from: string, to: string, column: string)
    requires column != from && column != to
    ensures column in Replace(columns, from, to) <==> column in columns
  {
    var after := Replace(columns, from, to);
    if column in columns {
      var i :| 0 <= i < |columns| && columns[i] == column;
      assert after[i] == column;
    }
  }

  lemma IdColumnIsNoItem(table: string, id: int)
    requires PREFIX <= table
    ensures IdColumn(table) != ItemColumn(id)
  {
    assert IdColumn(table)[0] == 'u' && ItemColumn(id)[0] == 'I';
  }

  lemma {:induction false} ReplaceKeepsMissing(columns: seq<string>, source: string, target: string, ids: seq<int>)
    requires PREFIX <= source && PREFIX <= target
    ensures MissingIds(Replace(columns, IdColumn(source), IdColumn(target)), ids) == MissingIds(columns, ids)
    decreases |ids|
  {
    if ids != [] {
      var last := |ids| - 1;
      ReplaceKeepsMissing(columns, source, target, ids[..last]);
      IdColumnIsNoItem(source, ids[last]);
      IdColumnIsNoItem(target, ids[last]);
      ReplaceMembers(columns, IdColumn(source), IdColumn(target), ItemColumn(ids[last]));
    }
  }

  lemma IdColumnNotAdded(table: string, ids: seq<int>)
    requires PREFIX <= table
    ensures IdColumn(table) !in Pairs(ids)
  {
    assert IdColumn(table)[0] == 'u';
    if IdColumn(table) in Pairs(ids) { PairNames(ids, IdColumn(table)); }
  }

  // ----- The renamed catalog ------------------------------------------------------------------

  lemma SetColumnsKeepsObjects(c: Catalog, name: string, columns: seq<string>, item: string)
    requires name in c
    ensures ObjectExists(SetColumns(c, name, columns), item) <==> ObjectExists(c, item)
  {
    var d := SetColumns(c, name, columns);
    assert forall t :: t in c ==> d[t].key == c[t].key;
    if t :| t in c && c[t].key == item { assert d[t].key == item; }
  }

  lemma KeyRenameCommutes(c: Catalog, name: string, columns: seq<string>, from: string, to: string)
    requires name in c
    ensures var k := RenameKey(c, from, to);
            var d := RenameKey(SetColumns(c, name, columns), from, to);
            && (k.None? <==> d.None?)
            && (k.Some? ==> k.value.Keys == c.Keys && k.value[name].columns == c[name].columns
                            && d.value == SetColumns(k.value, name, columns))
  {
    var d := SetColumns(c, name, columns);
    SetColumnsKeepsObjects(c, name, columns, to);
    assert forall t :: t in c ==> d[t].key == c[t].key;
    var k, e := RenameKey(c, from, to), RenameKey(d, from, to);
    if k.None? {
      if !ObjectExists(c, to) { assert forall t :: t in d ==> d[t].key != from; }
    } else {
      var t :| t in c && c[t].key == from;
      assert d[t].key == from;
      assert e.value == SetColumns(k.value, name, columns);
    }
  }

  lemma ColumnRenameCommutes(c: Catalog, source: string, target: string, ids: seq<int>)
    requires target in c && PREFIX <= source && PREFIX <= target
    ensures var grown := SetColumns(c, target, c[target].columns + Pairs(ids));
            var k := RenameColumn(c, target, IdColumn(source), IdColumn(target));
            var d := RenameColumn(grown, target, IdColumn(source), IdColumn(target));
            && (k.None? <==> d.None?)
            && (k.Some? ==> target in k.value
                            && d.value == SetColumns(k.value, target, k.value[target].columns + Pairs(ids))
                            && (Distinct(k.value[target].columns + Pairs(ids))
                                <==> Distinct(c[target].columns + Pairs(ids))))
  {
    var columns, added := c[target].columns, Pairs(ids);
    var from, to := IdColumn(source), IdColumn(target);
    IdColumnNotAdded(source, ids);
    IdColumnNotAdded(target, ids);
    ReplaceOfConcat(columns, added, from, to);
    assert from in columns + added <==> from in columns;
    assert to in columns + added <==> to in columns;
    if to !in columns { ReplaceKeepsDistinct(columns + added, from, to); }
  }

  /** Adding pairs of items before the key and id column are renamed, or after, is the same. */
  lemma PartsCommute(c: Catalog, source: string, target: string, ids: seq<int>, faults: set<Stmt>)
    requires target in c && PREFIX <= source && PREFIX <= target
    ensures var renamed := RenameParts(c, source, target, faults);
            && target in renamed
            && RenameParts(SetColumns(c, target, c[target].columns + Pairs(ids)), source, target, faults)
               == SetColumns(renamed, target, renamed[target].columns + Pairs(ids))
            && (Distinct(renamed[target].columns + Pairs(ids)) <==> Distinct(c[target].columns + Pairs(ids)))
  {
    KeyRenameCommutes(c, target, c[target].columns + Pairs(ids), KeyName(source), KeyName(target));
    var c1 := Attempt(c, RenameKey(c, KeyName(source), KeyName(target)), RenamePk in faults);
    ColumnRenameCommutes(c1, source, target, ids);
  }

  lemma PartsKeepMissing(c: Catalog, source: string, target: string, ids: seq<int>, faults: set<Stmt>)
    requires target in c && PREFIX <= source && PREFIX <= target
    ensures var renamed := RenameParts(c, source, target, faults);
            target in renamed && MissingIds(renamed[target].columns, ids) == MissingIds(c[target].columns, ids)
  {
    ReplaceKeepsMissing(c[target].columns, source, target, ids);
  }

  /** The rename requests reach this point: different names, the old table there, the new name free. */
  predicate Renamable(db: FormDb, oldIdentifier: string, newIdentifier: string, faults: set<Stmt>) {
    && oldIdentifier != "" && newIdentifier != "" && oldIdentifier != newIdentifier
    && faults !! {FindOld, FindNew, RenameTab}
    && RenameTable(db.catalog, UpdatedName(oldIdentifier), UpdatedName(newIdentifier)).Some?
  }

  lemma TableRenameCommutes(c: Catalog, source: string, target: string, columns: seq<string>)
    requires RenameTable(c, source, target).Some?
    ensures target in RenameTable(c, source, target).value
    ensures RenameTable(c, source, target).value[target] == c[source]
    ensures RenameTable(SetColumns(c, source, columns), source, target)
            == Some(SetColumns(RenameTable(c, source, target).value, target, columns))
  {
    SetColumnsKeepsObjects(c, source, columns, target);
    var moved := RenameTable(c, source, target).value;
    assert (SetColumns(c, source, columns) - {source})[target := c[source].(columns := columns)]
           == SetColumns(moved, target, columns);
  }

  /** Renaming and then updating gives, on the connection's working state, the database that
      updating the old table first and then renaming it gives; the two answer alike. The renames of
      the key and of the id column may fail. */
  lemma RenameCommutes(tx: Tx<FormDb>, oldIdentifier: string, newIdentifier: string, form: map<string, Json>,
                       faults: set<Stmt>)
    requires Renamable(tx.work, oldIdentifier, newIdentifier, faults)
    ensures var source, target := UpdatedName(oldIdentifier), UpdatedName(newIdentifier);
            var renamedFirst := RenameAndUpdate(tx, oldIdentifier, newIdentifier, Parsed(Obj(form)), faults);
            var updatedFirst := UpdateSchema(tx, oldIdentifier, Parsed(Obj(form)), faults, false);
            && (renamedFirst.reply.Renamed? <==> updatedFirst.reply.Evolved?)
            && (renamedFirst.reply.Renamed? ==>
                  var late := RenameTable(updatedFirst.tx.work.catalog, source, target);
                  && renamedFirst.reply == Renamed(target, updatedFirst.reply.added)
                  && late.Some?
                  && renamedFirst.tx.work
                     == updatedFirst.tx.work.(catalog := RenameParts(late.value, source, target, faults)))
  {
    var source, target := UpdatedName(oldIdentifier), UpdatedName(newIdentifier);
    var c, ids := tx.work.catalog, RequiredIds(form);
    var moved := RenameTable(c, source, target).value;
    var renamed := RenameParts(moved, source, target, faults);
    var missing := MissingIds(c[source].columns, ids);
    TableRenameCommutes(c, source, target, c[source].columns + Pairs(missing));
    PartsKeepMissing(moved, source, target, ids, faults);
    PartsCommute(moved, source, target, missing, faults);
    UpdateOutcome(tx, oldIdentifier, form, faults);
    UpdateOutcome(tx.(work := tx.work.(catalog := renamed)), newIdentifier, form, faults);
  }

  /** No other table is touched, unless it is the one holding the old table's key name: then only
      that name changes. */
  lemma RenameTouchesOneTable(tx: Tx<FormDb>, oldIdentifier: string, newIdentifier: string, form: map<string, Json>,
                              faults: set<Stmt>, name: string)
    requires Renamable(tx.work, oldIdentifier, newIdentifier, faults)
    requires name in tx.work.catalog && name != UpdatedName(oldIdentifier)
    requires RenameAndUpdate(tx, oldIdentifier, newIdentifier, Parsed(Obj(form)), faults).reply.Renamed?
    ensures var after := RenameAndUpdate(tx, oldIdentifier, newIdentifier, Parsed(Obj(form)), faults).tx.work.catalog;
            && name in after
            && UpdatedName(oldIdentifier) !in after && UpdatedName(newIdentifier) in after
            && after[name].columns == tx.work.catalog[name].columns
            && (tx.work.catalog[name].key != KeyName(UpdatedName(oldIdentifier)) ==>
                  after[name] == tx.work.catalog[name])
  {
    assert UpdatedName(oldIdentifier)[5..] == oldIdentifier;
    assert UpdatedName(newIdentifier)[5..] == newIdentifier;
    var source, target := UpdatedName(oldIdentifier), UpdatedName(newIdentifier);
    var renamed := RenameParts(RenameTable(tx.work.catalog, source, target).value, source, target, faults);
    UpdateOutcome(tx.(work := tx.work.(catalog := renamed)), newIdentifier, form, faults);
  }

  /** The request commits its rename exactly when the form also brings a column the old table does
      not have; otherwise it answers with success and leaves the rename uncommitted. */
  lemma RenamePersistsIff(db: FormDb, oldIdentifier: string, newIdentifier: string, form: map<string, Json>,
                          faults: set<Stmt>)
    requires Renamable(db, oldIdentifier, newIdentifier, faults)
    requires RenameAndUpdate(Tx(db, db), oldIdentifier, newIdentifier, Parsed(Obj(form)), faults).reply.Renamed?
    ensures var r := RenameAndUpdate(Tx(db, db), oldIdentifier, newIdentifier, Parsed(Obj(form)), faults);
            var missing := MissingIds(db.catalog[UpdatedName(oldIdentifier)].columns, RequiredIds(form));
            && UpdatedName(newIdentifier) in r.tx.work.catalog
            && (r.tx.saved == r.tx.work <==> missing != [])
            && (r.tx.saved == db <==> missing == [])
  {
    var source, target := UpdatedName(oldIdentifier), UpdatedName(newIdentifier);
    var moved := RenameTable(db.catalog, source, target).value;
    var ids := RequiredIds(form);
    PartsKeepMissing(moved, source, target, ids, faults);
    RenameTouchesNewName(db, source, target, faults);
    var renamed := RenameParts(moved, source, target, faults);
    UpdateOutcome(Tx(db.(catalog := renamed), db), newIdentifier, form, faults);
  }

  lemma RenameTouchesNewName(db: FormDb, source: string, target: string, faults: set<Stmt>)
    requires RenameTable(db.catalog, source, target).Some?
    ensures target !in db.catalog
    ensures target in RenameParts(RenameTable(db.catalog, source, target).value, source, target, faults)
  {}

  /** A rename of "a" to "b" with a form that has no items answers with success; nothing of it is
      committed. */
  lemma RenameLost()
    ensures var db := FormDb(map["user_a" := NewTable("user_a", [])], [], 1);
            var r := RenameAndUpdate(Tx(db, db), "a", "b", Parsed(Obj(map[])), {});
            r.reply == Renamed("user_b", []) && r.tx.saved == db && "user_b" in r.tx.work.catalog
  {
    var db := FormDb(map["user_a" := NewTable("user_a", [])], [], 1);
    assert UpdatedName("a") == "user_a" && UpdatedName("b") == "user_b";
    assert "user_a"[5] != "user_b"[5];
    assert NewTable("user_a", []).key[0] == 'P';
    assert !ObjectExists(db.catalog, "user_b");
    RenamePersistsIff(db, "a", "b", map[], {});
  }
}
