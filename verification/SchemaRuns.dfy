/** Runs of create, update and rename requests in which any statement may fail. */
module SchemaRuns {
  import opened Outcomes
  import opened Database
  import opened ItemIds
  import opened Columns
  import opened FormStore
  import opened FormSchema

  datatype Request =
    | Create(form: FormData, faults: set<Stmt>)
    | Update(identifier: string, json: FormJson, faults: set<Stmt>)
    | Rename(from: string, to: string, json: FormJson, faults: set<Stmt>)

  /** A request on a connection of its own: what it leaves uncommitted is lost when that closes. */
  function Serve(db: FormDb, r: Request): FormDb {
    match r
    case Create(form, faults) => CreateForm(Tx(db, db), form, faults).tx.saved
    case Update(identifier, json, faults) => UpdateSchema(Tx(db, db), identifier, json, faults, false).tx.saved
    case Rename(from, to, json, faults) => RenameAndUpdate(Tx(db, db), from, to, json, faults).tx.saved
  }

  function ServeAll(db: FormDb, rs: seq<Request>): FormDb
    decreases |rs|
  {
    if rs == [] then db else ServeAll(Serve(db, rs[0]), rs[1..])
  }

  /** An id column that is no item column, the fixed columns, and distinct item pairs. */
  ghost predicate IsFormTable(columns: seq<string>) {
    exists idColumn, ids :: PREFIX <= idColumn && Distinct(ids) && columns == Layout(idColumn, ids)
  }

  ghost predicate FormTables(c: Catalog) {
    forall name :: name in c && PREFIX <= name ==> IsFormTable(c[name].columns)
  }

  /** Column names are distinct and an item's column is there exactly when its remark column is. */
  lemma FormTableColumns(columns: seq<string>)
    requires IsFormTable(columns)
    ensures Distinct(columns)
    ensures forall id :: ItemColumn(id) in columns <==> RemarkColumn(id) in columns
    ensures |columns| >= 7 && columns[1..7] == FIXED_COLUMNS
  {
    var idColumn, ids :| PREFIX <= idColumn && Distinct(ids) && columns == Layout(idColumn, ids);
    LayoutInvariant(idColumn, ids);
  }

  // ----- What each step keeps -----------------------------------------------------------------

  lemma NewTableIsForm(name: string, ids: seq<int>)
    requires PREFIX <= name && Distinct(ids)
    ensures IsFormTable(NewTable(name, ids).columns)
  {
    assert PREFIX <= IdColumn(name);
  }

  lemma GrownIsForm(columns: seq<string>, ids: seq<int>)
    requires IsFormTable(columns)
    requires Distinct(columns + Pairs(ids))
    ensures IsFormTable(columns + Pairs(ids))
  {
    var idColumn, have :| PREFIX <= idColumn && Distinct(have) && columns == Layout(idColumn, have);
    LayoutGrows(idColumn, have, ids);
    LayoutInvariant(idColumn, have + ids);
  }

  lemma ReplacedIsForm(columns: seq<string>, from: string, to: string)
    requires IsFormTable(columns) && PREFIX <= from && PREFIX <= to
    ensures IsFormTable(Replace(columns, from, to))
  {
    var idColumn, have :| PREFIX <= idColumn && Distinct(have) && columns == Layout(idColumn, have);
    var after := if idColumn == from then to else idColumn;
    var replaced := Replace(columns, from, to);
    assert columns[0] == idColumn;
    forall i | 1 <= i < |columns| ensures columns[i] != from { NotIdColumn(idColumn, have, i, from); }
    assert replaced == Layout(after, have);
  }

  lemma NotIdColumn(idColumn: string, have: seq<int>, i: nat, name: string)
    requires PREFIX <= name && 1 <= i < |Layout(idColumn, have)|
    ensures Layout(idColumn, have)[i] != name
  {
    assert name[0] == 'u';
    if i >= 7 {
      assert Layout(idColumn, have)[i] == Pairs(have)[i - 7];
      PairNames(have, Pairs(have)[i - 7]);
    } else {
      assert Layout(idColumn, have)[i] == FIXED_COLUMNS[i - 1];
    }
  }

  lemma CreateKeepsFormTables(db: FormDb, form: FormData, faults: set<Stmt>)
    requires FormTables(db.catalog)
    ensures FormTables(CreateForm(Tx(db, db), form, faults).tx.saved.catalog)
  {
    var json := JsonOf(form.json);
    if CreateForm(Tx(db, db), form, faults).reply.Created? {
      RequiredIdsExact(json.value.fields);
      NewTableIsForm(CreatedName(form.identifier.value), RequiredIds(json.value.fields));
    }
  }

  lemma UpdateKeepsFormTables(tx: Tx<FormDb>, identifier: string, json: FormJson, faults: set<Stmt>, borrowed: bool)
    requires FormTables(tx.work.catalog) && FormTables(tx.saved.catalog)
    ensures FormTables(UpdateSchema(tx, identifier, json, faults, borrowed).tx.saved.catalog)
  {
    var name := UpdatedName(identifier);
    if JsonOf(json).Some? && JsonOf(json).value.Obj? && name in tx.work.catalog {
      var columns := tx.work.catalog[name].columns;
      var missing := MissingIds(columns, RequiredIds(JsonOf(json).value.fields));
      if Distinct(columns + Pairs(missing)) { GrownStaysForm(tx.work.catalog, name, missing); }
    }
  }

  lemma GrownStaysForm(c: Catalog, name: string, ids: seq<int>)
    requires FormTables(c) && name in c && PREFIX <= name && Distinct(c[name].columns + Pairs(ids))
    ensures FormTables(SetColumns(c, name, c[name].columns + Pairs(ids)))
  {
    GrownIsForm(c[name].columns, ids);
  }

  lemma RenameKeepsFormTables(c: Catalog, from: string, to: string, faults: set<Stmt>)
    requires FormTables(c) && PREFIX <= from && PREFIX <= to && RenameTable(c, from, to).Some?
    ensures FormTables(RenameParts(RenameTable(c, from, to).value, from, to, faults))
  {
    var c0 := RenameTable(c, from, to).value;
    var c1 := Attempt(c0, RenameKey(c0, KeyName(from), KeyName(to)), RenamePk in faults);
    assert c1.Keys == c0.Keys && forall t :: t in c0 ==> c1[t].columns == c0[t].columns;
    ReplacedIsForm(c1[to].columns, IdColumn(from), IdColumn(to));
  }

  lemma RenameRequestKeepsFormTables(db: FormDb, from: string, to: string, json: FormJson, faults: set<Stmt>)
    requires FormTables(db.catalog)
    ensures FormTables(RenameAndUpdate(Tx(db, db), from, to, json, faults).tx.saved.catalog)
  {
    var source, target := UpdatedName(from), UpdatedName(to);
    UpdateKeepsFormTables(Tx(db, db), to, json, faults, false);
    if RenameTable(db.catalog, source, target).Some? { RenamedKeepsFormTables(db, source, target, to, json, faults); }
  }

  lemma RenamedKeepsFormTables(db: FormDb, source: string, target: string, to: string, json: FormJson,
                               faults: set<Stmt>)
    requires FormTables(db.catalog) && RenameTable(db.catalog, source, target).Some?
    requires PREFIX <= source && PREFIX <= target
    ensures var c := RenameParts(RenameTable(db.catalog, source, target).value, source, target, faults);
            FormTables(UpdateSchema(Tx(db.(catalog := c), db), to, json, faults, false).tx.saved.catalog)
  {
    RenameKeepsFormTables(db.catalog, source, target, faults);
    var c := RenameParts(RenameTable(db.catalog, source, target).value, source, target, faults);
    UpdateKeepsFormTables(Tx(db.(catalog := c), db), to, json, faults, false);
  }

  lemma ServeKeepsFormTables(db: FormDb, r: Request)
    requires FormTables(db.catalog)
    ensures FormTables(Serve(db, r).catalog)
  {
    match r
    case Create(form, faults) => CreateKeepsFormTables(db, form, faults);
    case Update(identifier, json, faults) => UpdateKeepsFormTables(Tx(db, db), identifier, json, faults, false);
    case Rename(from, to, json, faults) => RenameRequestKeepsFormTables(db, from, to, json, faults);
  }

  /** In every state a run of requests reaches, with any statements failing, every form table has
      distinct columns, its items in pairs and its base columns in place. */
  lemma {:induction false} RunKeepsFormTables(db: FormDb, rs: seq<Request>)
    requires FormTables(db.catalog)
    ensures FormTables(ServeAll(db, rs).catalog)
    ensures forall name :: name in ServeAll(db, rs).catalog && PREFIX <= name ==>
              var columns := ServeAll(db, rs).catalog[name].columns;
              && Distinct(columns)
              && |columns| >= 7 && columns[1..7] == FIXED_COLUMNS
              && forall id :: ItemColumn(id) in columns <==> RemarkColumn(id) in columns
    decreases |rs|
  {
    if rs == [] {
      forall name | name in db.catalog && PREFIX <= name ensures IsFormTable(db.catalog[name].columns) {}
      forall name | name in db.catalog && PREFIX <= name
        ensures var columns := db.catalog[name].columns;
                && Distinct(columns)
                && |columns| >= 7 && columns[1..7] == FIXED_COLUMNS
                && forall id :: ItemColumn(id) in columns <==> RemarkColumn(id) in columns
      {
        FormTableColumns(db.catalog[name].columns);
      }
    } else {
      ServeKeepsFormTables(db, rs[0]);
      RunKeepsFormTables(Serve(db, rs[0]), rs[1..]);
    }
  }

  // ----- Columns never leave ------------------------------------------------------------------

  /** Whatever fails, an update keeps every table and only appends columns to one of them. */
  lemma UpdateOnlyAppends(tx: Tx<FormDb>, identifier: string, json: FormJson, faults: set<Stmt>, borrowed: bool)
    ensures var r := UpdateSchema(tx, identifier, json, faults, borrowed);
            r.reply.Evolved? ==>
              && r.tx.work.catalog.Keys == tx.work.catalog.Keys
              && UpdatedName(identifier) in tx.work.catalog
              && r.tx.work.catalog[UpdatedName(identifier)].columns
                 == tx.work.catalog[UpdatedName(identifier)].columns + r.reply.added
              && forall name :: name in tx.work.catalog && name != UpdatedName(identifier) ==>
                   r.tx.work.catalog[name] == tx.work.catalog[name]
  {
    var name := UpdatedName(identifier);
    if name in tx.work.catalog {
      assert tx.work.catalog[name].columns + [] == tx.work.catalog[name].columns;
    }
  }

  /** Whatever fails, creating commits the replaced table or the database as it was: a table that
      existed is never dropped and left missing, and no other table is touched. A new table has its id
      column, the fixed columns, and the two columns of exactly the ids found in the form's tree. */
  lemma CreateIsAtomic(db: FormDb, form: FormData, faults: set<Stmt>)
    ensures var r := CreateForm(Tx(db, db), form, faults);
            && r.tx.work == r.tx.saved
            && (r.reply.Created? || r.tx.saved == db)
            && (r.reply.Created? ==>
                  && JsonOf(form.json).Some? && JsonOf(form.json).value.Obj?
                  && r.tx.saved.catalog.Keys == db.catalog.Keys + {r.reply.table}
                  && (forall t :: t in db.catalog && t != r.reply.table ==> r.tx.saved.catalog[t] == db.catalog[t])
                  && var table := r.tx.saved.catalog[r.reply.table];
                     && table.key == KeyName(r.reply.table) && Distinct(table.columns)
                     && |table.columns| >= 7 && table.columns[0] == IdColumn(r.reply.table)
                     && table.columns[1..7] == FIXED_COLUMNS
                     && forall id :: (ItemColumn(id) in table.columns
                                      <==> id in Ids(ElementsOf(JsonOf(form.json).value.fields)))
                                     && (RemarkColumn(id) in table.columns
                                         <==> id in Ids(ElementsOf(JsonOf(form.json).value.fields))))
  {
    var r := CreateForm(Tx(db, db), form, faults);
    if r.reply.Created? {
      var fields := JsonOf(form.json).value.fields;
      RequiredIdsExact(fields);
      LayoutInvariant(IdColumn(r.reply.table), RequiredIds(fields));
    }
  }

  /** With a borrowed cursor an update decides nothing about the transaction: what is committed stays
      as it is, an error leaves the working state too, and otherwise the working state is the one an
      update on a connection of its own would commit. */
  lemma BorrowedCursorKeepsTransaction(tx: Tx<FormDb>, identifier: string, json: FormJson, faults: set<Stmt>)
    ensures var borrowed := UpdateSchema(tx, identifier, json, faults, true);
            var own := UpdateSchema(tx, identifier, json, faults - {SaveAlter}, false);
            && borrowed.tx.saved == tx.saved
            && (!borrowed.reply.Evolved? ==> borrowed.tx == tx)
            && (borrowed.reply.Evolved? <==> own.reply.Evolved?)
            && (own.reply.Evolved? ==> borrowed.reply == own.reply && borrowed.tx.work == own.tx.work)
            && (own.reply.Evolved? && own.reply.added != [] ==> own.tx.saved == own.tx.work)
  {}

  /** No run of create and update requests, whatever fails, ever leaves a table dropped. */
  lemma {:induction false} RunNeverDrops(db: FormDb, rs: seq<Request>)
    requires forall r :: r in rs ==> !r.Rename?
    ensures db.catalog.Keys <= ServeAll(db, rs).catalog.Keys
    decreases |rs|
  {
    if rs != [] {
      if rs[0].Create? { CreateIsAtomic(db, rs[0].form, rs[0].faults); }
      RunNeverDrops(Serve(db, rs[0]), rs[1..]);
    }
  }
}
