/** Exactly what each operation leaves in the signing table, whatever statements fail. */
module SigningWrites {
  import opened Outcomes
  import opened StaffStore
  import opened SqlUpdate
  import opened SigningTable
  import opened Staff
  import opened Repair
  import opened BulkImport
  import opened Agreement

  /** What an owner reads after signing data is written for a key. */
  lemma WriteReads(rows: seq<Signing>, key: Cell, name: Cell, department: Cell, signing: Row, owner: Cell)
    ensures FindSigning(SigningRows(rows, key, name, department, signing), owner)
            == if owner != Null && key == owner then Some(Filed(owner, name, department, DetailsOf(signing)))
               else FindSigning(rows, owner)
  {
    if key == Null {
      WrittenForNull(rows, name, department, signing, owner);
    } else if key == owner {
      WrittenIsFound(rows, owner, name, department, signing);
    } else {
      OthersKeepTheirs(rows, key, name, department, signing, owner);
    }
  }

  /** The statements on the signing table go through. */
  predicate SigningGoes(env: Env) { env.faults !! {SigningLookup, SigningWrite, SaveSigning} }

  // ----- Adding ---------------------------------------------------------------------------------

  /** The statements that insert a user with this UserID go through. */
  predicate InsertGoes(env: Env, key: Cell) {
    && env.faults !! {Lookup, Insert, Identity, SaveUser}
    && (IdentityNull in env.faults ==> FallbackLookup !in env.faults && key != Null)
  }

  /** The addition inserts its user: the UserID is not taken, a password is text, the statements go through. */
  predicate Inserts(db: StaffDb, fields: Dict, env: Env) {
    var key := Get(fields, "UserID", Null);
    FindByUserId(db.users, key).None? && Hashable(fields) && InsertGoes(env, key)
  }

  /** After an addition the owner reads the new row if signing data was given for it and written, and
      what it read before otherwise. */
  lemma AddReads(db: StaffDb, data: UserData, env: Env, owner: Cell)
    ensures FindSigning(AddUser(db, data, env).db.signing, owner)
            == if data.signing != map[] && Inserts(db, data.fields, env) && SigningGoes(env)
                  && owner != Null && Get(data.fields, "UserID", Null) == owner
               then Some(Filed(owner, Get(data.fields, "UserName", Null), Get(data.fields, "Department", Txt("")),
                               DetailsOf(data.signing)))
               else FindSigning(db.signing, owner)
  {
    WriteReads(db.signing, Get(data.fields, "UserID", Null), Get(data.fields, "UserName", Null),
               Get(data.fields, "Department", Txt("")), data.signing, owner);
  }

  // ----- Updating -------------------------------------------------------------------------------

  /** The statements of the update go through up to the signing table. */
  predicate UpdateGoes(fields: Dict, env: Env) {
    && Hashable(fields) && env.faults !! {FindUser, Reread}
    && (AnythingToSet(HashPassword(fields)) ==> env.faults !! {UpdateRow, SaveRow})
  }

  /** After an update the owner reads the rewritten row if signing data was given, the UserID given, or
      else the user's own, is the owner's, and the statements went through; what it read before
      otherwise. */
  lemma UpdateReads(db: StaffDb, id: nat, data: UserData, env: Env, owner: Cell)
    ensures var u := FindById(db.users, id);
            FindSigning(UpdateUser(db, id, data, env).db.signing, owner)
            == if data.signing != map[] && u.Some? && UpdateGoes(data.fields, env) && SigningGoes(env)
                  && owner != Null && GivenOrKept(u.value, data.fields, "UserID") == owner
               then Some(Filed(owner, GivenOrKept(u.value, data.fields, "UserName"),
                               GivenOrKept(u.value, data.fields, "Department"), DetailsOf(data.signing)))
               else FindSigning(db.signing, owner)
  {
    var u := FindById(db.users, id);
    if data.signing != map[] && u.Some? && UpdateGoes(data.fields, env) && SigningGoes(env) {
      UpdateWritesFor(db, id, data, env);
      WriteReads(db.signing, GivenOrKept(u.value, data.fields, "UserID"), GivenOrKept(u.value, data.fields, "UserName"),
                 GivenOrKept(u.value, data.fields, "Department"), data.signing, owner);
    }
  }

  lemma UpdateWritesFor(db: StaffDb, id: nat, data: UserData, env: Env)
    requires data.signing != map[] && FindById(db.users, id).Some? && UpdateGoes(data.fields, env) && SigningGoes(env)
    ensures var u := FindById(db.users, id).value;
            UpdateUser(db, id, data, env).db.signing
            == SigningRows(db.signing, GivenOrKept(u, data.fields, "UserID"), GivenOrKept(u, data.fields, "UserName"),
                           GivenOrKept(u, data.fields, "Department"), data.signing)
  {
    var u, fields := FindById(db.users, id).value, HashPassword(data.fields);
    FindOverwritten(db.users, id, fields, env.now);
    UpdatedColumn(u, data.fields, env.now, "UserID");
    UpdatedColumn(u, data.fields, env.now, "UserName");
    UpdatedColumn(u, data.fields, env.now, "Department");
  }

  // ----- Deleting -------------------------------------------------------------------------------

  lemma {:induction false} WithoutOthers(rows: seq<Signing>, key: Cell, owner: Cell)
    requires key != owner
    ensures FindSigning(WithoutSigning(rows, key), owner) == FindSigning(rows, owner)
    decreases |rows|
  {
    if rows != [] {
      WithoutOthers(rows[1..], key, owner);
      var rest := WithoutSigning(rows[1..], key);
      assert [] + rest == rest && ([rows[0]] + rest)[1..] == rest;
    }
  }

  /** After a deletion nothing is found for the deleted user's UserID, unless it is empty or the
      statement failed; every other owner reads what it read before. */
  lemma DeleteReads(db: StaffDb, id: nat, env: Env, owner: Cell)
    ensures var u := FindById(db.users, id);
            FindSigning(DeleteUser(db, id, env).0.signing, owner)
            == if u.Some? && env.faults !! {FindUser, DeleteSigning} && Truthy(owner) && Key(u.value) == owner then None
               else FindSigning(db.signing, owner)
  {
    var u := FindById(db.users, id);
    if u.Some? {
      WithoutSigningFinds(db.signing, Key(u.value));
      if Key(u.value) != owner { WithoutOthers(db.signing, Key(u.value), owner); }
    }
  }

  // ----- Importing ------------------------------------------------------------------------------

  /** The signing row a passing line gives: its department in both department columns, and its
      details, the ones the file has no column for (the job title) empty. */
  function SigningRowOf(row: CsvRow): Signing
    requires |row| >= COLUMNS
  {
    Filed(Txt(IdOf(row)), Txt(NameOf(row)), Txt(DepartmentOf(row)), DetailsOf(SigningOf(row)))
  }

  /** The line passes the checks, has this UserID, and the statements that insert its user go through. */
  predicate Brings(row: CsvRow, prefix: string, env: Env, id: string) {
    Passes(row, prefix) && IdOf(row) == id && InsertGoes(env, Txt(id))
  }

  /** The first line that brings a UserID. */
  function FirstBringing(rows: seq<CsvRow>, prefix: string, envs: nat -> Env, id: string): (first: Option<nat>)
    ensures first.Some? ==> first.value < |rows| && Brings(rows[first.value], prefix, envs(first.value), id)
    ensures forall j :: 0 <= j < (if first.Some? then first.value else |rows|) ==> !Brings(rows[j], prefix, envs(j), id)
    decreases |rows|
  {
    if rows == [] then None
    else
      var last := |rows| - 1;
      var earlier := FirstBringing(rows[..last], prefix, envs, id);
      if earlier.Some? then earlier else if Brings(rows[last], prefix, envs(last), id) then Some(last) else None
  }

  lemma RowFields(row: CsvRow, level: int)
    requires |row| >= COLUMNS
    ensures Get(FieldsOf(row, level), "UserName", Null) == Txt(NameOf(row))
    ensures Get(FieldsOf(row, level), "Department", Txt("")) == Txt(DepartmentOf(row))
  {
    var fields := FieldsOf(row, level);
    GetIsUnique(fields, "UserName", fields[0].1, Null);
    GetIsUnique(fields, "Department", fields[7].1, Txt(""));
  }

  lemma SigningGiven(row: CsvRow)
    requires |row| >= COLUMNS
    ensures SigningOf(row) != map[]
  {
    assert SigningKeys()[17] in SigningOf(row);
  }

  /** Adding the user of a line. */
  lemma LineAddReads(db: StaffDb, row: CsvRow, level: int, env: Env, owner: Cell)
    requires |row| >= COLUMNS
    ensures FindSigning(AddUser(db, DataOf(row, level), env).db.signing, owner)
            == if IdOf(row) !in KnownIds(db.users) && InsertGoes(env, Txt(IdOf(row))) && SigningGoes(env)
                  && Txt(IdOf(row)) == owner
               then Some(SigningRowOf(row)) else FindSigning(db.signing, owner)
  {
    FindKnown(db.users, IdOf(row));
    PasswordIsText(row, level);
    RowFields(row, level);
    SigningGiven(row);
    AddReads(db, DataOf(row, level), env, owner);
  }

  lemma LineAdds(before: Import, row: CsvRow, number: nat, prefix: string, env: Env)
    ensures ImportRow(before, row, number, prefix, env).db
            == if Passes(row, prefix) then AddUser(before.db, DataOf(row, CheckRow(row, prefix).level), env).db
               else before.db
  {}

  lemma LineReads(before: Import, row: CsvRow, number: nat, prefix: string, env: Env, owner: Cell)
    ensures FindSigning(ImportRow(before, row, number, prefix, env).db.signing, owner)
            == if owner.Txt? && Brings(row, prefix, env, owner.s) && owner.s !in KnownIds(before.db.users)
                  && SigningGoes(env)
               then Some(SigningRowOf(row)) else FindSigning(before.db.signing, owner)
  {
    LineAdds(before, row, number, prefix, env);
    if Passes(row, prefix) { LineAddReads(before.db, row, CheckRow(row, prefix).level, env, owner); }
  }

  /** A line makes exactly the UserID it brings known. */
  lemma LineKnows(before: Import, row: CsvRow, number: nat, prefix: string, env: Env, id: string)
    ensures id in KnownIds(ImportRow(before, row, number, prefix, env).db.users)
            <==> id in KnownIds(before.db.users) || Brings(row, prefix, env, id)
  {
    LineAdds(before, row, number, prefix, env);
    if Passes(row, prefix) { LineAddKnows(before.db, row, CheckRow(row, prefix).level, env, id); }
  }

  lemma LineAddKnows(db: StaffDb, row: CsvRow, level: int, env: Env, id: string)
    requires |row| >= COLUMNS
    ensures id in KnownIds(AddUser(db, DataOf(row, level), env).db.users)
            <==> id in KnownIds(db.users) || (IdOf(row) == id && InsertGoes(env, Txt(id)))
  {
    FindKnown(db.users, IdOf(row));
    PasswordIsText(row, level);
    var data := DataOf(row, level);
    if Inserts(db, data.fields, env) {
      NewUserColumns(db, data, env.now);
      KnownIdsOfAppend(db.users, NewUser(db, data, env.now), IdOf(row));
    }
  }

  lemma {:induction false} ImportKnows(db: StaffDb, rows: seq<CsvRow>, prefix: string, envs: nat -> Env, id: string)
    ensures id in KnownIds(ImportRows(db, rows, prefix, envs).db.users)
            <==> id in KnownIds(db.users) || FirstBringing(rows, prefix, envs, id).Some?
    decreases |rows|
  {
    if rows != [] {
      var last := |rows| - 1;
      ImportKnows(db, rows[..last], prefix, envs, id);
      LineKnows(ImportRows(db, rows[..last], prefix, envs), rows[last], last + 2, prefix, envs(last), id);
    }
  }

  /** After an import, whatever fails, a UserID that was not known reads the signing row of the first
      line that brought it, if that line's signing data was written; every other owner reads what it
      read before. */
  lemma {:induction false} ImportReads(db: StaffDb, rows: seq<CsvRow>, prefix: string, envs: nat -> Env, id: string)
    ensures var first := FirstBringing(rows, prefix, envs, id);
            FindSigning(ImportRows(db, rows, prefix, envs).db.signing, Txt(id))
            == if id !in KnownIds(db.users) && first.Some? && SigningGoes(envs(first.value))
               then Some(SigningRowOf(rows[first.value])) else FindSigning(db.signing, Txt(id))
    decreases |rows|
  {
    if rows != [] {
      var last := |rows| - 1;
      var before := ImportRows(db, rows[..last], prefix, envs);
      ImportReads(db, rows[..last], prefix, envs, id);
      ImportKnows(db, rows[..last], prefix, envs, id);
      LineReads(before, rows[last], last + 2, prefix, envs(last), Txt(id));
    }
  }

  /** An owner that is no text keeps its row over any import. */
  lemma {:induction false} ImportKeepsOthers(db: StaffDb, rows: seq<CsvRow>, prefix: string, envs: nat -> Env,
                                             owner: Cell)
    requires !owner.Txt?
    ensures FindSigning(ImportRows(db, rows, prefix, envs).db.signing, owner) == FindSigning(db.signing, owner)
    decreases |rows|
  {
    if rows != [] {
      var last := |rows| - 1;
      ImportKeepsOthers(db, rows[..last], prefix, envs, owner);
      LineReads(ImportRows(db, rows[..last], prefix, envs), rows[last], last + 2, prefix, envs(last), owner);
    }
  }

  /** After an import with no statement failing, whatever rows come later in the file, every imported
      line's UserID reads exactly that line's signing data, with its name and department. */
  lemma ImportedLinesSigned(db: StaffDb, rows: seq<CsvRow>, prefix: string, envs: nat -> Env, k: nat)
    requires k < |rows| && Chosen(rows, KnownIds(db.users), prefix, k)
    requires forall i :: 0 <= i < |rows| ==> envs(i).faults == {}
    ensures FindSigning(ImportRows(db, rows, prefix, envs).db.signing, Txt(IdOf(rows[k])))
            == Some(SigningRowOf(rows[k]))
  {
    ChosenIsFirst(rows, KnownIds(db.users), prefix, envs, k);
    ImportReads(db, rows, prefix, envs, IdOf(rows[k]));
  }

  lemma ChosenIsFirst(rows: seq<CsvRow>, known: set<string>, prefix: string, envs: nat -> Env, k: nat)
    requires k < |rows| && Chosen(rows, known, prefix, k)
    requires forall i :: 0 <= i < |rows| ==> envs(i).faults == {}
    ensures FirstBringing(rows, prefix, envs, IdOf(rows[k])) == Some(k)
  {
    assert Brings(rows[k], prefix, envs(k), IdOf(rows[k]));
  }
}
