/** `models/user.py`: users and their signing rows, kept in two tables. */
module Staff {
  import opened Outcomes
  import opened Database
  import opened StaffStore
  import opened SqlUpdate
  import opened SigningTable
  import opened UserTable

  /** `user_data`: the plain fields, and the signing data (empty when absent or empty). */
  datatype UserData = UserData(fields: Dict, signing: Row)

  datatype AddOutcome = Created(id: nat) | Exists | Failed

  datatype Added = Added(db: StaffDb, outcome: AddOutcome)

  datatype UpdateOutcome = Updated | NotFound | UpdateFailed

  datatype Changed = Changed(db: StaffDb, outcome: UpdateOutcome)

  // ----- What each operation comes to ---------------------------------------------------------

  /** `add_signing_data`: both callers only log a failure. */
  function AddSigning(db: StaffDb, owner: Cell, name: Cell, department: Cell, signing: Row, env: Env): StaffDb {
    if env.faults !! {SigningLookup, SigningWrite, SaveSigning}
    then db.(signing := SigningRows(db.signing, owner, name, department, signing))
    else db
  }

  predicate Hashable(fields: seq<(string, Cell)>) {
    Truthy(Get(fields, "Password", Null)) ==> Get(fields, "Password", Null).Txt?
  }

  /** `user_data['Password'] = bcrypt.hashpw(...)` when there is a password. */
  function HashPassword(fields: Dict): (hashed: Dict)
    requires Hashable(fields)
    ensures |hashed| == |fields| && forall i :: 0 <= i < |fields| ==> hashed[i].0 == fields[i].0
    ensures forall i :: 0 <= i < |fields| && fields[i].0 != "Password" ==> hashed[i] == fields[i]
  {
    if Truthy(Get(fields, "Password", Null)) then
      seq(|fields|, i requires 0 <= i < |fields| =>
        if fields[i].0 == "Password" then ("Password", Hashed(Get(fields, "Password", Null).s)) else fields[i])
    else fields
  }

  function NewUser(db: StaffDb, data: UserData, now: int): User
    requires Hashable(data.fields)
  {
    User(db.nextId, UserRow(CellsOf(HashPassword(data.fields)), now))
  }

  /** `add_user`. */
  function AddUser(db: StaffDb, data: UserData, env: Env): Added {
    var key := Get(data.fields, "UserID", Null);
    if Lookup in env.faults then Added(db, Failed)
    else if FindByUserId(db.users, key).Some? then Added(db, Exists)
    else if !Hashable(data.fields) || !(env.faults !! {Insert, Identity, SaveUser})
            || (IdentityNull in env.faults && (FallbackLookup in env.faults || key == Null))
    then Added(db, Failed)
    else
      var inserted := db.(users := db.users + [NewUser(db, data, env.now)], nextId := db.nextId + 1);
      var signed := if data.signing == map[] then inserted
                    else AddSigning(inserted, key, Get(data.fields, "UserName", Null),
                                    Get(data.fields, "Department", Txt("")), data.signing, env);
      Added(signed, if ReadBack in env.faults then Failed else Created(db.nextId))
  }

  /** `update_user`. */
  function UpdateUser(db: StaffDb, id: nat, data: UserData, env: Env): Changed {
    if FindUser in env.faults then Changed(db, UpdateFailed)
    else if FindById(db.users, id).None? then Changed(db, NotFound)
    else if !Hashable(data.fields) then Changed(db, UpdateFailed)
    else
      var fields := HashPassword(data.fields);
      if AnythingToSet(fields) && !(env.faults !! {UpdateRow, SaveRow}) then Changed(db, UpdateFailed)
      else
        var updated := if AnythingToSet(fields) then db.(users := OverwriteUser(db.users, id, fields, env.now)) else db;
        var current := FindById(updated.users, id);
        var signed := if data.signing == map[] || Reread in env.faults || current.None? then updated
                      else AddSigning(updated, Get(fields, "UserID", Column(current.value, "UserID")),
                                      Get(fields, "UserName", Column(current.value, "UserName")),
                                      Get(fields, "Department", Column(current.value, "Department")),
                                      data.signing, env);
        Changed(signed, if ReadBack in env.faults then UpdateFailed else Updated)
  }

  /** `delete_user`: a signing row that cannot be deleted is passed over. */
  function DeleteUser(db: StaffDb, id: nat, env: Env): (r: (StaffDb, bool)) {
    var user := FindById(db.users, id);
    if FindUser in env.faults || user.None? then (db, false)
    else
      var key := Column(user.value, "UserID");
      var unsigned := if Truthy(key) && DeleteSigning !in env.faults
                      then db.(signing := WithoutSigning(db.signing, key)) else db;
      if env.faults !! {DeleteRow, SaveDelete} then (unsigned.(users := WithoutUser(db.users, id)), true)
      else (unsigned, false)
  }

  /** `get_user_with_signing_data`: the user and, under their request names, its signing columns. */
  datatype Profile = Profile(user: User, signing: Option<map<SigningField, Cell>>)

  function ProfileOf(db: StaffDb, id: nat): Option<Profile> {
    var user := FindById(db.users, id);
    if user.None? then None
    else
      var row := FindSigning(db.signing, Column(user.value, "UserID"));
      Some(Profile(user.value, if row.None? then None else Some(ReadRow(row.value))))
  }

  // ----- The operations, statement by statement -----------------------------------------------

  method AddSigningData(s: Session<StaffDb>, owner: Cell, name: Cell, department: Cell, signing: Row, env: Env)
      returns (ok: bool)
    requires s.work == s.saved
    modifies s
    ensures var db := AddSigning(old(s.saved), owner, name, department, signing, env); s.View() == Tx(db, db)
    ensures ok <==> env.faults !! {SigningLookup, SigningWrite, SaveSigning}
  {
    if SigningLookup in env.faults { return false; }
    WriteFiles(s.work.signing, owner, name, department, signing);
    var rows := WriteSigning(s.work.signing, owner, name, department, signing);
    var result := if rows.Some? then Some(s.work.(signing := rows.value)) else None;
    ok := s.ExecuteQuery(result, true, SigningWrite in env.faults, SaveSigning in env.faults);
  }

  method AddUserRecord(s: Session<StaffDb>, data: UserData, env: Env) returns (outcome: AddOutcome)
    requires s.work == s.saved
    modifies s
    ensures var r := AddUser(old(s.saved), data, env); outcome == r.outcome && s.View() == Tx(r.db, r.db)
  {
    var key := Get(data.fields, "UserID", Null);
    if Lookup in env.faults { return Failed; }
    if FindByUserId(s.work.users, key).Some? { return Exists; }
    if !Hashable(data.fields) { return Failed; }
    var before := s.work;
    var id := before.nextId;
    var row := InsertedRow(HashPassword(data.fields), env.now);
    InsertGivesRow(HashPassword(data.fields), env.now);
    var result := if row.None? then None
                  else Some(before.(users := before.users + [User(id, row.value)], nextId := before.nextId + 1));
    var ok := s.Execute(result, Insert in env.faults);
    if ok {
      ok := Identity !in env.faults;
      if ok && IdentityNull in env.faults {
        var found := FindByUserId(s.work.users, key);
        InsertedIsFound(before.users, User(before.nextId, row.value), data.fields, env.now);
        ok := FallbackLookup !in env.faults && found.Some?;
        if ok { id := found.value.id; }
      }
    }
    if ok { ok := s.Commit(SaveUser in env.faults); }
    if !ok {
      s.Rollback();
      return Failed;
    }
    if data.signing != map[] {
      var _ := AddSigningData(s, key, Get(data.fields, "UserName", Null),
                              Get(data.fields, "Department", Txt("")), data.signing, env);
    }
    if ReadBack in env.faults {
      s.Rollback();
      return Failed;
    }
    return Created(id);
  }

  method UpdateUserRecord(s: Session<StaffDb>, id: nat, data: UserData, env: Env) returns (outcome: UpdateOutcome)
    requires s.work == s.saved
    modifies s
    ensures var r := UpdateUser(old(s.saved), id, data, env); outcome == r.outcome && s.View() == Tx(r.db, r.db)
  {
    if FindUser in env.faults { return UpdateFailed; }
    if FindById(s.work.users, id).None? { return NotFound; }
    if !Hashable(data.fields) { return UpdateFailed; }
    var fields := HashPassword(data.fields);
    var clauses, params := BuildUpdate(fields, id);
    if clauses != [] {
      var users := Run(s.work.users, clauses, params, env.now);
      var result := if users.Some? then Some(s.work.(users := users.value)) else None;
      var ok := s.ExecuteQuery(result, true, UpdateRow in env.faults, SaveRow in env.faults);
      if !ok { return UpdateFailed; }
    }
    if data.signing != map[] && Reread !in env.faults {
      var current := FindById(s.work.users, id);
      if current.Some? {
        var _ := AddSigningData(s, Get(fields, "UserID", Column(current.value, "UserID")),
                                Get(fields, "UserName", Column(current.value, "UserName")),
                                Get(fields, "Department", Column(current.value, "Department")), data.signing, env);
      }
    }
    return if ReadBack in env.faults then UpdateFailed else Updated;
  }

  method DeleteUserRecord(s: Session<StaffDb>, id: nat, env: Env) returns (ok: bool)
    requires s.work == s.saved
    modifies s
    ensures var r := DeleteUser(old(s.saved), id, env); ok == r.1 && s.View() == Tx(r.0, r.0)
  {
    if FindUser in env.faults { return false; }
    var user := FindById(s.work.users, id);
    if user.None? { return false; }
    var key := Column(user.value, "UserID");
    if Truthy(key) {
      var _ := s.ExecuteQuery(Some(s.work.(signing := WithoutSigning(s.work.signing, key))), true,
                              DeleteSigning in env.faults, false);
    }
    ok := s.ExecuteQuery(Some(s.work.(users := WithoutUser(s.work.users, id))), true,
                         DeleteRow in env.faults, SaveDelete in env.faults);
  }

  // ----- Facts --------------------------------------------------------------------------------

  lemma HashKeepsGet(fields: Dict, key: string, default: Cell)
    requires Hashable(fields) && key != "Password"
    ensures Get(HashPassword(fields), key, default) == Get(fields, key, default)
  {
    GetPointwise(fields, HashPassword(fields), key, default);
  }

  lemma HashKeepsHas(fields: Dict, key: string)
    requires Hashable(fields)
    ensures Has(HashPassword(fields), key) <==> Has(fields, key)
  {
    var hashed := HashPassword(fields);
    if Has(fields, key) {
      var i :| 0 <= i < |fields| && fields[i].0 == key;
      assert hashed[i].0 == key;
    }
  }

  lemma {:induction false} GetPointwise(a: seq<(string, Cell)>, b: seq<(string, Cell)>, key: string, default: Cell)
    requires |a| == |b| && forall i :: 0 <= i < |a| ==> a[i].0 == b[i].0 && (a[i].0 == key ==> a[i] == b[i])
    ensures Get(a, key, default) == Get(b, key, default)
    decreases |a|
  {
    if a != [] { GetPointwise(a[1..], b[1..], key, default); }
  }

  /** When SCOPE_IDENTITY gives nothing, looking the new user up by its UserID finds that very row:
      no earlier row has it. A NULL UserID finds nothing. */
  lemma InsertedIsFound(users: seq<User>, user: User, fields: Dict, now: int)
    requires Hashable(fields) && user.cols == UserRow(CellsOf(HashPassword(fields)), now)
    requires FindByUserId(users, Get(fields, "UserID", Null)).None?
    ensures FindByUserId(users + [user], Get(fields, "UserID", Null))
            == if Get(fields, "UserID", Null) == Null then None else Some(user)
  {
    HashKeepsGet(fields, "UserID", Null);
    FindByUserIdLast(users, user, Get(fields, "UserID", Null));
  }

  lemma {:induction false} RefilledIsFound(rows: seq<Signing>, owner: Cell, row: Signing)
    requires OwnedBy(row, owner) && FindSigning(rows, owner).Some?
    ensures FindSigning(Refilled(rows, owner, row), owner) == Some(row)
    decreases |rows|
  {
    if !OwnedBy(rows[0], owner) {
      assert Refilled(rows, owner, row)[1..] == Refilled(rows[1..], owner, row);
      RefilledIsFound(rows[1..], owner, row);
    }
  }

  lemma {:induction false} AppendedIsFound(rows: seq<Signing>, owner: Cell, row: Signing)
    requires OwnedBy(row, owner) && FindSigning(rows, owner).None?
    ensures FindSigning(rows + [row], owner) == Some(row)
    decreases |rows|
  {
    if rows != [] {
      assert (rows + [row])[1..] == rows[1..] + [row];
      AppendedIsFound(rows[1..], owner, row);
    }
  }

  /** After signing data is written for an owner, the owner's first row is the one written. */
  lemma WrittenIsFound(rows: seq<Signing>, owner: Cell, name: Cell, department: Cell, signing: Row)
    requires owner != Null
    ensures FindSigning(SigningRows(rows, owner, name, department, signing), owner)
            == Some(Filed(owner, name, department, DetailsOf(signing)))
  {
    var row := Filed(owner, name, department, DetailsOf(signing));
    if FindSigning(rows, owner).Some? { RefilledIsFound(rows, owner, row); } else { AppendedIsFound(rows, owner, row); }
  }

  /** Writing signing data through the positional statements and reading the profile back gives every
      detail under its own name as supplied, the empty text for those not supplied, and the
      department as its abbreviation. */
  lemma SigningRoundTrip(db: StaffDb, id: nat, name: Cell, department: Cell, signing: Row)
    requires FindById(db.users, id).Some?
    requires Column(FindById(db.users, id).value, "UserID") != Null
    ensures var written := WriteSigning(db.signing, Column(FindById(db.users, id).value, "UserID"), name, department,
                                        signing);
            && written.Some?
            && var profile := ProfileOf(db.(signing := written.value), id);
            && profile.Some? && profile.value.signing.Some?
            && forall f: SigningField :: f in profile.value.signing.value
                 && profile.value.signing.value[f]
                    == if f == DepartmentAbbrField then department else CellAt(signing, FieldName(f), Txt(""))
  {
    var key := Column(FindById(db.users, id).value, "UserID");
    WriteFiles(db.signing, key, name, department, signing);
    WrittenIsFound(db.signing, key, name, department, signing);
    var given := DetailsOf(signing);
    forall f: SigningField
      ensures var read := ReadRow(Filed(key, name, department, given));
              && f in read
              && read[f] == if f == DepartmentAbbrField then department else CellAt(signing, FieldName(f), Txt(""))
    {
      ReadFiled(key, name, department, given, f);
    }
  }

  // ----- The inserted row -----------------------------------------------------------------------

  /** The keys both endpoints that create users prepare, in order. */
  const NEW_USER_KEYS := ["UserName", "UserID", "EngName", "Email", "Password", "PriorityLevel",
                          "Position", "Department", "Remark", "isAtWork"]

  predicate HasNewUserKeys(fields: seq<(string, Cell)>) {
    |fields| == |NEW_USER_KEYS| && forall i :: 0 <= i < |fields| ==> fields[i].0 == NEW_USER_KEYS[i]
  }

  /** What such fields give for each column. */
  function PreparedCells(fields: seq<(string, Cell)>): NewCells
    requires HasNewUserKeys(fields)
  {
    NewCells(fields[0].1, fields[1].1, fields[2].1, fields[3].1, StoredPassword(fields[4].1), fields[5].1,
             fields[6].1, Null,             fields[7].1, fields[8].1, Null, Truthy(fields[9].1))
  }

  /** A password that is not empty is stored as its hash. */
  function StoredPassword(password: Cell): Cell {
    if password.Txt? && password.s != "" then Hashed(password.s) else password
  }

  lemma HashedAt(fields: Dict, i: nat, default: Cell)
    requires HasNewUserKeys(fields) && Hashable(fields) && i < |fields| && i != 4
    ensures Get(HashPassword(fields), NEW_USER_KEYS[i], default) == fields[i].1
  {
    assert NEW_USER_KEYS[i] != "Password";
    GetIsUnique(HashPassword(fields), NEW_USER_KEYS[i], fields[i].1, default);
  }

  lemma HashedPassword(fields: Dict)
    requires HasNewUserKeys(fields) && Hashable(fields)
    ensures Get(HashPassword(fields), "Password", Null)
            == StoredPassword(fields[4].1)
  {
    assert fields[4] == ("Password", fields[4].1);
    GetIsUnique(fields, "Password", fields[4].1, Null);
    GetIsUnique(HashPassword(fields), "Password", HashPassword(fields)[4].1, Null);
  }

  lemma NoSuchKey(fields: seq<(string, Cell)>, key: string)
    requires HasNewUserKeys(fields) && key !in NEW_USER_KEYS
    ensures Get(fields, key, Null) == Null
  {
    GetIff(fields, key, Null);
    forall i | 0 <= i < |fields| ensures fields[i].0 != key { assert NEW_USER_KEYS[i] in NEW_USER_KEYS; }
  }

  lemma FirstFields(fields: Dict)
    requires HasNewUserKeys(fields) && Hashable(fields)
    ensures var hashed := HashPassword(fields);
            && Get(hashed, "UserName", Null) == fields[0].1 && Get(hashed, "UserID", Null) == fields[1].1
            && Get(hashed, "EngName", Null) == fields[2].1 && Get(hashed, "Email", Null) == fields[3].1
            && Get(hashed, "PriorityLevel", Num(1)) == fields[5].1
  {
    HashedAt(fields, 0, Null);
    HashedAt(fields, 1, Null);
    HashedAt(fields, 2, Null);
    HashedAt(fields, 3, Null);
    HashedAt(fields, 5, Num(1));
  }

  lemma LastFields(fields: Dict)
    requires HasNewUserKeys(fields) && Hashable(fields)
    ensures var hashed := HashPassword(fields);
            && Get(hashed, "Position", Null) == fields[6].1 && Get(hashed, "Department", Null) == fields[7].1
            && Get(hashed, "Remark", Null) == fields[8].1 && Get(hashed, "isAtWork", Flag(true)) == fields[9].1
  {
    HashedAt(fields, 6, Null);
    HashedAt(fields, 7, Null);
    HashedAt(fields, 8, Null);
    HashedAt(fields, 9, Flag(true));
  }

  lemma CellsPrepared(fields: Dict)
    requires HasNewUserKeys(fields) && Hashable(fields)
    ensures CellsOf(HashPassword(fields)) == PreparedCells(fields)
  {
    FirstFields(fields);
    HashedPassword(fields);
    LastFields(fields);
    ShiftsMissing(HashPassword(fields));
  }

  /** The positional INSERT stores each prepared field in its own column, the password hashed. */
  lemma InsertStoresFields(fields: Dict, now: int)
    requires HasNewUserKeys(fields) && Hashable(fields)
    ensures InsertedRow(HashPassword(fields), now) == Some(UserRow(PreparedCells(fields), now))
  {
    InsertGivesRow(HashPassword(fields), now);
    CellsPrepared(fields);
  }

  lemma ShiftsMissing(fields: seq<(string, Cell)>)
    requires HasNewUserKeys(fields)
    ensures Get(fields, "Shift", Null) == Null && Get(fields, "Shifts", Null) == Null
  {
    NoSuchKey(fields, "Shift");
    NoSuchKey(fields, "Shifts");
  }
}
