/** When adding, updating and deleting a user leave the two tables in agreement. */
module Agreement {
  import opened Outcomes
  import opened StaffStore
  import opened SqlUpdate
  import opened SigningTable
  import opened Staff
  import opened Repair
  import opened BulkImport

  lemma {:induction false} FindByIdLast(users: seq<User>, u: User)
    requires forall v :: v in users ==> v.id != u.id
    ensures FindById(users + [u], u.id) == Some(u)
    decreases |users|
  {
    if users != [] {
      assert (users + [u])[1..] == users[1..] + [u];
      FindByIdLast(users[1..], u);
    }
  }

  /** Writing one owner's signing data leaves what every other owner reads. */
  lemma {:induction false} OthersKeepTheirs(rows: seq<Signing>, owner: Cell, name: Cell, department: Cell, signing: Row,
                                            other: Cell)
    requires other != owner
    ensures FindSigning(SigningRows(rows, owner, name, department, signing), other) == FindSigning(rows, other)
  {
    var row := Filed(owner, name, department, DetailsOf(signing));
    var after := SigningRows(rows, owner, name, department, signing);
    if FindSigning(rows, owner).Some? {
      SameForOther(rows, after, other);
    } else {
      LastForOther(rows, row, other);
    }
  }

  lemma {:induction false} SameForOther(a: seq<Signing>, b: seq<Signing>, other: Cell)
    requires |a| == |b|
    requires forall i :: 0 <= i < |a| ==> a[i] == b[i] || (!OwnedBy(a[i], other) && !OwnedBy(b[i], other))
    ensures FindSigning(a, other) == FindSigning(b, other)
    decreases |a|
  {
    if a != [] { SameForOther(a[1..], b[1..], other); }
  }

  lemma {:induction false} LastForOther(rows: seq<Signing>, row: Signing, other: Cell)
    requires !OwnedBy(row, other)
    ensures FindSigning(rows + [row], other) == FindSigning(rows, other)
    decreases |rows|
  {
    if rows == [] {
      assert (rows + [row])[1..] == [];
    } else {
      assert (rows + [row])[1..] == rows[1..] + [row];
      LastForOther(rows[1..], row, other);
    }
  }

  // ----- Adding ---------------------------------------------------------------------------------

  lemma AddedDb(db: StaffDb, data: UserData, env: Env)
    requires env.faults == {} && Hashable(data.fields) && data.signing != map[]
    requires FindByUserId(db.users, Get(data.fields, "UserID", Null)).None?
    ensures AddUser(db, data, env).db
            == StaffDb(db.users + [NewUser(db, data, env.now)],
                       SigningRows(db.signing, Get(data.fields, "UserID", Null), Get(data.fields, "UserName", Null),
                                   Get(data.fields, "Department", Txt("")), data.signing),
                       db.nextId + 1)
  {}

  /** The new user's row, and what is written to the signing table. */
  lemma AddResult(db: StaffDb, data: UserData, env: Env)
    requires IdsInOrder(db) && env.faults == {} && Hashable(data.fields)
    requires FindByUserId(db.users, Get(data.fields, "UserID", Null)).None?
    ensures var key := Get(data.fields, "UserID", Null);
            var after := AddUser(db, data, env).db;
            var found := FindById(after.users, db.nextId);
            && found.Some? && Key(found.value) == key
            && Column(found.value, "UserName") == Get(data.fields, "UserName", Null)
            && Column(found.value, "Department") == Get(data.fields, "Department", Null)
            && after.signing == if data.signing == map[] then db.signing
                                else SigningRows(db.signing, key, Get(data.fields, "UserName", Null),
                                                 Get(data.fields, "Department", Txt("")), data.signing)
  {
    FindByIdLast(db.users, NewUser(db, data, env.now));
    NewUserColumns(db, data, env.now);
    AddResultIn(db, data, env);
    if data.signing != map[] { AddedDb(db, data, env); }
  }

  lemma NewUserColumns(db: StaffDb, data: UserData, now: int)
    requires Hashable(data.fields)
    ensures var u := NewUser(db, data, now);
            && Key(u) == Get(data.fields, "UserID", Null)
            && Column(u, "UserName") == Get(data.fields, "UserName", Null)
            && Column(u, "Department") == Get(data.fields, "Department", Null)
  {
    HashKeepsGet(data.fields, "UserID", Null);
    HashKeepsGet(data.fields, "UserName", Null);
    HashKeepsGet(data.fields, "Department", Null);
  }

  lemma DefaultOnlyWhenMissing(fields: Dict, key: string, default: Cell)
    requires default != Null
    ensures Get(fields, key, Null) == Get(fields, key, default) <==> Has(fields, key)
  {
    GetIff(fields, key, Null);
    GetIff(fields, key, default);
    if Has(fields, key) { GetIsUnique(fields, key, Get(fields, key, Null), default); }
  }

  /** Nobody is found under NULL, whatever is written. */
  lemma WrittenForNull(rows: seq<Signing>, name: Cell, department: Cell, signing: Row, owner: Cell)
    ensures FindSigning(SigningRows(rows, Null, name, department, signing), owner) == FindSigning(rows, owner)
  {
    FindSigningIff(rows, Null);
    FindSigningIff(SigningRows(rows, Null, name, department, signing), Null);
    if owner != Null { OthersKeepTheirs(rows, Null, name, department, signing, owner); }
  }

  /** What the row found under a key carries after signing data is written for it, or for NULL. */
  lemma CarriesAfterWriting(rows: seq<Signing>, owner: Cell, name: Cell, department: Cell, signing: Row,
                            key: Cell, keptName: Cell, keptDepartment: Cell)
    requires owner == key || owner == Null
    ensures RowCarries(SigningRows(rows, owner, name, department, signing), key, keptName, keptDepartment) <==>
            if owner == Null then RowCarries(rows, key, keptName, keptDepartment)
            else name == keptName && department == keptDepartment
  {
    if owner == Null {
      WrittenForNull(rows, name, department, signing, key);
    } else {
      WrittenIsFound(rows, owner, name, department, signing);
    }
  }

  /** A user is added, no statement failing. With signing data and a UserID it is consistent exactly
      when a department was given: without one the user's is NULL and the signing row's the empty
      text. Otherwise it is exactly when a signing row waiting under its UserID carries its name and
      department. */
  lemma AddLeavesConsistentIff(db: StaffDb, data: UserData, env: Env)
    requires IdsInOrder(db) && env.faults == {} && Hashable(data.fields)
    requires FindByUserId(db.users, Get(data.fields, "UserID", Null)).None?
    ensures var key := Get(data.fields, "UserID", Null);
            && AddUser(db, data, env).outcome == Created(db.nextId)
            && (Consistent(AddUser(db, data, env).db, db.nextId) <==>
                if data.signing != map[] && key != Null then Has(data.fields, "Department")
                else RowCarries(db.signing, key, Get(data.fields, "UserName", Null),
                                Get(data.fields, "Department", Null)))
  {
    var key, name := Get(data.fields, "UserID", Null), Get(data.fields, "UserName", Null);
    var department := Get(data.fields, "Department", Txt(""));
    AddResult(db, data, env);
    DefaultOnlyWhenMissing(data.fields, "Department", Txt(""));
    CarriesAfterWriting(db.signing, key, name, department, data.signing, key, name,
                        Get(data.fields, "Department", Null));
  }

  // ----- Updating -------------------------------------------------------------------------------

  /** A given NULL is skipped in `SysUser` but written to the signing row. */
  predicate NotNulled(u: User, fields: Dict, column: string) {
    Has(fields, column) && Get(fields, column, Null) == Null ==> Column(u, column) == Null
  }

  lemma NothingToSetKeeps(fields: Dict, column: string)
    requires column in {"UserName", "UserID", "Department"} && !AnythingToSet(fields)
    ensures Has(fields, column) ==> Get(fields, column, Null) == Null
  {
    GetIff(fields, column, Null);
    if Has(fields, column) {
      var i :| 0 <= i < |fields| && fields[i] == (column, Get(fields, column, Null));
      assert !Settable(fields[i].0, fields[i].1);
    }
  }

  lemma {:induction false} FindOverwritten(users: seq<User>, id: nat, fields: seq<(string, Cell)>, now: int)
    ensures var u := FindById(users, id);
            FindById(OverwriteUser(users, id, fields, now), id)
            == if u.None? then None else Some(u.value.(cols := Overwrite(u.value.cols, fields, now)))
    decreases |users|
  {
    if users != [] {
      assert OverwriteUser(users, id, fields, now)[1..] == OverwriteUser(users[1..], id, fields, now);
      FindOverwritten(users[1..], id, fields, now);
    }
  }

  /** The user's row after an update. */
  function UpdatedRow(u: User, fields: Dict, now: int): User
    requires Hashable(fields)
  {
    if AnythingToSet(HashPassword(fields)) then u.(cols := Overwrite(u.cols, HashPassword(fields), now)) else u
  }

  lemma UpdatedColumn(u: User, fields: Dict, now: int, column: string)
    requires Hashable(fields) && column in {"UserName", "UserID", "Department"}
    ensures Column(UpdatedRow(u, fields, now), column)
            == if Has(fields, column) && Get(fields, column, Null) != Null then Get(fields, column, Null)
               else Column(u, column)
    ensures forall d ::
              Get(HashPassword(fields), column, d) == if Has(fields, column) then Get(fields, column, Null) else d
  {
    var hashed := HashPassword(fields);
    HashKeepsGet(fields, column, Null);
    HashKeepsHas(fields, column);
    if AnythingToSet(hashed) {
      OverwrittenColumn(u.cols, hashed, now, column);
    } else {
      NothingToSetKeeps(hashed, column);
    }
    forall d ensures Get(hashed, column, d) == if Has(fields, column) then Get(fields, column, Null) else d {
      GetIff(hashed, column, Null);
      GetIff(hashed, column, d);
      if Has(hashed, column) { GetIsUnique(hashed, column, Get(hashed, column, Null), d); }
    }
  }

  lemma UpdateResult(db: StaffDb, id: nat, data: UserData, env: Env)
    requires FindById(db.users, id).Some? && Hashable(data.fields) && env.faults == {}
    ensures var u := UpdatedRow(FindById(db.users, id).value, data.fields, env.now);
            var fields := HashPassword(data.fields);
            var after := UpdateUser(db, id, data, env);
            && after.outcome.Updated? && FindById(after.db.users, id) == Some(u)
            && after.db.signing == if data.signing == map[] then db.signing
                 else SigningRows(db.signing, Get(fields, "UserID", Column(u, "UserID")),
                        Get(fields, "UserName", Column(u, "UserName")),
                        Get(fields, "Department", Column(u, "Department")), data.signing)
  {
    FindOverwritten(db.users, id, HashPassword(data.fields), env.now);
  }

  /** The cell an update leaves in a column: the value given, unless none or NULL is. */
  function Resulting(u: User, fields: Dict, column: string): Cell {
    if Has(fields, column) && Get(fields, column, Null) != Null then Get(fields, column, Null) else Column(u, column)
  }

  /** The value given for a column, NULL included, or the user's own. */
  function GivenOrKept(u: User, fields: Dict, column: string): Cell {
    if Has(fields, column) then Get(fields, column, Null) else Column(u, column)
  }

  /** A user is updated, no statement failing. With signing data for an owner it is consistent exactly
      when no NULL is given for a name or department it has. Otherwise, without signing data or with
      a NULL as its owner, it is exactly when the signing row found under the resulting UserID
      carries the resulting name and department. */
  lemma UpdateLeavesConsistentIff(db: StaffDb, id: nat, data: UserData, env: Env)
    requires FindById(db.users, id).Some? && Hashable(data.fields) && env.faults == {}
    ensures var u := FindById(db.users, id).value;
            && UpdateUser(db, id, data, env).outcome.Updated?
            && (Consistent(UpdateUser(db, id, data, env).db, id) <==>
                if data.signing != map[] && GivenOrKept(u, data.fields, "UserID") != Null
                then NotNulled(u, data.fields, "UserName") && NotNulled(u, data.fields, "Department")
                else RowCarries(db.signing, Resulting(u, data.fields, "UserID"), Resulting(u, data.fields, "UserName"),
                                Resulting(u, data.fields, "Department")))
  {
    var before := FindById(db.users, id).value;
    var u := UpdatedRow(before, data.fields, env.now);
    var fields := HashPassword(data.fields);
    UpdateResult(db, id, data, env);
    UpdatedColumn(before, data.fields, env.now, "UserID");
    UpdatedColumn(before, data.fields, env.now, "UserName");
    UpdatedColumn(before, data.fields, env.now, "Department");
    var owner := Get(fields, "UserID", Column(u, "UserID"));
    var name := Get(fields, "UserName", Column(u, "UserName"));
    var department := Get(fields, "Department", Column(u, "Department"));
    CarriesAfterWriting(db.signing, owner, name, department, data.signing, Key(u), Column(u, "UserName"),
                        Column(u, "Department"));
  }

  // ----- Inputs that leave a user inconsistent ----------------------------------------------------

  /** One user, and its signing row in agreement with it. */
  function AgreeingDb(): StaffDb {
    StaffDb([User(1, map["UserName" := Txt("Old"), "UserID" := Txt("u1"), "Department" := Txt("ABC1")])],
            [WaitingRow()], 2)
  }

  function WaitingRow(): Signing { Filed(Txt("u1"), Txt("Old"), Txt("ABC1"), DetailsOf(map[])) }

  lemma AgreeingAtFirst()
    ensures var u := AgreeingDb().users[0];
            && FindById(AgreeingDb().users, 1) == Some(u) && Key(u) == Txt("u1")
            && Column(u, "UserName") == Txt("Old") && Column(u, "Department") == Txt("ABC1")
    ensures FindSigning([WaitingRow()], Txt("u1")) == Some(WaitingRow())
    ensures WaitingRow()[InspectorName] == Txt("Old") && WaitingRow()[DepartmentAbbr] == Txt("ABC1")
    ensures Consistent(AgreeingDb(), 1)
  {}

  /** A name and a UserID, and nothing else. */
  function NameAndId(name: Cell, userId: Cell): Dict { [("UserName", name), ("UserID", userId)] }

  lemma NameAndIdGet(name: Cell, userId: Cell)
    ensures var fields := NameAndId(name, userId);
            && Has(fields, "UserName") && Get(fields, "UserName", Null) == name
            && Has(fields, "UserID") && Get(fields, "UserID", Null) == userId
            && Get(fields, "Password", Null) == Null
            && !Has(fields, "Department") && Get(fields, "Department", Null) == Null
  {
    var fields := NameAndId(name, userId);
    GetIsUnique(fields, "UserName", name, Null);
    GetIsUnique(fields, "UserID", userId, Null);
    assert "UserName"[0] != "Password"[0];
    GetIff(fields, "Password", Null);
    GetIff(fields, "Department", Null);
  }

  /** A rename with signing data and a NULL UserID: the row is written for NULL, the user's own stays stale. */
  lemma NullUserIdLeavesStale(env: Env)
    requires env.faults == {}
    ensures var fields := NameAndId(Txt("New"), Null);
            var r := UpdateUser(AgreeingDb(), 1, UserData(fields, map["factory" := Txt("F")]), env);
            r.outcome.Updated? && !Consistent(r.db, 1)
  {
    var fields := NameAndId(Txt("New"), Null);
    AgreeingAtFirst();
    NameAndIdGet(Txt("New"), Null);
    UpdateLeavesConsistentIff(AgreeingDb(), 1, UserData(fields, map["factory" := Txt("F")]), env);
  }

  /** A rename without signing data: nothing rewrites the signing row. */
  lemma RenameLeavesStale(env: Env)
    requires env.faults == {}
    ensures var fields: Dict := [("UserName", Txt("New"))];
            var r := UpdateUser(AgreeingDb(), 1, UserData(fields, map[]), env);
            r.outcome.Updated? && !Consistent(r.db, 1)
  {
    var fields: Dict := [("UserName", Txt("New"))];
    AgreeingAtFirst();
    GetIsUnique(fields, "UserName", Txt("New"), Null);
    GetIff(fields, "Password", Null);
    GetIff(fields, "UserID", Null);
    UpdateLeavesConsistentIff(AgreeingDb(), 1, UserData(fields, map[]), env);
  }

  /** A NULL name with signing data: `SysUser` keeps the old one, the signing row does not. */
  lemma NullNameLeavesStale(env: Env)
    requires env.faults == {}
    ensures var fields: Dict := [("UserName", Null)];
            var r := UpdateUser(AgreeingDb(), 1, UserData(fields, map["factory" := Txt("F")]), env);
            r.outcome.Updated? && !Consistent(r.db, 1)
  {
    var fields: Dict := [("UserName", Null)];
    AgreeingAtFirst();
    GetIsUnique(fields, "UserName", Null, Null);
    GetIff(fields, "Password", Null);
    assert !NotNulled(AgreeingDb().users[0], fields, "UserName");
    assert !Has(fields, "UserID") && "factory" in map["factory" := Txt("F")];
    UpdateLeavesConsistentIff(AgreeingDb(), 1, UserData(fields, map["factory" := Txt("F")]), env);
  }

  /** The same for a NULL department. */
  lemma NullDepartmentLeavesStale(env: Env)
    requires env.faults == {}
    ensures var fields: Dict := [("Department", Null)];
            var r := UpdateUser(AgreeingDb(), 1, UserData(fields, map["factory" := Txt("F")]), env);
            r.outcome.Updated? && !Consistent(r.db, 1)
  {
    var fields: Dict := [("Department", Null)];
    AgreeingAtFirst();
    GetIsUnique(fields, "Department", Null, Null);
    GetIff(fields, "Password", Null);
    assert !NotNulled(AgreeingDb().users[0], fields, "Department");
    assert !Has(fields, "UserID") && "factory" in map["factory" := Txt("F")];
    UpdateLeavesConsistentIff(AgreeingDb(), 1, UserData(fields, map["factory" := Txt("F")]), env);
  }

  /** A user added with signing data and no department. */
  lemma AddWithoutDepartmentDisagrees(env: Env)
    requires env.faults == {}
    ensures var fields := NameAndId(Txt("New"), Txt("u2"));
            var r := AddUser(StaffDb([], [], 1), UserData(fields, map["factory" := Txt("F")]), env);
            r.outcome == Created(1) && !Consistent(r.db, 1)
  {
    var fields := NameAndId(Txt("New"), Txt("u2"));
    NameAndIdGet(Txt("New"), Txt("u2"));
    assert "factory" in map["factory" := Txt("F")];
    AddLeavesConsistentIff(StaffDb([], [], 1), UserData(fields, map["factory" := Txt("F")]), env);
  }

  /** A user added without signing data under whose UserID another person's row is waiting. */
  lemma AddMeetsWaitingRow(env: Env)
    requires env.faults == {}
    ensures var fields := NameAndId(Txt("New"), Txt("u1"));
            var r := AddUser(StaffDb([], [WaitingRow()], 1), UserData(fields, map[]), env);
            r.outcome == Created(1) && !Consistent(r.db, 1)
  {
    var fields := NameAndId(Txt("New"), Txt("u1"));
    AgreeingAtFirst();
    NameAndIdGet(Txt("New"), Txt("u1"));
    AddLeavesConsistentIff(StaffDb([], [WaitingRow()], 1), UserData(fields, map[]), env);
  }

  // ----- Deleting what was added ----------------------------------------------------------------

  lemma {:induction false} WithoutLast(users: seq<User>, u: User)
    requires forall v :: v in users ==> v.id != u.id
    ensures WithoutUser(users + [u], u.id) == users
    decreases |users|
  {
    if users == [] {
      assert (users + [u])[1..] == [];
    } else {
      assert (users + [u])[1..] == users[1..] + [u];
      WithoutLast(users[1..], u);
    }
  }

  lemma {:induction false} WithoutLastSigning(rows: seq<Signing>, row: Signing)
    requires row[InspectorId] != Null && FindSigning(rows, row[InspectorId]).None?
    ensures WithoutSigning(rows + [row], row[InspectorId]) == rows
    decreases |rows|
  {
    if rows == [] {
      assert (rows + [row])[1..] == [];
    } else {
      assert (rows + [row])[1..] == rows[1..] + [row];
      WithoutLastSigning(rows[1..], row);
    }
  }

  lemma {:induction false} WithoutSigningFinds(rows: seq<Signing>, owner: Cell)
    ensures FindSigning(WithoutSigning(rows, owner), owner).None?
  {
    if rows != [] {
      WithoutSigningFinds(rows[1..], owner);
      var rest := WithoutSigning(rows[1..], owner);
      assert [] + rest == rest && ([rows[0]] + rest)[1..] == rest;
    }
  }

  lemma UnsignRestoresIff(rows: seq<Signing>, owner: Cell, name: Cell, department: Cell, signing: Row)
    requires owner != Null
    ensures WithoutSigning(SigningRows(rows, owner, name, department, signing), owner) == rows
            <==> FindSigning(rows, owner).None?
  {
    var after := SigningRows(rows, owner, name, department, signing);
    WithoutSigningFinds(after, owner);
    if FindSigning(rows, owner).None? { WithoutLastSigning(rows, after[|rows|]); }
  }

  lemma DeleteResult(db: StaffDb, u: User, env: Env)
    requires FindById(db.users, u.id) == Some(u) && Truthy(Key(u)) && env.faults == {}
    ensures DeleteUser(db, u.id, env)
            == (StaffDb(WithoutUser(db.users, u.id), WithoutSigning(db.signing, Key(u)), db.nextId), true)
  {}

  /** Adding a user and deleting it again, no statement failing, restores the users; it restores the
      signing table too exactly when nobody's signing row was waiting under that UserID. */
  lemma AddThenDelete(db: StaffDb, data: UserData, env: Env, later: Env)
    requires IdsInOrder(db) && env.faults == {} && later.faults == {}
    requires Truthy(Get(data.fields, "UserID", Null)) && data.signing != map[]
    requires AddUser(db, data, env).outcome.Created?
    ensures var added := AddUser(db, data, env).db;
            var deleted := DeleteUser(added, db.nextId, later);
            && deleted.1 && deleted.0.users == db.users
            && (deleted.0.signing == db.signing <==> FindSigning(db.signing, Get(data.fields, "UserID", Null)).None?)
  {
    AddedDb(db, data, env);
    var user := NewUser(db, data, env.now);
    var key := Get(data.fields, "UserID", Null);
    HashKeepsGet(data.fields, "UserID", Null);
    assert Key(user) == key;
    FindByIdLast(db.users, user);
    WithoutLast(db.users, user);
    DeleteResult(AddUser(db, data, env).db, user, later);
    UnsignRestoresIff(db.signing, key, Get(data.fields, "UserName", Null), Get(data.fields, "Department", Txt("")),
                      data.signing);
  }
}
