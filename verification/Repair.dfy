/** Validation and repair of the agreement between `SysUser` and the signing table. */
module Repair {
  import opened Outcomes
  import opened Database
  import opened StaffStore
  import opened SqlStatements

  datatype Issue = NoSuchUser | NameDiffers | IdDiffers | DepartmentDiffers | QueryFailed

  function Key(u: User): Cell { Column(u, "UserID") }

  /** The signing row repaired from a user. */
  function Stamped(row: Signing, u: User): Signing {
    row[InspectorName := Column(u, "UserName")][InspectorId := Key(u)]
       [DepartmentName := Column(u, "Department")][DepartmentAbbr := Column(u, "Department")]
  }

  function RepairRows(rows: seq<Signing>, u: User): seq<Signing> {
    seq(|rows|, i requires 0 <= i < |rows| => if OwnedBy(rows[i], Key(u)) then Stamped(rows[i], u) else rows[i])
  }

  /** The repair's UPDATE: its columns, and its parameters with the owner last. */
  const REPAIR_COLUMNS: seq<SigningColumn> := [InspectorName, InspectorId, DepartmentName, DepartmentAbbr]

  function RepairParams(u: User): seq<Cell> {
    [Column(u, "UserName"), Key(u), Column(u, "Department"), Column(u, "Department"), Key(u)]
  }

  lemma SetsStamp(row: Signing, u: User)
    ensures SetColumns(row, REPAIR_COLUMNS, RepairParams(u)) == Stamped(row, u)
  {
    var columns, params := REPAIR_COLUMNS, RepairParams(u);
    assert Fill(row, columns, params, 0) == row;
    assert Fill(row, columns, params, 2) == row[InspectorName := Column(u, "UserName")][InspectorId := Key(u)];
    assert Fill(row, columns, params, 4)
           == Fill(row, columns, params, 2)[DepartmentName := Column(u, "Department")]
                                           [DepartmentAbbr := Column(u, "Department")];
  }

  /** The server accepts the statement, and it repairs the rows of this owner. */
  lemma RepairStatement(rows: seq<Signing>, u: User)
    ensures UpdateSigning(rows, REPAIR_COLUMNS, RepairParams(u)) == Some(RepairRows(rows, u))
  {
    var updated, repaired := UpdateSigning(rows, REPAIR_COLUMNS, RepairParams(u)).value, RepairRows(rows, u);
    forall i | 0 <= i < |rows| ensures updated[i] == repaired[i] { SetsStamp(rows[i], u); }
    assert updated == repaired;
  }

  /** `fix_user_data_consistency`. */
  function FixUser(db: StaffDb, id: nat, env: Env): (r: (StaffDb, bool)) {
    var user := FindById(db.users, id);
    if FindUser in env.faults || user.None? || SigningLookup in env.faults then (db, false)
    else if FindSigning(db.signing, Key(user.value)).None? then (db, true)
    else if env.faults !! {SigningWrite, SaveSigning} then (db.(signing := RepairRows(db.signing, user.value)), true)
    else (db, false)
  }

  /** `fix_all_users_consistency` over the users listed at its start; `envs` says what each call meets. */
  function FixAll(db: StaffDb, users: seq<User>, envs: nat -> Env): StaffDb
    decreases |users|
  {
    if users == [] then db
    else FixUser(FixAll(db, users[..|users| - 1], envs), users[|users| - 1].id, envs(|users| - 1)).0
  }

  /** The signing row found for an owner, if any, carries this name and this department. */
  predicate RowCarries(rows: seq<Signing>, owner: Cell, name: Cell, department: Cell) {
    var row := FindSigning(rows, owner);
    row.Some? ==> row.value[InspectorName] == name && row.value[DepartmentAbbr] == department
  }

  /** What the pass reports for user i: its id, and whether repairing it after the users before it
      succeeds. */
  function FixResult(db: StaffDb, users: seq<User>, i: nat, envs: nat -> Env): (nat, bool)
    requires i < |users|
  {
    (users[i].id, FixUser(FixAll(db, users[..i], envs), users[i].id, envs(i)).1)
  }

  function FixResults(db: StaffDb, users: seq<User>, n: nat, envs: nat -> Env): seq<(nat, bool)>
    requires n <= |users|
  {
    if n == 0 then [] else FixResults(db, users, n - 1, envs) + [FixResult(db, users, n - 1, envs)]
  }

  lemma {:induction false} FixResultsAt(db: StaffDb, users: seq<User>, n: nat, envs: nat -> Env)
    requires n <= |users|
    ensures |FixResults(db, users, n, envs)| == n
    ensures forall i :: 0 <= i < n ==> FixResults(db, users, n, envs)[i] == FixResult(db, users, i, envs)
  {
    if n > 0 { FixResultsAt(db, users, n - 1, envs); }
  }

  predicate Consistent(db: StaffDb, id: nat) {
    var user := FindById(db.users, id);
    user.Some? && RowCarries(db.signing, Key(user.value), Column(user.value, "UserName"),
                             Column(user.value, "Department"))
  }

  /** No query fails, and the user has a signing row with another value in the column. */
  predicate Differs(db: StaffDb, id: nat, env: Env, column: string, signingColumn: SigningColumn) {
    var user := FindById(db.users, id);
    && env.faults !! {FindUser, SigningLookup} && user.Some?
    && var row := FindSigning(db.signing, Key(user.value));
       row.Some? && row.value[signingColumn] != Column(user.value, column)
  }

  // ----- Statement by statement ---------------------------------------------------------------

  method ValidateUserDataConsistency(s: Session<StaffDb>, id: nat, env: Env)
      returns (isConsistent: bool, issues: seq<Issue>)
    ensures isConsistent <==> issues == []
    ensures QueryFailed in issues <==>
              FindUser in env.faults || (FindById(s.work.users, id).Some? && SigningLookup in env.faults)
    ensures NoSuchUser in issues <==> FindUser !in env.faults && FindById(s.work.users, id).None?
    ensures QueryFailed in issues || NoSuchUser in issues ==> |issues| == 1
    ensures NameDiffers in issues <==> Differs(s.work, id, env, "UserName", InspectorName)
    ensures DepartmentDiffers in issues <==> Differs(s.work, id, env, "Department", DepartmentAbbr)
    ensures IdDiffers !in issues && |issues| <= 2
    ensures env.faults !! {FindUser, SigningLookup} ==> (isConsistent <==> Consistent(s.work, id))
  {
    isConsistent, issues := true, [];
    if FindUser in env.faults { return false, [QueryFailed]; }
    var user := FindById(s.work.users, id);
    if user.None? { return false, [NoSuchUser]; }
    if SigningLookup in env.faults { return false, [QueryFailed]; }
    var row := FindSigning(s.work.signing, Key(user.value));
    FindSigningIff(s.work.signing, Key(user.value));
    if row.None? { return; }
    if Column(user.value, "UserName") != row.value[InspectorName] {
      isConsistent, issues := false, issues + [NameDiffers];
    }
    if Key(user.value) != row.value[InspectorId] {
      isConsistent, issues := false, issues + [IdDiffers];
    }
    if Column(user.value, "Department") != row.value[DepartmentAbbr] {
      isConsistent, issues := false, issues + [DepartmentDiffers];
    }
  }

  method FixUserDataConsistency(s: Session<StaffDb>, id: nat, env: Env) returns (ok: bool)
    requires s.work == s.saved
    modifies s
    ensures var r := FixUser(old(s.saved), id, env); ok == r.1 && s.View() == Tx(r.0, r.0)
  {
    if FindUser in env.faults { return false; }
    var user := FindById(s.work.users, id);
    if user.None? || SigningLookup in env.faults { return false; }
    if FindSigning(s.work.signing, Key(user.value)).None? { return true; }
    var rows := UpdateSigning(s.work.signing, REPAIR_COLUMNS, RepairParams(user.value));
    RepairStatement(s.work.signing, user.value);
    var result := if rows.Some? then Some(s.work.(signing := rows.value)) else None;
    ok := s.ExecuteQuery(result, true, SigningWrite in env.faults, SaveSigning in env.faults);
  }

  function CountTrue(results: seq<(nat, bool)>): nat {
    if results == [] then 0 else CountTrue(results[..|results| - 1]) + if results[|results| - 1].1 then 1 else 0
  }

  lemma CountTrueStep(results: seq<(nat, bool)>, next: (nat, bool))
    ensures CountTrue(results + [next]) == CountTrue(results) + if next.1 then 1 else 0
  {
    assert (results + [next])[..|results|] == results;
  }

  lemma FixAllStep(db: StaffDb, users: seq<User>, i: nat, envs: nat -> Env)
    requires i < |users|
    ensures FixAll(db, users[..i + 1], envs) == FixUser(FixAll(db, users[..i], envs), users[i].id, envs(i)).0
  {
    assert users[..i + 1][..i] == users[..i];
  }

  method FixAllUsersConsistency(s: Session<StaffDb>, envs: nat -> Env)
      returns (results: seq<(nat, bool)>, successCount: nat)
    requires s.work == s.saved
    modifies s
    ensures var db := FixAll(old(s.saved), old(s.saved.users), envs); s.View() == Tx(db, db)
    ensures |results| == |old(s.saved.users)|
    ensures forall i :: 0 <= i < |results| ==> results[i] == FixResult(old(s.saved), old(s.saved.users), i, envs)
    ensures successCount == CountTrue(results)
  {
    var users := s.work.users;
    results, successCount := [], 0;
    for i := 0 to |users|
      invariant var db := FixAll(old(s.saved), users[..i], envs); s.View() == Tx(db, db)
      invariant results == FixResults(old(s.saved), users, i, envs) && successCount == CountTrue(results)
    {
      FixAllStep(old(s.saved), users, i, envs);
      var success := FixUserDataConsistency(s, users[i].id, envs(i));
      CountTrueStep(results, (users[i].id, success));
      results := results + [(users[i].id, success)];
      if success { successCount := successCount + 1; }
    }
    assert users[..|users|] == users;
    FixResultsAt(old(s.saved), users, |users|, envs);
  }

  /** The row has its user's name, UserID and department, twice, and its other columns as before. */
  predicate IsRepaired(before: Signing, after: Signing, u: User) {
    && after[InspectorName] == Column(u, "UserName") && after[InspectorId] == Column(u, "UserID")
    && after[DepartmentName] == Column(u, "Department") && after[DepartmentAbbr] == Column(u, "Department")
    && forall c :: c !in {InspectorName, InspectorId, DepartmentName, DepartmentAbbr} ==> after[c] == before[c]
  }

  lemma StampRepairs(row: Signing, u: User)
    ensures IsRepaired(row, Stamped(row, u), u)
  {}

  /** Repairing one user fails, and changes nothing, when a query fails, the user is not there, or its
      signing rows cannot be written; otherwise exactly the rows of its UserID are repaired. */
  lemma RepairIsExact(db: StaffDb, id: nat, env: Env)
    ensures var (after, ok) := FixUser(db, id, env);
            var u := FindById(db.users, id);
            && after.users == db.users && after.nextId == db.nextId && |after.signing| == |db.signing|
            && (ok <==> FindUser !in env.faults && SigningLookup !in env.faults && u.Some?
                        && ((exists r :: r in db.signing && OwnedBy(r, Column(u.value, "UserID"))) ==>
                              env.faults !! {SigningWrite, SaveSigning}))
            && forall i :: 0 <= i < |db.signing| ==>
                 if ok && OwnedBy(db.signing[i], Column(u.value, "UserID"))
                 then IsRepaired(db.signing[i], after.signing[i], u.value) else after.signing[i] == db.signing[i]
  {
    var u := FindById(db.users, id);
    if u.Some? {
      FindSigningIff(db.signing, Key(u.value));
      forall row { StampRepairs(row, u.value); }
    }
  }

  // ----- What a whole pass does to each row -----------------------------------------------------

  /** The last listed user owning a row. */
  function LastOwner(users: seq<User>, owner: Cell): Option<User>
    decreases |users|
  {
    if users == [] || owner == Null then None
    else if Key(users[|users| - 1]) == owner then Some(users[|users| - 1])
    else LastOwner(users[..|users| - 1], owner)
  }

  function RowAfter(row: Signing, users: seq<User>): Signing {
    var u := LastOwner(users, row[InspectorId]);
    if u.Some? then Stamped(row, u.value) else row
  }

  function RowsAfter(rows: seq<Signing>, users: seq<User>): seq<Signing> {
    seq(|rows|, i requires 0 <= i < |rows| => RowAfter(rows[i], users))
  }

  lemma {:induction false} LastOwnerIff(users: seq<User>, owner: Cell)
    ensures LastOwner(users, owner).Some? <==> owner != Null && exists u :: u in users && Key(u) == owner
    ensures LastOwner(users, owner).Some? ==>
              LastOwner(users, owner).value in users && Key(LastOwner(users, owner).value) == owner
    decreases |users|
  {
    if users != [] {
      var last := |users| - 1;
      LastOwnerIff(users[..last], owner);
      assert users == users[..last] + [users[last]];
    }
  }

  lemma {:induction false} FindListed(users: seq<User>, u: User)
    requires u in users
    requires forall i, j :: 0 <= i < j < |users| ==> users[i].id < users[j].id
    ensures FindById(users, u.id) == Some(u)
    decreases |users|
  {
    if users[0] != u {
      var i :| 0 <= i < |users| && users[i] == u;
      assert users[1..][i - 1] == u;
      FindListed(users[1..], u);
    }
  }

  lemma RepairNothing(rows: seq<Signing>, u: User)
    requires FindSigning(rows, Key(u)).None?
    ensures RepairRows(rows, u) == rows
  {
    FindSigningIff(rows, Key(u));
    forall i | 0 <= i < |rows| ensures !OwnedBy(rows[i], Key(u)) { assert rows[i] in rows; }
  }

  /** With no statement failing, a pass stamps every row from the last user that owns it. */
  lemma {:induction false} PassStampsRows(db: StaffDb, users: seq<User>, envs: nat -> Env)
    requires IdsInOrder(db)
    requires forall u :: u in users ==> u in db.users
    requires forall i :: 0 <= i < |users| ==> envs(i).faults == {}
    ensures FixAll(db, users, envs) == db.(signing := RowsAfter(db.signing, users))
    decreases |users|
  {
    if users == [] {
      assert RowsAfter(db.signing, users) == db.signing;
    } else {
      var last := |users| - 1;
      var u := users[last];
      assert forall v :: v in users[..last] ==> v in users;
      PassStampsRows(db, users[..last], envs);
      FindListed(db.users, u);
      var rows := RowsAfter(db.signing, users[..last]);
      if FindSigning(rows, Key(u)).None? { RepairNothing(rows, u); }
      StampLast(db.signing, users);
    }
  }

  lemma StampLast(rows: seq<Signing>, users: seq<User>)
    requires users != []
    ensures RepairRows(RowsAfter(rows, users[..|users| - 1]), users[|users| - 1]) == RowsAfter(rows, users)
  {
    var init, u := users[..|users| - 1], users[|users| - 1];
    forall i | 0 <= i < |rows|
      ensures RepairRows(RowsAfter(rows, init), u)[i] == RowAfter(rows[i], users)
    {
      LastOwnerIff(init, rows[i][InspectorId]);
    }
  }

  // ----- Convergence --------------------------------------------------------------------------

  function NoFaults(now: int): nat -> Env { _ => Env({}, now) }

  function RepairAll(db: StaffDb, now: int): StaffDb { FixAll(db, db.users, NoFaults(now)) }

  /** Users sharing the UserID of a signing row agree on name and department. */
  predicate OwnersAgree(db: StaffDb) {
    forall u, v :: u in db.users && v in db.users && Key(u) == Key(v) && FindSigning(db.signing, Key(u)).Some? ==>
      Column(u, "UserName") == Column(v, "UserName") && Column(u, "Department") == Column(v, "Department")
  }

  lemma ConsistentAfter(db: StaffDb, now: int, u: User)
    requires IdsInOrder(db) && u in db.users
    ensures Consistent(RepairAll(db, now), u.id) <==>
            (FindSigning(db.signing, Key(u)).Some? ==>
               && LastOwner(db.users, Key(u)).Some?
               && Column(LastOwner(db.users, Key(u)).value, "UserName") == Column(u, "UserName")
               && Column(LastOwner(db.users, Key(u)).value, "Department") == Column(u, "Department"))
  {
    PassStampsRows(db, db.users, NoFaults(now));
    FindListed(db.users, u);
    var rows := RowsAfter(db.signing, db.users);
    FindInStamped(db.signing, db.users, Key(u));
    LastOwnerIff(db.users, Key(u));
    FindSigningIff(db.signing, Key(u));
  }

  lemma {:induction false} FindInStamped(rows: seq<Signing>, users: seq<User>, owner: Cell)
    ensures FindSigning(RowsAfter(rows, users), owner)
            == var found := FindSigning(rows, owner);
               if found.Some? then Some(RowAfter(found.value, users)) else None
    decreases |rows|
  {
    if rows != [] {
      LastOwnerIff(users, rows[0][InspectorId]);
      assert RowsAfter(rows, users)[1..] == RowsAfter(rows[1..], users);
      FindInStamped(rows[1..], users, owner);
    }
  }

  /** With no statement failing, repairing everyone makes everyone consistent exactly when users that
      share the UserID of a signing row agree on name and department; distinct UserIDs always do. */
  lemma RepairConvergesIff(db: StaffDb, now: int)
    requires IdsInOrder(db)
    ensures (forall u :: u in db.users ==> Consistent(RepairAll(db, now), u.id)) <==> OwnersAgree(db)
  {
    forall u | u in db.users
      ensures Consistent(RepairAll(db, now), u.id) <==>
              (FindSigning(db.signing, Key(u)).Some? ==>
                 && LastOwner(db.users, Key(u)).Some?
                 && Column(LastOwner(db.users, Key(u)).value, "UserName") == Column(u, "UserName")
                 && Column(LastOwner(db.users, Key(u)).value, "Department") == Column(u, "Department"))
      ensures FindSigning(db.signing, Key(u)).Some? ==>
                && LastOwner(db.users, Key(u)).Some?
                && LastOwner(db.users, Key(u)).value in db.users && Key(LastOwner(db.users, Key(u)).value) == Key(u)
    {
      ConsistentAfter(db, now, u);
      LastOwnerIff(db.users, Key(u));
      FindSigningIff(db.signing, Key(u));
    }
  }

  /** In particular, pairwise distinct UserIDs are enough. */
  lemma RepairConverges(db: StaffDb, now: int)
    requires IdsInOrder(db)
    requires forall i, j :: 0 <= i < j < |db.users| && Key(db.users[i]) != Null ==> Key(db.users[i]) != Key(db.users[j])
    ensures forall u :: u in db.users ==> Consistent(RepairAll(db, now), u.id)
  {
    RepairConvergesIff(db, now);
    forall u, v | u in db.users && v in db.users && Key(u) == Key(v) && FindSigning(db.signing, Key(u)).Some?
      ensures u == v
    {
      FindSigningIff(db.signing, Key(u));
    }
  }

  lemma StampsOnce(row: Signing, u: User)
    ensures Stamped(Stamped(row, u), u) == Stamped(row, u) && Stamped(row, u)[InspectorId] == Key(u)
  {}

  lemma RowsAfterTwice(rows: seq<Signing>, users: seq<User>)
    ensures RowsAfter(RowsAfter(rows, users), users) == RowsAfter(rows, users)
  {
    forall i | 0 <= i < |rows| ensures RowAfter(RowAfter(rows[i], users), users) == RowAfter(rows[i], users) {
      LastOwnerIff(users, rows[i][InspectorId]);
      var u := LastOwner(users, rows[i][InspectorId]);
      if u.Some? { StampsOnce(rows[i], u.value); }
    }
  }

  /** A second pass changes nothing, whoever shares a UserID with whom. */
  lemma RepairIsIdempotent(db: StaffDb, now: int, later: int)
    requires IdsInOrder(db)
    ensures RepairAll(RepairAll(db, now), later) == RepairAll(db, now)
  {
    PassStampsRows(db, db.users, NoFaults(now));
    var once := RepairAll(db, now);
    PassStampsRows(once, once.users, NoFaults(later));
    RowsAfterTwice(db.signing, db.users);
  }

  /** Whatever statements fail, a pass leaves the users alone, keeps every signing row in place with
      its owner and its details, and only ever changes the name and department columns. */
  lemma {:induction false} PassKeepsDetails(db: StaffDb, users: seq<User>, envs: nat -> Env)
    ensures var after := FixAll(db, users, envs);
            && after.users == db.users && after.nextId == db.nextId
            && |after.signing| == |db.signing|
            && forall i, c :: 0 <= i < |db.signing| && c !in {InspectorName, DepartmentName, DepartmentAbbr} ==>
                 after.signing[i][c] == db.signing[i][c]
    decreases |users|
  {
    if users != [] { PassKeepsDetails(db, users[..|users| - 1], envs); }
  }
}
