/** What the administration requests store, with request keys and columns by their names. */
module RequestEffects {
  import opened Outcomes
  import opened StaffStore
  import opened SqlUpdate
  import opened UserTable
  import opened Staff
  import opened Repair
  import opened Administration
  import opened Agreement
  import opened SigningRuns
  import opened BulkImport
  import opened ImportedLines

  // ----- Updating -------------------------------------------------------------------------------

  /** The request gives a value, not NULL, for a key. */
  predicate Gives(data: Dict, key: string) { Has(data, key) && Get(data, key, Null) != Null }

  /** The column has the value given for the key, or what it had. */
  predicate Takes(before: User, after: User, data: Dict, key: string, column: string) {
    Column(after, column) == if Gives(data, key) then Get(data, key, Null) else Column(before, column)
  }

  /** The password as it is stored: hashed, unless it is the empty text. */
  function Stored(password: Cell): Cell {
    if password.Txt? && password.s != "" then Hashed(password.s) else password
  }

  predicate GivesAny(data: Dict) {
    || Gives(data, "userName") || Gives(data, "userID") || Gives(data, "engName") || Gives(data, "email")
    || Gives(data, "password") || Gives(data, "priorityLevel") || Gives(data, "position")
    || Gives(data, "department") || Gives(data, "remark") || Gives(data, "isAtWork")
  }

  /** The columns an update request can change. */
  const UPDATED := {
    "UserName", "UserID", "EngName", "Email", "PriorityLevel", "Position", "Department", "Remark", "Password",
    "IsAtWork", "UpdateDate"
  }

  /** The row after an update, column by column. */
  ghost predicate Updates(before: User, after: User, data: Dict, now: int) {
    && after.id == before.id
    && Takes(before, after, data, "userName", "UserName") && Takes(before, after, data, "userID", "UserID")
    && Takes(before, after, data, "engName", "EngName") && Takes(before, after, data, "email", "Email")
    && Takes(before, after, data, "priorityLevel", "PriorityLevel")
    && Takes(before, after, data, "position", "Position") && Takes(before, after, data, "department", "Department")
    && Takes(before, after, data, "remark", "Remark")
    && Column(after, "Password")
       == (if Gives(data, "password") then Stored(Get(data, "password", Null)) else Column(before, "Password"))
    && Column(after, "IsAtWork")
       == (if Gives(data, "isAtWork") then Num(if Truthy(Get(data, "isAtWork", Null)) then 1 else 0)
           else Column(before, "IsAtWork"))
    && Column(after, "UpdateDate") == (if GivesAny(data) then Time(now) else Column(before, "UpdateDate"))
    && forall column :: column !in UPDATED ==> Column(after, column) == Column(before, column)
  }

  /** Any of the first nine columns but the password, by its place in the mapping. */
  lemma ColumnTakes(u: User, data: Dict, now: int, i: nat)
    requires i < 9 && i != 4 && Hashable(BackendFields(data))
    ensures Takes(u, UpdatedRow(u, BackendFields(data), now), data, FIELD_MAPPING[i].0, FIELD_MAPPING[i].1)
  {
    Translated(data, i);
    PlainColumn(i);
    HashedValue(BackendFields(data), FIELD_MAPPING[i].1);
    KeptColumn(u, BackendFields(data), now, FIELD_MAPPING[i].1);
  }

  lemma PlainColumn(i: nat)
    requires i < 9 && i != 4
    ensures FIELD_MAPPING[i].1 in SYS_USER_FIELDS - {"isAtWork", "Password"}
  {}

  /** What a hashed dictionary says about a key: the same, and for the password what is stored. */
  lemma HashedValue(fields: Dict, key: string)
    requires Hashable(fields)
    ensures Has(HashPassword(fields), key) <==> Has(fields, key)
    ensures Get(HashPassword(fields), key, Null)
            == if key == "Password" then Stored(Get(fields, key, Null)) else Get(fields, key, Null)
  {
    HashKeepsHas(fields, key);
    if key == "Password" { HashStores(fields); } else { HashKeepsGet(fields, key, Null); }
  }

  lemma HashStores(fields: Dict)
    requires Hashable(fields)
    ensures Get(HashPassword(fields), "Password", Null) == Stored(Get(fields, "Password", Null))
  {
    var given := Get(fields, "Password", Null);
    if Truthy(given) {
      GetIff(fields, "Password", Null);
      var i :| 0 <= i < |fields| && fields[i] == ("Password", given);
      assert HashPassword(fields)[i] == ("Password", Hashed(given.s));
      GetIsUnique(HashPassword(fields), "Password", Hashed(given.s), Null);
    }
  }

  /** A given value is set. */
  lemma GivenIsSettable(fields: Dict, key: string)
    requires key in SYS_USER_FIELDS && Has(fields, key) && Get(fields, key, Null) != Null
    ensures AnythingToSet(fields)
  {
    GetIff(fields, key, Null);
    var i :| 0 <= i < |fields| && fields[i] == (key, Get(fields, key, Null));
    assert |"ID"| == 2 && key != "ID";
    assert Settable(fields[i].0, fields[i].1);
  }

  /** What an update leaves in a column, a password stored as it is stored. */
  lemma KeptColumn(u: User, fields: Dict, now: int, column: string)
    requires Hashable(fields) && column in SYS_USER_FIELDS - {"isAtWork"}
    ensures var hashed := HashPassword(fields);
            Column(UpdatedRow(u, fields, now), column)
            == if Has(hashed, column) && Get(hashed, column, Null) != Null then Get(hashed, column, Null)
               else Column(u, column)
  {
    var hashed := HashPassword(fields);
    if AnythingToSet(hashed) {
      OverwrittenColumn(u.cols, hashed, now, column);
    } else if Has(hashed, column) && Get(hashed, column, Null) != Null {
      GivenIsSettable(hashed, column);
    }
  }

  /** The work status, which has a column of its own name. */
  lemma KeptStatus(u: User, fields: Dict, now: int)
    requires Hashable(fields)
    ensures var hashed := HashPassword(fields);
            Column(UpdatedRow(u, fields, now), "IsAtWork")
            == if Has(hashed, "isAtWork") && Get(hashed, "isAtWork", Null) != Null
               then Num(if Truthy(Get(hashed, "isAtWork", Null)) then 1 else 0)
               else Column(u, "IsAtWork")
  {
    var hashed := HashPassword(fields);
    assert "isAtWork" in SYS_USER_FIELDS && "IsAtWork" != "isAtWork" && |STAMP_COLUMN| == 10;
    if AnythingToSet(hashed) {
      OverwriteAt(u.cols, hashed, now, "IsAtWork");
    } else if Has(hashed, "isAtWork") && Get(hashed, "isAtWork", Null) != Null {
      GivenIsSettable(hashed, "isAtWork");
    }
  }

  lemma KeptStamp(u: User, fields: Dict, now: int)
    requires Hashable(fields)
    ensures Column(UpdatedRow(u, fields, now), "UpdateDate")
            == if AnythingToSet(HashPassword(fields)) then Time(now) else Column(u, "UpdateDate")
  {
    if AnythingToSet(HashPassword(fields)) { OverwriteAt(u.cols, HashPassword(fields), now, "UpdateDate"); }
  }

  lemma PasswordTakes(u: User, data: Dict, now: int)
    requires Hashable(BackendFields(data))
    ensures Column(UpdatedRow(u, BackendFields(data), now), "Password")
            == if Gives(data, "password") then Stored(Get(data, "password", Null)) else Column(u, "Password")
  {
    assert FIELD_MAPPING[4] == ("password", "Password");
    Translated(data, 4);
    HashedValue(BackendFields(data), "Password");
    KeptColumn(u, BackendFields(data), now, "Password");
  }

  lemma StatusTakes(u: User, data: Dict, now: int)
    requires Hashable(BackendFields(data))
    ensures Column(UpdatedRow(u, BackendFields(data), now), "IsAtWork")
            == if Gives(data, "isAtWork") then Num(if Truthy(Get(data, "isAtWork", Null)) then 1 else 0)
               else Column(u, "IsAtWork")
  {
    assert FIELD_MAPPING[9] == ("isAtWork", "isAtWork");
    Translated(data, 9);
    assert "isAtWork" != "Password";
    HashedValue(BackendFields(data), "isAtWork");
    KeptStatus(u, BackendFields(data), now);
  }

  /** Something is set exactly when a value is given for one of the mapped keys. */
  lemma SetsIff(data: Dict)
    requires Hashable(BackendFields(data))
    ensures AnythingToSet(HashPassword(BackendFields(data)))
            <==> exists i :: 0 <= i < |FIELD_MAPPING| && Gives(data, FIELD_MAPPING[i].0)
  {
    var fields := BackendFields(data);
    var hashed := HashPassword(fields);
    if AnythingToSet(hashed) {
      var j :| 0 <= j < |hashed| && Settable(hashed[j].0, hashed[j].1);
      var key := fields[j].0;
      assert fields[j] == (key, fields[j].1) && hashed[j] == (key, hashed[j].1);
      GetIsUnique(fields, key, fields[j].1, Null);
      GetIsUnique(hashed, key, hashed[j].1, Null);
      HashedValue(fields, key);
      MappedPairs(FIELD_MAPPING, data, fields[j]);
    }
    if i :| 0 <= i < |FIELD_MAPPING| && Gives(data, FIELD_MAPPING[i].0) {
      Translated(data, i);
      MappedIsSettable(i);
      HashedValue(fields, FIELD_MAPPING[i].1);
      GivenIsSettable(hashed, FIELD_MAPPING[i].1);
    }
  }

  lemma MappedIsSettable(i: nat)
    requires i < |FIELD_MAPPING|
    ensures FIELD_MAPPING[i].1 in SYS_USER_FIELDS
  {}

  lemma GivesAnyIff(data: Dict)
    ensures GivesAny(data) <==> exists i :: 0 <= i < |FIELD_MAPPING| && Gives(data, FIELD_MAPPING[i].0)
  {
    var m := FIELD_MAPPING;
    assert m[0].0 == "userName" && m[1].0 == "userID" && m[2].0 == "engName" && m[3].0 == "email";
    assert m[4].0 == "password" && m[5].0 == "priorityLevel" && m[6].0 == "position";
    assert m[7].0 == "department" && m[8].0 == "remark" && m[9].0 == "isAtWork";
  }

  lemma StampTakes(u: User, data: Dict, now: int)
    requires Hashable(BackendFields(data))
    ensures Column(UpdatedRow(u, BackendFields(data), now), "UpdateDate")
            == if GivesAny(data) then Time(now) else Column(u, "UpdateDate")
  {
    GivesAnyIff(data);
    SetsIff(data);
    KeptStamp(u, BackendFields(data), now);
  }

  lemma MappedIsUpdated(i: nat)
    requires i < |FIELD_MAPPING|
    ensures ColumnFor(FIELD_MAPPING[i].1) in UPDATED
  {}

  /** A column no request key stands for stays. */
  lemma OtherStays(u: User, data: Dict, now: int, column: string)
    requires Hashable(BackendFields(data)) && column !in UPDATED
    ensures Column(UpdatedRow(u, BackendFields(data), now), column) == Column(u, column)
  {
    var fields := BackendFields(data);
    var hashed := HashPassword(fields);
    assert STAMP_COLUMN in UPDATED;
    if AnythingToSet(hashed) {
      OverwriteAt(u.cols, hashed, now, column);
      if NewValue(hashed, column).Some? {
        HashKeepsHas(fields, KeyFor(column));
        var j :| 0 <= j < |fields| && fields[j].0 == KeyFor(column);
        assert fields[j] == (fields[j].0, fields[j].1);
        MappedPairs(FIELD_MAPPING, data, fields[j]);
        var i :| 0 <= i < |FIELD_MAPPING| && FIELD_MAPPING[i].1 == KeyFor(column);
        MappedIsUpdated(i);
        assert false;
      }
    }
  }

  /** Any row but the target's is untouched, and the target's is updated column by column. */
  lemma RowUpdates(u: User, data: Dict, now: int)
    requires Hashable(BackendFields(data))
    ensures Updates(u, UpdatedRow(u, BackendFields(data), now), data, now)
  {
    var after := UpdatedRow(u, BackendFields(data), now);
    forall i: nat | i < 9 && i != 4 ensures Takes(u, after, data, FIELD_MAPPING[i].0, FIELD_MAPPING[i].1) {
      ColumnTakes(u, data, now, i);
    }
    var m := FIELD_MAPPING;
    assert Takes(u, after, data, m[0].0, m[0].1) && Takes(u, after, data, m[1].0, m[1].1);
    assert Takes(u, after, data, m[2].0, m[2].1) && Takes(u, after, data, m[3].0, m[3].1);
    assert Takes(u, after, data, m[5].0, m[5].1) && Takes(u, after, data, m[6].0, m[6].1);
    assert Takes(u, after, data, m[7].0, m[7].1) && Takes(u, after, data, m[8].0, m[8].1);
    PasswordTakes(u, data, now);
    StatusTakes(u, data, now);
    StampTakes(u, data, now);
    forall column | column !in UPDATED ensures Column(after, column) == Column(u, column) {
      OtherStays(u, data, now, column);
    }
  }

  lemma UpdatedUsers(db: StaffDb, id: nat, data: UserData, env: Env)
    requires UpdateUser(db, id, data, env).outcome.Updated?
    ensures var after := UpdateUser(db, id, data, env).db;
            && Hashable(data.fields) && after.nextId == db.nextId && |after.users| == |db.users|
            && forall i :: 0 <= i < |db.users| ==>
                 after.users[i] == if db.users[i].id == id then UpdatedRow(db.users[i], data.fields, env.now)
                                   else db.users[i]
  {}

  /** An update request that succeeds: every column of the target's row holds the value given for it, a
      password hashed, the work status as 1 or 0, or what it held when none or NULL is given; the time
      stamp is set exactly when something is; every other user is as it was. */
  lemma UpdateStoresRequest(db: StaffDb, operator: nat, target: nat, data: Dict, signing: Row, env: Env)
    requires ServeUpdate(db, operator, target, data, signing, env).response.Ok?
    ensures var after := ServeUpdate(db, operator, target, data, signing, env).db;
            && after.nextId == db.nextId && |after.users| == |db.users|
            && forall i :: 0 <= i < |db.users| ==>
                 if db.users[i].id == target then Updates(db.users[i], after.users[i], data, env.now)
                 else after.users[i] == db.users[i]
  {
    UpdateComes(db, operator, target, data, signing, env);
    UpdatedUsers(db, target, UserData(BackendFields(data), signing), env);
    forall i | 0 <= i < |db.users| { RowUpdates(db.users[i], data, env.now); }
  }

  lemma UpdateComes(db: StaffDb, operator: nat, target: nat, data: Dict, signing: Row, env: Env)
    requires ServeUpdate(db, operator, target, data, signing, env).response.Ok?
    ensures UpdateUser(db, target, UserData(BackendFields(data), signing), env).outcome.Updated?
    ensures ServeUpdate(db, operator, target, data, signing, env).db
            == UpdateUser(db, target, UserData(BackendFields(data), signing), env).db
  {}

  // ----- Creating -------------------------------------------------------------------------------

  /** The password a create request stores: the one given, or the last six characters of the UserID. */
  function NewPassword(data: Dict): Cell {
    var given, key := Get(data, "password", Txt("")), Get(data, "userID", Null);
    if Truthy(given) then Stored(given) else if key.Txt? then Stored(Txt(LastSix(key.s))) else Null
  }

  /** The new user's row, column by column. */
  predicate Creates(u: User, data: Dict, now: int) {
    && Column(u, "UserName") == Get(data, "userName", Null) && Column(u, "UserID") == Get(data, "userID", Null)
    && Column(u, "EngName") == Get(data, "engName", Txt("")) && Column(u, "Email") == Get(data, "email", Null)
    && Column(u, "PriorityLevel") == Get(data, "priorityLevel", Null)
    && Column(u, "Position") == Get(data, "position", Txt("")) && Column(u, "Shift") == Null
    && Column(u, "Department") == Get(data, "department", Txt(""))
    && Column(u, "Remark") == Get(data, "remark", Txt("")) && Column(u, "Shifts") == Null
    && Column(u, "CreateDate") == Time(now) && Column(u, "Password") == NewPassword(data)
    && Column(u, "IsAtWork") == Num(if Truthy(Get(data, "isAtWork", Flag(true))) then 1 else 0)
  }

  /** A create request that succeeds appends one user with every column from the key it is for. */
  lemma CreateStoresColumns(db: StaffDb, operator: nat, data: Dict, signing: Row, env: Env)
    requires ServeCreate(db, operator, data, signing, env).response.Ok?
    ensures var users := ServeCreate(db, operator, data, signing, env).db.users;
            && |users| == |db.users| + 1 && users[..|db.users|] == db.users
            && users[|db.users|].id == db.nextId && Creates(users[|db.users|], data, env.now)
  {
    CreateStoresRequest(db, operator, data, signing, env);
    RequestedColumns(db.nextId, data, env.now);
  }

  lemma RequestedColumns(id: nat, data: Dict, now: int)
    ensures Creates(User(id, RequestedRow(data, now)), data, now)
  {
    var given, key := Get(data, "password", Txt("")), Get(data, "userID", Null);
    var password := if Truthy(given) then given else if key.Txt? then Txt(DefaultPassword(key.s)) else Null;
    UserRowHolds(NewCells(
      Get(data, "userName", Null), key, Get(data, "engName", Txt("")), Get(data, "email", Null),
      StoredPassword(password), Get(data, "priorityLevel", Null), Get(data, "position", Txt("")), Null,
      Get(data, "department", Txt("")), Get(data, "remark", Txt("")), Null,
      Truthy(Get(data, "isAtWork", Flag(true)))), now);
  }

  /** With no statement failing, a create request succeeds exactly for an operator, with the four required
      keys, below level 3 for a department of the operator's prefix, with a password that is a text or
      a UserID to make one from, and with a UserID that is not taken. */
  lemma CreateGoesThroughIff(db: StaffDb, operator: nat, data: Dict, signing: Row, env: Env)
    requires env.faults == {}
    ensures ServeCreate(db, operator, data, signing, env).response.Ok? <==>
              && Authorized(db, operator, 1)
              && Has(data, "userName") && Has(data, "userID") && Has(data, "email") && Has(data, "priorityLevel")
              && (OperatorLevelIn(db, operator) >= 3
                  || (DepartmentPrefix(db, operator).Some?
                      && DepartmentPrefix(db, operator) == PrefixOf(Get(data, "department", Txt("")))))
              && (if Truthy(Get(data, "password", Txt(""))) then Get(data, "password", Txt("")).Txt?
                  else Get(data, "userID", Null).Txt?)
              && FindByUserId(db.users, Get(data, "userID", Null)).None?
  {
    RequiredIff(data);
    if PasswordFor(data).Some? { PreparedPassword(data, PasswordFor(data).value); }
  }

  lemma RequiredIff(data: Dict)
    ensures (forall key :: key in REQUIRED_FIELDS ==> Has(data, key)) <==>
            Has(data, "userName") && Has(data, "userID") && Has(data, "email") && Has(data, "priorityLevel")
  {
    assert REQUIRED_FIELDS[0] in REQUIRED_FIELDS && REQUIRED_FIELDS[1] in REQUIRED_FIELDS
           && REQUIRED_FIELDS[2] in REQUIRED_FIELDS && REQUIRED_FIELDS[3] in REQUIRED_FIELDS;
  }

  lemma PreparedPassword(data: Dict, password: Cell)
    ensures Get(NewFields(data, password), "Password", Null) == password
    ensures Get(NewFields(data, password), "UserID", Null) == Get(data, "userID", Null)
  {
    PreparedGet(data, password);
    GetIsUnique(NewFields(data, password), "Password", NewFields(data, password)[4].1, Null);
  }

  // ----- Deleting and importing -----------------------------------------------------------------

  lemma {:induction false} WithoutOne(users: seq<User>, j: nat)
    requires j < |users| && forall i, k :: 0 <= i < k < |users| ==> users[i].id < users[k].id
    ensures WithoutUser(users, users[j].id) == users[..j] + users[j + 1..]
    decreases |users|
  {
    if j > 0 {
      WithoutOne(users[1..], j - 1);
      assert users[..j] + users[j + 1..] == [users[0]] + (users[1..][..j - 1] + users[1..][j..]);
    } else {
      WithoutNone(users[1..], users[0].id);
      assert users[..0] + users[1..] == users[1..];
    }
  }

  lemma {:induction false} WithoutNone(users: seq<User>, id: nat)
    requires forall u :: u in users ==> u.id != id
    ensures WithoutUser(users, id) == users
    decreases |users|
  {
    if users != [] { WithoutNone(users[1..], id); }
  }

  /** A delete request that succeeds removes the target's row and no other. */
  lemma DeleteRemovesOne(db: StaffDb, operator: nat, target: nat, env: Env)
    requires IdsInOrder(db) && ServeDelete(db, operator, target, env).response.Ok?
    ensures exists j :: 0 <= j < |db.users| && db.users[j].id == target
                        && ServeDelete(db, operator, target, env).db.users == db.users[..j] + db.users[j + 1..]
  {
    FindByIdIff(db.users, target);
    var j :| 0 <= j < |db.users| && db.users[j].id == target;
    WithoutOne(db.users, j);
  }

  /** An import request is answered Ok exactly for an operator of level 1 or 2 whose department is text,
      with a file of 23 columns; the lines are then imported under the department's prefix. */
  lemma ImportGoesThroughIff(db: StaffDb, operator: nat, headers: CsvRow, rows: seq<CsvRow>, env: Env, envs: nat -> Env)
    requires OperatorLookup !in env.faults
    ensures var r := ServeImport(db, operator, headers, rows, env, envs);
            && (r.response.Ok? <==> Authorized(db, operator, 1) && OperatorLevelIn(db, operator) <= 2
                                    && DepartmentPrefix(db, operator).Some? && |headers| >= 23)
            && (!r.response.Ok? ==> r.db == db)
            && (r.response.Ok? ==> r.db == ImportRows(db, rows, DepartmentPrefix(db, operator).value, envs).db)
  {}

  // ----- Operators and refusals -----------------------------------------------------------------

  /** An operator's level and department are those of its own row; it may act from level 1 on, and the
      prefix of its department is the first three characters. */
  lemma OperatorInWords(db: StaffDb, u: User)
    requires IdsInOrder(db) && u in db.users
    ensures Authorized(db, u.id, 1)
            <==> NumberOf(Column(u, "PriorityLevel")).Some? && NumberOf(Column(u, "PriorityLevel")).value >= 1
    ensures Authorized(db, u.id, 1) ==> Some(OperatorLevelIn(db, u.id)) == NumberOf(Column(u, "PriorityLevel"))
    ensures Column(u, "Department").Txt? ==>
              var department := Column(u, "Department").s;
              DepartmentPrefix(db, u.id) == Some(if |department| <= 3 then department else department[..3])
    ensures Column(u, "Department") == Null ==> DepartmentPrefix(db, u.id) == Some("")
  {
    FindListed(db.users, u);
  }

  lemma NobodyIsAuthorized(db: StaffDb, operator: nat)
    requires forall u :: u in db.users ==> u.id != operator
    ensures !Authorized(db, operator, 1)
  {
    FindByIdIff(db.users, operator);
  }

  /** Why a create request is refused, no statement failing: 403 without authority or for another
      department, 400 for a missing key or a taken UserID, 500 for a value of the wrong kind; a refused
      request changes nothing. */
  lemma CreateRefusals(db: StaffDb, operator: nat, data: Dict, signing: Row, env: Env)
    requires env.faults == {}
    ensures var r := ServeCreate(db, operator, data, signing, env);
            var complete := Has(data, "userName") && Has(data, "userID") && Has(data, "email")
                            && Has(data, "priorityLevel");
            var own, wanted := DepartmentPrefix(db, operator), PrefixOf(Get(data, "department", Txt("")));
            var bound := OperatorLevelIn(db, operator) < 3;
            var inside := !bound || (own.Some? && own == wanted);
            var given := Get(data, "password", Txt(""));
            var hasPassword := Truthy(given) || Get(data, "userID", Null).Txt?;
            var taken := FindByUserId(db.users, Get(data, "userID", Null)).Some?;
            && (!r.response.Ok? ==> r.db == db)
            && (!Authorized(db, operator, 1) ==> r.response == Refused(403))
            && (Authorized(db, operator, 1) && !complete ==> r.response == Refused(400))
            && (Authorized(db, operator, 1) && complete && bound && own.Some? && wanted.Some? && own != wanted ==>
                  r.response == Refused(403))
            && (Authorized(db, operator, 1) && complete && inside && hasPassword && taken ==>
                  r.response == Refused(400))
            && (!r.response.Ok? ==> r.response in {Refused(400), Refused(403), Refused(500)})
  {
    RequiredIff(data);
    if PasswordFor(data).Some? { PreparedPassword(data, PasswordFor(data).value); }
  }

  /** The same for an update request: 403 without authority, for another department or a level above the
      operator's; 404 for a user that is not there; 500 for a value of the wrong kind. */
  lemma UpdateRefusals(db: StaffDb, operator: nat, target: nat, data: Dict, signing: Row, env: Env)
    requires env.faults == {}
    ensures var r := ServeUpdate(db, operator, target, data, signing, env);
            var fields := BackendFields(data);
            && (!r.response.Ok? ==> r.db == db)
            && (!Authorized(db, operator, 1) ==> r.response == Refused(403))
            && (r.response == Refused(404) ==> FindById(db.users, target).None?)
            && (Authorized(db, operator, 1) && FindById(db.users, target).None? ==>
                  r.response == Refused(404)
                  || (OperatorLevelIn(db, operator) >= 3 && Has(fields, "PriorityLevel")
                      && r.response == if NumberOf(Get(fields, "PriorityLevel", Null)).None? then Refused(500)
                                       else Refused(403)))
            && (!r.response.Ok? ==> r.response in {Refused(403), Refused(404), Refused(500)})
  {}

  /** The same for a delete request: 400 for one's own account, 404 for a user that is not there, 403
      without authority, for another department or a higher level. */
  lemma DeleteRefusals(db: StaffDb, operator: nat, target: nat, env: Env)
    requires env.faults == {}
    ensures var r := ServeDelete(db, operator, target, env);
            && (!r.response.Ok? ==> r.db == db)
            && (!Authorized(db, operator, 1) ==> r.response == Refused(403))
            && (Authorized(db, operator, 1) && operator == target ==> r.response == Refused(400))
            && (Authorized(db, operator, 1) && operator != target && FindById(db.users, target).None? ==>
                  r.response == Refused(404))
            && (Authorized(db, operator, 1) && operator != target && FindById(db.users, target).Some? ==>
                  r.response == Ok || r.response in {Refused(403), Refused(500)})
  {}
}
