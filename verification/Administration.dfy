/** The user administration endpoints of `routes/auth_routes.py`: guarded steps over the two tables. */
module Administration {
  import opened Outcomes
  import opened Database
  import opened StaffStore
  import opened UserTable
  import opened Staff
  import opened BulkImport

  /** Success, or the status of the error answered. */
  datatype Response = Ok | Refused(status: nat)

  datatype Served = Served(db: StaffDb, response: Response)

  /** Request keys and the columns they stand for. */
  const FIELD_MAPPING: seq<(string, string)> := [
    ("userName", "UserName"), ("userID", "UserID"), ("engName", "EngName"), ("email", "Email"),
    ("password", "Password"), ("priorityLevel", "PriorityLevel"), ("position", "Position"),
    ("department", "Department"), ("remark", "Remark"), ("isAtWork", "isAtWork")
  ]

  const REQUIRED_FIELDS := ["userName", "userID", "email", "priorityLevel"]

  function MapFields(mapping: seq<(string, string)>, data: Dict): seq<(string, Cell)>
    decreases |mapping|
  {
    if mapping == [] then []
    else
      var (key, column) := mapping[|mapping| - 1];
      MapFields(mapping[..|mapping| - 1], data) + if Has(data, key) then [(column, Get(data, key, Null))] else []
  }

  /** The translated fields of an update request. */
  function BackendFields(data: Dict): Dict {
    MappedKeysDistinct(data);
    MapFields(FIELD_MAPPING, data)
  }

  /** The translated fields of a create request, with the defaults it fills in. */
  function NewFields(data: Dict, password: Cell): Dict {
    [("UserName", Get(data, "userName", Null)), ("UserID", Get(data, "userID", Null)),
     ("EngName", Get(data, "engName", Txt(""))), ("Email", Get(data, "email", Null)), ("Password", password),
     ("PriorityLevel", Get(data, "priorityLevel", Null)), ("Position", Get(data, "position", Txt(""))),
     ("Department", Get(data, "department", Txt(""))), ("Remark", Get(data, "remark", Txt(""))),
     ("isAtWork", Get(data, "isAtWork", Flag(true)))]
  }

  /** `check_priority_level(user, required)`, the guard in front of every endpoint. */
  predicate Authorized(db: StaffDb, operator: nat, required: int) {
    var user := FindById(db.users, operator);
    user.Some? && Level(user.value).Some? && Level(user.value).value >= required
  }

  function OperatorLevel(db: StaffDb, operator: nat): int
    requires Authorized(db, operator, 1)
  {
    Level(FindById(db.users, operator).value).value
  }

  function DepartmentPrefix(db: StaffDb, id: nat): Option<string> {
    var user := FindById(db.users, id);
    if user.Some? then PrefixOf(Column(user.value, "Department")) else None
  }

  // ----- What each endpoint comes to ----------------------------------------------------------

  /** The department check of a create request: nothing to object, or the status answered. */
  function CreateObjection(db: StaffDb, operator: nat, data: Dict): Option<nat>
    requires Authorized(db, operator, 1)
  {
    var own, wanted := DepartmentPrefix(db, operator), PrefixOf(Get(data, "department", Txt("")));
    if OperatorLevel(db, operator) >= 3 then None
    else if own.None? || wanted.None? then Some(500)
    else if own != wanted then Some(403)
    else None
  }

  /** The given password, or the last six characters of the UserID; `None` for the TypeError. */
  function PasswordFor(data: Dict): Option<Cell> {
    var given, key := Get(data, "password", Txt("")), Get(data, "userID", Null);
    if Truthy(given) then Some(given)
    else if key.Txt? then Some(Txt(DefaultPassword(key.s)))
    else None
  }

  function ServeCreate(db: StaffDb, operator: nat, data: Dict, signing: Row, env: Env): Served {
    if !Authorized(db, operator, 1) then Served(db, Refused(403))
    else if exists key :: key in REQUIRED_FIELDS && !Has(data, key) then Served(db, Refused(400))
    else if OperatorLookup in env.faults then Served(db, Refused(500))
    else if CreateObjection(db, operator, data).Some?
    then Served(db, Refused(CreateObjection(db, operator, data).value))
    else if PasswordFor(data).None? then Served(db, Refused(500))
    else
      var added := AddUser(db, UserData(NewFields(data, PasswordFor(data).value), signing), env);
      Served(added.db, match added.outcome
                       case Created(_) => Ok case Exists => Refused(400) case Failed => Refused(500))
  }

  /** The department and level checks of an update request. */
  function UpdateObjection(db: StaffDb, operator: nat, target: nat, fields: Dict, env: Env): Option<nat>
    requires Authorized(db, operator, 1)
  {
    var level := OperatorLevel(db, operator);
    var own, theirs := DepartmentPrefix(db, operator), DepartmentPrefix(db, target);
    var wanted := PrefixOf(Get(fields, "Department", Null));
    var asked := NumberOf(Get(fields, "PriorityLevel", Null));
    if level < 3 && TargetLookup in env.faults then Some(500)
    else if level < 3 && FindById(db.users, target).None? then Some(404)
    else if level < 3 && (own.None? || theirs.None?) then Some(500)
    else if level < 3 && own != theirs && target != operator then Some(403)
    else if level < 3 && Has(fields, "Department") && wanted.None? then Some(500)
    else if level < 3 && Has(fields, "Department") && wanted != own then Some(403)
    else if Has(fields, "PriorityLevel") && asked.None? then Some(500)
    else if Has(fields, "PriorityLevel") && asked.value > level then Some(403)
    else None
  }

  function ServeUpdate(db: StaffDb, operator: nat, target: nat, data: Dict, signing: Row, env: Env): Served {
    if !Authorized(db, operator, 1) then Served(db, Refused(403))
    else if OperatorLookup in env.faults then Served(db, Refused(500))
    else
      var fields := BackendFields(data);
      var objection := UpdateObjection(db, operator, target, fields, env);
      if objection.Some? then Served(db, Refused(objection.value))
      else
        var changed := UpdateUser(db, target, UserData(fields, signing), env);
        Served(changed.db, match changed.outcome
                           case Updated => Ok case NotFound => Refused(404) case UpdateFailed => Refused(500))
  }

  /** The department and level checks of a delete request. */
  function DeleteObjection(db: StaffDb, operator: nat, target: nat): Option<nat>
    requires Authorized(db, operator, 1) && FindById(db.users, target).Some?
  {
    var level := OperatorLevel(db, operator);
    var own, theirs := DepartmentPrefix(db, operator), DepartmentPrefix(db, target);
    var targetLevel := Level(FindById(db.users, target).value);
    if level < 3 && (own.None? || theirs.None?) then Some(500)
    else if level < 3 && own != theirs then Some(403)
    else if targetLevel.None? then Some(500)
    else if targetLevel.value > level then Some(403)
    else None
  }

  function ServeDelete(db: StaffDb, operator: nat, target: nat, env: Env): Served {
    if !Authorized(db, operator, 1) then Served(db, Refused(403))
    else if operator == target then Served(db, Refused(400))
    else if !(env.faults !! {OperatorLookup, TargetLookup}) then Served(db, Refused(500))
    else if FindById(db.users, target).None? then Served(db, Refused(404))
    else if DeleteObjection(db, operator, target).Some?
    then Served(db, Refused(DeleteObjection(db, operator, target).value))
    else
      var deleted := DeleteUser(db, target, env);
      Served(deleted.0, if deleted.1 then Ok else Refused(500))
  }

  /** The import endpoint, from the parsed lines on. */
  function ServeImport(db: StaffDb, operator: nat, headers: CsvRow, rows: seq<CsvRow>, env: Env,
                       envs: nat -> Env): Served {
    if !Authorized(db, operator, 1) then Served(db, Refused(403))
    else if OperatorLookup in env.faults || DepartmentPrefix(db, operator).None? then Served(db, Refused(500))
    else if OperatorLevel(db, operator) > 2 then Served(db, Refused(403))
    else if |headers| < COLUMNS then Served(db, Refused(400))
    else Served(ImportRows(db, rows, DepartmentPrefix(db, operator).value, envs).db, Ok)
  }

  // ----- Statement by statement ---------------------------------------------------------------

  method CreateUser(s: Session<StaffDb>, operator: nat, data: Dict, signing: Row, env: Env) returns (response: Response)
    requires s.work == s.saved
    modifies s
    ensures var r := ServeCreate(old(s.saved), operator, data, signing, env);
            response == r.response && s.View() == Tx(r.db, r.db)
  {
    if !Authorized(s.work, operator, 1) { return Refused(403); }
    for i := 0 to |REQUIRED_FIELDS|
      invariant forall j :: 0 <= j < i ==> Has(data, REQUIRED_FIELDS[j])
    {
      if !Has(data, REQUIRED_FIELDS[i]) { return Refused(400); }
    }
    if OperatorLookup in env.faults { return Refused(500); }
    var current := FindById(s.work.users, operator).value;
    var level := Level(current).value;
    if level < 3 {
      var own, wanted := PrefixOf(Column(current, "Department")), PrefixOf(Get(data, "department", Txt("")));
      if own.None? || wanted.None? { return Refused(500); }
      if wanted != own { return Refused(403); }
    }
    var password := Get(data, "password", Txt(""));
    if !Truthy(password) {
      var userId := Get(data, "userID", Null);
      if !userId.Txt? { return Refused(500); }
      password := Txt(DefaultPassword(userId.s));
    }
    var outcome := AddUserRecord(s, UserData(NewFields(data, password), signing), env);
    match outcome
    case Created(_) => return Ok;
    case Exists => return Refused(400);
    case Failed => return Refused(500);
  }

  method UpdateUserInfo(s: Session<StaffDb>, operator: nat, target: nat, data: Dict, signing: Row, env: Env)
      returns (response: Response)
    requires s.work == s.saved
    modifies s
    ensures var r := ServeUpdate(old(s.saved), operator, target, data, signing, env);
            response == r.response && s.View() == Tx(r.db, r.db)
  {
    if !Authorized(s.work, operator, 1) { return Refused(403); }
    var fields: seq<(string, Cell)> := [];
    for i := 0 to |FIELD_MAPPING|
      invariant fields == MapFields(FIELD_MAPPING[..i], data)
    {
      var (key, column) := FIELD_MAPPING[i];
      assert FIELD_MAPPING[..i + 1][..i] == FIELD_MAPPING[..i];
      if Has(data, key) { fields := fields + [(column, Get(data, key, Null))]; }
    }
    assert FIELD_MAPPING[..|FIELD_MAPPING|] == FIELD_MAPPING;
    assert fields == BackendFields(data);
    if OperatorLookup in env.faults { return Refused(500); }
    var current := FindById(s.work.users, operator).value;
    var level := Level(current).value;
    if level < 3 {
      if TargetLookup in env.faults { return Refused(500); }
      var user := FindById(s.work.users, target);
      if user.None? { return Refused(404); }
      var own, theirs := PrefixOf(Column(current, "Department")), PrefixOf(Column(user.value, "Department"));
      if own.None? || theirs.None? { return Refused(500); }
      if theirs != own && target != operator { return Refused(403); }
      if Has(fields, "Department") {
        var wanted := PrefixOf(Get(fields, "Department", Null));
        if wanted.None? { return Refused(500); }
        if wanted != own { return Refused(403); }
      }
    }
    if Has(fields, "PriorityLevel") {
      var asked := NumberOf(Get(fields, "PriorityLevel", Null));
      if asked.None? { return Refused(500); }
      if asked.value > level { return Refused(403); }
    }
    var outcome := UpdateUserRecord(s, target, UserData(fields, signing), env);
    match outcome
    case Updated => return Ok;
    case NotFound => return Refused(404);
    case UpdateFailed => return Refused(500);
  }

  method DeleteUserAccount(s: Session<StaffDb>, operator: nat, target: nat, env: Env) returns (response: Response)
    requires s.work == s.saved
    modifies s
    ensures var r := ServeDelete(old(s.saved), operator, target, env);
            response == r.response && s.View() == Tx(r.db, r.db)
  {
    if !Authorized(s.work, operator, 1) { return Refused(403); }
    if operator == target { return Refused(400); }
    if OperatorLookup in env.faults || TargetLookup in env.faults { return Refused(500); }
    var current, user := FindById(s.work.users, operator).value, FindById(s.work.users, target);
    if user.None? { return Refused(404); }
    var level := Level(current).value;
    if level < 3 {
      var own, theirs := PrefixOf(Column(current, "Department")), PrefixOf(Column(user.value, "Department"));
      if own.None? || theirs.None? { return Refused(500); }
      if theirs != own { return Refused(403); }
    }
    if Level(user.value).None? { return Refused(500); }
    if Level(user.value).value > level { return Refused(403); }
    var ok := DeleteUserRecord(s, target, env);
    return if ok then Ok else Refused(500);
  }

  method BulkImportUsers(s: Session<StaffDb>, operator: nat, headers: CsvRow, rows: seq<CsvRow>, env: Env,
                         envs: nat -> Env)
      returns (response: Response, imported: seq<Entry>, errors: seq<(nat, RowError)>)
    requires s.work == s.saved
    modifies s
    ensures var r := ServeImport(old(s.saved), operator, headers, rows, env, envs);
            response == r.response && s.View() == Tx(r.db, r.db)
    ensures response.Ok? ==>
              var prefix := DepartmentPrefix(old(s.saved), operator);
              prefix.Some? && imported == ImportRows(old(s.saved), rows, prefix.value, envs).imported
              && errors == ImportRows(old(s.saved), rows, prefix.value, envs).errors
  {
    imported, errors := [], [];
    if !Authorized(s.work, operator, 1) { return Refused(403), [], []; }
    if OperatorLookup in env.faults { return Refused(500), [], []; }
    var current := FindById(s.work.users, operator).value;
    var prefix := PrefixOf(Column(current, "Department"));
    if prefix.None? { return Refused(500), [], []; }
    if Level(current).value > 2 { return Refused(403), [], []; }
    if |headers| < COLUMNS { return Refused(400), [], []; }
    imported, errors := ImportDataRows(s, rows, prefix.value, envs);
    response := Ok;
  }

  // ----- Translated fields --------------------------------------------------------------------

  predicate DistinctColumns(mapping: seq<(string, string)>) {
    forall i, j :: 0 <= i < j < |mapping| ==> mapping[i].1 != mapping[j].1
  }

  lemma {:induction false} MappedKeysFrom(mapping: seq<(string, string)>, data: Dict, i: nat)
    requires i < |MapFields(mapping, data)|
    ensures exists j :: 0 <= j < |mapping| && mapping[j].1 == MapFields(mapping, data)[i].0
    decreases |mapping|
  {
    var last := |mapping| - 1;
    var init := MapFields(mapping[..last], data);
    if i < |init| {
      MappedKeysFrom(mapping[..last], data, i);
      var j :| 0 <= j < last && mapping[..last][j].1 == init[i].0;
      assert mapping[j].1 == init[i].0;
    } else {
      assert mapping[last].1 == MapFields(mapping, data)[i].0;
    }
  }

  lemma {:induction false} MappedDistinct(mapping: seq<(string, string)>, data: Dict)
    requires DistinctColumns(mapping)
    ensures DistinctKeys(MapFields(mapping, data))
    decreases |mapping|
  {
    if mapping != [] {
      var last := |mapping| - 1;
      var init := MapFields(mapping[..last], data);
      MappedDistinct(mapping[..last], data);
      forall i | 0 <= i < |init| ensures init[i].0 != mapping[last].1 {
        MappedKeysFrom(mapping[..last], data, i);
        var j :| 0 <= j < last && mapping[..last][j].1 == init[i].0;
        assert mapping[j].1 != mapping[last].1;
      }
    }
  }

  lemma MappedKeysDistinct(data: Dict)
    ensures DistinctKeys(MapFields(FIELD_MAPPING, data))
  {
    assert DistinctColumns(FIELD_MAPPING);
    MappedDistinct(FIELD_MAPPING, data);
  }

  // ----- Who may do what ------------------------------------------------------------------------

  /** The guards of `UpdateObjection` in one condition, for the reader: with no statement failing and
      departments that are text, an update of an existing user is let
      through exactly when the operator is of level 3 or more, or shares the department prefix with
      the target (or is the target) and keeps a given department inside it; and a given level is a
      number not above the operator's own. */
  lemma UpdateLetThroughIff(db: StaffDb, operator: nat, target: nat, data: Dict, signing: Row, env: Env)
    requires env.faults == {} && FindById(db.users, target).Some? && Hashable(BackendFields(data))
    requires DepartmentPrefix(db, operator).Some? && DepartmentPrefix(db, target).Some?
    ensures var fields := BackendFields(data);
            var own := DepartmentPrefix(db, operator);
            ServeUpdate(db, operator, target, data, signing, env).response.Ok? <==>
              && Authorized(db, operator, 1)
              && (OperatorLevelIn(db, operator) >= 3
                  || (&& (own == DepartmentPrefix(db, target) || operator == target)
                      && (Has(fields, "Department") ==> PrefixOf(Get(fields, "Department", Null)) == own)))
              && (Has(fields, "PriorityLevel") ==>
                    var asked := NumberOf(Get(fields, "PriorityLevel", Null));
                    asked.Some? && asked.value <= OperatorLevelIn(db, operator))
  {
    FindByIdIff(db.users, target);
  }

  /** The guards of `DeleteObjection` read the same way: a deletion is let through exactly when the
      target is someone else, not above the operator in level, and below level 3 shares the operator's
      department prefix. */
  lemma DeleteLetThroughIff(db: StaffDb, operator: nat, target: nat, env: Env)
    requires env.faults == {} && FindById(db.users, target).Some?
    requires DepartmentPrefix(db, operator).Some? && DepartmentPrefix(db, target).Some?
    ensures var level := Level(FindById(db.users, target).value);
            ServeDelete(db, operator, target, env).response.Ok? <==>
              && Authorized(db, operator, 1) && operator != target
              && level.Some? && level.value <= OperatorLevelIn(db, operator)
              && (OperatorLevelIn(db, operator) >= 3 || DepartmentPrefix(db, operator) == DepartmentPrefix(db, target))
  {
    FindByIdIff(db.users, target);
  }

  function OperatorLevelIn(db: StaffDb, operator: nat): int {
    if Authorized(db, operator, 1) then OperatorLevel(db, operator) else 0
  }

  // ----- What a create request stores -----------------------------------------------------------

  /** The row a create request should give, column by column. */
  function RequestedRow(data: Dict, now: int): Row {
    var given, key := Get(data, "password", Txt("")), Get(data, "userID", Null);
    var password := if Truthy(given) then given else if key.Txt? then Txt(DefaultPassword(key.s)) else Null;
    UserRow(NewCells(
      Get(data, "userName", Null), key, Get(data, "engName", Txt("")), Get(data, "email", Null),
      StoredPassword(password),
      Get(data, "priorityLevel", Null), Get(data, "position", Txt("")), Null, Get(data, "department", Txt("")),
      Get(data, "remark", Txt("")), Null, Truthy(Get(data, "isAtWork", Flag(true)))), now)
  }

  lemma CreateAppends(db: StaffDb, operator: nat, data: Dict, signing: Row, env: Env)
    requires ServeCreate(db, operator, data, signing, env).response.Ok?
    ensures PasswordFor(data).Some? && Hashable(NewFields(data, PasswordFor(data).value))
    ensures ServeCreate(db, operator, data, signing, env).db.users
            == db.users + [NewUser(db, UserData(NewFields(data, PasswordFor(data).value), signing), env.now)]
  {}

  /** A create request that succeeds appends one user, each column holding what the request gives for
      it, and touches no other user. */
  lemma CreateStoresRequest(db: StaffDb, operator: nat, data: Dict, signing: Row, env: Env)
    requires ServeCreate(db, operator, data, signing, env).response.Ok?
    ensures ServeCreate(db, operator, data, signing, env).db.users
            == db.users + [User(db.nextId, RequestedRow(data, env.now))]
  {
    CreateAppends(db, operator, data, signing, env);
    RequestedRowStored(data, PasswordFor(data).value, env.now);
  }

  lemma RequestedRowStored(data: Dict, password: Cell, now: int)
    requires PasswordFor(data) == Some(password) && Hashable(NewFields(data, password))
    ensures UserRow(CellsOf(HashPassword(NewFields(data, password))), now) == RequestedRow(data, now)
  {
    NewFieldsGiveRow(data, password, now);
    CellsPrepared(NewFields(data, password));
  }

  lemma NewFieldsGiveRow(data: Dict, password: Cell, now: int)
    requires PasswordFor(data) == Some(password)
    ensures HasNewUserKeys(NewFields(data, password))
    ensures Hashable(NewFields(data, password)) ==>
              UserRow(PreparedCells(NewFields(data, password)), now) == RequestedRow(data, now)
  {}
}
