/** Runs of administration requests: what stays inside a department prefix, and how high levels get. */
module StaffRuns {
  import opened Outcomes
  import opened Text
  import opened StaffStore
  import opened SqlUpdate
  import opened Staff
  import opened BulkImport
  import opened Administration

  datatype Request =
    | Create(operator: nat, data: Dict, signing: Row, env: Env)
    | Update(operator: nat, target: nat, data: Dict, signing: Row, env: Env)
    | Delete(operator: nat, target: nat, env: Env)
    | BulkImport(operator: nat, headers: CsvRow, rows: seq<CsvRow>, env: Env, envs: nat -> Env)

  function Serve(db: StaffDb, r: Request): StaffDb {
    match r
    case Create(operator, data, signing, env) => ServeCreate(db, operator, data, signing, env).db
    case Update(operator, target, data, signing, env) => ServeUpdate(db, operator, target, data, signing, env).db
    case Delete(operator, target, env) => ServeDelete(db, operator, target, env).db
    case BulkImport(operator, headers, rows, env, envs) => ServeImport(db, operator, headers, rows, env, envs).db
  }

  function ServeAll(db: StaffDb, rs: seq<Request>): StaffDb
    decreases |rs|
  {
    if |rs| == 0 then db else ServeAll(Serve(db, rs[0]), rs[1..])
  }

  // ----- The shapes a step can have -------------------------------------------------------------

  /** What a step does to the users: nothing, one or more appended, one row overwritten, one removed. */
  datatype Step = Same | Appended(users: seq<User>) | Overwritten(id: nat, fields: Dict, now: int) | Removed(id: nat)

  function Apply(users: seq<User>, step: Step): seq<User> {
    match step
    case Same => users
    case Appended(more) => users + more
    case Overwritten(id, fields, now) => OverwriteUser(users, id, fields, now)
    case Removed(id) => WithoutUser(users, id)
  }

  /** Appended rows continue the ids in order. */
  predicate Continues(db: StaffDb, users: seq<User>, nextId: nat) {
    nextId == db.nextId + |users| && forall i :: 0 <= i < |users| ==> users[i].id == db.nextId + i
  }

  /** The step explains the users after a request, and the next id. */
  predicate Explains(db: StaffDb, after: StaffDb, step: Step) {
    && after.users == Apply(db.users, step)
    && if step.Appended? then Continues(db, step.users, after.nextId) else after.nextId == db.nextId
  }

  /** Every appended row satisfies the department and level asked for. */
  predicate AppendedWithin(users: seq<User>, prefix: string, levels: int) {
    forall u :: u in users ==> Prefix(u) == prefix && Level(u).Some? && Level(u).value <= levels
  }

  // ----- What an appended row looks like --------------------------------------------------------

  lemma NewRowColumns(db: StaffDb, data: UserData, now: int)
    requires Hashable(data.fields)
    ensures Column(NewUser(db, data, now), "Department") == Get(data.fields, "Department", Null)
    ensures Column(NewUser(db, data, now), "PriorityLevel") == Get(data.fields, "PriorityLevel", Num(1))
  {
    HashKeepsGet(data.fields, "Department", Null);
    HashKeepsGet(data.fields, "PriorityLevel", Num(1));
  }

  lemma AddUserStep(db: StaffDb, data: UserData, env: Env) returns (step: Step)
    ensures Explains(db, AddUser(db, data, env).db, step)
    ensures step == Same || (Hashable(data.fields) && step == Appended([NewUser(db, data, env.now)]))
  {
    if AddUser(db, data, env).db.nextId == db.nextId {
      step := Same;
    } else {
      step := Appended([NewUser(db, data, env.now)]);
    }
  }

  lemma ImportRowAppends(before: Import, row: CsvRow, number: nat, prefix: string, env: Env) returns (added: seq<User>)
    ensures var after := ImportRow(before, row, number, prefix, env).db;
            after.users == before.db.users + added && Continues(before.db, added, after.nextId)
    ensures AppendedWithin(added, prefix, 2)
  {
    added := [];
    if Passes(row, prefix) {
      var level := CheckRow(row, prefix).level;
      var step := AddUserStep(before.db, DataOf(row, level), env);
      if step != Same {
        added := step.users;
        PasswordIsText(row, level);
        NewRowColumns(before.db, DataOf(row, level), env.now);
        DepartmentPrefixOf(DepartmentOf(row));
      }
    }
  }

  lemma DepartmentPrefixOf(department: string)
    ensures PrefixOf(Txt(department)) == Some(Take(department, 3))
  {}

  /** Whatever fails, an import appends rows of its prefix, of level 1 or 2, and changes no other. */
  lemma {:induction false} ImportAppends(db: StaffDb, rows: seq<CsvRow>, prefix: string, envs: nat -> Env)
      returns (added: seq<User>)
    ensures var after := ImportRows(db, rows, prefix, envs).db;
            after.users == db.users + added && Continues(db, added, after.nextId)
    ensures AppendedWithin(added, prefix, 2)
    decreases |rows|
  {
    if rows == [] {
      added := [];
    } else {
      var last := |rows| - 1;
      var before := ImportRows(db, rows[..last], prefix, envs);
      var init := ImportAppends(db, rows[..last], prefix, envs);
      var more := ImportRowAppends(before, rows[last], last + 2, prefix, envs(last));
      AppendsInTurn(db, before.db, ImportRows(db, rows, prefix, envs).db, init, more, prefix);
      added := init + more;
    }
  }

  lemma AppendsInTurn(a: StaffDb, b: StaffDb, c: StaffDb, init: seq<User>, more: seq<User>, prefix: string)
    requires b.users == a.users + init && Continues(a, init, b.nextId)
    requires c.users == b.users + more && Continues(b, more, c.nextId)
    requires AppendedWithin(init, prefix, 2) && AppendedWithin(more, prefix, 2)
    ensures c.users == a.users + (init + more) && Continues(a, init + more, c.nextId)
    ensures AppendedWithin(init + more, prefix, 2)
  {
    assert forall u :: u in init + more ==> u in init || u in more;
  }

  // ----- Order of ids ---------------------------------------------------------------------------

  lemma {:induction false} WithoutUserMembers(users: seq<User>, id: nat, u: User)
    ensures u in WithoutUser(users, id) <==> u in users && u.id != id
  {
    if users != [] {
      WithoutUserMembers(users[1..], id, u);
      assert users == [users[0]] + users[1..];
    }
  }

  predicate InOrder(users: seq<User>) {
    forall i, j :: 0 <= i < j < |users| ==> users[i].id < users[j].id
  }

  lemma {:induction false} WithoutUserInOrder(users: seq<User>, id: nat)
    requires InOrder(users)
    ensures InOrder(WithoutUser(users, id))
  {
    if users != [] {
      WithoutUserInOrder(users[1..], id);
      var rest := WithoutUser(users[1..], id);
      forall k | 0 <= k < |rest| ensures users[0].id < rest[k].id {
        WithoutUserMembers(users[1..], id, rest[k]);
        var j :| 0 <= j < |users| - 1 && users[1..][j] == rest[k];
      }
    }
  }

  lemma StepKeepsOrder(db: StaffDb, after: StaffDb, step: Step)
    requires IdsInOrder(db) && Explains(db, after, step)
    ensures IdsInOrder(after)
  {
    match step
    case Same =>
    case Appended(more) =>
      forall i, j | 0 <= i < j < |after.users| ensures after.users[i].id < after.users[j].id {
        if i < |db.users| { assert db.users[i] in db.users; }
      }
    case Overwritten(id, fields, now) =>
      forall u | u in after.users ensures u.id < after.nextId {
        var i :| 0 <= i < |after.users| && after.users[i] == u;
        assert db.users[i] in db.users;
      }
    case Removed(id) =>
      WithoutUserInOrder(db.users, id);
      assert InOrder(after.users);
      forall u | u in after.users ensures u.id < after.nextId { WithoutUserMembers(db.users, id, u); }
  }

  // ----- Department isolation -------------------------------------------------------------------

  /** The rows outside a department prefix, in order. */
  function Outside(users: seq<User>, prefix: string): seq<User>
    decreases |users|
  {
    if users == [] then []
    else (if Prefix(users[0]) == prefix then [] else [users[0]]) + Outside(users[1..], prefix)
  }

  lemma {:induction false} OutsideOfConcat(a: seq<User>, b: seq<User>, prefix: string)
    ensures Outside(a + b, prefix) == Outside(a, prefix) + Outside(b, prefix)
  {
    if a == [] {
      assert a + b == b;
    } else {
      assert (a + b)[1..] == a[1..] + b;
      OutsideOfConcat(a[1..], b, prefix);
    }
  }

  lemma {:induction false} OutsideOfNone(users: seq<User>, prefix: string)
    requires forall u :: u in users ==> Prefix(u) == prefix
    ensures Outside(users, prefix) == []
  {
    if users != [] { OutsideOfNone(users[1..], prefix); }
  }

  lemma {:induction false} OutsidePointwise(a: seq<User>, b: seq<User>, prefix: string)
    requires |a| == |b|
    requires forall i :: 0 <= i < |a| ==> a[i] == b[i] || (Prefix(a[i]) == prefix && Prefix(b[i]) == prefix)
    ensures Outside(a, prefix) == Outside(b, prefix)
    decreases |a|
  {
    if a != [] { OutsidePointwise(a[1..], b[1..], prefix); }
  }

  lemma {:induction false} OutsideWithout(users: seq<User>, id: nat, prefix: string)
    requires forall u :: u in users && u.id == id ==> Prefix(u) == prefix
    ensures Outside(WithoutUser(users, id), prefix) == Outside(users, prefix)
  {
    if users != [] {
      OutsideWithout(users[1..], id, prefix);
      OutsideOfConcat(if users[0].id == id then [] else [users[0]], WithoutUser(users[1..], id), prefix);
      assert [users[0]][1..] == [];
    }
  }

  lemma {:induction false} OutsideMembers(users: seq<User>, prefix: string, u: User)
    ensures u in Outside(users, prefix) <==> u in users && Prefix(u) != prefix
  {
    if users != [] {
      OutsideMembers(users[1..], prefix, u);
      assert users == [users[0]] + users[1..];
    }
  }

  // ----- What an overwritten row looks like -----------------------------------------------------

  lemma UpdateUserStep(db: StaffDb, id: nat, data: UserData, env: Env) returns (step: Step)
    ensures Explains(db, UpdateUser(db, id, data, env).db, step)
    ensures step == Same || (Hashable(data.fields) && step == Overwritten(id, HashPassword(data.fields), env.now))
  {
    step := if UpdateUser(db, id, data, env).db.users == db.users then Same
            else Overwritten(id, HashPassword(data.fields), env.now);
  }

  /** A row overwritten with fields that set the department only inside a prefix, and the level only
      up to a bound, keeps its prefix and stays below the bound. */
  lemma OverwrittenRow(u: User, fields: Dict, now: int, prefix: string, bound: int)
    requires Hashable(fields)
    ensures var after := u.(cols := Overwrite(u.cols, HashPassword(fields), now));
            && (Prefix(u) == prefix
                && (Has(fields, "Department") ==> PrefixOf(Get(fields, "Department", Null)) == Some(prefix))
                ==> Prefix(after) == prefix)
            && ((Level(u).Some? ==> Level(u).value <= bound)
                && (Has(fields, "PriorityLevel") ==> NumberOf(Get(fields, "PriorityLevel", Null)).Some?
                                                     && NumberOf(Get(fields, "PriorityLevel", Null)).value <= bound)
                ==> Level(after).Some? ==> Level(after).value <= bound)
  {
    var hashed := HashPassword(fields);
    OverwrittenColumn(u.cols, hashed, now, "Department");
    OverwrittenColumn(u.cols, hashed, now, "PriorityLevel");
    HashKeepsGet(fields, "Department", Null);
    HashKeepsGet(fields, "PriorityLevel", Null);
    HashKeepsHas(fields, "Department");
    HashKeepsHas(fields, "PriorityLevel");
  }

  // ----- One request ----------------------------------------------------------------------------

  function OperatorOf(r: Request): nat { r.operator }

  /** Operators, where they exist, have the prefix and a level below 3; none is yet to be created. */
  predicate OperatorsWithin(db: StaffDb, operators: set<nat>, prefix: string) {
    && (forall o :: o in operators ==> o < db.nextId)
    && forall u :: u in db.users && u.id in operators ==>
         Prefix(u) == prefix && (Level(u).Some? ==> Level(u).value <= 2)
  }

  /** The step only touches rows of the prefix and leaves them in it, with levels of at most 2 where
      it sets one on an existing row. */
  predicate Within(db: StaffDb, step: Step, prefix: string) {
    match step
    case Same => true
    case Appended(users) => forall u :: u in users ==> Prefix(u) == prefix
    case Overwritten(id, fields, now) =>
      forall u :: u in db.users && u.id == id ==>
        var after := u.(cols := Overwrite(u.cols, fields, now));
        && Prefix(u) == prefix && Prefix(after) == prefix
        && ((Level(u).Some? ==> Level(u).value <= 2) ==> Level(after).Some? ==> Level(after).value <= 2)
    case Removed(id) => forall u :: u in db.users && u.id == id ==> Prefix(u) == prefix
  }

  /** In a table in id order the row found by an id is the only one with it. */
  lemma OnlyRow(db: StaffDb, id: nat, u: User)
    requires IdsInOrder(db) && u in db.users && u.id == id
    ensures FindById(db.users, id) == Some(u)
  {
    FindByIdIff(db.users, id);
    var v := FindById(db.users, id).value;
    var i :| 0 <= i < |db.users| && db.users[i] == u;
    var j :| 0 <= j < |db.users| && db.users[j] == v;
  }

  lemma OperatorIsWithin(db: StaffDb, operators: set<nat>, prefix: string, operator: nat)
    requires OperatorsWithin(db, operators, prefix) && operator in operators && Authorized(db, operator, 1)
    ensures OperatorLevel(db, operator) <= 2
    ensures DepartmentPrefix(db, operator).Some? ==> DepartmentPrefix(db, operator).value == prefix
  {
    FindByIdIff(db.users, operator);
  }

  lemma CreateStep(db: StaffDb, operators: set<nat>, prefix: string, operator: nat, data: Dict, signing: Row, env: Env)
      returns (step: Step)
    requires OperatorsWithin(db, operators, prefix) && operator in operators
    ensures Explains(db, ServeCreate(db, operator, data, signing, env).db, step) && Within(db, step, prefix)
  {
    step := Same;
    if ServeCreate(db, operator, data, signing, env).db != db {
      OperatorIsWithin(db, operators, prefix, operator);
      var user := UserData(NewFields(data, PasswordFor(data).value), signing);
      step := AddUserStep(db, user, env);
      if step != Same {
        NewFieldsColumns(data, PasswordFor(data).value);
        NewRowColumns(db, user, env.now);
      }
    }
  }

  lemma NewFieldsColumns(data: Dict, password: Cell)
    ensures Get(NewFields(data, password), "Department", Null) == Get(data, "department", Txt(""))
    ensures Get(NewFields(data, password), "PriorityLevel", Num(1)) == Get(data, "priorityLevel", Null)
    ensures Get(NewFields(data, password), "UserID", Null) == Get(data, "userID", Null)
    ensures Get(NewFields(data, password), "Password", Null) == password
  {
    var fields := NewFields(data, password);
    GetIsUnique(fields, "UserID", fields[1].1, Null);
    GetIsUnique(fields, "Password", fields[4].1, Null);
    GetIsUnique(fields, "Department", fields[7].1, Null);
    GetIsUnique(fields, "PriorityLevel", fields[5].1, Num(1));
  }

  lemma UpdateStep(db: StaffDb, operators: set<nat>, prefix: string, operator: nat, target: nat, data: Dict,
                   signing: Row, env: Env)
      returns (step: Step)
    requires IdsInOrder(db) && OperatorsWithin(db, operators, prefix) && operator in operators
    ensures Explains(db, ServeUpdate(db, operator, target, data, signing, env).db, step) && Within(db, step, prefix)
  {
    step := Same;
    if ServeUpdate(db, operator, target, data, signing, env).db != db {
      OperatorIsWithin(db, operators, prefix, operator);
      var fields := BackendFields(data);
      step := UpdateUserStep(db, target, UserData(fields, signing), env);
      if step != Same {
        forall u | u in db.users && u.id == target ensures Prefix(u) == prefix { OnlyRow(db, target, u); }
        forall u | u in db.users && u.id == target { OverwrittenRow(u, fields, env.now, prefix, 2); }
      }
    }
  }

  lemma DeleteStep(db: StaffDb, operators: set<nat>, prefix: string, operator: nat, target: nat, env: Env)
      returns (step: Step)
    requires IdsInOrder(db) && OperatorsWithin(db, operators, prefix) && operator in operators
    ensures Explains(db, ServeDelete(db, operator, target, env).db, step) && Within(db, step, prefix)
  {
    step := Same;
    if ServeDelete(db, operator, target, env).db.users != db.users {
      OperatorIsWithin(db, operators, prefix, operator);
      step := Removed(target);
      forall u | u in db.users && u.id == target ensures Prefix(u) == prefix { OnlyRow(db, target, u); }
    }
  }

  lemma ImportStep(db: StaffDb, operators: set<nat>, prefix: string, r: Request) returns (step: Step)
    requires OperatorsWithin(db, operators, prefix) && r.BulkImport? && r.operator in operators
    ensures Explains(db, Serve(db, r), step) && Within(db, step, prefix)
  {
    step := Same;
    if ServeImport(db, r.operator, r.headers, r.rows, r.env, r.envs).response.Ok? {
      OperatorIsWithin(db, operators, prefix, r.operator);
      var added := ImportAppends(db, r.rows, prefix, r.envs);
      step := Appended(added);
    }
  }

  lemma RequestStep(db: StaffDb, operators: set<nat>, prefix: string, r: Request) returns (step: Step)
    requires IdsInOrder(db) && OperatorsWithin(db, operators, prefix) && OperatorOf(r) in operators
    ensures Explains(db, Serve(db, r), step) && Within(db, step, prefix)
  {
    match r
    case Create(operator, data, signing, env) =>
      step := CreateStep(db, operators, prefix, operator, data, signing, env);
    case Update(operator, target, data, signing, env) =>
      step := UpdateStep(db, operators, prefix, operator, target, data, signing, env);
    case Delete(operator, target, env) => step := DeleteStep(db, operators, prefix, operator, target, env);
    case BulkImport(_, _, _, _, _) => step := ImportStep(db, operators, prefix, r);
  }

  /** A step within the prefix leaves the rows outside it exactly as they are, and its operators
      within it. */
  lemma WithinKeeps(db: StaffDb, after: StaffDb, step: Step, operators: set<nat>, prefix: string)
    requires IdsInOrder(db) && OperatorsWithin(db, operators, prefix)
    requires Explains(db, after, step) && Within(db, step, prefix)
    ensures Outside(after.users, prefix) == Outside(db.users, prefix)
    ensures IdsInOrder(after) && OperatorsWithin(after, operators, prefix)
  {
    StepKeepsOrder(db, after, step);
    match step
    case Same =>
    case Appended(more) =>
      OutsideOfNone(more, prefix);
      OutsideOfConcat(db.users, more, prefix);
    case Overwritten(id, fields, now) =>
      forall i | 0 <= i < |db.users|
        ensures after.users[i] == db.users[i] || (Prefix(db.users[i]) == prefix && Prefix(after.users[i]) == prefix)
        ensures after.users[i].id in operators ==>
                  Prefix(after.users[i]) == prefix && (Level(after.users[i]).Some? ==> Level(after.users[i]).value <= 2)
      {
        assert db.users[i] in db.users;
      }
      OutsidePointwise(db.users, after.users, prefix);
    case Removed(id) =>
      OutsideWithout(db.users, id, prefix);
      forall u | u in after.users ensures u in db.users { WithoutUserMembers(db.users, id, u); }
  }

  /** Any run of create, update, delete and import requests, with any statements failing, by operators
      that start below level 3 with one department prefix, leaves every row outside the prefix exactly
      as it was and in its place; and the operators stay below level 3 in that prefix. */
  lemma {:induction false} DepartmentIsolation(db: StaffDb, rs: seq<Request>, operators: set<nat>, prefix: string)
    requires IdsInOrder(db) && OperatorsWithin(db, operators, prefix)
    requires forall i :: 0 <= i < |rs| ==> OperatorOf(rs[i]) in operators
    ensures Outside(ServeAll(db, rs).users, prefix) == Outside(db.users, prefix)
    ensures IdsInOrder(ServeAll(db, rs)) && OperatorsWithin(ServeAll(db, rs), operators, prefix)
    decreases |rs|
  {
    if |rs| > 0 {
      var step := RequestStep(db, operators, prefix, rs[0]);
      WithinKeeps(db, Serve(db, rs[0]), step, operators, prefix);
      DepartmentIsolation(Serve(db, rs[0]), rs[1..], operators, prefix);
    }
  }

  /** Such a run moves no row out of the prefix: a row that was in it and is still there is in it. */
  lemma NoRowLeavesPrefix(db: StaffDb, rs: seq<Request>, operators: set<nat>, prefix: string, u: User, v: User)
    requires IdsInOrder(db) && OperatorsWithin(db, operators, prefix)
    requires forall i :: 0 <= i < |rs| ==> OperatorOf(rs[i]) in operators
    requires u in db.users && v in ServeAll(db, rs).users && u.id == v.id && Prefix(u) == prefix
    ensures Prefix(v) == prefix
  {
    DepartmentIsolation(db, rs, operators, prefix);
    OutsideMembers(ServeAll(db, rs).users, prefix, v);
    OutsideMembers(db.users, prefix, v);
    if v in db.users {
      OnlyRow(db, u.id, u);
      OnlyRow(db, u.id, v);
    }
  }

  // ----- Levels ---------------------------------------------------------------------------------

  predicate LevelsUpTo(users: seq<User>, bound: int) {
    forall u :: u in users && Level(u).Some? ==> Level(u).value <= bound
  }

  /** A create request asks for a level within the bound. */
  predicate AsksWithin(r: Request, bound: int) {
    r.Create? ==> var asked := NumberOf(Get(r.data, "priorityLevel", Null)); asked.Some? && asked.value <= bound
  }

  lemma UpdateKeepsLevels(db: StaffDb, operator: nat, target: nat, data: Dict, signing: Row, env: Env, bound: int)
    requires LevelsUpTo(db.users, bound)
    ensures LevelsUpTo(ServeUpdate(db, operator, target, data, signing, env).db.users, bound)
  {
    var after := ServeUpdate(db, operator, target, data, signing, env).db;
    if after.users != db.users {
      FindByIdIff(db.users, operator);
      var fields := BackendFields(data);
      var step := UpdateUserStep(db, target, UserData(fields, signing), env);
      forall v | v in after.users && Level(v).Some? ensures Level(v).value <= bound {
        var i :| 0 <= i < |after.users| && after.users[i] == v;
        var u := db.users[i];
        assert u in db.users;
        OverwrittenRow(u, fields, env.now, "", bound);
      }
    }
  }

  lemma RequestKeepsLevels(db: StaffDb, r: Request, bound: int)
    requires LevelsUpTo(db.users, bound) && bound >= 2 && AsksWithin(r, bound)
    ensures LevelsUpTo(Serve(db, r).users, bound)
  {
    match r
    case Create(operator, data, signing, env) =>
      if Serve(db, r) != db {
        var user := UserData(NewFields(data, PasswordFor(data).value), signing);
        var step := AddUserStep(db, user, env);
        if step != Same {
          NewFieldsColumns(data, PasswordFor(data).value);
          NewRowColumns(db, user, env.now);
        }
      }
    case Update(operator, target, data, signing, env) =>
      UpdateKeepsLevels(db, operator, target, data, signing, env, bound);
    case Delete(operator, target, env) =>
      forall u | u in WithoutUser(db.users, target) ensures u in db.users { WithoutUserMembers(db.users, target, u); }
    case BulkImport(operator, headers, rows, env, envs) =>
      if ServeImport(db, operator, headers, rows, env, envs).response.Ok? {
        var added := ImportAppends(db, rows, DepartmentPrefix(db, operator).value, envs);
      }
  }

  /** Over any run, whatever fails, no level exceeds the larger of 2 and the highest level at the
      start, as long as create requests ask for no more: updates, deletions and imports never do. */
  lemma {:induction false} LevelBound(db: StaffDb, rs: seq<Request>, bound: int)
    requires LevelsUpTo(db.users, bound) && bound >= 2
    requires forall i :: 0 <= i < |rs| ==> AsksWithin(rs[i], bound)
    ensures LevelsUpTo(ServeAll(db, rs).users, bound)
    decreases |rs|
  {
    if |rs| > 0 {
      RequestKeepsLevels(db, rs[0], bound);
      LevelBound(Serve(db, rs[0]), rs[1..], bound);
    }
  }

  /** The create endpoint compares no levels: a request that succeeds keeps the bound exactly when
      the level it asks for is within it. */
  lemma CreateKeepsBoundIff(db: StaffDb, operator: nat, data: Dict, signing: Row, env: Env, bound: int)
    requires LevelsUpTo(db.users, bound)
    requires ServeCreate(db, operator, data, signing, env).response.Ok?
    requires NumberOf(Get(data, "priorityLevel", Null)).Some?
    ensures LevelsUpTo(ServeCreate(db, operator, data, signing, env).db.users, bound)
            <==> NumberOf(Get(data, "priorityLevel", Null)).value <= bound
  {
    var user := UserData(NewFields(data, PasswordFor(data).value), signing);
    var after := ServeCreate(db, operator, data, signing, env).db.users;
    NewFieldsColumns(data, PasswordFor(data).value);
    NewRowColumns(db, user, env.now);
    assert after == db.users + [NewUser(db, user, env.now)];
    assert after[|db.users|] in after;
  }

  /** An operator of level 1 in a table whose levels are at most 2. */
  const CLERK: User := User(1, map["UserID" := Txt("clerk"), "Department" := Txt("ABC1"), "PriorityLevel" := Num(1)])

  const CLERKS: StaffDb := StaffDb([CLERK], [], 2)

  /** A request for a user of level 4 in the operator's department. */
  const LEVEL_FOUR: Dict := [
    ("userName", Txt("new")), ("userID", Txt("new001")), ("email", Txt("")), ("priorityLevel", Num(4)),
    ("department", Txt("ABC2")), ("password", Txt("secret"))
  ]

  lemma LevelFourGet(i: nat, d: Cell)
    requires i < |LEVEL_FOUR|
    ensures Has(LEVEL_FOUR, LEVEL_FOUR[i].0) && Get(LEVEL_FOUR, LEVEL_FOUR[i].0, d) == LEVEL_FOUR[i].1
  {
    GetIsUnique(LEVEL_FOUR, LEVEL_FOUR[i].0, LEVEL_FOUR[i].1, d);
  }

  lemma ClerkMayCreate()
    ensures Authorized(CLERKS, 1, 1) && CreateObjection(CLERKS, 1, LEVEL_FOUR).None?
  {
    assert FindById(CLERKS.users, 1) == Some(CLERK);
    LevelFourGet(4, Txt(""));
    assert "ABC1"[..3] == "ABC2"[..3];
  }

  lemma LevelFourIsComplete()
    ensures forall key :: key in REQUIRED_FIELDS ==> Has(LEVEL_FOUR, key)
    ensures PasswordFor(LEVEL_FOUR) == Some(Txt("secret"))
  {
    forall i: nat | i < 4 ensures Has(LEVEL_FOUR, REQUIRED_FIELDS[i]) { LevelFourGet(i, Null); }
    LevelFourGet(5, Txt(""));
  }

  lemma NobodyHasNewId()
    ensures FindByUserId(CLERKS.users, Txt("new001")).None?
  {
    assert CLERKS.users[1..] == [];
    assert Column(CLERK, "UserID") == Txt("clerk");
    assert |"clerk"| != |"new001"|;
  }

  /** When nothing stands in its way, a create request succeeds. */
  lemma CreateSucceeds(db: StaffDb, operator: nat, data: Dict, signing: Row, env: Env)
    requires Authorized(db, operator, 1) && CreateObjection(db, operator, data).None? && env.faults == {}
    requires forall key :: key in REQUIRED_FIELDS ==> Has(data, key)
    requires PasswordFor(data).Some? && PasswordFor(data).value.Txt?
    requires FindByUserId(db.users, Get(data, "userID", Null)).None?
    ensures ServeCreate(db, operator, data, signing, env).response.Ok?
  {
    NewFieldsColumns(data, PasswordFor(data).value);
  }

  /** The bound does not survive create requests: this one succeeds and leaves a level of 4. */
  lemma CreateExceedsBound()
    ensures LevelsUpTo(CLERKS.users, 2)
    ensures ServeCreate(CLERKS, 1, LEVEL_FOUR, map[], Env({}, 0)).response.Ok?
    ensures !LevelsUpTo(ServeCreate(CLERKS, 1, LEVEL_FOUR, map[], Env({}, 0)).db.users, 2)
  {
    ClerkMayCreate();
    LevelFourIsComplete();
    LevelFourGet(1, Null);
    NobodyHasNewId();
    CreateSucceeds(CLERKS, 1, LEVEL_FOUR, map[], Env({}, 0));
    LevelFourGet(3, Null);
    CreateKeepsBoundIff(CLERKS, 1, LEVEL_FOUR, map[], Env({}, 0), 2);
  }
}
