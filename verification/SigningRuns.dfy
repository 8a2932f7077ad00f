/** Runs of administration requests: which of them decide what an owner reads in the signing table. */
module SigningRuns {
  import opened Outcomes
  import opened StaffStore
  import opened SigningTable
  import opened Staff
  import opened Repair
  import opened BulkImport
  import opened Administration
  import opened StaffRuns
  import opened Agreement
  import opened SigningWrites

  /** The endpoint's guards let the request through to the user operation. */
  predicate LetThrough(db: StaffDb, r: Request) {
    Authorized(db, r.operator, 1) && OperatorLookup !in r.env.faults &&
    match r
    case Create(operator, data, _, _) =>
      && (forall key :: key in REQUIRED_FIELDS ==> Has(data, key))
      && CreateObjection(db, operator, data).None? && PasswordFor(data).Some?
    case Update(operator, target, data, _, env) =>
      UpdateObjection(db, operator, target, BackendFields(data), env).None?
    case Delete(operator, target, env) =>
      && operator != target && TargetLookup !in env.faults
      && FindById(db.users, target).Some? && DeleteObjection(db, operator, target).None?
    case BulkImport(operator, headers, _, _, _) =>
      DepartmentPrefix(db, operator).Some? && OperatorLevel(db, operator) <= 2 && |headers| >= COLUMNS
  }

  /** The value a request gives for a key, NULL included, or the user's own. */
  function Asked(u: User, data: Dict, key: string, column: string): Cell {
    if Has(data, key) then Get(data, key, Null) else Column(u, column)
  }

  /** The line that decides what an owner reads after an import: the first to bring its UserID. */
  function DecidingLine(db: StaffDb, r: Request, owner: Cell): Option<nat>
    requires r.BulkImport? && LetThrough(db, r)
  {
    if owner.Txt? && owner.s !in KnownIds(db.users)
    then FirstBringing(r.rows, DepartmentPrefix(db, r.operator).value, r.envs, owner.s) else None
  }

  /** The request writes or deletes the owner's signing row: it is let through, its statements go
      through, and it inserts a user of that UserID with signing data, updates with signing data a
      user that has or is given it, deletes the user that has it, or imports a line that brings it. */
  predicate Names(db: StaffDb, r: Request, owner: Cell) {
    owner != Null && LetThrough(db, r) &&
    match r
    case Create(_, data, signing, env) =>
      && signing != map[] && Get(data, "userID", Null) == owner
      && Inserts(db, NewFields(data, PasswordFor(data).value), env) && SigningGoes(env)
    case Update(_, target, data, signing, env) =>
      var u := FindById(db.users, target);
      && signing != map[] && u.Some? && Asked(u.value, data, "userID", "UserID") == owner
      && UpdateGoes(BackendFields(data), env) && SigningGoes(env)
    case Delete(_, target, env) =>
      && Key(FindById(db.users, target).value) == owner && Truthy(owner)
      && env.faults !! {FindUser, DeleteSigning}
    case BulkImport(_, _, rows, _, envs) =>
      DecidingLine(db, r, owner).Some? && SigningGoes(envs(DecidingLine(db, r, owner).value))
  }

  /** What the owner then reads. */
  function Leaves(db: StaffDb, r: Request, owner: Cell): Option<Signing>
    requires Names(db, r, owner)
  {
    match r
    case Create(_, data, signing, _) =>
      Some(Filed(owner, Get(data, "userName", Null), Get(data, "department", Txt("")), DetailsOf(signing)))
    case Update(_, target, data, signing, _) =>
      var u := FindById(db.users, target).value;
      Some(Filed(owner, Asked(u, data, "userName", "UserName"), Asked(u, data, "department", "Department"),
                 DetailsOf(signing)))
    case Delete(_, _, _) => None
    case BulkImport(_, _, rows, _, _) => Some(SigningRowOf(rows[DecidingLine(db, r, owner).value]))
  }

  /** No request of the run names the owner when its turn comes. */
  predicate NeverNames(db: StaffDb, rs: seq<Request>, owner: Cell)
    decreases |rs|
  {
    rs == [] || (!Names(db, rs[0], owner) && NeverNames(Serve(db, rs[0]), rs[1..], owner))
  }

  // ----- The translated fields ------------------------------------------------------------------

  lemma {:induction false} MappedPairs(mapping: seq<(string, string)>, data: Dict, pair: (string, Cell))
    ensures pair in MapFields(mapping, data) <==>
            exists j :: 0 <= j < |mapping| && Has(data, mapping[j].0)
                        && pair == (mapping[j].1, Get(data, mapping[j].0, Null))
    decreases |mapping|
  {
    if mapping != [] {
      var last := |mapping| - 1;
      MappedPairs(mapping[..last], data, pair);
      assert forall j :: 0 <= j < last ==> mapping[..last][j] == mapping[j];
    }
  }

  /** A column is given in the translation exactly when its key is in the request, with its value. */
  lemma Translated(data: Dict, i: nat)
    requires i < |FIELD_MAPPING|
    ensures var (key, column) := FIELD_MAPPING[i];
            && (Has(BackendFields(data), column) <==> Has(data, key))
            && (Has(data, key) ==> Get(BackendFields(data), column, Null) == Get(data, key, Null))
  {
    var fields := BackendFields(data);
    var (key, column) := FIELD_MAPPING[i];
    assert DistinctColumns(FIELD_MAPPING);
    if Has(data, key) {
      MappedPairs(FIELD_MAPPING, data, (column, Get(data, key, Null)));
      GetIsUnique(fields, column, Get(data, key, Null), Null);
    }
    if Has(fields, column) {
      GetIff(fields, column, Null);
      MappedPairs(FIELD_MAPPING, data, (column, Get(fields, column, Null)));
    }
  }

  // ----- One request ----------------------------------------------------------------------------

  /** What the owner reads after a request, whatever statements fail. */
  predicate Decided(db: StaffDb, r: Request, owner: Cell) {
    FindSigning(Serve(db, r).signing, owner)
    == if Names(db, r, owner) then Leaves(db, r, owner) else FindSigning(db.signing, owner)
  }

  lemma CreateComesTo(db: StaffDb, operator: nat, data: Dict, signing: Row, env: Env)
    ensures var r := Create(operator, data, signing, env);
            Serve(db, r) == if LetThrough(db, r)
                            then AddUser(db, UserData(NewFields(data, PasswordFor(data).value), signing), env).db
                            else db
  {}

  lemma PreparedGet(data: Dict, password: Cell)
    ensures var fields := NewFields(data, password);
            && Get(fields, "UserName", Null) == Get(data, "userName", Null)
            && Get(fields, "UserID", Null) == Get(data, "userID", Null)
            && Get(fields, "Department", Txt("")) == Get(data, "department", Txt(""))
  {
    var fields := NewFields(data, password);
    GetIsUnique(fields, "UserName", fields[0].1, Null);
    GetIsUnique(fields, "UserID", fields[1].1, Null);
    GetIsUnique(fields, "Department", fields[7].1, Txt(""));
  }

  lemma CreateReads(db: StaffDb, operator: nat, data: Dict, signing: Row, env: Env, owner: Cell)
    ensures Decided(db, Create(operator, data, signing, env), owner)
  {
    CreateComesTo(db, operator, data, signing, env);
    if LetThrough(db, Create(operator, data, signing, env)) {
      var password := PasswordFor(data).value;
      PreparedGet(data, password);
      AddReads(db, UserData(NewFields(data, password), signing), env, owner);
    }
  }

  lemma UpdateComesTo(db: StaffDb, operator: nat, target: nat, data: Dict, signing: Row, env: Env)
    ensures var r := Update(operator, target, data, signing, env);
            Serve(db, r) == if LetThrough(db, r)
                            then UpdateUser(db, target, UserData(BackendFields(data), signing), env).db else db
  {}

  lemma TranslatedOrKept(u: User, data: Dict)
    ensures GivenOrKept(u, BackendFields(data), "UserName") == Asked(u, data, "userName", "UserName")
    ensures GivenOrKept(u, BackendFields(data), "UserID") == Asked(u, data, "userID", "UserID")
    ensures GivenOrKept(u, BackendFields(data), "Department") == Asked(u, data, "department", "Department")
  {
    Translated(data, 0);
    Translated(data, 1);
    Translated(data, 7);
  }

  lemma UpdateRequestReads(db: StaffDb, operator: nat, target: nat, data: Dict, signing: Row, env: Env, owner: Cell)
    ensures Decided(db, Update(operator, target, data, signing, env), owner)
  {
    UpdateComesTo(db, operator, target, data, signing, env);
    if FindById(db.users, target).Some? { TranslatedOrKept(FindById(db.users, target).value, data); }
    UpdateReads(db, target, UserData(BackendFields(data), signing), env, owner);
  }

  lemma DeleteRequestReads(db: StaffDb, operator: nat, target: nat, env: Env, owner: Cell)
    ensures Decided(db, Delete(operator, target, env), owner)
  {
    DeleteReads(db, target, env, owner);
  }

  lemma ImportComesTo(db: StaffDb, r: Request)
    requires r.BulkImport?
    ensures Serve(db, r) == if LetThrough(db, r)
                            then ImportRows(db, r.rows, DepartmentPrefix(db, r.operator).value, r.envs).db
                            else db
  {}

  lemma ImportRequestReads(db: StaffDb, r: Request, owner: Cell)
    requires r.BulkImport?
    ensures Decided(db, r, owner)
  {
    ImportComesTo(db, r);
    if LetThrough(db, r) && owner.Txt? {
      ImportTextReads(db, r, owner.s);
    } else if LetThrough(db, r) {
      ImportKeepsOthers(db, r.rows, DepartmentPrefix(db, r.operator).value, r.envs, owner);
    }
  }

  lemma ImportTextReads(db: StaffDb, r: Request, id: string)
    requires r.BulkImport? && LetThrough(db, r)
    ensures Decided(db, r, Txt(id))
  {
    ImportComesTo(db, r);
    ImportReads(db, r.rows, DepartmentPrefix(db, r.operator).value, r.envs, id);
    var first := DecidingLine(db, r, Txt(id));
    assert Names(db, r, Txt(id)) <==> first.Some? && SigningGoes(r.envs(first.value));
  }

  /** After any request, with any statements failing, an owner reads what the request leaves if it
      names the owner, and what it read before if it does not. */
  lemma RequestReads(db: StaffDb, r: Request, owner: Cell)
    ensures FindSigning(Serve(db, r).signing, owner)
            == if Names(db, r, owner) then Leaves(db, r, owner) else FindSigning(db.signing, owner)
  {
    match r
    case Create(operator, data, signing, env) => CreateReads(db, operator, data, signing, env, owner);
    case Update(operator, target, data, signing, env) =>
      UpdateRequestReads(db, operator, target, data, signing, env, owner);
    case Delete(operator, target, env) => DeleteRequestReads(db, operator, target, env, owner);
    case BulkImport(_, _, _, _, _) => ImportRequestReads(db, r, owner);
  }

  /** A request leaves an owner's row exactly when it does not name the owner, or leaves the very row
      that is there already. */
  lemma RequestKeepsIff(db: StaffDb, r: Request, owner: Cell)
    ensures FindSigning(Serve(db, r).signing, owner) == FindSigning(db.signing, owner)
            <==> (Names(db, r, owner) ==> Leaves(db, r, owner) == FindSigning(db.signing, owner))
  {
    RequestReads(db, r, owner);
  }

  // ----- Runs -----------------------------------------------------------------------------------

  /** Over any run of requests by anyone, with any statements failing, an owner reads the signing row
      it read at the start as long as no request names it. */
  lemma {:induction false} RunKeepsSigning(db: StaffDb, rs: seq<Request>, owner: Cell)
    requires NeverNames(db, rs, owner)
    ensures FindSigning(ServeAll(db, rs).signing, owner) == FindSigning(db.signing, owner)
    decreases |rs|
  {
    if rs != [] {
      RequestReads(db, rs[0], owner);
      RunKeepsSigning(Serve(db, rs[0]), rs[1..], owner);
    }
  }

  lemma {:induction false} ServeInTurn(db: StaffDb, before: seq<Request>, after: seq<Request>)
    ensures ServeAll(db, before + after) == ServeAll(ServeAll(db, before), after)
    decreases |before|
  {
    if before == [] {
      assert before + after == after;
    } else {
      assert (before + after)[1..] == before[1..] + after;
      ServeInTurn(Serve(db, before[0]), before[1..], after);
    }
  }

  /** Otherwise the last request of the run that names the owner decides: its row is what is read at
      the end. */
  lemma LastNamingDecides(db: StaffDb, before: seq<Request>, r: Request, after: seq<Request>, owner: Cell)
    requires Names(ServeAll(db, before), r, owner)
    requires NeverNames(Serve(ServeAll(db, before), r), after, owner)
    ensures FindSigning(ServeAll(db, before + [r] + after).signing, owner) == Leaves(ServeAll(db, before), r, owner)
  {
    var here := ServeAll(db, before);
    assert before + [r] + after == before + ([r] + after);
    assert ([r] + after)[1..] == after;
    ServeInTurn(db, before, [r] + after);
    RequestReads(here, r, owner);
    RunKeepsSigning(Serve(here, r), after, owner);
  }

  // ----- Signing rows across departments -------------------------------------------------------

  const OPERATOR := User(1, map["UserID" := Txt("op"), "UserName" := Txt("Op"), "Department" := Txt("ABC1"),
                                "PriorityLevel" := Num(1)])

  const OTHER := User(2, map["UserID" := Txt("u2"), "UserName" := Txt("Two"), "Department" := Txt("XYZ1"),
                             "PriorityLevel" := Num(1)])

  function TwoDepartments(): StaffDb {
    StaffDb([OPERATOR, OTHER], [Filed(Txt("u2"), Txt("Two"), Txt("XYZ1"), DetailsOf(map[]))], 3)
  }

  const OTHERS_ID: Dict := [("userID", Txt("u2"))]

  lemma OperatorFound()
    ensures FindById(TwoDepartments().users, 1) == Some(OPERATOR)
    ensures Level(OPERATOR) == Some(1) && PrefixOf(Column(OPERATOR, "Department")) == Some("ABC")
    ensures Column(OPERATOR, "UserName") == Txt("Op")
  {
    assert Truthy(Txt("ABC1")) && "ABC1"[..3] == "ABC";
  }

  lemma OnlyUserIdGiven()
    ensures var fields := BackendFields(OTHERS_ID);
            && Has(fields, "UserID") && Get(fields, "UserID", Null) == Txt("u2")
            && !Has(fields, "UserName") && !Has(fields, "Password")
            && !Has(fields, "PriorityLevel") && !Has(fields, "Department")
  {
    GetIsUnique(OTHERS_ID, "userID", Txt("u2"), Null);
    Translated(OTHERS_ID, 1);
    Translated(OTHERS_ID, 0);
    Translated(OTHERS_ID, 4);
    Translated(OTHERS_ID, 5);
    Translated(OTHERS_ID, 7);
  }

  /** An update gives a user of one department the UserID of a user of another: it succeeds, and the
      signing row found under that UserID now carries the first user's name. */
  lemma SigningRowCrossesDepartments()
    ensures var r := ServeUpdate(TwoDepartments(), 1, 1, OTHERS_ID, map["factory" := Txt("F")], Env({}, 0));
            && r.response.Ok?
            && FindSigning(r.db.signing, Txt("u2")).Some?
            && FindSigning(r.db.signing, Txt("u2")).value[InspectorName] == Txt("Op")
  {
    var db, fields, signing: Row := TwoDepartments(), BackendFields(OTHERS_ID), map["factory" := Txt("F")];
    OperatorFound();
    OnlyUserIdGiven();
    GetIff(fields, "Password", Null);
    UpdateResult(db, 1, UserData(fields, signing), Env({}, 0));
    UpdatedColumn(OPERATOR, fields, 0, "UserID");
    UpdatedColumn(OPERATOR, fields, 0, "UserName");
    assert "factory" in signing;
    var u := UpdatedRow(OPERATOR, fields, 0);
    WrittenIsFound(db.signing, Txt("u2"), Txt("Op"), Get(HashPassword(fields), "Department", Column(u, "Department")),
                   signing);
  }
}
