/**
 The user half of the database: `SysUser`, the signing table, and the reading of their cells that
 the Python code does.
 */
module StaffStore {
  import opened Outcomes
  import opened Text

  /** A column or request value. A password is stored as the hash of its text. */
  datatype Cell = Null | Num(n: int) | Flag(b: bool) | Txt(s: string) | Hashed(plain: string) | Time(t: int)

  type Row = map<string, Cell>

  datatype User = User(id: nat, cols: Row)

  /** The columns of the signing table, in the order of its INSERT statement. */
  datatype SigningColumn =
    | InspectorName        // 巡檢人姓名
    | InspectorId          // 巡檢人ID
    | DepartmentName       // 部門
    | DepartmentAbbr       // 部門縮寫
    | SupervisorName       // 主管姓名
    | SupervisorId         // 主管ID
    | SectionChiefName     // 課長姓名
    | SectionChiefId       // 課長ID
    | SafetyOfficerName    // 廠工安人員1
    | SafetyOfficerId      // 廠工安人員1ID
    | PsmSpecialistName    // 廠PSM專人姓名
    | PsmSpecialistId      // 廠PSM專人ID
    | FactoryManagerName   // 廠長姓名
    | FactoryManagerId     // 廠長ID
    | SafetySupervisorName // 工安主管姓名
    | SafetySupervisorId   // 工安主管ID
    | SafetySpecialistName // 工安高專姓名
    | SafetySpecialistId   // 工安高專ID
    | Factory              // 廠
    | Section              // 課
    | JobTitle             // 職稱
    | SecondDepartment     // 第二部門

  /** A row of the signing table: a cell in every column. */
  type Signing = row: map<SigningColumn, Cell> | forall c: SigningColumn :: c in row
    witness map c: SigningColumn | true :: Null

  datatype StaffDb = StaffDb(users: seq<User>, signing: seq<Signing>, nextId: nat)

  /** The statements of the user operations; `IdentityNull` stands for SCOPE_IDENTITY giving NULL. */
  datatype Stmt =
    | Lookup | Insert | Identity | IdentityNull | FallbackLookup | SaveUser
    | SigningLookup | SigningWrite | SaveSigning | ReadBack
    | FindUser | UpdateRow | SaveRow | Reread
    | DeleteSigning | DeleteRow | SaveDelete
    | OperatorLookup | TargetLookup

  /** What one call meets: its failing statements and the server's clock. */
  datatype Env = Env(faults: set<Stmt>, now: int)

  // ----- Python dictionaries ------------------------------------------------------------------

  predicate DistinctKeys(fields: seq<(string, Cell)>) {
    forall i, j :: 0 <= i < j < |fields| ==> fields[i].0 != fields[j].0
  }

  /** A dictionary in insertion order. */
  type Dict = fields: seq<(string, Cell)> | DistinctKeys(fields) witness []

  predicate Has(fields: seq<(string, Cell)>, key: string) {
    exists i :: 0 <= i < |fields| && fields[i].0 == key
  }

  /** `fields.get(key, default)`. */
  function Get(fields: seq<(string, Cell)>, key: string, default: Cell): Cell
    decreases |fields|
  {
    if fields == [] then default
    else if fields[0].0 == key then fields[0].1
    else Get(fields[1..], key, default)
  }

  function CellAt(m: Row, key: string, default: Cell): Cell { if key in m then m[key] else default }

  // ----- Reading cells ------------------------------------------------------------------------

  predicate Truthy(c: Cell) {
    match c
    case Null => false
    case Num(n) => n != 0
    case Flag(b) => b
    case Txt(s) => s != ""
    case _ => true
  }

  /** The integer a cell compares as; `None` stands for the TypeError. */
  function NumberOf(c: Cell): Option<int> {
    match c
    case Num(n) => Some(n)
    case Flag(b) => Some(if b then 1 else 0)
    case _ => None
  }

  /** `c[:3] if c else ''`; `None` stands for the TypeError. */
  function PrefixOf(c: Cell): Option<string> {
    if !Truthy(c) then Some("") else if c.Txt? then Some(Take(c.s, 3)) else None
  }

  function Column(u: User, name: string): Cell { CellAt(u.cols, name, Null) }

  /** First three characters of a row's department. */
  function Prefix(u: User): string {
    var p := PrefixOf(Column(u, "Department"));
    if p.Some? then p.value else ""
  }

  function Level(u: User): Option<int> { NumberOf(Column(u, "PriorityLevel")) }

  // ----- Queries ------------------------------------------------------------------------------

  /** SELECT * FROM SysUser WHERE ID = ? */
  function FindById(users: seq<User>, id: nat): Option<User>
    decreases |users|
  {
    if users == [] then None
    else if users[0].id == id then Some(users[0])
    else FindById(users[1..], id)
  }

  /** SELECT * FROM SysUser WHERE UserID = ?: NULL equals nothing. */
  function FindByUserId(users: seq<User>, key: Cell): Option<User>
    decreases |users|
  {
    if users == [] then None
    else if key != Null && Column(users[0], "UserID") == key then Some(users[0])
    else FindByUserId(users[1..], key)
  }

  /** The signing row has this owner, NULL equalling nothing. */
  predicate OwnedBy(row: Signing, owner: Cell) { owner != Null && row[InspectorId] == owner }

  function FindSigning(rows: seq<Signing>, owner: Cell): Option<Signing>
    decreases |rows|
  {
    if rows == [] then None
    else if OwnedBy(rows[0], owner) then Some(rows[0])
    else FindSigning(rows[1..], owner)
  }

  /** DELETE FROM SysUser WHERE ID = ? */
  function WithoutUser(users: seq<User>, id: nat): seq<User>
    decreases |users|
  {
    if users == [] then []
    else (if users[0].id == id then [] else [users[0]]) + WithoutUser(users[1..], id)
  }

  /** DELETE ... WHERE owner = ? */
  function WithoutSigning(rows: seq<Signing>, owner: Cell): seq<Signing>
    decreases |rows|
  {
    if rows == [] then []
    else (if OwnedBy(rows[0], owner) then [] else [rows[0]]) + WithoutSigning(rows[1..], owner)
  }

  /** Rows in id order, ids below the next identity value. */
  predicate IdsInOrder(db: StaffDb) {
    && (forall u :: u in db.users ==> u.id < db.nextId)
    && forall i, j :: 0 <= i < j < |db.users| ==> db.users[i].id < db.users[j].id
  }

  // ----- Facts about the queries --------------------------------------------------------------

  lemma {:induction false} FindByIdIff(users: seq<User>, id: nat)
    ensures FindById(users, id).Some? <==> exists u :: u in users && u.id == id
    ensures FindById(users, id).Some? ==> FindById(users, id).value in users && FindById(users, id).value.id == id
  {
    if users != [] {
      FindByIdIff(users[1..], id);
      assert users == [users[0]] + users[1..];
    }
  }

  lemma {:induction false} FindByUserIdIff(users: seq<User>, key: Cell)
    ensures FindByUserId(users, key).Some? <==> key != Null && exists u :: u in users && Column(u, "UserID") == key
    ensures FindByUserId(users, key).Some? ==>
              FindByUserId(users, key).value in users && Column(FindByUserId(users, key).value, "UserID") == key
  {
    if users != [] {
      FindByUserIdIff(users[1..], key);
      assert users == [users[0]] + users[1..];
    }
  }

  lemma {:induction false} FindByUserIdLast(users: seq<User>, u: User, key: Cell)
    requires FindByUserId(users, key).None?
    ensures FindByUserId(users + [u], key) == if key != Null && Column(u, "UserID") == key then Some(u) else None
    decreases |users|
  {
    if users != [] {
      assert (users + [u])[1..] == users[1..] + [u];
      FindByUserIdLast(users[1..], u, key);
    }
  }

  lemma {:induction false} FindSigningIff(rows: seq<Signing>, owner: Cell)
    ensures FindSigning(rows, owner).Some? <==> exists r :: r in rows && OwnedBy(r, owner)
    ensures FindSigning(rows, owner).Some? ==>
              FindSigning(rows, owner).value in rows && OwnedBy(FindSigning(rows, owner).value, owner)
  {
    if rows != [] {
      FindSigningIff(rows[1..], owner);
      assert rows == [rows[0]] + rows[1..];
    }
  }

  lemma {:induction false} GetIff(fields: seq<(string, Cell)>, key: string, default: Cell)
    ensures !Has(fields, key) ==> Get(fields, key, default) == default
    ensures Has(fields, key) ==> (key, Get(fields, key, default)) in fields
    decreases |fields|
  {
    if fields != [] {
      GetIff(fields[1..], key, default);
      assert fields == [fields[0]] + fields[1..];
      if Has(fields, key) && fields[0].0 != key {
        var i :| 0 <= i < |fields| && fields[i].0 == key;
        assert fields[1..][i - 1].0 == key;
      }
      if Has(fields[1..], key) {
        var i :| 0 <= i < |fields| - 1 && fields[1..][i].0 == key;
        assert fields[i + 1].0 == key;
      }
      assert fields[0] == (fields[0].0, fields[0].1);
    }
  }

  /** A dictionary has one value per key. */
  lemma GetIsUnique(fields: Dict, key: string, value: Cell, default: Cell)
    requires (key, value) in fields
    ensures Has(fields, key) && Get(fields, key, default) == value
  {
    var i :| 0 <= i < |fields| && fields[i] == (key, value);
    assert fields[i].0 == key;
    GetIff(fields, key, default);
    var j :| 0 <= j < |fields| && fields[j] == (key, Get(fields, key, default));
    assert fields[j].0 == key;
  }

  /** How cells are read: what counts as nothing, what compares as a number, whose first characters are taken. */
  lemma CellsInWords(n: int, s: string)
    ensures !Truthy(Null) && !Truthy(Num(0)) && !Truthy(Flag(false)) && !Truthy(Txt(""))
    ensures Truthy(Flag(true)) && (n != 0 ==> Truthy(Num(n))) && (s != "" ==> Truthy(Txt(s)))
    ensures NumberOf(Num(n)) == Some(n) && NumberOf(Flag(true)) == Some(1) && NumberOf(Flag(false)) == Some(0)
    ensures NumberOf(Null) == None && NumberOf(Txt(s)) == None
    ensures PrefixOf(Null) == Some("") && PrefixOf(Txt(s)) == Some(if |s| <= 3 then s else s[..3])
    ensures n != 0 ==> PrefixOf(Num(n)) == None
  {}
}
