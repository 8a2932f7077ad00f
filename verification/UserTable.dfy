/** The INSERT statement of `add_user`: its column list, its values and its parameters. */
module UserTable {
  import opened Outcomes
  import opened StaffStore
  import opened SqlStatements
  import opened SqlUpdate

  /** What a new user's row should hold, its creation time aside. */
  datatype NewCells = NewCells(
    userName: Cell, userId: Cell, engName: Cell, email: Cell, password: Cell, priorityLevel: Cell, position: Cell,
    shift: Cell, department: Cell, remark: Cell, shifts: Cell, atWork: bool)

  /** The row with each of these cells in the column of its name. */
  function UserRow(cells: NewCells, now: int): Row {
    map[
      STAMP_COLUMN := Null, "UserName" := cells.userName, "UserID" := cells.userId, "EngName" := cells.engName,
      "Email" := cells.email, "Password" := cells.password, "PriorityLevel" := cells.priorityLevel,
      "Position" := cells.position, "Shift" := cells.shift, "Department" := cells.department,
      "Remark" := cells.remark, "Shifts" := cells.shifts, "CreateDate" := Time(now),
      "IsAtWork" := Num(if cells.atWork then 1 else 0)
    ]
  }

  /** What `user_data` gives for each of them. */
  function CellsOf(fields: seq<(string, Cell)>): NewCells {
    NewCells(Get(fields, "UserName", Null), Get(fields, "UserID", Null), Get(fields, "EngName", Null),
             Get(fields, "Email", Null), Get(fields, "Password", Null), Get(fields, "PriorityLevel", Num(1)),
             Get(fields, "Position", Null), Get(fields, "Shift", Null), Get(fields, "Department", Null),
             Get(fields, "Remark", Null), Get(fields, "Shifts", Null), Truthy(Get(fields, "isAtWork", Flag(true))))
  }

  // ----- The statement --------------------------------------------------------------------------

  const USER_COLUMNS: seq<string> := [
    "UserName", "UserID", "EngName", "Email", "Password",
    "PriorityLevel", "Position", "Shift", "Department", "Remark", "Shifts",
    "CreateDate", "IsAtWork"
  ]

  const USER_VALUES: seq<Value> := [
    Placeholder, Placeholder, Placeholder, Placeholder, Placeholder,
    Placeholder, Placeholder, Placeholder, Placeholder, Placeholder, Placeholder,
    Now, Placeholder
  ]

  function UserParams(fields: seq<(string, Cell)>): seq<Cell> {
    [ Get(fields, "UserName", Null), Get(fields, "UserID", Null), Get(fields, "EngName", Null),
      Get(fields, "Email", Null), Get(fields, "Password", Null), Get(fields, "PriorityLevel", Num(1)),
      Get(fields, "Position", Null), Get(fields, "Shift", Null), Get(fields, "Department", Null),
      Get(fields, "Remark", Null), Get(fields, "Shifts", Null),
      Num(if Truthy(Get(fields, "isAtWork", Flag(true))) then 1 else 0) ]
  }

  /** The row the server makes of it; columns not named are NULL. */
  function InsertedRow(fields: seq<(string, Cell)>, now: int): Option<Row> {
    InsertRow(map[STAMP_COLUMN := Null], USER_COLUMNS, USER_VALUES, UserParams(fields), now)
  }

  // ----- It stores what it should ---------------------------------------------------------------

  /** A column's length and fifth letter, which no other column of the list has. */
  function Mark(column: string): (nat, char)
    requires |column| > 4
  {
    (|column|, column[4])
  }

  const MARKS := [(8, 'N'), (6, 'I'), (7, 'a'), (5, 'l'), (8, 'w'), (13, 'r'), (8, 't'), (5, 't'), (10, 'r'), (6, 'r'),
                  (6, 't'), (10, 't'), (8, 'W')]

  lemma MarksOfColumns(i: nat)
    requires i < |USER_COLUMNS|
    ensures |USER_COLUMNS[i]| > 4 && Mark(USER_COLUMNS[i]) == MARKS[i]
  {}

  lemma UserColumnsDiffer()
    ensures Distinct(USER_COLUMNS)
  {
    forall i, j | 0 <= i < j < |USER_COLUMNS| ensures USER_COLUMNS[i] != USER_COLUMNS[j] {
      MarksOfColumns(i);
      MarksOfColumns(j);
    }
  }

  /** The clock takes no parameter, and the value behind it takes the last one. */
  lemma UserValueAt(params: seq<Cell>, now: int, i: nat)
    requires |params| == 12 && i < 13
    ensures Taken(USER_VALUES, 13) == |params|
    ensures ValueAt(USER_VALUES, params, i, now)
            == if i == 11 then Time(now) else if i == 12 then params[11] else params[i]
  {
    AllTaken(USER_VALUES, 11);
    assert Taken(USER_VALUES, 12) == 11;
    if i < 11 { AllTaken(USER_VALUES, i); }
  }

  /** The cells the statement writes, in the order of its columns. */
  function UserCells(cells: NewCells, now: int): seq<Cell> {
    [ cells.userName, cells.userId, cells.engName, cells.email, cells.password, cells.priorityLevel, cells.position,
      cells.shift, cells.department, cells.remark, cells.shifts, Time(now), Num(if cells.atWork then 1 else 0) ]
  }

  lemma ValuesAreCells(fields: seq<(string, Cell)>, now: int)
    ensures Taken(USER_VALUES, 13) == |UserParams(fields)|
    ensures ValueList(USER_VALUES, UserParams(fields), now) == UserCells(CellsOf(fields), now)
  {
    var params, cells := UserParams(fields), UserCells(CellsOf(fields), now);
    UserValueAt(params, now, 0);
    forall i | 0 <= i < 13 ensures ValueAt(USER_VALUES, params, i, now) == cells[i] { UserValueAt(params, now, i); }
  }

  lemma FilledFirst(cells: NewCells, now: int)
    ensures Fill(map[STAMP_COLUMN := Null], USER_COLUMNS, UserCells(cells, now), 6)
            == map[STAMP_COLUMN := Null, "UserName" := cells.userName, "UserID" := cells.userId,
                   "EngName" := cells.engName,
                   "Email" := cells.email, "Password" := cells.password, "PriorityLevel" := cells.priorityLevel]
  {
    var row, list := map[STAMP_COLUMN := Null], UserCells(cells, now);
    assert Fill(row, USER_COLUMNS, list, 0) == row;
    assert Fill(row, USER_COLUMNS, list, 2) == row["UserName" := cells.userName]["UserID" := cells.userId];
    assert Fill(row, USER_COLUMNS, list, 4)
           == Fill(row, USER_COLUMNS, list, 2)["EngName" := cells.engName]["Email" := cells.email];
  }

  lemma FilledRow(cells: NewCells, now: int)
    ensures Fill(map[STAMP_COLUMN := Null], USER_COLUMNS, UserCells(cells, now), 13) == UserRow(cells, now)
  {
    var row, list := map[STAMP_COLUMN := Null], UserCells(cells, now);
    FilledFirst(cells, now);
    assert Fill(row, USER_COLUMNS, list, 8)
           == Fill(row, USER_COLUMNS, list, 6)["Position" := cells.position]["Shift" := cells.shift];
    assert Fill(row, USER_COLUMNS, list, 10)
           == Fill(row, USER_COLUMNS, list, 8)["Department" := cells.department]["Remark" := cells.remark];
    assert Fill(row, USER_COLUMNS, list, 12)
           == Fill(row, USER_COLUMNS, list, 10)["Shifts" := cells.shifts]["CreateDate" := Time(now)];
  }

  /** The server accepts the statement, and each field lands in its own column. */
  lemma InsertGivesRow(fields: seq<(string, Cell)>, now: int)
    ensures InsertedRow(fields, now) == Some(UserRow(CellsOf(fields), now))
  {
    UserColumnsDiffer();
    ValuesAreCells(fields, now);
    FilledRow(CellsOf(fields), now);
  }

  lemma UserRowAt(cells: NewCells, now: int, i: nat)
    requires i < |USER_COLUMNS|
    ensures USER_COLUMNS[i] in UserRow(cells, now) && UserRow(cells, now)[USER_COLUMNS[i]] == UserCells(cells, now)[i]
  {
    UserColumnsDiffer();
    FilledRow(cells, now);
    FillCells(map[STAMP_COLUMN := Null], USER_COLUMNS, UserCells(cells, now), 13);
  }

  /** The row in words: each column by its name. */
  predicate Holds(row: Row, cells: NewCells, now: int) {
    && CellAt(row, "UserName", Null) == cells.userName && CellAt(row, "UserID", Null) == cells.userId
    && CellAt(row, "EngName", Null) == cells.engName && CellAt(row, "Email", Null) == cells.email
    && CellAt(row, "Password", Null) == cells.password && CellAt(row, "PriorityLevel", Null) == cells.priorityLevel
    && CellAt(row, "Position", Null) == cells.position && CellAt(row, "Shift", Null) == cells.shift
    && CellAt(row, "Department", Null) == cells.department && CellAt(row, "Remark", Null) == cells.remark
    && CellAt(row, "Shifts", Null) == cells.shifts && CellAt(row, "CreateDate", Null) == Time(now)
    && CellAt(row, "IsAtWork", Null) == Num(if cells.atWork then 1 else 0)
  }

  lemma UserRowHolds(cells: NewCells, now: int)
    ensures Holds(UserRow(cells, now), cells, now)
  {
    forall i: nat | i < 13
      ensures CellAt(UserRow(cells, now), USER_COLUMNS[i], Null) == UserCells(cells, now)[i]
    {
      UserRowAt(cells, now, i);
    }
    var row, list := UserRow(cells, now), UserCells(cells, now);
    assert CellAt(row, USER_COLUMNS[0], Null) == list[0] && CellAt(row, USER_COLUMNS[1], Null) == list[1];
    assert CellAt(row, USER_COLUMNS[2], Null) == list[2] && CellAt(row, USER_COLUMNS[3], Null) == list[3];
    assert CellAt(row, USER_COLUMNS[4], Null) == list[4] && CellAt(row, USER_COLUMNS[5], Null) == list[5];
    assert CellAt(row, USER_COLUMNS[6], Null) == list[6] && CellAt(row, USER_COLUMNS[7], Null) == list[7];
    assert CellAt(row, USER_COLUMNS[8], Null) == list[8] && CellAt(row, USER_COLUMNS[9], Null) == list[9];
    assert CellAt(row, USER_COLUMNS[10], Null) == list[10] && CellAt(row, USER_COLUMNS[11], Null) == list[11];
    assert CellAt(row, USER_COLUMNS[12], Null) == list[12];
  }
}
