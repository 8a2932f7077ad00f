/** `bulk_import_users`: a fold over CSV rows that inserts users as it goes. */
module BulkImport {
  import opened Outcomes
  import opened Text
  import opened Database
  import opened StaffStore
  import opened SqlStatements
  import opened SigningTable
  import opened UserTable
  import opened Staff

  type CsvRow = seq<string>

  const COLUMNS := 23

  /** Why a row is not imported, or that it is, with its level. */
  datatype Check =
    | Acceptable(level: int)
    | TooShort
    | BadNumber
    | BlankNameOrId
    | LevelNotAllowed(level: int)
    | DepartmentNotAllowed(prefix: string)

  datatype RowError = Rejected(check: Check) | AlreadyThere(userId: string) | NotProcessed

  datatype Entry = Entry(row: nat, name: string, userId: string, level: int)

  datatype Import = Import(db: StaffDb, imported: seq<Entry>, errors: seq<(nat, RowError)>)

  function CellOf(row: CsvRow, i: nat): string
    requires i < |row|
  {
    Strip(row[i])
  }

  function NameOf(row: CsvRow): string
    requires |row| >= COLUMNS
  {
    CellOf(row, 0)
  }

  function IdOf(row: CsvRow): string
    requires |row| >= COLUMNS
  {
    CellOf(row, 1)
  }

  function DepartmentOf(row: CsvRow): string
    requires |row| >= COLUMNS
  {
    CellOf(row, 18)
  }

  function LevelOf(row: CsvRow): Option<int>
    requires |row| >= COLUMNS
  {
    if CellOf(row, 22) == "" then Some(1) else ParseInt(CellOf(row, 22))
  }

  /** The checks a row goes through before the database is asked, in their order. */
  function CheckRow(row: CsvRow, prefix: string): Check {
    if |row| < COLUMNS then TooShort
    else if LevelOf(row).None? then BadNumber
    else if NameOf(row) == "" || IdOf(row) == "" then BlankNameOrId
    else if LevelOf(row).value !in {1, 2} then LevelNotAllowed(LevelOf(row).value)
    else if Take(DepartmentOf(row), 3) != prefix then DepartmentNotAllowed(Take(DepartmentOf(row), 3))
    else Acceptable(LevelOf(row).value)
  }

  /** The last six characters of the UserID. */
  function DefaultPassword(userId: string): string {
    if |userId| >= 6 then userId[|userId| - 6..] else userId
  }

  function FieldsOf(row: CsvRow, level: int): Dict
    requires |row| >= COLUMNS
  {
    [("UserName", Txt(NameOf(row))), ("UserID", Txt(IdOf(row))), ("EngName", Txt("")), ("Email", Txt("")),
     ("Password", Txt(DefaultPassword(IdOf(row)))), ("PriorityLevel", Num(level)), ("Position", Txt(CellOf(row, 20))),
     ("Department", Txt(DepartmentOf(row))), ("Remark", Txt("")), ("isAtWork", Flag(true))]
  }

  /** The fields of the signing data and their file columns. */
  const SIGNING_COLUMNS: seq<(SigningField, nat)> := [
    (SupervisorNameField, 2), (SupervisorIdField, 3), (SectionChiefNameField, 4), (SectionChiefIdField, 5),
    (SafetyOfficerNameField, 6), (SafetyOfficerIdField, 7), (PsmSpecialistNameField, 8), (PsmSpecialistIdField, 9),
    (FactoryManagerNameField, 10), (FactoryManagerIdField, 11),
    (SafetySupervisorNameField, 12), (SafetySupervisorIdField, 13),
    (SafetySpecialistNameField, 14), (SafetySpecialistIdField, 15), (FactoryField, 16), (SectionField, 17),
    (DepartmentAbbrField, 19), (SecondDepartmentField, 21)
  ]

  lemma SigningColumnsExist()
    ensures forall i :: 0 <= i < |SIGNING_COLUMNS| ==> SIGNING_COLUMNS[i].1 < COLUMNS
  {}

  function SigningKeys(): seq<string> {
    seq(|SIGNING_COLUMNS|, i requires 0 <= i < |SIGNING_COLUMNS| => FieldName(SIGNING_COLUMNS[i].0))
  }

  function SigningCells(row: CsvRow): seq<Cell>
    requires |row| >= COLUMNS
  {
    SigningColumnsExist();
    seq(|SIGNING_COLUMNS|, i requires 0 <= i < |SIGNING_COLUMNS| => Txt(CellOf(row, SIGNING_COLUMNS[i].1)))
  }

  /** `signing_data` of a line. */
  function SigningOf(row: CsvRow): Row
    requires |row| >= COLUMNS
  {
    Fill(map[], SigningKeys(), SigningCells(row), |SIGNING_COLUMNS|)
  }

  function DataOf(row: CsvRow, level: int): UserData
    requires |row| >= COLUMNS
  {
    UserData(FieldsOf(row, level), SigningOf(row))
  }

  /** One data row, with its line number in the file. */
  function ImportRow(before: Import, row: CsvRow, number: nat, prefix: string, env: Env): Import {
    var check := CheckRow(row, prefix);
    if !check.Acceptable? then before.(errors := before.errors + [(number, Rejected(check))])
    else
      var added := AddUser(before.db, DataOf(row, check.level), env);
      match added.outcome
      case Created(_) =>
        before.(db := added.db, imported := before.imported + [Entry(number, NameOf(row), IdOf(row), check.level)])
      case Exists => Import(added.db, before.imported, before.errors + [(number, AlreadyThere(IdOf(row)))])
      case Failed => Import(added.db, before.imported, before.errors + [(number, NotProcessed)])
  }

  /** The whole file; data rows are numbered from 2. */
  function ImportRows(db: StaffDb, rows: seq<CsvRow>, prefix: string, envs: nat -> Env): Import
    decreases |rows|
  {
    if rows == [] then Import(db, [], [])
    else
      var last := |rows| - 1;
      ImportRow(ImportRows(db, rows[..last], prefix, envs), rows[last], last + 2, prefix, envs(last))
  }

  method ImportDataRows(s: Session<StaffDb>, rows: seq<CsvRow>, prefix: string, envs: nat -> Env)
      returns (imported: seq<Entry>, errors: seq<(nat, RowError)>)
    requires s.work == s.saved
    modifies s
    ensures var r := ImportRows(old(s.saved), rows, prefix, envs);
            s.View() == Tx(r.db, r.db) && imported == r.imported && errors == r.errors
  {
    imported, errors := [], [];
    var rowNumber := 1;
    for i := 0 to |rows|
      invariant rowNumber == i + 1
      invariant var r := ImportRows(old(s.saved), rows[..i], prefix, envs);
                s.View() == Tx(r.db, r.db) && imported == r.imported && errors == r.errors
    {
      assert rows[..i + 1][..i] == rows[..i];
      rowNumber := rowNumber + 1;
      var row := rows[i];
      if |row| < COLUMNS {
        errors := errors + [(rowNumber, Rejected(TooShort))];
        continue;
      }
      var userName, userId, department := CellOf(row, 0), CellOf(row, 1), CellOf(row, 18);
      var level := LevelOf(row);
      if level.None? {
        errors := errors + [(rowNumber, Rejected(BadNumber))];
        continue;
      }
      if userName == "" || userId == "" {
        errors := errors + [(rowNumber, Rejected(BlankNameOrId))];
        continue;
      }
      if level.value !in {1, 2} {
        errors := errors + [(rowNumber, Rejected(LevelNotAllowed(level.value)))];
        continue;
      }
      var rowPrefix := Take(department, 3);
      if rowPrefix != prefix {
        errors := errors + [(rowNumber, Rejected(DepartmentNotAllowed(rowPrefix)))];
        continue;
      }
      var outcome := AddUserRecord(s, DataOf(row, level.value), envs(i));
      match outcome
      case Created(_) => imported := imported + [Entry(rowNumber, userName, userId, level.value)];
      case Exists => errors := errors + [(rowNumber, AlreadyThere(userId))];
      case Failed => errors := errors + [(rowNumber, NotProcessed)];
    }
    assert rows[..|rows|] == rows;
  }

  // ----- Every row is accounted for -------------------------------------------------------------

  predicate InImported(r: Import, number: nat) { exists e :: e in r.imported && e.row == number }

  predicate InErrors(r: Import, number: nat) { exists e :: e in r.errors && e.0 == number }

  /** The step reports its line on one side and leaves the other as it was. */
  predicate OneEntry(before: Import, after: Import, number: nat) {
    || (&& |after.imported| == |before.imported| + 1 && after.errors == before.errors
        && after.imported == before.imported + [after.imported[|before.imported|]]
        && after.imported[|before.imported|].row == number)
    || (&& |after.errors| == |before.errors| + 1 && after.imported == before.imported
        && after.errors == before.errors + [after.errors[|before.errors|]]
        && after.errors[|before.errors|].0 == number)
  }

  lemma RowAddsOneEntry(before: Import, row: CsvRow, number: nat, prefix: string, env: Env)
    ensures OneEntry(before, ImportRow(before, row, number, prefix, env), number)
  {}

  lemma OneEntryMembers(before: Import, after: Import, number: nat, n: nat)
    requires OneEntry(before, after, number)
    ensures n != number ==>
              (InImported(after, n) <==> InImported(before, n)) && (InErrors(after, n) <==> InErrors(before, n))
    ensures n == number ==> InImported(after, n) || InErrors(after, n)
    ensures n == number && !InImported(before, n) && !InErrors(before, n) ==>
              !(InImported(after, n) && InErrors(after, n))
  {
    if |after.imported| > |before.imported| {
      assert after.imported[|before.imported|] in after.imported;
    } else {
      assert after.errors[|before.errors|] in after.errors;
    }
  }

  /** The counts sum to the number of rows, and a line number is reported on one side only, exactly
      when the file has that line. */
  ghost predicate Counted(r: Import, rows: nat) {
    && |r.imported| + |r.errors| == rows
    && (forall n: nat :: 2 <= n < rows + 2 <==> InImported(r, n) || InErrors(r, n))
    && (forall n: nat :: !(InImported(r, n) && InErrors(r, n)))
  }

  lemma CountOneMore(before: Import, after: Import, rows: nat)
    requires Counted(before, rows) && OneEntry(before, after, rows + 2)
    ensures Counted(after, rows + 1)
  {
    forall n: nat
      ensures 2 <= n < rows + 3 <==> InImported(after, n) || InErrors(after, n)
      ensures !(InImported(after, n) && InErrors(after, n))
    {
      OneEntryMembers(before, after, rows + 2, n);
      assert !(InImported(before, n) && InErrors(before, n));
    }
  }

  /** Whatever fails, each data row adds exactly one entry to the imported users or to the errors. */
  lemma {:induction false} EveryRowCounted(db: StaffDb, rows: seq<CsvRow>, prefix: string, envs: nat -> Env)
    ensures Counted(ImportRows(db, rows, prefix, envs), |rows|)
    decreases |rows|
  {
    if rows != [] {
      var last := |rows| - 1;
      var before := ImportRows(db, rows[..last], prefix, envs);
      EveryRowCounted(db, rows[..last], prefix, envs);
      RowAddsOneEntry(before, rows[last], last + 2, prefix, envs(last));
      CountOneMore(before, ImportRows(db, rows, prefix, envs), last);
    }
  }

  // ----- Which rows are imported ----------------------------------------------------------------

  /** UserIDs in the table. */
  function KnownIds(users: seq<User>): set<string> {
    set u | u in users && Column(u, "UserID").Txt? :: Column(u, "UserID").s
  }

  predicate Passes(row: CsvRow, prefix: string) { CheckRow(row, prefix).Acceptable? }

  /** Row k passes every check, its UserID is new, and no earlier row that passes has it. */
  predicate Chosen(rows: seq<CsvRow>, known: set<string>, prefix: string, k: nat)
    requires k < |rows|
  {
    && Passes(rows[k], prefix) && IdOf(rows[k]) !in known
    && forall j :: 0 <= j < k ==> !(Passes(rows[j], prefix) && IdOf(rows[j]) == IdOf(rows[k]))
  }

  /** The chosen rows among the first n, in file order. */
  function ChosenRows(rows: seq<CsvRow>, known: set<string>, prefix: string, n: nat): (chosen: seq<nat>)
    requires n <= |rows|
    ensures forall i :: 0 <= i < |chosen| ==> chosen[i] < n
  {
    if n == 0 then []
    else ChosenRows(rows, known, prefix, n - 1) + if Chosen(rows, known, prefix, n - 1) then [n - 1] else []
  }

  /** All chosen rows, no others, each once and in file order. */
  lemma ChosenRowsExact(rows: seq<CsvRow>, known: set<string>, prefix: string, n: nat, k: nat)
    requires n <= |rows| && k < |rows|
    ensures k in ChosenRows(rows, known, prefix, n) <==> k < n && Chosen(rows, known, prefix, k)
    ensures var chosen := ChosenRows(rows, known, prefix, n);
            forall i, j :: 0 <= i < j < |chosen| ==> chosen[i] < chosen[j]
  {
    ChosenRowsHave(rows, known, prefix, n, k);
    ChosenRowsAscend(rows, known, prefix, n);
  }

  lemma {:induction false} ChosenRowsHave(rows: seq<CsvRow>, known: set<string>, prefix: string, n: nat, k: nat)
    requires n <= |rows| && k < |rows|
    ensures k in ChosenRows(rows, known, prefix, n) <==> k < n && Chosen(rows, known, prefix, k)
    decreases n
  {
    if n > 0 { ChosenRowsHave(rows, known, prefix, n - 1, k); }
  }

  predicate Ascends(numbers: seq<nat>) { forall i, j :: 0 <= i < j < |numbers| ==> numbers[i] < numbers[j] }

  lemma {:induction false} ChosenRowsAscend(rows: seq<CsvRow>, known: set<string>, prefix: string, n: nat)
    requires n <= |rows|
    ensures Ascends(ChosenRows(rows, known, prefix, n))
    decreases n
  {
    if n > 0 {
      ChosenRowsAscend(rows, known, prefix, n - 1);
      AscendsWith(ChosenRows(rows, known, prefix, n - 1), n - 1);
    }
  }

  lemma AscendsWith(numbers: seq<nat>, next: nat)
    requires Ascends(numbers) && forall i :: 0 <= i < |numbers| ==> numbers[i] < next
    ensures Ascends(numbers + [next]) && Ascends(numbers + [])
  {
    assert numbers + [] == numbers;
  }

  /** The user row a passing line should give, column by column. */
  function UserOf(row: CsvRow, prefix: string, id: nat, now: int): User {
    if !Passes(row, prefix) then User(id, map[])
    else User(id, UserRow(NewCells(
      Txt(NameOf(row)), Txt(IdOf(row)), Txt(""), Txt(""), StoredPassword(Txt(DefaultPassword(IdOf(row)))),
      Num(CheckRow(row, prefix).level), Txt(CellOf(row, 20)), Null, Txt(DepartmentOf(row)), Txt(""), Null, true), now))
  }

  /** The fields prepared for a line, read back. */
  lemma FieldsRead(row: CsvRow, level: int, i: nat, default: Cell)
    requires |row| >= COLUMNS && i < 10
    ensures Get(FieldsOf(row, level), FieldsOf(row, level)[i].0, default) == FieldsOf(row, level)[i].1
  {
    var fields := FieldsOf(row, level);
    GetIsUnique(fields, fields[i].0, fields[i].1, default);
  }

  lemma PasswordIsText(row: CsvRow, level: int)
    requires |row| >= COLUMNS
    ensures Get(FieldsOf(row, level), "Password", Null) == Txt(DefaultPassword(IdOf(row)))
    ensures Get(FieldsOf(row, level), "UserID", Null) == Txt(IdOf(row))
    ensures Get(FieldsOf(row, level), "Department", Null) == Txt(DepartmentOf(row))
    ensures Get(FieldsOf(row, level), "PriorityLevel", Num(1)) == Num(level)
    ensures Hashable(FieldsOf(row, level))
  {
    FieldsRead(row, level, 4, Null);
    FieldsRead(row, level, 1, Null);
    FieldsRead(row, level, 7, Null);
    FieldsRead(row, level, 5, Num(1));
  }

  /** The row inserted for a passing line is the one the line should give. */
  lemma InsertedIsUserOf(db: StaffDb, row: CsvRow, prefix: string, now: int)
    requires Passes(row, prefix)
    ensures Hashable(FieldsOf(row, CheckRow(row, prefix).level))
    ensures NewUser(db, DataOf(row, CheckRow(row, prefix).level), now) == UserOf(row, prefix, db.nextId, now)
  {
    var fields := FieldsOf(row, CheckRow(row, prefix).level);
    PasswordIsText(row, CheckRow(row, prefix).level);
    CellsPrepared(fields);
    LineCells(row, CheckRow(row, prefix).level);
  }

  lemma LineCells(row: CsvRow, level: int)
    requires |row| >= COLUMNS
    ensures PreparedCells(FieldsOf(row, level))
            == NewCells(Txt(NameOf(row)), Txt(IdOf(row)), Txt(""), Txt(""),
                        StoredPassword(Txt(DefaultPassword(IdOf(row)))),
                        Num(level), Txt(CellOf(row, 20)), Null, Txt(DepartmentOf(row)), Txt(""), Null, true)
  {}

  /** UserIDs after the first n rows: those known and those of the rows that pass. */
  ghost predicate KnownAfter(users: seq<User>, known: set<string>, rows: seq<CsvRow>, prefix: string, n: nat)
    requires n <= |rows|
  {
    forall s :: s in KnownIds(users) <==>
      s in known || exists j :: 0 <= j < n && Passes(rows[j], prefix) && IdOf(rows[j]) == s
  }

  lemma FindKnown(users: seq<User>, s: string)
    ensures FindByUserId(users, Txt(s)).Some? <==> s in KnownIds(users)
  {
    FindByUserIdIff(users, Txt(s));
  }

  lemma KnownIdsOfAppend(users: seq<User>, u: User, s: string)
    requires Column(u, "UserID") == Txt(s)
    ensures KnownIds(users + [u]) == KnownIds(users) + {s}
  {
    assert u in users + [u];
  }

  /** The rows the chosen lines give, with consecutive ids. */
  function NewUsers(rows: seq<CsvRow>, prefix: string, envs: nat -> Env, firstId: nat, chosen: seq<nat>): seq<User>
    requires forall i :: 0 <= i < |chosen| ==> chosen[i] < |rows|
    decreases |chosen|
  {
    if chosen == [] then []
    else
      var last := |chosen| - 1;
      NewUsers(rows, prefix, envs, firstId, chosen[..last])
      + [UserOf(rows[chosen[last]], prefix, firstId + last, envs(chosen[last]).now)]
  }

  function EntryOf(row: CsvRow, prefix: string, number: nat): Entry {
    if Passes(row, prefix) then Entry(number, NameOf(row), IdOf(row), CheckRow(row, prefix).level)
    else Entry(number, "", "", 0)
  }

  function Entries(rows: seq<CsvRow>, prefix: string, chosen: seq<nat>): seq<Entry>
    requires forall i :: 0 <= i < |chosen| ==> chosen[i] < |rows|
    decreases |chosen|
  {
    if chosen == [] then []
    else
      var last := |chosen| - 1;
      Entries(rows, prefix, chosen[..last]) + [EntryOf(rows[chosen[last]], prefix, chosen[last] + 2)]
  }

  /** What one row does when no statement fails: nothing to the users unless it passes and its
      UserID is new. */
  predicate RowResult(before: Import, after: Import, row: CsvRow, number: nat, prefix: string, env: Env) {
    if !Passes(row, prefix) || IdOf(row) in KnownIds(before.db.users)
    then after.db == before.db && after.imported == before.imported
    else
      && after.db.users == before.db.users + [UserOf(row, prefix, before.db.nextId, env.now)]
      && after.db.nextId == before.db.nextId + 1
      && after.imported == before.imported + [EntryOf(row, prefix, number)]
  }

  /** Adding a dictionary's user, no statement failing. */
  lemma AddResultIn(db: StaffDb, data: UserData, env: Env)
    requires env.faults == {} && Hashable(data.fields)
    ensures var r := AddUser(db, data, env);
            if FindByUserId(db.users, Get(data.fields, "UserID", Null)).Some? then r == Added(db, Exists)
            else r.outcome == Created(db.nextId) && r.db.users == db.users + [NewUser(db, data, env.now)]
                 && r.db.nextId == db.nextId + 1
  {}

  lemma ImportRowResult(before: Import, row: CsvRow, number: nat, prefix: string, env: Env)
    requires env.faults == {}
    ensures RowResult(before, ImportRow(before, row, number, prefix, env), row, number, prefix, env)
  {
    if Passes(row, prefix) {
      var level := CheckRow(row, prefix).level;
      FindKnown(before.db.users, IdOf(row));
      PasswordIsText(row, level);
      AddResultIn(before.db, DataOf(row, level), env);
      InsertedIsUserOf(before.db, row, prefix, env.now);
    }
  }

  /** The users are the old ones and the chosen rows; the report lists exactly the chosen rows. */
  predicate HoldsChosen(db: StaffDb, rows: seq<CsvRow>, prefix: string, envs: nat -> Env, chosen: seq<nat>, r: Import)
    requires forall i :: 0 <= i < |chosen| ==> chosen[i] < |rows|
  {
    && r.db.users == db.users + NewUsers(rows, prefix, envs, db.nextId, chosen)
    && r.db.nextId == db.nextId + |chosen|
    && r.imported == Entries(rows, prefix, chosen)
  }

  ghost predicate Selected(db: StaffDb, rows: seq<CsvRow>, prefix: string, envs: nat -> Env, n: nat, r: Import)
    requires n <= |rows|
  {
    && HoldsChosen(db, rows, prefix, envs, ChosenRows(rows, KnownIds(db.users), prefix, n), r)
    && KnownAfter(r.db.users, KnownIds(db.users), rows, prefix, n)
  }

  lemma UserOfHasId(row: CsvRow, prefix: string, id: nat, now: int)
    requires Passes(row, prefix)
    ensures Column(UserOf(row, prefix, id, now), "UserID") == Txt(IdOf(row))
  {}

  lemma KnownOneMore(rows: seq<CsvRow>, prefix: string, known: set<string>, k: nat, before: Import, after: Import,
                     env: Env)
    requires k < |rows| && KnownAfter(before.db.users, known, rows, prefix, k)
    requires RowResult(before, after, rows[k], k + 2, prefix, env)
    ensures KnownAfter(after.db.users, known, rows, prefix, k + 1)
    ensures Chosen(rows, known, prefix, k) <==> Passes(rows[k], prefix) && IdOf(rows[k]) !in KnownIds(before.db.users)
  {
    if Passes(rows[k], prefix) && IdOf(rows[k]) !in KnownIds(before.db.users) {
      UserOfHasId(rows[k], prefix, before.db.nextId, env.now);
      KnownIdsOfAppend(before.db.users, UserOf(rows[k], prefix, before.db.nextId, env.now), IdOf(rows[k]));
    }
  }

  lemma AppendChosen(users: seq<User>, rows: seq<CsvRow>, prefix: string, envs: nat -> Env, firstId: nat,
                     init: seq<nat>, k: nat)
    requires k < |rows| && forall i :: 0 <= i < |init| ==> init[i] < |rows|
    ensures users + NewUsers(rows, prefix, envs, firstId, init + [k])
            == (users + NewUsers(rows, prefix, envs, firstId, init))
               + [UserOf(rows[k], prefix, firstId + |init|, envs(k).now)]
    ensures Entries(rows, prefix, init + [k]) == Entries(rows, prefix, init) + [EntryOf(rows[k], prefix, k + 2)]
  {
    var chosen := init + [k];
    assert chosen[..|init|] == init && chosen[|init|] == k;
  }

  lemma HoldOneMore(db: StaffDb, rows: seq<CsvRow>, prefix: string, envs: nat -> Env, chosen: seq<nat>, k: nat,
                    before: Import, after: Import)
    requires k < |rows| && forall i :: 0 <= i < |chosen| ==> chosen[i] < |rows|
    requires HoldsChosen(db, rows, prefix, envs, chosen, before)
    requires RowResult(before, after, rows[k], k + 2, prefix, envs(k))
    ensures if Passes(rows[k], prefix) && IdOf(rows[k]) !in KnownIds(before.db.users)
            then HoldsChosen(db, rows, prefix, envs, chosen + [k], after)
            else HoldsChosen(db, rows, prefix, envs, chosen, after)
  {
    AppendChosen(db.users, rows, prefix, envs, db.nextId, chosen, k);
  }

  lemma SelectOneMore(db: StaffDb, rows: seq<CsvRow>, prefix: string, envs: nat -> Env, k: nat, before: Import,
                      after: Import)
    requires k < |rows| && Selected(db, rows, prefix, envs, k, before)
    requires RowResult(before, after, rows[k], k + 2, prefix, envs(k))
    ensures Selected(db, rows, prefix, envs, k + 1, after)
  {
    var known := KnownIds(db.users);
    var init := ChosenRows(rows, known, prefix, k);
    KnownOneMore(rows, prefix, known, k, before, after, envs(k));
    HoldOneMore(db, rows, prefix, envs, init, k, before, after);
    assert ChosenRows(rows, known, prefix, k + 1) == if Chosen(rows, known, prefix, k) then init + [k] else init;
  }

  lemma {:induction false} ImportSelectsUpTo(db: StaffDb, rows: seq<CsvRow>, prefix: string, envs: nat -> Env, n: nat)
    requires n <= |rows|
    requires forall i :: 0 <= i < |rows| ==> envs(i).faults == {}
    ensures Selected(db, rows, prefix, envs, n, ImportRows(db, rows[..n], prefix, envs))
  {
    if n > 0 {
      ImportSelectsUpTo(db, rows, prefix, envs, n - 1);
      SelectStep(db, rows, prefix, envs, n - 1);
    }
  }

  lemma SelectStep(db: StaffDb, rows: seq<CsvRow>, prefix: string, envs: nat -> Env, k: nat)
    requires k < |rows| && envs(k).faults == {}
    requires Selected(db, rows, prefix, envs, k, ImportRows(db, rows[..k], prefix, envs))
    ensures Selected(db, rows, prefix, envs, k + 1, ImportRows(db, rows[..k + 1], prefix, envs))
  {
    assert rows[..k + 1][..k] == rows[..k];
    var before := ImportRows(db, rows[..k], prefix, envs);
    ImportRowResult(before, rows[k], k + 2, prefix, envs(k));
    SelectOneMore(db, rows, prefix, envs, k, before, ImportRows(db, rows[..k + 1], prefix, envs));
  }

  /** With no statement failing, the table afterwards is the old table and, for each new UserID, the
      first row passing every check, in file order and with consecutive ids; those rows are the ones
      reported as imported. */
  lemma ImportSelectsFirstPassing(db: StaffDb, rows: seq<CsvRow>, prefix: string, envs: nat -> Env)
    requires forall i :: 0 <= i < |rows| ==> envs(i).faults == {}
    ensures Selected(db, rows, prefix, envs, |rows|, ImportRows(db, rows, prefix, envs))
  {
    ImportSelectsUpTo(db, rows, prefix, envs, |rows|);
    assert rows[..|rows|] == rows;
  }

  /** A file whose passing rows are all known changes nothing and imports nobody. */
  lemma {:induction false} KnownRowsImportNothing(db: StaffDb, rows: seq<CsvRow>, prefix: string, envs: nat -> Env)
    requires forall i :: 0 <= i < |rows| ==> envs(i).faults == {}
    requires forall j :: 0 <= j < |rows| && Passes(rows[j], prefix) ==> IdOf(rows[j]) in KnownIds(db.users)
    ensures ImportRows(db, rows, prefix, envs).db == db && ImportRows(db, rows, prefix, envs).imported == []
    decreases |rows|
  {
    if rows != [] {
      var last := |rows| - 1;
      forall j | 0 <= j < last ensures rows[..last][j] == rows[j] {}
      KnownRowsImportNothing(db, rows[..last], prefix, envs);
      ImportRowResult(ImportRows(db, rows[..last], prefix, envs), rows[last], last + 2, prefix, envs(last));
    }
  }

  /** Importing the same file again imports nobody, reports one error per data row and leaves both
      tables as they were. */
  lemma ReimportIsNoOp(db: StaffDb, rows: seq<CsvRow>, prefix: string, envs: nat -> Env, later: nat -> Env)
    requires forall i :: 0 <= i < |rows| ==> envs(i).faults == {} && later(i).faults == {}
    ensures var once := ImportRows(db, rows, prefix, envs).db;
            var again := ImportRows(once, rows, prefix, later);
            again.db == once && again.imported == [] && |again.errors| == |rows|
  {
    ImportSelectsFirstPassing(db, rows, prefix, envs);
    var once := ImportRows(db, rows, prefix, envs).db;
    KnownRowsImportNothing(once, rows, prefix, later);
    EveryRowCounted(once, rows, prefix, later);
  }

  // ----- Where a chosen row is found --------------------------------------------------------------

  lemma {:induction false} NewUsersCount(rows: seq<CsvRow>, prefix: string, envs: nat -> Env, firstId: nat,
                                         chosen: seq<nat>)
    requires forall j :: 0 <= j < |chosen| ==> chosen[j] < |rows|
    ensures |NewUsers(rows, prefix, envs, firstId, chosen)| == |chosen|
    decreases |chosen|
  {
    if chosen != [] { NewUsersCount(rows, prefix, envs, firstId, chosen[..|chosen| - 1]); }
  }

  lemma {:induction false} NewUserAt(rows: seq<CsvRow>, prefix: string, envs: nat -> Env, firstId: nat,
                                     chosen: seq<nat>, i: nat)
    requires i < |chosen| && forall j :: 0 <= j < |chosen| ==> chosen[j] < |rows|
    ensures |NewUsers(rows, prefix, envs, firstId, chosen)| == |chosen|
    ensures NewUsers(rows, prefix, envs, firstId, chosen)[i]
            == UserOf(rows[chosen[i]], prefix, firstId + i, envs(chosen[i]).now)
    decreases |chosen|
  {
    var last := |chosen| - 1;
    NewUsersCount(rows, prefix, envs, firstId, chosen);
    NewUsersCount(rows, prefix, envs, firstId, chosen[..last]);
    if i < last {
      NewUserAt(rows, prefix, envs, firstId, chosen[..last], i);
      assert chosen[..last][i] == chosen[i];
    }
  }

  lemma {:induction false} EntryAt(rows: seq<CsvRow>, prefix: string, chosen: seq<nat>, i: nat)
    requires i < |chosen| && forall j :: 0 <= j < |chosen| ==> chosen[j] < |rows|
    ensures |Entries(rows, prefix, chosen)| == |chosen|
    ensures Entries(rows, prefix, chosen)[i] == EntryOf(rows[chosen[i]], prefix, chosen[i] + 2)
    decreases |chosen|
  {
    var last := |chosen| - 1;
    if last > 0 { EntryAt(rows, prefix, chosen[..last], if i < last then i else 0); }
  }

  /** No statement fails on any line. */
  predicate CleanImport(rows: seq<CsvRow>, envs: nat -> Env) { forall j :: 0 <= j < |rows| ==> envs(j).faults == {} }

  /** The users and entries an import leaves for the chosen rows, in order. */
  lemma ImportHolds(db: StaffDb, rows: seq<CsvRow>, prefix: string, envs: nat -> Env, chosen: seq<nat>)
    requires CleanImport(rows, envs) && chosen == ChosenRows(rows, KnownIds(db.users), prefix, |rows|)
    ensures forall j :: 0 <= j < |chosen| ==> chosen[j] < |rows|
    ensures HoldsChosen(db, rows, prefix, envs, chosen, ImportRows(db, rows, prefix, envs))
  {
    ImportSelectsFirstPassing(db, rows, prefix, envs);
  }

  /** A chosen row's user and entry are where its place among the chosen rows says. */
  lemma SelectedAt(db: StaffDb, rows: seq<CsvRow>, prefix: string, envs: nat -> Env, k: nat) returns (i: nat)
    requires k < |rows| && Chosen(rows, KnownIds(db.users), prefix, k) && CleanImport(rows, envs)
    ensures UserOf(rows[k], prefix, db.nextId + i, envs(k).now) in ImportRows(db, rows, prefix, envs).db.users
    ensures EntryOf(rows[k], prefix, k + 2) in ImportRows(db, rows, prefix, envs).imported
  {
    var chosen, r := ChosenRows(rows, KnownIds(db.users), prefix, |rows|), ImportRows(db, rows, prefix, envs);
    i := ChosenAt(rows, KnownIds(db.users), prefix, k);
    ImportHolds(db, rows, prefix, envs, chosen);
    HeldAt(db, rows, prefix, envs, chosen, r, i);
  }

  lemma ChosenAt(rows: seq<CsvRow>, known: set<string>, prefix: string, k: nat) returns (i: nat)
    requires k < |rows| && Chosen(rows, known, prefix, k)
    ensures i < |ChosenRows(rows, known, prefix, |rows|)| && ChosenRows(rows, known, prefix, |rows|)[i] == k
  {
    ChosenRowsExact(rows, known, prefix, |rows|, k);
    i :| 0 <= i < |ChosenRows(rows, known, prefix, |rows|)| && ChosenRows(rows, known, prefix, |rows|)[i] == k;
  }

  lemma HeldAt(db: StaffDb, rows: seq<CsvRow>, prefix: string, envs: nat -> Env, chosen: seq<nat>, r: Import, i: nat)
    requires i < |chosen| && forall j :: 0 <= j < |chosen| ==> chosen[j] < |rows|
    requires HoldsChosen(db, rows, prefix, envs, chosen, r)
    ensures UserOf(rows[chosen[i]], prefix, db.nextId + i, envs(chosen[i]).now) in r.db.users
    ensures EntryOf(rows[chosen[i]], prefix, chosen[i] + 2) in r.imported
  {
    NewUserAt(rows, prefix, envs, db.nextId, chosen, i);
    EntryAt(rows, prefix, chosen, i);
    assert r.db.users[|db.users| + i] == NewUsers(rows, prefix, envs, db.nextId, chosen)[i];
    assert r.imported[i] == Entries(rows, prefix, chosen)[i];
  }
}
