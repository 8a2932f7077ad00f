/** Which lines of a file come in, what they leave in the two tables, and how the others are reported. */
module ImportedLines {
  import opened Outcomes
  import opened Text
  import opened StaffStore
  import opened UserTable
  import opened Staff
  import opened BulkImport
  import opened SigningWrites
  import opened FileColumns

  // ----- Which lines come in --------------------------------------------------------------------

  /** The level a line asks for: 1 when it names none. */
  function Asked(row: CsvRow): Option<int>
    requires |row| >= 23
  {
    if Strip(row[22]) == "" then Some(1) else ParseInt(Strip(row[22]))
  }

  /** A line is acceptable: all columns, a name and a UserID, level 1 or 2, and a department that
      starts with the operator's prefix. */
  predicate Accepted(row: CsvRow, prefix: string) {
    && |row| >= 23 && Strip(row[0]) != "" && Strip(row[1]) != ""
    && (Asked(row) == Some(1) || Asked(row) == Some(2))
    && var department := Strip(row[18]);
       prefix == if |department| <= 3 then department else department[..3]
  }

  lemma PassesIff(row: CsvRow, prefix: string)
    ensures Passes(row, prefix) <==> Accepted(row, prefix)
    ensures Passes(row, prefix) ==> Asked(row) == Some(CheckRow(row, prefix).level)
  {}

  /** It comes in: nobody has its UserID, and no acceptable line before it brings the same. */
  predicate ComesIn(users: seq<User>, rows: seq<CsvRow>, prefix: string, k: nat)
    requires k < |rows|
  {
    && Accepted(rows[k], prefix)
    && (forall u :: u in users ==> Column(u, "UserID") != Cut(rows[k], 1))
    && forall j :: 0 <= j < k ==> !(Accepted(rows[j], prefix) && Strip(rows[j][1]) == Strip(rows[k][1]))
  }

  lemma ChosenIff(users: seq<User>, rows: seq<CsvRow>, prefix: string, k: nat)
    requires k < |rows|
    ensures Chosen(rows, KnownIds(users), prefix, k) <==> ComesIn(users, rows, prefix, k)
  {
    forall j | 0 <= j <= k ensures Passes(rows[j], prefix) <==> Accepted(rows[j], prefix) {
      PassesIff(rows[j], prefix);
    }
    if |rows[k]| >= 23 {
      FindKnown(users, Strip(rows[k][1]));
      FindByUserIdIff(users, Cut(rows[k], 1));
    }
  }

  // ----- The user's row -------------------------------------------------------------------------

  /** The last six characters. */
  function LastSix(s: string): string { if |s| < 6 then s else s[|s| - 6..] }

  /** Every column of the user's row and what it holds. */
  predicate StoredFrom(row: CsvRow, u: User, now: int)
    requires |row| >= 23
  {
    && Column(u, "UserName") == Cut(row, 0) && Column(u, "UserID") == Cut(row, 1)
    && Column(u, "EngName") == Txt("") && Column(u, "Email") == Txt("")
    && Column(u, "Password") == Hashed(LastSix(Strip(row[1])))
    && Asked(row).Some? && Column(u, "PriorityLevel") == Num(Asked(row).value)
    && Column(u, "Position") == Cut(row, 20) && Column(u, "Shift") == Null
    && Column(u, "Department") == Cut(row, 18) && Column(u, "Remark") == Txt("")
    && Column(u, "Shifts") == Null && Column(u, "CreateDate") == Time(now) && Column(u, "IsAtWork") == Num(1)
  }

  lemma LineIsStored(row: CsvRow, prefix: string, id: nat, now: int)
    requires Passes(row, prefix)
    ensures StoredFrom(row, UserOf(row, prefix, id, now), now)
  {
    PassesIff(row, prefix);
    var cells := NewCells(
      Txt(NameOf(row)), Txt(IdOf(row)), Txt(""), Txt(""), StoredPassword(Txt(DefaultPassword(IdOf(row)))),
      Num(CheckRow(row, prefix).level), Txt(CellOf(row, 20)), Null, Txt(DepartmentOf(row)), Txt(""), Null, true);
    assert UserOf(row, prefix, id, now).cols == UserRow(cells, now);
    UserRowHolds(cells, now);
  }

  /** An import with no statement failing: for every line that comes in there is a new user with each
      column from its file column, it is reported under its line number, and its UserID reads a signing
      row with each column from its file column. */
  lemma ImportedLineIsExact(db: StaffDb, rows: seq<CsvRow>, prefix: string, envs: nat -> Env, k: nat)
    requires k < |rows| && ComesIn(db.users, rows, prefix, k)
    requires forall i :: 0 <= i < |rows| ==> envs(i).faults == {}
    ensures var r := ImportRows(db, rows, prefix, envs);
            && (exists u :: u in r.db.users && u.id >= db.nextId && StoredFrom(rows[k], u, envs(k).now))
            && Entry(k + 2, Strip(rows[k][0]), Strip(rows[k][1]), Asked(rows[k]).value) in r.imported
            && var read := FindSigning(r.db.signing, Cut(rows[k], 1));
               read.Some? && FiledFrom(rows[k], read.value)
  {
    ChosenIff(db.users, rows, prefix, k);
    ImportedUser(db, rows, prefix, envs, k);
    ImportedLinesSigned(db, rows, prefix, envs, k);
    LineIsFiled(rows[k]);
  }

  lemma ImportedUser(db: StaffDb, rows: seq<CsvRow>, prefix: string, envs: nat -> Env, k: nat)
    requires k < |rows| && Chosen(rows, KnownIds(db.users), prefix, k)
    requires forall i :: 0 <= i < |rows| ==> envs(i).faults == {}
    ensures var r := ImportRows(db, rows, prefix, envs);
            && (exists u :: u in r.db.users && u.id >= db.nextId && StoredFrom(rows[k], u, envs(k).now))
            && Entry(k + 2, Strip(rows[k][0]), Strip(rows[k][1]), Asked(rows[k]).value) in r.imported
  {
    var i := SelectedAt(db, rows, prefix, envs, k);
    var u := UserOf(rows[k], prefix, db.nextId + i, envs(k).now);
    LineIsStored(rows[k], prefix, db.nextId + i, envs(k).now);
    PassesIff(rows[k], prefix);
  }

  /** Whatever fails: a UserID that nobody had reads a signing row with each column from the file
      columns of the first line that brought it, if that line's signing data was written. */
  lemma FirstLineIsFiled(db: StaffDb, rows: seq<CsvRow>, prefix: string, envs: nat -> Env, id: string)
    requires forall u :: u in db.users ==> Column(u, "UserID") != Txt(id)
    requires var first := FirstBringing(rows, prefix, envs, id); first.Some? && SigningGoes(envs(first.value))
    ensures var line := rows[FirstBringing(rows, prefix, envs, id).value];
            var read := FindSigning(ImportRows(db, rows, prefix, envs).db.signing, Txt(id));
            |line| >= 23 && Strip(line[1]) == id && read.Some? && FiledFrom(line, read.value)
  {
    FindKnown(db.users, id);
    FindByUserIdIff(db.users, Txt(id));
    ImportReads(db, rows, prefix, envs, id);
    LineIsFiled(rows[FirstBringing(rows, prefix, envs, id).value]);
  }

  // ----- Lines that do not come in --------------------------------------------------------------

  /** Why a line is not acceptable, the first reason that applies. */
  predicate Because(row: CsvRow, prefix: string, check: Check) {
    match check
    case TooShort => |row| < 23
    case BadNumber => |row| >= 23 && Asked(row).None?
    case BlankNameOrId => |row| >= 23 && Asked(row).Some? && (Strip(row[0]) == "" || Strip(row[1]) == "")
    case LevelNotAllowed(level) =>
      |row| >= 23 && Strip(row[0]) != "" && Strip(row[1]) != "" && Asked(row) == Some(level) && level != 1 && level != 2
    case DepartmentNotAllowed(found) =>
      && |row| >= 23 && Strip(row[0]) != "" && Strip(row[1]) != ""
      && (Asked(row) == Some(1) || Asked(row) == Some(2)) && found != prefix
      && var department := Strip(row[18]);
         found == if |department| <= 3 then department else department[..3]
    case Acceptable(level) => Accepted(row, prefix) && Asked(row) == Some(level)
  }

  lemma CheckedBecause(row: CsvRow, prefix: string)
    ensures Because(row, prefix, CheckRow(row, prefix))
  {}

  lemma ReportsStay(db: StaffDb, rows: seq<CsvRow>, prefix: string, envs: nat -> Env, n: nat, e: (nat, RowError))
    requires n < |rows| && e in ImportRows(db, rows[..n], prefix, envs).errors
    ensures e in ImportRows(db, rows[..n + 1], prefix, envs).errors
  {
    assert rows[..n + 1][..n] == rows[..n];
  }

  lemma {:induction false} ReportedUpTo(db: StaffDb, rows: seq<CsvRow>, prefix: string, envs: nat -> Env, k: nat,
                                        n: nat)
    requires k < n <= |rows| && !Passes(rows[k], prefix)
    ensures (k + 2, Rejected(CheckRow(rows[k], prefix))) in ImportRows(db, rows[..n], prefix, envs).errors
    decreases n
  {
    if n == k + 1 {
      assert rows[..n][..k] == rows[..k];
    } else {
      ReportedUpTo(db, rows, prefix, envs, k, n - 1);
      ReportsStay(db, rows, prefix, envs, n - 1, (k + 2, Rejected(CheckRow(rows[k], prefix))));
    }
  }

  /** Whatever fails, a line that is not acceptable is reported under its number with the reason. */
  lemma RejectedLineIsReported(db: StaffDb, rows: seq<CsvRow>, prefix: string, envs: nat -> Env, k: nat)
    requires k < |rows| && !Accepted(rows[k], prefix)
    ensures exists check :: Because(rows[k], prefix, check) && !check.Acceptable?
                            && (k + 2, Rejected(check)) in ImportRows(db, rows, prefix, envs).errors
  {
    PassesIff(rows[k], prefix);
    CheckedBecause(rows[k], prefix);
    ReportedUpTo(db, rows, prefix, envs, k, |rows|);
    assert rows[..|rows|] == rows;
  }
}
