/**
 Statements with a fixed column list and positional parameters, and what the server does with them:
 INSERT with a list of values, some of them placeholders, and UPDATE with one placeholder a column.
 */
module SqlStatements {
  import opened Outcomes
  import opened StaffStore

  /** One entry of a VALUES list: `?` or `GETDATE()`. */
  datatype Value = Placeholder | Now

  /** How many of the first n values are placeholders. */
  function Taken(values: seq<Value>, n: nat): nat
    requires n <= |values|
  {
    if n == 0 then 0 else Taken(values, n - 1) + if values[n - 1].Placeholder? then 1 else 0
  }

  lemma {:induction false} TakenGrows(values: seq<Value>, m: nat, n: nat)
    requires m <= n <= |values|
    ensures Taken(values, m) <= Taken(values, n)
  {
    if m < n { TakenGrows(values, m, n - 1); }
  }

  /** The cell of value i: a placeholder takes the next parameter, the clock takes none. */
  function ValueAt(values: seq<Value>, params: seq<Cell>, i: nat, now: int): Cell
    requires i < |values| && Taken(values, |values|) == |params|
  {
    TakenGrows(values, i + 1, |values|);
    if values[i].Now? then Time(now) else params[Taken(values, i)]
  }

  function ValueList(values: seq<Value>, params: seq<Cell>, now: int): seq<Cell>
    requires Taken(values, |values|) == |params|
  {
    seq(|values|, i requires 0 <= i < |values| => ValueAt(values, params, i, now))
  }

  /** Writes the first n cells into their columns. */
  function Fill<K(==)>(row: map<K, Cell>, columns: seq<K>, cells: seq<Cell>, n: nat): map<K, Cell>
    requires n <= |columns| && n <= |cells|
  {
    if n == 0 then row else Fill(row, columns, cells, n - 1)[columns[n - 1] := cells[n - 1]]
  }

  /** INSERT INTO t (columns) VALUES (values): the new row, columns not named keeping what `blank` has;
      `None` when a column is named twice or a list has the wrong length. */
  function InsertRow<K(==)>(blank: map<K, Cell>, columns: seq<K>, values: seq<Value>, params: seq<Cell>, now: int)
    : Option<map<K, Cell>>
  {
    if !Distinct(columns) || |columns| != |values| || Taken(values, |values|) != |params| then None
    else Some(Fill(blank, columns, ValueList(values, params, now), |columns|))
  }

  const BLANK: Signing := map c: SigningColumn | true :: Null

  /** SET columns = ? on one signing row, the parameters in the order of the columns. */
  function SetColumns(row: Signing, columns: seq<SigningColumn>, params: seq<Cell>): Signing
    requires |params| >= |columns|
  {
    FillKeepsColumns(row, columns, params, |columns|);
    Fill(row, columns, params, |columns|)
  }

  /** UPDATE signing SET columns = ? WHERE InspectorId = ?: the last parameter is the owner. */
  function UpdateSigning(rows: seq<Signing>, columns: seq<SigningColumn>, params: seq<Cell>): Option<seq<Signing>> {
    if !Distinct(columns) || |params| != |columns| + 1 then None
    else Some(seq<Signing>(|rows|, i requires 0 <= i < |rows| =>
      if OwnedBy(rows[i], params[|columns|]) then SetColumns(rows[i], columns, params) else rows[i]))
  }

  /** INSERT INTO signing (columns) VALUES (values); columns not named are NULL. */
  function InsertSigning(rows: seq<Signing>, columns: seq<SigningColumn>, values: seq<Value>, params: seq<Cell>)
    : Option<seq<Signing>>
  {
    var row := InsertRow(BLANK, columns, values, params, 0);
    if row.None? then None
    else
      FillKeepsColumns(BLANK, columns, ValueList(values, params, 0), |columns|);
      Some(rows + [row.value])
  }

  lemma {:induction false} FillKeepsColumns(row: Signing, columns: seq<SigningColumn>, cells: seq<Cell>, n: nat)
    requires n <= |columns| && n <= |cells|
    ensures forall c: SigningColumn :: c in Fill(row, columns, cells, n)
  {
    if n > 0 { FillKeepsColumns(row, columns, cells, n - 1); }
  }

  /** With distinct columns each holds its own cell and the others are as they were. */
  lemma {:induction false} FillCells<K>(row: map<K, Cell>, columns: seq<K>, cells: seq<Cell>, n: nat)
    requires n <= |columns| && n <= |cells| && Distinct(columns)
    ensures var after := Fill(row, columns, cells, n);
            && (forall i :: 0 <= i < n ==> columns[i] in after && after[columns[i]] == cells[i])
            && (forall c :: c in row && c !in columns[..n] ==> c in after && after[c] == row[c])
            && after.Keys == row.Keys + set i | 0 <= i < n :: columns[i]
  {
    if n > 0 {
      FillCells(row, columns, cells, n - 1);
      var before := Fill(row, columns, cells, n - 1);
      assert columns[..n] == columns[..n - 1] + [columns[n - 1]];
    }
  }

  /** Placeholders only: each value takes the parameter at its own place. */
  lemma {:induction false} AllTaken(values: seq<Value>, n: nat)
    requires n <= |values| && forall i :: 0 <= i < n ==> values[i] == Placeholder
    ensures Taken(values, n) == n
  {
    if n > 0 { AllTaken(values, n - 1); }
  }
}
