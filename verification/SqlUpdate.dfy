/**
 The dynamic UPDATE of `update_user`: a list of SET clauses and a list of positional parameters,
 built side by side, and what the server does with them.
 */
module SqlUpdate {
  import opened Outcomes
  import opened StaffStore

  /** `Column = ?`, taking one parameter, or `UpdateDate = GETDATE()`, taking none. */
  datatype Clause = Assign(column: string) | Stamp

  const STAMP_COLUMN := "UpdateDate"

  const SYS_USER_FIELDS := {
    "UserName", "UserID", "EngName", "Email", "Password", "PriorityLevel",
    "Position", "Shift", "Department", "Remark", "Shifts", "isAtWork"
  }

  /** The column a request key is written to, and the value stored for it. */
  function ColumnFor(key: string): string { if key == "isAtWork" then "IsAtWork" else key }

  function Stored(key: string, value: Cell): Cell {
    if key == "isAtWork" then Num(if Truthy(value) then 1 else 0) else value
  }

  predicate Settable(key: string, value: Cell) { value != Null && key in SYS_USER_FIELDS && key != "ID" }

  /** The (column, value) pairs to set, in the order of the dictionary. */
  function Settings(fields: seq<(string, Cell)>): seq<(string, Cell)>
    decreases |fields|
  {
    if fields == [] then []
    else
      var last := |fields| - 1;
      var (key, value) := fields[last];
      Settings(fields[..last]) + if Settable(key, value) then [(ColumnFor(key), Stored(key, value))] else []
  }

  // ----- The server's side --------------------------------------------------------------------

  function Assigned(clauses: seq<Clause>): seq<string>
    decreases |clauses|
  {
    if clauses == [] then []
    else (if clauses[0].Assign? then [clauses[0].column] else [STAMP_COLUMN]) + Assigned(clauses[1..])
  }

  /** Runs the clauses on a row, each placeholder taking the next parameter; gives the row and the
      parameters left over. */
  function Bind(clauses: seq<Clause>, params: seq<Cell>, row: Row, now: int): Option<(Row, seq<Cell>)>
    decreases |clauses|
  {
    if clauses == [] then Some((row, params))
    else match clauses[0]
      case Stamp => Bind(clauses[1..], params, row[STAMP_COLUMN := Time(now)], now)
      case Assign(column) =>
        if params == [] then None else Bind(clauses[1..], params[1..], row[column := params[0]], now)
  }

  /** UPDATE SysUser SET clauses WHERE ID = ?: refused when a column is set twice or when the
      parameters do not match the placeholders. */
  function Run(users: seq<User>, clauses: seq<Clause>, params: seq<Cell>, now: int): Option<seq<User>> {
    var left := Bind(clauses, params, map[], now);
    if !Distinct(Assigned(clauses)) || left.None? || |left.value.1| != 1 || !left.value.1[0].Num? then None
    else Some(seq(|users|, i requires 0 <= i < |users| =>
      if users[i].id == left.value.1[0].n then users[i].(cols := users[i].cols + left.value.0) else users[i]))
  }

  // ----- What it should come to ---------------------------------------------------------------

  /** The request key behind a column, if there is one. */
  function KeyFor(column: string): string { if column == "IsAtWork" then "isAtWork" else column }

  /** What the dictionary says about a column: nothing, or the value to store. */
  function NewValue(fields: seq<(string, Cell)>, column: string): Option<Cell> {
    var key := KeyFor(column);
    if column != "isAtWork" && Has(fields, key) && Settable(key, Get(fields, key, Null))
    then Some(Stored(key, Get(fields, key, Null)))
    else None
  }

  predicate AnythingToSet(fields: seq<(string, Cell)>) {
    exists i :: 0 <= i < |fields| && Settable(fields[i].0, fields[i].1)
  }

  /** The row with exactly the allowed, non-null fields overwritten, and its time stamp. */
  function Overwrite(row: Row, fields: seq<(string, Cell)>, now: int): Row {
    map column | column in row.Keys + SYS_USER_FIELDS + {"IsAtWork", STAMP_COLUMN}
                 && (column == STAMP_COLUMN || NewValue(fields, column).Some? || column in row) ::
      if column == STAMP_COLUMN then Time(now)
      else if NewValue(fields, column).Some? then NewValue(fields, column).value
      else row[column]
  }

  /** Exactly the row with this id is overwritten. */
  function OverwriteUser(users: seq<User>, id: nat, fields: seq<(string, Cell)>, now: int): seq<User> {
    seq(|users|, i requires 0 <= i < |users| =>
      if users[i].id == id then users[i].(cols := Overwrite(users[i].cols, fields, now)) else users[i])
  }

  // ----- Building -----------------------------------------------------------------------------

  function Clauses(settings: seq<(string, Cell)>): seq<Clause> {
    seq(|settings|, i requires 0 <= i < |settings| => Assign(settings[i].0))
  }

  function Params(settings: seq<(string, Cell)>): seq<Cell> {
    seq(|settings|, i requires 0 <= i < |settings| => settings[i].1)
  }

  /** The clause and parameter lists of `update_user`; no clause means no statement is sent. */
  method BuildUpdate(fields: Dict, id: nat) returns (clauses: seq<Clause>, params: seq<Cell>)
    ensures clauses != [] <==> AnythingToSet(fields)
    ensures clauses != [] ==>
              forall users, now :: Run(users, clauses, params, now) == Some(OverwriteUser(users, id, fields, now))
  {
    clauses, params := [], [];
    for i := 0 to |fields|
      invariant clauses == Clauses(Settings(fields[..i])) && params == Params(Settings(fields[..i]))
    {
      var (key, value) := fields[i];
      assert fields[..i + 1][..i] == fields[..i];
      if Settable(key, value) {
        if key == "isAtWork" {
          clauses := clauses + [Assign("IsAtWork")];
          params := params + [Num(if Truthy(value) then 1 else 0)];
        } else {
          clauses := clauses + [Assign(key)];
          params := params + [value];
        }
      }
    }
    assert fields[..|fields|] == fields;
    SettingsNonEmpty(fields);
    if clauses != [] {
      clauses := clauses + [Stamp];
      params := params + [Num(id)];
      forall users, now
        ensures Run(users, clauses, params, now) == Some(OverwriteUser(users, id, fields, now))
      {
        UpdateIsOverwrite(users, fields, id, now);
      }
    }
  }

  lemma {:induction false} SettingsNonEmpty(fields: seq<(string, Cell)>)
    ensures Settings(fields) != [] <==> AnythingToSet(fields)
    decreases |fields|
  {
    if fields != [] {
      var last := |fields| - 1;
      SettingsNonEmpty(fields[..last]);
      if AnythingToSet(fields) && !Settable(fields[last].0, fields[last].1) {
        var i :| 0 <= i < |fields| && Settable(fields[i].0, fields[i].1);
        assert fields[..last][i] == fields[i];
      }
    }
  }

  /** The pairs to set are those `NewValue` describes. */
  lemma {:induction false} SettingsFrom(fields: seq<(string, Cell)>, column: string, value: Cell)
    ensures (column, value) in Settings(fields) <==>
            exists i :: 0 <= i < |fields| && Settable(fields[i].0, fields[i].1)
                        && column == ColumnFor(fields[i].0) && value == Stored(fields[i].0, fields[i].1)
    decreases |fields|
  {
    if fields != [] {
      var last := |fields| - 1;
      SettingsFrom(fields[..last], column, value);
      forall i | 0 <= i < last ensures fields[..last][i] == fields[i] {}
    }
  }

  lemma SettingGivesValue(fields: Dict, column: string, value: Cell)
    requires (column, value) in Settings(fields)
    ensures NewValue(fields, column) == Some(value)
  {
    SettingsFrom(fields, column, value);
    var i :| 0 <= i < |fields| && Settable(fields[i].0, fields[i].1)
             && column == ColumnFor(fields[i].0) && value == Stored(fields[i].0, fields[i].1);
    assert fields[i] == (KeyFor(column), fields[i].1);
    GetIsUnique(fields, KeyFor(column), fields[i].1, Null);
  }

  lemma ValueGivesSetting(fields: Dict, column: string)
    requires NewValue(fields, column).Some?
    ensures (column, NewValue(fields, column).value) in Settings(fields)
  {
    var key := KeyFor(column);
    GetIff(fields, key, Null);
    var i :| 0 <= i < |fields| && fields[i] == (key, Get(fields, key, Null));
    assert column == ColumnFor(fields[i].0);
    SettingsFrom(fields, column, NewValue(fields, column).value);
  }

  function Columns(settings: seq<(string, Cell)>): seq<string> {
    seq(|settings|, i requires 0 <= i < |settings| => settings[i].0)
  }

  /** No column is set twice, the time stamp included. */
  lemma {:induction false} SettingsDistinct(fields: Dict)
    ensures Distinct(Columns(Settings(fields)))
    ensures forall c :: c in Columns(Settings(fields)) ==> c != STAMP_COLUMN
    decreases |fields|
  {
    if fields != [] {
      var last := |fields| - 1;
      var init: Dict := fields[..last];
      var (key, value) := fields[last];
      SettingsDistinct(init);
      forall k | 0 <= k < |Settings(init)| ensures Settable(key, value) ==> Settings(init)[k].0 != ColumnFor(key) {
        var (c, v) := Settings(init)[k];
        assert (c, v) in Settings(init);
        SettingsFrom(init, c, v);
        var i :| 0 <= i < last && Settable(init[i].0, init[i].1) && c == ColumnFor(init[i].0)
                 && v == Stored(init[i].0, init[i].1);
        assert fields[i].0 != key;
      }
      assert Columns(Settings(fields))
             == Columns(Settings(init)) + if Settable(key, value) then [ColumnFor(key)] else [];
    }
  }

  /** The row after writing some pairs in order. */
  function Written(row: Row, settings: seq<(string, Cell)>): Row
    decreases |settings|
  {
    if settings == [] then row else Written(row[settings[0].0 := settings[0].1], settings[1..])
  }

  lemma {:induction false} WrittenColumns(row: Row, settings: seq<(string, Cell)>)
    requires Distinct(Columns(settings))
    ensures forall c :: c in Written(row, settings) <==> c in row || c in Columns(settings)
    ensures forall i :: 0 <= i < |settings| ==>
              settings[i].0 in Written(row, settings) && Written(row, settings)[settings[i].0] == settings[i].1
    ensures forall c :: c in row && c !in Columns(settings) ==> Written(row, settings)[c] == row[c]
    decreases |settings|
  {
    if settings != [] {
      var rest := settings[1..];
      assert Columns(settings) == [settings[0].0] + Columns(rest);
      forall i, j | 0 <= i < j < |rest| ensures Columns(rest)[i] != Columns(rest)[j] {
        assert Columns(settings)[i + 1] != Columns(settings)[j + 1];
      }
      WrittenColumns(row[settings[0].0 := settings[0].1], rest);
      forall c | c in Columns(rest) ensures c != settings[0].0 {
        var i :| 0 <= i < |rest| && Columns(rest)[i] == c;
        assert Columns(settings)[0] != Columns(settings)[i + 1];
      }
      forall i | 0 <= i < |settings| ensures settings[i].0 in Written(row, settings)
                                             && Written(row, settings)[settings[i].0] == settings[i].1 {
        if i > 0 { assert settings[i] == rest[i - 1]; }
      }
    }
  }

  /** Each placeholder takes its own value, the time stamp none, and the id is left for the WHERE. */
  lemma {:induction false} BindAligns(settings: seq<(string, Cell)>, row: Row, id: nat, now: int)
    ensures Bind(Clauses(settings) + [Stamp], Params(settings) + [Num(id)], row, now)
            == Some((Written(row, settings)[STAMP_COLUMN := Time(now)], [Num(id)]))
    decreases |settings|
  {
    var clauses, params := Clauses(settings) + [Stamp], Params(settings) + [Num(id)];
    if settings == [] {
      assert clauses == [Stamp] && params == [Num(id)];
      assert clauses[1..] == [];
    } else {
      assert clauses[1..] == Clauses(settings[1..]) + [Stamp];
      assert params[1..] == Params(settings[1..]) + [Num(id)];
      BindAligns(settings[1..], row[settings[0].0 := settings[0].1], id, now);
    }
  }

  lemma {:induction false} AssignedColumns(settings: seq<(string, Cell)>)
    ensures Assigned(Clauses(settings) + [Stamp]) == Columns(settings) + [STAMP_COLUMN]
    decreases |settings|
  {
    var clauses := Clauses(settings) + [Stamp];
    if settings == [] {
      assert clauses[1..] == [];
    } else {
      assert clauses[1..] == Clauses(settings[1..]) + [Stamp];
      AssignedColumns(settings[1..]);
    }
  }

  lemma WrittenValues(fields: Dict, c: string)
    ensures var written := Written(map[], Settings(fields));
            && (c in written <==> NewValue(fields, c).Some?)
            && (c in written ==> NewValue(fields, c) == Some(written[c]))
  {
    var settings := Settings(fields);
    SettingsDistinct(fields);
    WrittenColumns(map[], settings);
    var written := Written(map[], settings);
    if c in written {
      var i :| 0 <= i < |settings| && Columns(settings)[i] == c;
      assert settings[i] == (c, written[c]);
      SettingGivesValue(fields, c, written[c]);
    }
    if NewValue(fields, c).Some? {
      ValueGivesSetting(fields, c);
      var i :| 0 <= i < |settings| && settings[i] == (c, NewValue(fields, c).value);
      assert Columns(settings)[i] == c;
    }
  }

  lemma OverwriteAt(row: Row, fields: seq<(string, Cell)>, now: int, c: string)
    ensures var after := Overwrite(row, fields, now);
            && (c in after <==> c == STAMP_COLUMN || NewValue(fields, c).Some? || c in row)
            && (c in after ==> after[c] == if c == STAMP_COLUMN then Time(now)
                                           else if NewValue(fields, c).Some? then NewValue(fields, c).value else row[c])
  {
    NewValueColumns(fields);
  }

  lemma WrittenIsOverwrite(row: Row, fields: Dict, now: int)
    ensures row + Written(map[], Settings(fields))[STAMP_COLUMN := Time(now)] == Overwrite(row, fields, now)
  {
    var left, right := row + Written(map[], Settings(fields))[STAMP_COLUMN := Time(now)], Overwrite(row, fields, now);
    forall c: string
      ensures c in left <==> c in right
      ensures c in left ==> left[c] == right[c]
    {
      WrittenValues(fields, c);
      OverwriteAt(row, fields, now, c);
    }
  }

  lemma NewValueColumns(fields: seq<(string, Cell)>)
    ensures forall c :: NewValue(fields, c).Some? ==> c in SYS_USER_FIELDS + {"IsAtWork"}
  {}

  /** For every dictionary, running the built statement overwrites exactly the allowed non-null
      fields of the row with that id and touches no other row. */
  lemma UpdateIsOverwrite(users: seq<User>, fields: Dict, id: nat, now: int)
    ensures var settings := Settings(fields);
            Run(users, Clauses(settings) + [Stamp], Params(settings) + [Num(id)], now)
            == Some(OverwriteUser(users, id, fields, now))
  {
    var settings := Settings(fields);
    BindAligns(settings, map[], id, now);
    AssignedColumns(settings);
    SettingsDistinct(fields);
    var columns := Columns(settings);
    forall i, j | 0 <= i < j < |columns + [STAMP_COLUMN]|
      ensures (columns + [STAMP_COLUMN])[i] != (columns + [STAMP_COLUMN])[j]
    {
      assert columns[i] in columns;
    }
    var ran := Run(users, Clauses(settings) + [Stamp], Params(settings) + [Num(id)], now);
    assert ran.Some?;
    forall i | 0 <= i < |users|
      ensures ran.value[i]
              == if users[i].id == id then users[i].(cols := Overwrite(users[i].cols, fields, now)) else users[i]
    {
      WrittenIsOverwrite(users[i].cols, fields, now);
    }
    assert ran.value == OverwriteUser(users, id, fields, now);
  }

  /** A column of an overwritten row: the value given for it, or the old one. */
  lemma OverwrittenColumn(row: Row, fields: seq<(string, Cell)>, now: int, column: string)
    requires column in SYS_USER_FIELDS - {"isAtWork"}
    ensures CellAt(Overwrite(row, fields, now), column, Null)
            == if Has(fields, column) && Get(fields, column, Null) != Null then Get(fields, column, Null)
               else CellAt(row, column, Null)
  {
    assert KeyFor(column) == column && column != STAMP_COLUMN;
    OverwriteAt(row, fields, now, column);
  }
}
