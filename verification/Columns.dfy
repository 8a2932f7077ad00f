/** Names and layouts of form tables. */
module Columns {
  import opened Outcomes
  import opened Text
  import opened ItemIds

  const ITEM := "Item"
  const REMARK := "_Remark"
  const PREFIX := "user_"

  function ItemColumn(id: int): string { ITEM + IntText(id) }

  function RemarkColumn(id: int): string { ItemColumn(id) + REMARK }

  /** The name `create_form_table` gives a form's table. */
  function CreatedName(identifier: string): string {
    var trimmed := Strip(identifier);
    if PREFIX <= trimmed then trimmed else PREFIX + trimmed
  }

  /** The name `update_form_table_schema` and `rename_and_update_form_table` look for. */
  function UpdatedName(identifier: string): string { PREFIX + identifier }

  /** LIKE 'Item[0-9]%' AND NOT LIKE '%_Remark', where `_` stands for any one character. */
  predicate MatchesItemPattern(column: string) {
    && |column| >= 5 && column[..4] == ITEM && IsDigit(column[4])
    && !(|column| >= 7 && column[|column| - 6..] == "Remark")
  }

  const FIXED_COLUMNS := ["UserId", "PointInfoId", "TableName", "ReviewerId", "ReviewerComment", "CheckDate"]

  /** The two columns of each item, in order. */
  function Pairs(ids: seq<int>): seq<string> {
    if ids == [] then [] else [ItemColumn(ids[0]), RemarkColumn(ids[0])] + Pairs(ids[1..])
  }

  /** Identity column, the six fixed columns, then the item pairs. */
  function Layout(idColumn: string, ids: seq<int>): seq<string> {
    [idColumn] + FIXED_COLUMNS + Pairs(ids)
  }

  /** The catalog query reports the item's column. */
  predicate Reported(columns: seq<string>, id: int) {
    ItemColumn(id) in columns && MatchesItemPattern(ItemColumn(id))
  }

  /** The required items whose column the catalog query does not report, in order. */
  function MissingIds(columns: seq<string>, ids: seq<int>): seq<int>
    decreases |ids|
  {
    if ids == [] then []
    else
      var last := |ids| - 1;
      MissingIds(columns, ids[..last])
      + if Reported(columns, ids[last]) then [] else [ids[last]]
  }

  // ----- Which names the catalog query reports -----------------------------------------------

  lemma PatternFindsNonNegative(id: int)
    ensures MatchesItemPattern(ItemColumn(id)) <==> id >= 0
  {
    if id >= 0 { PatternFinds(id); } else { PatternMisses(id); }
  }

  lemma PatternFinds(id: nat)
    ensures MatchesItemPattern(ItemColumn(id))
  {
    var c, digits := ItemColumn(id), Decimal(id);
    DecimalIsDigits(id);
    assert c == ITEM + digits && c[4] == digits[0];
    LastIsNoRemark(ITEM, digits);
  }

  lemma LastIsNoRemark(front: string, digits: string)
    requires digits != "" && IsDigit(digits[|digits| - 1])
    ensures var c := front + digits; |c| >= 7 ==> c[|c| - 6..] != "Remark"
  {
    var c := front + digits;
    assert c[|c| - 1] == digits[|digits| - 1];
    if |c| >= 7 { assert c[|c| - 6..][5] == c[|c| - 1] && "Remark"[5] == 'k'; }
  }

  lemma PatternMisses(id: int)
    requires id < 0
    ensures !MatchesItemPattern(ItemColumn(id))
  {
    assert ItemColumn(id) == ITEM + ("-" + Decimal(-id)) && ItemColumn(id)[4] == '-';
  }

  lemma RemarkEnds(id: int)
    ensures |RemarkColumn(id)| >= 12
    ensures RemarkColumn(id)[|RemarkColumn(id)| - 1] == 'k'
    ensures IsDigit(ItemColumn(id)[|ItemColumn(id)| - 1])
  {
    var magnitude: nat := if id < 0 then -id else id;
    DecimalIsDigits(magnitude);
    assert ItemColumn(id)[|ItemColumn(id)| - 1] == Decimal(magnitude)[|Decimal(magnitude)| - 1];
  }

  /** Item and remark columns of all items are pairwise different names. */
  lemma ColumnNamesInjective(m: int, n: int)
    ensures ItemColumn(m) == ItemColumn(n) ==> m == n
    ensures RemarkColumn(m) == RemarkColumn(n) ==> m == n
    ensures ItemColumn(m) != RemarkColumn(n)
  {
    RemarkEnds(m);
    RemarkEnds(n);
    if RemarkColumn(m) == RemarkColumn(n) {
      assert ItemColumn(m) == RemarkColumn(m)[..|RemarkColumn(m)| - 7];
      assert ItemColumn(n) == RemarkColumn(n)[..|RemarkColumn(n)| - 7];
    }
    if ItemColumn(m) == ItemColumn(n) {
      assert IntText(m) == ItemColumn(m)[4..];
      assert IntText(n) == ItemColumn(n)[4..];
      IntTextInjective(m, n);
    }
  }

  // ----- Layouts ------------------------------------------------------------------------------

  lemma {:induction false} PairsOfConcat(a: seq<int>, b: seq<int>)
    ensures Pairs(a + b) == Pairs(a) + Pairs(b)
  {
    if a == [] {
      assert a + b == b;
    } else {
      assert (a + b)[1..] == a[1..] + b;
      PairsOfConcat(a[1..], b);
    }
  }

  lemma {:induction false} PairsMembers(ids: seq<int>, column: string)
    ensures column in Pairs(ids) <==>
            exists id :: id in ids && (column == ItemColumn(id) || column == RemarkColumn(id))
  {
    if ids != [] {
      PairsMembers(ids[1..], column);
      assert ids == [ids[0]] + ids[1..];
    }
  }

  /** An item column is among the pairs exactly when its id is, and so is its remark column. */
  lemma PairedColumns(ids: seq<int>, id: int)
    ensures ItemColumn(id) in Pairs(ids) <==> id in ids
    ensures RemarkColumn(id) in Pairs(ids) <==> id in ids
  {
    PairsMembers(ids, ItemColumn(id));
    PairsMembers(ids, RemarkColumn(id));
    forall other: int
      ensures ItemColumn(id) == ItemColumn(other) || RemarkColumn(id) == RemarkColumn(other) ==> id == other
      ensures ItemColumn(id) != RemarkColumn(other) && ItemColumn(other) != RemarkColumn(id)
    {
      ColumnNamesInjective(id, other);
      ColumnNamesInjective(other, id);
    }
  }

  /** Pair columns repeat exactly when ids do. */
  lemma {:induction false} PairsDistinct(ids: seq<int>)
    ensures Distinct(Pairs(ids)) <==> Distinct(ids)
  {
    if ids != [] {
      var id, rest := ids[0], ids[1..];
      PairsDistinct(rest);
      PairedColumns(rest, id);
      ColumnNamesInjective(id, id);
      DistinctOfConcat([id], rest);
      DistinctOfConcat([ItemColumn(id), RemarkColumn(id)], Pairs(rest));
      assert ids == [id] + rest;
    }
  }

  lemma DistinctOfConcat<T>(a: seq<T>, b: seq<T>)
    ensures Distinct(a + b) <==> Distinct(a) && Distinct(b) && forall x :: x in a ==> x !in b
  {
    var s := a + b;
    if Distinct(s) {
      forall i, j | 0 <= i < j < |a| ensures a[i] != a[j] { assert s[i] != s[j]; }
      forall i, j | 0 <= i < j < |b| ensures b[i] != b[j] { assert s[|a| + i] != s[|a| + j]; }
      forall x | x in a ensures x !in b {
        var i :| 0 <= i < |a| && a[i] == x;
        forall j | 0 <= j < |b| ensures b[j] != x { assert s[i] != s[|a| + j]; }
      }
    } else {
      var i, j :| 0 <= i < j < |s| && s[i] == s[j];
      if j < |a| {
        assert a[i] == a[j];
      } else if i >= |a| {
        assert b[i - |a|] == b[j - |a|];
      } else {
        assert a[i] in a && b[j - |a|] in b;
      }
    }
  }

  lemma PairNames(ids: seq<int>, column: string)
    requires column in Pairs(ids)
    ensures ITEM <= column
  {
    PairsMembers(ids, column);
  }

  /** Column names of a form table: distinct, item and remark always together, and an id column
      that is not an item column. */
  lemma LayoutInvariant(idColumn: string, ids: seq<int>)
    requires PREFIX <= idColumn
    ensures Distinct(Layout(idColumn, ids)) <==> Distinct(ids)
    ensures forall id :: ItemColumn(id) in Layout(idColumn, ids) <==> id in ids
    ensures forall id :: RemarkColumn(id) in Layout(idColumn, ids) <==> id in ids
  {
    var base := [idColumn] + FIXED_COLUMNS;
    assert idColumn[0] == 'u';
    forall c | c in base ensures !(ITEM <= c) { assert c[0] != 'I'; }
    forall c | c in Pairs(ids) ensures c !in base { PairNames(ids, c); }
    assert Distinct(base) by { assert forall c :: c in FIXED_COLUMNS ==> c[0] != 'u'; }
    DistinctOfConcat(base, Pairs(ids));
    PairsDistinct(ids);
    forall id: int
      ensures ItemColumn(id) in Layout(idColumn, ids) <==> id in ids
      ensures RemarkColumn(id) in Layout(idColumn, ids) <==> id in ids
    {
      PairedColumns(ids, id);
    }
  }

  // ----- Adding what is missing ---------------------------------------------------------------

  /** A negative id is in both lists: its column exists but the catalog query does not report it. */
  predicate NegativeOverlap(have: seq<int>, need: seq<int>) {
    exists id :: id in have && id in need && id < 0
  }

  /** ALTER TABLE with the missing pairs, or `None` when it would name an existing column. */
  function Evolve(columns: seq<string>, need: seq<int>): Option<seq<string>> {
    var grown := columns + Pairs(MissingIds(columns, need));
    if Distinct(grown) then Some(grown) else None
  }

  lemma {:induction false} MissingMembers(columns: seq<string>, ids: seq<int>, id: int)
    ensures id in MissingIds(columns, ids) <==> id in ids && !Reported(columns, id)
    decreases |ids|
  {
    if ids != [] {
      var last := |ids| - 1;
      MissingMembers(columns, ids[..last], id);
      assert ids == ids[..last] + [ids[last]];
    }
  }

  lemma MissingPairsOfPrefix(columns: seq<string>, ids: seq<int>, i: nat)
    requires i < |ids|
    ensures Pairs(MissingIds(columns, ids[..i + 1]))
            == Pairs(MissingIds(columns, ids[..i]))
               + if Reported(columns, ids[i]) then [] else [ItemColumn(ids[i]), RemarkColumn(ids[i])]
  {
    assert ids[..i + 1][..i] == ids[..i];
    var before := MissingIds(columns, ids[..i]);
    var added := if Reported(columns, ids[i]) then [] else [ids[i]];
    assert MissingIds(columns, ids[..i + 1]) == before + added;
    PairsOfConcat(before, added);
    assert [ids[i]][1..] == [];
  }

  lemma ReportedIff(idColumn: string, have: seq<int>, id: int)
    requires PREFIX <= idColumn
    ensures Reported(Layout(idColumn, have), id) <==> id in have && id >= 0
  {
    LayoutInvariant(idColumn, have);
    PatternFindsNonNegative(id);
  }

  /** Without a negative overlap, what is missing is what was not seen before. */
  lemma {:induction false} MissingIsFirstSeen(idColumn: string, have: seq<int>, need: seq<int>)
    requires PREFIX <= idColumn && Distinct(need) && !NegativeOverlap(have, need)
    ensures MissingIds(Layout(idColumn, have), need) == FirstSeen(have, need)
    decreases |need|
  {
    if need != [] {
      var last := |need| - 1;
      assert forall id :: id in need[..last] ==> id in need;
      MissingIsFirstSeen(idColumn, have, need[..last]);
      ReportedIff(idColumn, have, need[last]);
    }
  }

  /** What is missing from a form table: ids it lacks, and negative ids even when it has them. */
  lemma MissingFromLayout(idColumn: string, have: seq<int>, need: seq<int>)
    requires PREFIX <= idColumn
    ensures forall id :: id in MissingIds(Layout(idColumn, have), need) <==> id in need && !(id in have && id >= 0)
    ensures MissingIds(Layout(idColumn, have), need) == [] <==> forall id :: id in need ==> id >= 0 && id in have
  {
    var missing := MissingIds(Layout(idColumn, have), need);
    forall id: int ensures id in missing <==> id in need && !(id in have && id >= 0) {
      MissingMembers(Layout(idColumn, have), need, id);
      ReportedIff(idColumn, have, id);
    }
    if missing != [] { assert missing[0] in missing; }
  }

  lemma LayoutGrows(idColumn: string, have: seq<int>, more: seq<int>)
    ensures Layout(idColumn, have) + Pairs(more) == Layout(idColumn, have + more)
  {
    PairsOfConcat(have, more);
    Associate([idColumn] + FIXED_COLUMNS, Pairs(have), Pairs(more));
  }

  lemma Associate<T>(a: seq<T>, b: seq<T>, c: seq<T>)
    ensures (a + b) + c == a + (b + c)
  {}

  /** Evolving a form table adds exactly the new pairs, unless a negative id comes back. */
  lemma EvolveLayout(idColumn: string, have: seq<int>, need: seq<int>)
    requires PREFIX <= idColumn && Distinct(have) && Distinct(need)
    ensures Evolve(Layout(idColumn, have), need)
            == if NegativeOverlap(have, need) then None else Some(Layout(idColumn, Extend(have, need)))
  {
    var missing := MissingIds(Layout(idColumn, have), need);
    if NegativeOverlap(have, need) {
      MissingFromLayout(idColumn, have, need);
      ClashFails(idColumn, have, missing);
    } else {
      MissingIsFirstSeen(idColumn, have, need);
      AccumulatorLaw(have, need);
      LayoutGrows(idColumn, have, missing);
      LayoutInvariant(idColumn, have + missing);
    }
  }

  lemma ClashFails(idColumn: string, have: seq<int>, missing: seq<int>)
    requires exists id :: id in have && id in missing
    ensures !Distinct(Layout(idColumn, have) + Pairs(missing))
  {
    var id :| id in have && id in missing;
    PairedColumns(have, id);
    PairedColumns(missing, id);
    DistinctOfConcat(Layout(idColumn, have), Pairs(missing));
  }

  // ----- The layout in words --------------------------------------------------------------------

  lemma PairsAt(ids: seq<int>, k: nat)
    requires k < |ids|
    ensures |Pairs(ids)| == 2 * |ids|
    ensures Pairs(ids)[2 * k] == ItemColumn(ids[k]) && Pairs(ids)[2 * k + 1] == RemarkColumn(ids[k])
  {
    PairsCount(ids);
    PairsSplit(ids, k);
    MiddleOf(Pairs(ids[..k]), ItemColumn(ids[k]), RemarkColumn(ids[k]), Pairs(ids[k + 1..]));
  }

  lemma PairsSplit(ids: seq<int>, k: nat)
    requires k < |ids|
    ensures Pairs(ids) == Pairs(ids[..k]) + ([ItemColumn(ids[k]), RemarkColumn(ids[k])] + Pairs(ids[k + 1..]))
    ensures |Pairs(ids[..k])| == 2 * k
  {
    PairsCount(ids[..k]);
    assert ids == ids[..k] + ([ids[k]] + ids[k + 1..]);
    PairsOfConcat(ids[..k], [ids[k]] + ids[k + 1..]);
    PairsOfConcat([ids[k]], ids[k + 1..]);
    PairsOfOne(ids[k]);
  }

  lemma PairsOfOne(id: int)
    ensures Pairs([id]) == [ItemColumn(id), RemarkColumn(id)]
  {
    assert [id][1..] == [];
  }

  lemma MiddleOf(before: seq<string>, a: string, b: string, after: seq<string>)
    ensures var all := before + ([a, b] + after);
            all[|before|] == a && all[|before| + 1] == b
  {}

  lemma {:induction false} PairsCount(ids: seq<int>)
    ensures |Pairs(ids)| == 2 * |ids|
  {
    if ids != [] { PairsCount(ids[1..]); }
  }

  /** The identity column, six columns about the check, and for each item its column and its remark. */
  lemma LayoutInWords(idColumn: string, ids: seq<int>)
    ensures var columns := Layout(idColumn, ids);
            && |columns| == 7 + 2 * |ids|
            && columns[..7]
               == [idColumn, "UserId", "PointInfoId", "TableName", "ReviewerId", "ReviewerComment", "CheckDate"]
            && forall k :: 0 <= k < |ids| ==>
                 && columns[7 + 2 * k] == "Item" + IntText(ids[k])
                 && columns[8 + 2 * k] == "Item" + IntText(ids[k]) + "_Remark"
  {
    var columns := Layout(idColumn, ids);
    if ids != [] { PairsAt(ids, 0); }
    forall k | 0 <= k < |ids|
      ensures columns[7 + 2 * k] == "Item" + IntText(ids[k])
      ensures columns[8 + 2 * k] == "Item" + IntText(ids[k]) + "_Remark"
    {
      PairsAt(ids, k);
      assert columns[7 + 2 * k] == Pairs(ids)[2 * k] && columns[8 + 2 * k] == Pairs(ids)[2 * k + 1];
    }
  }
}
