/**
 `get_all_routes`: a WHERE clause and its positional parameters built once and used by the count
 query and by the page query.
 */
module Routes {
  import opened Outcomes
  import opened Text
  import opened Paging

  /** A row of the routes table. */
  datatype Route = Route(id: nat, name: Option<string>, bindingId: Option<int>, bindingName: Option<string>)

  datatype Clause = NameLike | IsBound | IsUnbound

  datatype Param = Pattern(text: string) | Number(n: int)

  /** `text LIKE pattern` with the wildcards % and _; NULL matches nothing. */
  predicate Like(text: string, pattern: string)
    decreases |text| + |pattern|
  {
    if pattern == "" then text == ""
    else if pattern[0] == '%' then Like(text, pattern[1..]) || (text != "" && Like(text[1..], pattern))
    else text != "" && (pattern[0] == '_' || pattern[0] == text[0]) && Like(text[1..], pattern[1..])
  }

  predicate ColumnLike(column: Option<string>, pattern: string) { column.Some? && Like(column.value, pattern) }

  // ----- The server's side --------------------------------------------------------------------

  /** The parameters the clauses leave for the rest of the statement; `None` when one of theirs is
      missing or of the wrong kind. */
  function Remaining(clauses: seq<Clause>, params: seq<Param>): Option<seq<Param>>
    decreases |clauses|
  {
    if clauses == [] then Some(params)
    else if !clauses[0].NameLike? then Remaining(clauses[1..], params)
    else if |params| < 2 || !params[0].Pattern? || !params[1].Pattern? then None
    else Remaining(clauses[1..], params[2..])
  }

  /** The clauses hold of a row, each placeholder taking the next parameter. */
  predicate Where(clauses: seq<Clause>, params: seq<Param>, r: Route)
    requires Remaining(clauses, params).Some?
    decreases |clauses|
  {
    clauses == [] || match clauses[0]
      case IsBound => r.bindingId.Some? && Where(clauses[1..], params, r)
      case IsUnbound => r.bindingId.None? && Where(clauses[1..], params, r)
      case NameLike =>
        && (ColumnLike(r.name, params[0].text) || ColumnLike(r.bindingName, params[1].text))
        && Where(clauses[1..], params[2..], r)
  }

  /** The rows satisfying the clauses, in id order. */
  function Select(rows: seq<Route>, clauses: seq<Clause>, params: seq<Param>): seq<Route>
    requires Remaining(clauses, params).Some?
    decreases |rows|
  {
    if rows == [] then []
    else
      var last := |rows| - 1;
      Select(rows[..last], clauses, params) + if Where(clauses, params, rows[last]) then [rows[last]] else []
  }

  /** SELECT COUNT(*) ... WHERE clauses */
  function Count(rows: seq<Route>, clauses: seq<Clause>, params: seq<Param>): Option<nat> {
    if Remaining(clauses, params) == Some([]) then Some(|Select(rows, clauses, params)|) else None
  }

  /** SELECT ... WHERE clauses ORDER BY RouteId OFFSET ? ROWS FETCH NEXT ? ROWS ONLY: refused for a
      negative offset or a fetch of less than one row. */
  function Fetch(rows: seq<Route>, clauses: seq<Clause>, params: seq<Param>): Option<seq<Route>> {
    match Remaining(clauses, params)
    case None => None
    case Some(rest) =>
      if |rest| != 2 || !rest[0].Number? || !rest[1].Number? || rest[0].n < 0 || rest[1].n < 1 then None
      else Some(Slice(Select(rows, clauses, params), rest[0].n, rest[0].n + rest[1].n))
  }

  // ----- What it should come to ---------------------------------------------------------------

  predicate Matches(r: Route, search: string, mode: string) {
    && (search == "" || ColumnLike(r.name, "%" + search + "%") || ColumnLike(r.bindingName, "%" + search + "%"))
    && (mode == "1" ==> r.bindingId.Some?)
    && (mode == "0" ==> r.bindingId.None?)
  }

  function Matching(rows: seq<Route>, search: string, mode: string): seq<Route>
    decreases |rows|
  {
    if rows == [] then []
    else
      var last := |rows| - 1;
      Matching(rows[..last], search, mode) + if Matches(rows[last], search, mode) then [rows[last]] else []
  }

  /** `get_all_routes` over the table in id order; `None` for the error answered as 500. */
  method GetAllRoutes(rows: seq<Route>, page: int, limit: int, search: string, mode: string)
      returns (r: Option<(seq<Route>, nat)>)
    ensures r.Some? <==> page >= 1 && limit >= 1
    ensures r.Some? ==> r.value.1 == |Matching(rows, search, mode)|
    ensures r.Some? ==> r.value.0 == PageOf(Matching(rows, search, mode), page, limit)
  {
    var clauses: seq<Clause>, filterParams: seq<Param> := [], [];
    if search != "" {
      clauses := clauses + [NameLike];
      var term := "%" + search + "%";
      filterParams := filterParams + [Pattern(term), Pattern(term)];
    }
    if mode == "1" {
      clauses := clauses + [IsBound];
    } else if mode == "0" {
      clauses := clauses + [IsUnbound];
    }
    assert clauses == BuiltClauses(search, mode) && filterParams == BuiltParams(search);
    QueriesAgree(rows, search, mode, page, limit);
    var total := Count(rows, clauses, filterParams);
    var offset := (page - 1) * limit;
    var dataParams := filterParams + [Number(offset), Number(limit)];
    var fetched := Fetch(rows, clauses, dataParams);
    r := if total.None? || fetched.None? then None else Some((fetched.value, total.value));
  }

  function BuiltClauses(search: string, mode: string): seq<Clause> {
    (if search != "" then [NameLike] else [])
    + ModeClauses(mode)
  }

  function BuiltParams(search: string): seq<Param> {
    if search != "" then [Pattern("%" + search + "%"), Pattern("%" + search + "%")] else []
  }

  lemma OffsetSign(page: int, limit: int)
    requires limit >= 1
    ensures (page - 1) * limit >= 0 <==> page >= 1
  {
    if page < 1 { assert (page - 1) * limit <= -limit; }
  }

  /** The mode clause alone. */
  function ModeClauses(mode: string): seq<Clause> {
    if mode == "1" then [IsBound] else if mode == "0" then [IsUnbound] else []
  }

  lemma ModeWhere(r: Route, mode: string, rest: seq<Param>)
    ensures Remaining(ModeClauses(mode), rest) == Some(rest)
    ensures Where(ModeClauses(mode), rest, r)
            <==> (mode == "1" ==> r.bindingId.Some?) && (mode == "0" ==> r.bindingId.None?)
  {
    assert [IsBound][1..] == [] && [IsUnbound][1..] == [];
  }

  lemma WhereIsMatches(r: Route, search: string, mode: string, rest: seq<Param>)
    ensures Remaining(BuiltClauses(search, mode), BuiltParams(search) + rest) == Some(rest)
    ensures Where(BuiltClauses(search, mode), BuiltParams(search) + rest, r) <==> Matches(r, search, mode)
  {
    ModeWhere(r, mode, rest);
    var clauses, params := BuiltClauses(search, mode), BuiltParams(search) + rest;
    if search != "" {
      assert clauses[1..] == ModeClauses(mode) && params[2..] == rest;
    } else {
      assert clauses == ModeClauses(mode) && params == rest;
    }
  }

  /** With whatever follows in the parameter list, the built clauses take exactly their own
      parameters and select exactly the matching rows. */
  lemma {:induction false} SelectIsMatching(rows: seq<Route>, search: string, mode: string, rest: seq<Param>)
    ensures Remaining(BuiltClauses(search, mode), BuiltParams(search) + rest) == Some(rest)
    ensures Select(rows, BuiltClauses(search, mode), BuiltParams(search) + rest) == Matching(rows, search, mode)
    decreases |rows|
  {
    if rows == [] {
      WhereIsMatches(Route(0, None, None, None), search, mode, rest);
    } else {
      WhereIsMatches(rows[|rows| - 1], search, mode, rest);
      SelectIsMatching(rows[..|rows| - 1], search, mode, rest);
    }
  }

  /** The count query and the page query select the same rows; the second cuts out the page. */
  lemma QueriesAgree(rows: seq<Route>, search: string, mode: string, page: int, limit: int)
    ensures Count(rows, BuiltClauses(search, mode), BuiltParams(search)) == Some(|Matching(rows, search, mode)|)
    ensures Fetch(rows, BuiltClauses(search, mode), BuiltParams(search) + [Number((page - 1) * limit), Number(limit)])
            == if page >= 1 && limit >= 1 then Some(PageOf(Matching(rows, search, mode), page, limit)) else None
  {
    assert BuiltParams(search) + [] == BuiltParams(search);
    SelectIsMatching(rows, search, mode, []);
    SelectIsMatching(rows, search, mode, [Number((page - 1) * limit), Number(limit)]);
    if limit >= 1 { OffsetSign(page, limit); }
  }

  // ----- Pages and modes ----------------------------------------------------------------------

  /** Sum of the page lengths. */
  function Lengths(s: seq<Route>, size: nat, n: nat): nat {
    if n == 0 then 0 else Lengths(s, size, n - 1) + |PageOf(s, n, size)|
  }

  lemma {:induction false} LengthsOfPages(s: seq<Route>, size: nat, n: nat)
    ensures Lengths(s, size, n) == |Pages(s, size, n)|
  {
    if n > 0 { LengthsOfPages(s, size, n - 1); }
  }

  /** The pages up to the last hold the matching routes in order and sum to the reported total. */
  lemma RoutePagesSumToTotal(rows: seq<Route>, search: string, mode: string, limit: nat)
    requires limit >= 1
    ensures var list := Matching(rows, search, mode);
            && Pages(list, limit, TotalPages(|list|, limit)) == list
            && Lengths(list, limit, TotalPages(|list|, limit)) == |list|
  {
    var list := Matching(rows, search, mode);
    PagesCover(list, limit);
    LengthsOfPages(list, limit, TotalPages(|list|, limit));
  }

  lemma MatchingStep(rows: seq<Route>, search: string, mode: string)
    requires rows != []
    ensures var last := |rows| - 1;
            multiset(Matching(rows, search, mode))
            == multiset(Matching(rows[..last], search, mode))
               + if Matches(rows[last], search, mode) then multiset{rows[last]} else multiset{}
  {}

  lemma ModeSplitsRow(r: Route, search: string, other: string)
    requires other != "1" && other != "0"
    ensures Matches(r, search, "1") <==> Matches(r, search, other) && r.bindingId.Some?
    ensures Matches(r, search, "0") <==> Matches(r, search, other) && r.bindingId.None?
  {}

  /** Modes '1' and '0' split what every other mode shows, whatever is searched for. */
  lemma {:induction false} ModesSplit(rows: seq<Route>, search: string, other: string)
    requires other != "1" && other != "0"
    ensures multiset(Matching(rows, search, "1")) + multiset(Matching(rows, search, "0"))
            == multiset(Matching(rows, search, other))
    ensures forall r :: r in Matching(rows, search, "1") ==> r.bindingId.Some?
    ensures forall r :: r in Matching(rows, search, "0") ==> r.bindingId.None?
    decreases |rows|
  {
    ModesShow(rows, search);
    if rows != [] {
      ModesSplit(rows[..|rows| - 1], search, other);
      ModeSplitsRow(rows[|rows| - 1], search, other);
      MatchingStep(rows, search, "1");
      MatchingStep(rows, search, "0");
      MatchingStep(rows, search, other);
    }
  }

  /** The two parts are the bound and the unbound routes. */
  lemma {:induction false} ModesShow(rows: seq<Route>, search: string)
    ensures forall r :: r in Matching(rows, search, "1") ==> r.bindingId.Some?
    ensures forall r :: r in Matching(rows, search, "0") ==> r.bindingId.None?
    decreases |rows|
  {
    if rows != [] { ModesShow(rows[..|rows| - 1], search); }
  }

  // ----- What the search means ----------------------------------------------------------------

  predicate NoWildcard(s: string) { forall c :: c in s ==> c != '%' && c != '_' }

  lemma {:induction false} PercentMatchesAll(text: string)
    ensures Like(text, "%")
    decreases |text|
  {
    if text == "" {
      assert Like(text, "%"[1..]);
    } else {
      PercentMatchesAll(text[1..]);
    }
  }

  lemma {:induction false} LiteralThenAnything(text: string, s: string)
    requires NoWildcard(s)
    ensures Like(text, s + "%") <==> s <= text
    decreases |s|
  {
    if s == "" {
      assert s + "%" == "%";
      PercentMatchesAll(text);
    } else {
      assert s[0] in s;
      assert (s + "%")[1..] == s[1..] + "%";
      if text != "" {
        assert forall c :: c in s[1..] ==> c in s;
        LiteralThenAnything(text[1..], s[1..]);
        assert s <= text <==> s[0] == text[0] && s[1..] <= text[1..];
      }
    }
  }

  lemma {:induction false} LiteralSearch(text: string, s: string)
    requires NoWildcard(s)
    ensures Like(text, "%" + s + "%") <==> Contains(text, s)
    decreases |text|
  {
    var pattern := "%" + s + "%";
    assert pattern[1..] == s + "%";
    LiteralThenAnything(text, s);
    if text != "" {
      LiteralSearch(text[1..], s);
      ContainsFrom(text, s);
    } else {
      assert Contains(text, s) <==> s <= text by { assert text[0..] == text; }
    }
  }

  /** Every search matches its own text followed by anything, wildcards read as themselves. */
  lemma {:induction false} OwnTextMatches(text: string, s: string)
    requires s <= text
    ensures Like(text, s + "%")
    decreases |s|
  {
    if s == "" {
      assert s + "%" == "%";
      PercentMatchesAll(text);
    } else {
      assert (s + "%")[1..] == s[1..] + "%";
      OwnTextMatches(text[1..], s[1..]);
    }
  }

  /** No search misses a text that contains it. */
  lemma {:induction false} SearchMissesNothing(text: string, s: string)
    requires Contains(text, s)
    ensures Like(text, "%" + s + "%")
    decreases |text|
  {
    assert ("%" + s + "%")[1..] == s + "%";
    if s <= text {
      OwnTextMatches(text, s);
    } else {
      var i :| 0 <= i <= |text| && s <= text[i..];
      assert text[0..] == text;
      ContainsFrom(text, s);
      SearchMissesNothing(text[1..], s);
    }
  }

  /** The search with a letter in place of each wildcard. */
  function Plain(s: string): string {
    seq(|s|, i requires 0 <= i < |s| => if s[i] == '%' || s[i] == '_' then 'a' else s[i])
  }

  lemma {:induction false} PlainMatches(s: string)
    ensures Like(Plain(s), s + "%")
    decreases |s|
  {
    if s == "" {
      assert s + "%" == "%" && Plain(s) == "";
      PercentMatchesAll("");
    } else {
      assert (s + "%")[1..] == s[1..] + "%";
      assert Plain(s)[1..] == Plain(s[1..]);
      PlainMatches(s[1..]);
      if s[0] == '%' { PercentTakesOne(Plain(s), s); }
    }
  }

  /** A '%' in front may match one character. */
  lemma PercentTakesOne(text: string, s: string)
    requires text != "" && s != "" && s[0] == '%' && Like(text[1..], s[1..] + "%")
    ensures Like(text, s + "%")
  {
    assert (s + "%")[1..] == s[1..] + "%";
    assert Like(text[1..], s + "%");
  }

  /** With a wildcard, the search finds a text that does not contain it. */
  lemma WildcardFindsMore(s: string)
    requires !NoWildcard(s)
    ensures Like(Plain(s), "%" + s + "%") && !Contains(Plain(s), s)
  {
    PlainMatches(s);
    assert ("%" + s + "%")[1..] == s + "%";
    var i :| 0 <= i < |s| && (s[i] == '%' || s[i] == '_');
    assert Plain(s)[i] != s[i];
    assert Plain(s)[0..] == Plain(s);
  }

  /** A search finds exactly the texts that contain it if and only if it has no wildcard. */
  lemma LikeIsContainsIff(s: string)
    ensures (forall text :: Like(text, "%" + s + "%") <==> Contains(text, s)) <==> NoWildcard(s)
  {
    if NoWildcard(s) {
      forall text ensures Like(text, "%" + s + "%") <==> Contains(text, s) { LiteralSearch(text, s); }
    } else {
      WildcardFindsMore(s);
    }
  }

  lemma ContainsFrom(text: string, s: string)
    requires text != ""
    ensures Contains(text, s) <==> s <= text || Contains(text[1..], s)
  {
    if Contains(text, s) {
      var i :| 0 <= i <= |text| && s <= text[i..];
      if i > 0 { assert text[1..][i - 1..] == text[i..]; } else { assert text[0..] == text; }
    }
    if s <= text { assert text[0..] == text; }
    if Contains(text[1..], s) {
      var i :| 0 <= i <= |text| - 1 && s <= text[1..][i..];
      assert text[1..][i..] == text[i + 1..];
    }
  }

  /** A wildcard in the search is not taken literally: '_' alone finds a text without it. */
  lemma UnderscoreMatchesAnything()
    ensures Like("a", "%" + "_" + "%") && !Contains("a", "_")
  {
    assert Like("", "%") && Like("a", "_%") by { PercentMatchesAll(""); assert "_%"[1..] == "%"; }
    assert ("%" + "_" + "%")[1..] == "_%";
  }

  /** A route found by a search without wildcards: its name or the bound name contains the text searched
      for, and it is bound for mode '1', unbound for mode '0'. */
  lemma {:induction false} FoundIff(rows: seq<Route>, search: string, mode: string, r: Route)
    requires NoWildcard(search)
    ensures r in Matching(rows, search, mode) <==>
              && r in rows
              && (search == "" || (r.name.Some? && Contains(r.name.value, search))
                  || (r.bindingName.Some? && Contains(r.bindingName.value, search)))
              && (mode == "1" ==> r.bindingId.Some?) && (mode == "0" ==> r.bindingId.None?)
    decreases |rows|
  {
    if rows != [] {
      var last := |rows| - 1;
      FoundIff(rows[..last], search, mode, r);
      if r.name.Some? { LiteralSearch(r.name.value, search); }
      if r.bindingName.Some? { LiteralSearch(r.bindingName.value, search); }
      assert rows == rows[..last] + [rows[last]];
    }
  }

  predicate IdsAscend(rows: seq<Route>) { forall i, j :: 0 <= i < j < |rows| ==> rows[i].id < rows[j].id }

  /** Found routes stay in id order, and so none is found twice. */
  lemma {:induction false} MatchingAscends(rows: seq<Route>, search: string, mode: string)
    requires IdsAscend(rows)
    ensures IdsAscend(Matching(rows, search, mode))
    ensures forall r :: r in Matching(rows, search, mode) ==> r in rows
    decreases |rows|
  {
    if rows != [] {
      var last := |rows| - 1;
      var init := Matching(rows[..last], search, mode);
      MatchingAscends(rows[..last], search, mode);
      forall i | 0 <= i < |init| ensures init[i].id < rows[last].id { assert init[i] in rows[..last]; }
    }
  }
}
