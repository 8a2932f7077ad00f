/** `get_users`: who may see whom, the search by UserID, and the page asked for. */
module UserListing {
  import opened Outcomes
  import opened Text
  import opened StaffStore
  import opened SigningTable
  import opened Staff
  import opened Administration
  import opened Paging

  datatype Listing =
    | Page(users: seq<Profile>, current: nat, size: nat, totalCount: nat, totalPages: nat, hasNext: bool, hasPrev: bool)
    | Error(status: nat)

  /** `str(value)` of a UserID. */
  function Shown(c: Cell): string {
    match c
    case Null => "None"
    case Num(n) => IntText(n)
    case Flag(b) => if b then "True" else "False"
    case Txt(s) => s
    case Hashed(s) => s
    case Time(t) => IntText(t)
  }

  function WithoutPassword(p: Profile): Profile { p.(user := p.user.(cols := p.user.cols - {"Password"})) }

  /** What the list holds for a user. */
  function Shareable(db: StaffDb, u: User): Profile {
    FindByIdIff(db.users, u.id);
    var p := ProfileOf(db, u.id);
    if p.Some? then WithoutPassword(p.value) else WithoutPassword(Profile(u, None))
  }

  /** Same department prefix, or the operator's own row, below level 3; everyone from level 3 on. */
  predicate MaySee(operator: User, u: User) {
    || (Level(operator).Some? && Level(operator).value >= 3)
    || PrefixOf(Column(u, "Department")) == PrefixOf(Column(operator, "Department"))
    || u.id == operator.id
  }

  predicate MatchesSearch(u: User, keyword: string) {
    keyword == "" || Contains(Lower(Shown(Column(u, "UserID"))), Lower(keyword))
  }

  /** The profiles of the users the operator may see and the search matches, in table order. */
  function Visible(db: StaffDb, users: seq<User>, operator: User, keyword: string): seq<Profile>
    decreases |users|
  {
    if users == [] then []
    else
      var u := users[|users| - 1];
      Visible(db, users[..|users| - 1], operator, keyword)
      + if MaySee(operator, u) && MatchesSearch(u, keyword) then [Shareable(db, u)] else []
  }

  /** Departments are text, empty or missing, so that taking a prefix raises no error. */
  predicate DepartmentsAreText(users: seq<User>) {
    forall u :: u in users ==> PrefixOf(Column(u, "Department")).Some?
  }

  function ParamOr(arg: Option<string>, default: int): Option<int> {
    if arg.None? then Some(default) else ParseInt(arg.value)
  }

  /** Page numbers below 1 become 1; sizes outside 1..100 become 10. */
  function ClampPage(page: int): nat { if page < 1 then 1 else page }

  function ClampSize(size: int): nat { if size < 1 || size > 100 then 10 else size }

  function Accessible(db: StaffDb, users: seq<User>, operator: User): seq<(User, Profile)>
    decreases |users|
  {
    if users == [] then []
    else
      var u := users[|users| - 1];
      Accessible(db, users[..|users| - 1], operator) + if MaySee(operator, u) then [(u, Shareable(db, u))] else []
  }

  /** Filtering what is accessible by the search gives what is visible. */
  lemma {:induction false} SearchedAccessible(db: StaffDb, users: seq<User>, operator: User, keyword: string)
    ensures Searched(Accessible(db, users, operator), keyword) == Visible(db, users, operator, keyword)
    decreases |users|
  {
    if users != [] {
      var u := users[|users| - 1];
      var init := Accessible(db, users[..|users| - 1], operator);
      SearchedAccessible(db, users[..|users| - 1], operator, keyword);
      SearchedAppend(init, u, Shareable(db, u));
      assert init + [] == init && Searched(init, keyword) + [] == Searched(init, keyword);
    }
  }

  lemma AccessibleStep(db: StaffDb, users: seq<User>, i: nat, operator: User)
    requires i < |users|
    ensures Accessible(db, users[..i + 1], operator)
            == Accessible(db, users[..i], operator)
               + if MaySee(operator, users[i]) then [(users[i], Shareable(db, users[i]))] else []
    ensures DepartmentsAreText(users[..i + 1]) <==>
            DepartmentsAreText(users[..i]) && PrefixOf(Column(users[i], "Department")).Some?
  {
    assert users[..i + 1][..i] == users[..i] && users[..i + 1] == users[..i] + [users[i]];
  }

  /** The users the operator may see with their profiles; `None` when a prefix raises an error. */
  method AccessibleUsers(db: StaffDb, current: User) returns (r: Option<seq<(User, Profile)>>)
    requires current in db.users && Level(current).Some?
    ensures r.Some? <==> Level(current).value >= 3 || DepartmentsAreText(db.users)
    ensures r.Some? ==> forall keyword :: Searched(r.value, keyword) == Visible(db, db.users, current, keyword)
  {
    var seesAll, ownPrefix := Level(current).value >= 3, PrefixOf(Column(current, "Department"));
    var accessible: seq<(User, Profile)> := [];
    for i := 0 to |db.users|
      invariant seesAll || DepartmentsAreText(db.users[..i])
      invariant accessible == Accessible(db, db.users[..i], current)
    {
      var u := db.users[i];
      AccessibleStep(db, db.users, i, current);
      var prefix := PrefixOf(Column(u, "Department"));
      if !seesAll && (prefix.None? || ownPrefix.None?) {
        assert u in db.users;
        return None;
      }
      if seesAll || prefix == ownPrefix || u.id == current.id {
        accessible := accessible + [(u, Shareable(db, u))];
      }
    }
    assert db.users[..|db.users|] == db.users;
    forall keyword { SearchedAccessible(db, db.users, current, keyword); }
    r := Some(accessible);
  }

  lemma SearchedAppend(accessible: seq<(User, Profile)>, u: User, p: Profile)
    ensures forall keyword :: Searched(accessible + [(u, p)], keyword)
                              == Searched(accessible, keyword) + if MatchesSearch(u, keyword) then [p] else []
  {
    assert (accessible + [(u, p)])[..|accessible|] == accessible;
  }

  /** The answer is the page of this list that was asked for. */
  predicate IsPageOf(r: Listing, list: seq<Profile>, page: int, size: int) {
    && r.Page? && r.current == ClampPage(page) && r.size == ClampSize(size)
    && r.users == PageOf(list, r.current, r.size)
    && r.totalCount == |list| && r.totalPages == TotalPages(|list|, r.size)
    && r.hasNext == (r.current < r.totalPages) && r.hasPrev == (r.current > 1)
  }

  method Paginate(filtered: seq<Profile>, page: int, size: int) returns (r: Listing)
    ensures IsPageOf(r, filtered, page, size)
  {
    var p, n := page, size;
    if p < 1 { p := 1; }
    if n < 1 || n > 100 { n := 10; }
    var totalPages := TotalPages(|filtered|, n);
    r := Page(PageOf(filtered, p, n), p, n, |filtered|, totalPages, p < totalPages, p > 1);
  }

  method GetUsers(db: StaffDb, operator: nat, page: Option<string>, pageSize: Option<string>, search: string)
      returns (r: Listing)
    ensures r.Page? <==> && Authorized(db, operator, 1)
                         && ParamOr(page, 1).Some? && ParamOr(pageSize, 10).Some?
                         && (OperatorLevelIn(db, operator) >= 3 || DepartmentsAreText(db.users))
    ensures !Authorized(db, operator, 1) ==> r == Error(403)
    ensures Authorized(db, operator, 1) && (ParamOr(page, 1).None? || ParamOr(pageSize, 10).None?) ==> r == Error(400)
    ensures Authorized(db, operator, 1) && ParamOr(page, 1).Some? && ParamOr(pageSize, 10).Some? && !r.Page? ==>
              r == Error(500)
    ensures r.Page? ==>
              && r.current == (if page.None? || ParseInt(page.value).value < 1 then 1 else ParseInt(page.value).value)
              && r.size == (if pageSize.Some? && 1 <= ParseInt(pageSize.value).value <= 100
                            then ParseInt(pageSize.value).value else 10)
    ensures r.Page? ==>
              var current := FindById(db.users, operator);
              && current.Some?
              && IsPageOf(r, Visible(db, db.users, current.value, Strip(search)), ParamOr(page, 1).value,
                          ParamOr(pageSize, 10).value)
  {
    if !Authorized(db, operator, 1) { return Error(403); }
    var pageNumber, size := ParamOr(page, 1), ParamOr(pageSize, 10);
    if pageNumber.None? || size.None? { return Error(400); }
    var current := FindById(db.users, operator).value;
    FindByIdIff(db.users, operator);
    var accessible := AccessibleUsers(db, current);
    if accessible.None? { return Error(500); }
    r := Paginate(Searched(accessible.value, Strip(search)), pageNumber.value, size.value);
  }

  /** The search over the accessible users. */
  function Searched(accessible: seq<(User, Profile)>, keyword: string): seq<Profile>
    decreases |accessible|
  {
    if accessible == [] then []
    else
      var last := |accessible| - 1;
      Searched(accessible[..last], keyword)
      + if MatchesSearch(accessible[last].0, keyword) then [accessible[last].1] else []
  }

  // ----- The list -----------------------------------------------------------------------------

  lemma ShareableOf(db: StaffDb, u: User)
    requires u in db.users
    ensures Shareable(db, u).user.id == u.id
    ensures "Password" !in Shareable(db, u).user.cols
  {
    FindByIdIff(db.users, u.id);
  }

  lemma {:induction false} VisibleFrom(db: StaffDb, users: seq<User>, operator: User, keyword: string, i: nat)
    requires forall u :: u in users ==> u in db.users
    requires i < |Visible(db, users, operator, keyword)|
    ensures var p := Visible(db, users, operator, keyword)[i];
            && "Password" !in p.user.cols
            && exists u :: u in users && u.id == p.user.id && MaySee(operator, u) && MatchesSearch(u, keyword)
    decreases |users|
  {
    var last := |users| - 1;
    var init := Visible(db, users[..last], operator, keyword);
    if i < |init| {
      VisibleFrom(db, users[..last], operator, keyword, i);
    } else {
      ShareableOf(db, users[last]);
    }
  }

  lemma {:induction false} VisibleHas(db: StaffDb, users: seq<User>, operator: User, keyword: string, u: User)
    requires forall v :: v in users ==> v in db.users
    requires u in users && MaySee(operator, u) && MatchesSearch(u, keyword)
    ensures exists i :: 0 <= i < |Visible(db, users, operator, keyword)|
                        && Visible(db, users, operator, keyword)[i].user.id == u.id
    decreases |users|
  {
    var last := |users| - 1;
    var init := Visible(db, users[..last], operator, keyword);
    var list := Visible(db, users, operator, keyword);
    if users[last] == u {
      ShareableOf(db, u);
      assert list[|init|].user.id == u.id;
    } else {
      assert u in users[..last];
      VisibleHas(db, users[..last], operator, keyword, u);
      var i :| 0 <= i < |init| && init[i].user.id == u.id;
      assert list[i] == init[i];
    }
  }

  predicate InIdOrder(list: seq<Profile>) {
    forall i, j :: 0 <= i < j < |list| ==> list[i].user.id < list[j].user.id
  }

  lemma {:induction false} VisibleInOrder(db: StaffDb, users: seq<User>, operator: User, keyword: string)
    requires forall u :: u in users ==> u in db.users
    requires forall i, j :: 0 <= i < j < |users| ==> users[i].id < users[j].id
    ensures InIdOrder(Visible(db, users, operator, keyword))
    decreases |users|
  {
    if users != [] {
      var last := |users| - 1;
      var init := Visible(db, users[..last], operator, keyword);
      VisibleInOrder(db, users[..last], operator, keyword);
      ShareableOf(db, users[last]);
      forall i | 0 <= i < |init| ensures init[i].user.id < users[last].id {
        VisibleFrom(db, users[..last], operator, keyword, i);
        var u :| u in users[..last] && u.id == init[i].user.id;
        var k :| 0 <= k < last && users[k] == u;
      }
    }
  }

  /** The list names exactly the users the operator may see and the search matches, each once and in
      id order, and no entry carries a password. */
  lemma VisibleExact(db: StaffDb, operator: User, keyword: string, id: nat)
    requires IdsInOrder(db)
    ensures var list := Visible(db, db.users, operator, keyword);
            && InIdOrder(list)
            && (forall i :: 0 <= i < |list| ==> "Password" !in list[i].user.cols)
            && ((exists i :: 0 <= i < |list| && list[i].user.id == id)
                <==> exists u :: u in db.users && u.id == id && MaySee(operator, u) && MatchesSearch(u, keyword))
  {
    var list := Visible(db, db.users, operator, keyword);
    VisibleInOrder(db, db.users, operator, keyword);
    forall i | 0 <= i < |list|
      ensures "Password" !in list[i].user.cols
      ensures exists u :: u in db.users && u.id == list[i].user.id && MaySee(operator, u) && MatchesSearch(u, keyword)
    {
      VisibleFrom(db, db.users, operator, keyword, i);
    }
    forall u | u in db.users && MaySee(operator, u) && MatchesSearch(u, keyword)
      ensures exists i :: 0 <= i < |list| && list[i].user.id == u.id
    {
      VisibleHas(db, db.users, operator, keyword, u);
    }
  }

  /** The operator, at least of level 3, or of the same department prefix, or looking at itself. */
  predicate SeesInWords(operator: User, u: User) {
    || (NumberOf(Column(operator, "PriorityLevel")).Some? && NumberOf(Column(operator, "PriorityLevel")).value >= 3)
    || PrefixOf(Column(operator, "Department")) == PrefixOf(Column(u, "Department"))
    || operator.id == u.id
  }

  /** The entry carries the user's row, every column but the password, and its signing row as it reads. */
  predicate IsEntryOf(p: Profile, db: StaffDb, u: User) {
    && p.user.id == u.id
    && (forall column :: column in p.user.cols ==> column in u.cols && column != "Password")
    && (forall column :: column in u.cols && column != "Password" ==>
          column in p.user.cols && p.user.cols[column] == u.cols[column])
    && var row := FindSigning(db.signing, Column(u, "UserID"));
       p.signing == if row.None? then None else Some(ReadRow(row.value))
  }

  /** The list has an entry for exactly the users that may be seen and whose UserID, as text and without
      regard to case, contains the keyword; each entry is the user's own. */
  lemma ListedInWords(db: StaffDb, operator: User, keyword: string)
    requires IdsInOrder(db)
    ensures var list := Visible(db, db.users, operator, keyword);
            && (forall u :: u in db.users ==>
                  ((exists i :: 0 <= i < |list| && list[i].user.id == u.id) <==>
                   SeesInWords(operator, u)
                   && (keyword == "" || Contains(Lower(Shown(Column(u, "UserID"))), Lower(keyword)))))
            && forall i :: 0 <= i < |list| ==> exists u :: u in db.users && IsEntryOf(list[i], db, u)
  {
    var list := Visible(db, db.users, operator, keyword);
    forall u | u in db.users
      ensures (exists i :: 0 <= i < |list| && list[i].user.id == u.id) <==>
              SeesInWords(operator, u)
              && (keyword == "" || Contains(Lower(Shown(Column(u, "UserID"))), Lower(keyword)))
    {
      VisibleExact(db, operator, keyword, u.id);
      forall v | v in db.users && v.id == u.id ensures v == u { SameRow(db, u, v); }
    }
    forall i | 0 <= i < |list| ensures exists u :: u in db.users && IsEntryOf(list[i], db, u) {
      EntryFrom(db, db.users, operator, keyword, i);
    }
  }

  lemma SameRow(db: StaffDb, u: User, v: User)
    requires IdsInOrder(db) && u in db.users && v in db.users && u.id == v.id
    ensures u == v
  {
    var i :| 0 <= i < |db.users| && db.users[i] == u;
    var j :| 0 <= j < |db.users| && db.users[j] == v;
  }

  lemma ShareableIsEntry(db: StaffDb, u: User)
    requires IdsInOrder(db) && u in db.users
    ensures IsEntryOf(Shareable(db, u), db, u)
  {
    FindByIdIff(db.users, u.id);
    SameRow(db, u, FindById(db.users, u.id).value);
  }

  lemma {:induction false} EntryFrom(db: StaffDb, users: seq<User>, operator: User, keyword: string, i: nat)
    requires IdsInOrder(db) && forall u :: u in users ==> u in db.users
    requires i < |Visible(db, users, operator, keyword)|
    ensures exists u :: u in db.users && IsEntryOf(Visible(db, users, operator, keyword)[i], db, u)
    decreases |users|
  {
    var last := |users| - 1;
    if i < |Visible(db, users[..last], operator, keyword)| {
      EntryFrom(db, users[..last], operator, keyword, i);
    } else {
      ShareableIsEntry(db, users[last]);
    }
  }

  /** Reading pages 1 to the last in turn, for any page size a request ends up with, gives the whole
      list once and in order; later pages are empty; a next page is announced exactly when an element
      lies beyond this one. */
  lemma PagesGiveEveryoneOnce(db: StaffDb, operator: User, keyword: string, size: int, page: int)
    ensures var list := Visible(db, db.users, operator, keyword);
            var n := ClampSize(size);
            var p := ClampPage(page);
            && 1 <= n <= 100 && Pages(list, n, TotalPages(|list|, n)) == list
            && (p > TotalPages(|list|, n) ==> PageOf(list, p, n) == [])
            && (p < TotalPages(|list|, n) <==> p * n < |list|)
  {
    PagesCover(Visible(db, db.users, operator, keyword), ClampSize(size));
    PageBounds(Visible(db, db.users, operator, keyword), ClampSize(size), ClampPage(page));
  }
}
