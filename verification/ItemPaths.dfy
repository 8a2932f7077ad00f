/**
 Where items stand in a form's tree: paths from its root, the item nodes they lead to, and the order
 in which a reader going down before going on meets them.
 */
module ItemPaths {
  import opened Outcomes
  import opened Text
  import opened Json

  /** A step down: into a node's "Elements", or to a position of a list. */
  datatype Step = IntoElements | At(index: nat)

  type Path = seq<Step>

  function NodeAt(tree: Json, path: Path): Option<Json>
    decreases |path|
  {
    if path == [] then Some(tree)
    else match path[0]
      case IntoElements =>
        if tree.Obj? && "Elements" in tree.fields then NodeAt(tree.fields["Elements"], path[1..]) else None
      case At(i) =>
        if tree.Arr? && i < |tree.items| then NodeAt(tree.items[i], path[1..]) else None
  }

  predicate CutsOffTo(r: real, id: int) {
    if r < 0.0 then id as real - 1.0 < r <= id as real <= 0.0 else 0.0 <= id as real <= r < id as real + 1.0
  }

  /** The id a value stands for: a number cut off towards zero, a boolean as 0 or 1, a text as it parses. */
  predicate StandsFor(value: Json, id: int) {
    match value
    case Int(n) => n == id
    case Bool(b) => id == if b then 1 else 0
    case Real(r) => CutsOffTo(r, id)
    case Str(s) => ParseInt(s) == Some(id)
    case _ => false
  }

  /** An object of type "Item" whose "ItemId" stands for this id. */
  predicate ItemNode(node: Json, id: int) {
    && node.Obj? && "ElmentType" in node.fields && node.fields["ElmentType"] == Str("Item")
    && "ItemId" in node.fields && StandsFor(node.fields["ItemId"], id)
  }

  predicate LeadsTo(tree: Json, path: Path, id: int) {
    NodeAt(tree, path).Some? && ItemNode(NodeAt(tree, path).value, id)
  }

  /** Preorder: a node before what is below it, list positions in order. */
  predicate Before(p: Path, q: Path)
    decreases |p|
  {
    && q != []
    && (p == [] || if p[0] == q[0] then Before(p[1..], q[1..])
                   else p[0].At? && q[0].At? && p[0].index < q[0].index)
  }

  /** The first path of the tree to an item with this id. */
  ghost predicate FirstPath(tree: Json, path: Path, id: int) {
    LeadsTo(tree, path, id) && forall other :: LeadsTo(tree, other, id) && other != path ==> Before(path, other)
  }

  lemma {:induction false} BeforeIsStrict(p: Path, q: Path)
    ensures !(Before(p, q) && Before(q, p)) && !Before(p, p)
    decreases |p|
  {
    if p != [] {
      BeforeIsStrict(p[1..], p[1..]);
      if q != [] { BeforeIsStrict(p[1..], q[1..]); }
    }
  }

  lemma FirstPathOnce(tree: Json, p: Path, q: Path, id: int)
    requires FirstPath(tree, p, id) && FirstPath(tree, q, id)
    ensures p == q
  {
    BeforeIsStrict(p, q);
  }

  // ----- Values ---------------------------------------------------------------------------------

  /** `int(value)` gives exactly the id the value stands for. */
  lemma FloorIff(r: real, n: int)
    ensures r.Floor == n <==> n as real <= r < n as real + 1.0
  {}

  lemma TruncateIff(r: real, id: int)
    ensures Truncate(r) == id <==> CutsOffTo(r, id)
  {
    FloorIff(if r < 0.0 then -r else r, if r < 0.0 then -id else id);
  }

  lemma IntOfIff(value: Json, id: int)
    ensures IntOf(value) == Some(id) <==> StandsFor(value, id)
  {
    if value.Real? { TruncateIff(value.r, id); }
  }

  // ----- All items with their paths, in preorder ------------------------------------------------

  function Under(step: Step, listed: seq<(Path, int)>): seq<(Path, int)> {
    seq(|listed|, i requires 0 <= i < |listed| => ([step] + listed[i].0, listed[i].1))
  }

  function Own(fields: map<string, Json>): seq<(Path, int)> {
    if "ElmentType" in fields && fields["ElmentType"] == Str("Item") && "ItemId" in fields
       && IntOf(fields["ItemId"]).Some?
    then [([], IntOf(fields["ItemId"]).value)] else []
  }

  function Listing(tree: Json): seq<(Path, int)>
    decreases tree, 0
  {
    match tree
    case Obj(fields) =>
      Own(fields) + (if "Elements" in fields then Under(IntoElements, Listing(fields["Elements"])) else [])
    case Arr(items) => ListingAll(items, |items|)
    case _ => []
  }

  function ListingAll(items: seq<Json>, n: nat): seq<(Path, int)>
    requires n <= |items|
    decreases items, n
  {
    if n == 0 then [] else ListingAll(items, n - 1) + Under(At(n - 1), Listing(items[n - 1]))
  }

  lemma OwnIff(fields: map<string, Json>, path: Path, id: int)
    ensures (path, id) in Own(fields) <==> path == [] && ItemNode(Obj(fields), id)
  {
    if "ItemId" in fields { IntOfIff(fields["ItemId"], id); }
  }

  lemma UnderIff(step: Step, listed: seq<(Path, int)>, path: Path, id: int)
    ensures (path, id) in Under(step, listed) <==> path != [] && path[0] == step && (path[1..], id) in listed
  {
    if (path, id) in Under(step, listed) {
      var i :| 0 <= i < |listed| && Under(step, listed)[i] == (path, id);
      assert path[1..] == listed[i].0;
      assert listed[i] == (path[1..], id);
    }
    if path != [] && path[0] == step && (path[1..], id) in listed {
      var i :| 0 <= i < |listed| && listed[i] == (path[1..], id);
      assert path == [step] + path[1..];
      assert Under(step, listed)[i] == (path, id);
    }
  }

  /** The listing has exactly the paths that lead to an item. */
  lemma {:induction false} ListingIff(tree: Json, path: Path, id: int)
    ensures (path, id) in Listing(tree) <==> LeadsTo(tree, path, id)
    decreases tree, 0
  {
    match tree
    case Obj(fields) =>
      OwnIff(fields, path, id);
      if "Elements" in fields {
        var value := fields["Elements"];
        UnderIff(IntoElements, Listing(value), path, id);
        if path != [] { ListingIff(value, path[1..], id); }
      }
    case Arr(items) => ListingAllIff(items, |items|, path, id);
    case _ =>
  }

  lemma {:induction false} ListingAllIff(items: seq<Json>, n: nat, path: Path, id: int)
    requires n <= |items|
    ensures (path, id) in ListingAll(items, n) <==>
            path != [] && path[0].At? && path[0].index < n && LeadsTo(items[path[0].index], path[1..], id)
    decreases items, n
  {
    if n > 0 {
      ListingAllIff(items, n - 1, path, id);
      UnderIff(At(n - 1), Listing(items[n - 1]), path, id);
      if path != [] { ListingIff(items[n - 1], path[1..], id); }
    }
  }

  predicate Ascending(listed: seq<(Path, int)>) {
    forall i, j :: 0 <= i < j < |listed| ==> Before(listed[i].0, listed[j].0)
  }

  lemma UnderAscends(step: Step, listed: seq<(Path, int)>)
    requires Ascending(listed)
    ensures Ascending(Under(step, listed))
  {
    var under := Under(step, listed);
    forall i, j | 0 <= i < j < |under| ensures Before(under[i].0, under[j].0) {
      assert under[i].0[1..] == listed[i].0 && under[j].0[1..] == listed[j].0;
    }
  }

  lemma AscendsInTurn(a: seq<(Path, int)>, b: seq<(Path, int)>)
    requires Ascending(a) && Ascending(b)
    requires forall i, j :: 0 <= i < |a| && 0 <= j < |b| ==> Before(a[i].0, b[j].0)
    ensures Ascending(a + b)
  {}

  lemma {:induction false} ListingAscends(tree: Json)
    ensures Ascending(Listing(tree))
    decreases tree, 0
  {
    match tree
    case Obj(fields) =>
      if "Elements" in fields {
        ListingAscends(fields["Elements"]);
        UnderAscends(IntoElements, Listing(fields["Elements"]));
        AscendsInTurn(Own(fields), Under(IntoElements, Listing(fields["Elements"])));
      }
    case Arr(items) => ListingAllAscends(items, |items|);
    case _ =>
  }

  lemma {:induction false} ListingAllAscends(items: seq<Json>, n: nat)
    requires n <= |items|
    ensures Ascending(ListingAll(items, n))
    decreases items, n
  {
    if n > 0 {
      var init, last := ListingAll(items, n - 1), Under(At(n - 1), Listing(items[n - 1]));
      ListingAllAscends(items, n - 1);
      ListingAscends(items[n - 1]);
      UnderAscends(At(n - 1), Listing(items[n - 1]));
      forall i, j | 0 <= i < |init| && 0 <= j < |last| ensures Before(init[i].0, last[j].0) {
        assert init[i] == (init[i].0, init[i].1) && init[i] in init;
        ListingAllIff(items, n - 1, init[i].0, init[i].1);
      }
      AscendsInTurn(init, last);
    }
  }

  /** An entry of the listing whose id stands nowhere earlier has the first path to that id. */
  lemma FirstInListing(tree: Json, i: nat)
    requires i < |Listing(tree)|
    requires forall k :: 0 <= k < i ==> Listing(tree)[k].1 != Listing(tree)[i].1
    ensures FirstPath(tree, Listing(tree)[i].0, Listing(tree)[i].1)
  {
    var listed := Listing(tree);
    var (path, id) := listed[i];
    assert (path, id) == listed[i] && listed[i] in listed;
    ListingIff(tree, path, id);
    ListingAscends(tree);
    forall other | LeadsTo(tree, other, id) && other != path ensures Before(path, other) {
      ListingIff(tree, other, id);
      var k :| 0 <= k < |listed| && listed[k] == (other, id);
    }
  }
}
