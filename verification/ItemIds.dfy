/**
 `collect_items`: the accumulator-mutating walk that lists the item ids of a form.

 The walk is compared with two definitions that have no accumulator: `Ids`, the plain preorder
 listing of a tree, and `FirstSeen`, the entries of a listing that were not seen before.
 */
module ItemIds {
  import opened Outcomes
  import opened Json
  import opened ItemPaths

  /** The Python list passed down the recursion. */
  class ItemList {
    var items: seq<int>

    constructor ()
      ensures items == []
    {
      items := [];
    }
  }

  predicate IsItem(fields: map<string, Json>) {
    "ElmentType" in fields && fields["ElmentType"] == Str("Item") && "ItemId" in fields
  }

  /** Every valid item id of a tree, in preorder and with repetitions. */
  function Ids(j: Json): seq<int>
    decreases j, 1
  {
    match j
    case Obj(fields) =>
      (if IsItem(fields) && IntOf(fields["ItemId"]).Some? then [IntOf(fields["ItemId"]).value] else [])
      + (if "Elements" in fields then Ids(fields["Elements"]) else [])
    case Arr(items) => IdsAll(items)
    case _ => []
  }

  function IdsAll(js: seq<Json>): seq<int>
    decreases js, 0
  {
    if js == [] then [] else Ids(js[0]) + IdsAll(js[1..])
  }

  /** Appends the entries of `ids` one by one, skipping those already there. */
  function Extend(acc: seq<int>, ids: seq<int>): seq<int>
    decreases |ids|
  {
    if ids == [] then acc
    else Extend(if ids[0] in acc then acc else acc + [ids[0]], ids[1..])
  }

  /** The entries of `ids` that are neither in `acc` nor earlier in `ids`, in order. */
  function FirstSeen(acc: seq<int>, ids: seq<int>): seq<int>
    decreases |ids|
  {
    if ids == [] then []
    else
      var last := |ids| - 1;
      FirstSeen(acc, ids[..last])
      + if ids[last] in acc || ids[last] in ids[..last] then [] else [ids[last]]
  }

  /** `form_json.get('Elements', [])`. */
  function ElementsOf(form: map<string, Json>): Json {
    if "Elements" in form then form["Elements"] else Arr([])
  }

  /** The ids a form requires: its `Elements` collected from an empty list. */
  function RequiredIds(form: map<string, Json>): seq<int> { Extend([], Ids(ElementsOf(form))) }

  method CollectItems(element: Json, list: ItemList)
    modifies list
    ensures list.items == Extend(old(list.items), Ids(element))
    ensures forall id :: id in list.items <==> id in old(list.items) || exists path :: LeadsTo(element, path, id)
    decreases element
  {
    CollectedIff(list.items, element);
    match element
    case Obj(fields) =>
      if IsItem(fields) {
        match IntOf(fields["ItemId"])
        case Some(id) => if id !in list.items { list.items := list.items + [id]; }
        case None =>
      }
      ghost var own := if IsItem(fields) && IntOf(fields["ItemId"]).Some?
                       then [IntOf(fields["ItemId"]).value] else [];
      assert list.items == Extend(old(list.items), own);
      if "Elements" in fields {
        var value := fields["Elements"];
        match value {
          case Arr(items) =>
            for i := 0 to |items|
              invariant list.items == Extend(Extend(old(list.items), own), IdsAll(items[..i]))
            {
              CollectItems(items[i], list);
              IdsOfPrefix(items, i);
              ExtendInTurn(Extend(old(list.items), own), IdsAll(items[..i]), Ids(items[i]));
            }
            assert items[..|items|] == items;
          case Obj(_) => CollectItems(value, list);
          case _ =>
        }
        ExtendInTurn(old(list.items), own, Ids(value));
      } else {
        assert own + [] == own;
      }
    case Arr(items) =>
      for i := 0 to |items|
        invariant list.items == Extend(old(list.items), IdsAll(items[..i]))
      {
        CollectItems(items[i], list);
        IdsOfPrefix(items, i);
        ExtendInTurn(old(list.items), IdsAll(items[..i]), Ids(items[i]));
      }
      assert items[..|items|] == items;
    case _ =>
  }

  lemma {:induction false} IdsOfConcat(a: seq<Json>, b: seq<Json>)
    ensures IdsAll(a + b) == IdsAll(a) + IdsAll(b)
  {
    if a == [] {
      assert a + b == b;
    } else {
      assert (a + b)[1..] == a[1..] + b;
      IdsOfConcat(a[1..], b);
    }
  }

  lemma IdsOfPrefix(items: seq<Json>, i: nat)
    requires i < |items|
    ensures IdsAll(items[..i + 1]) == IdsAll(items[..i]) + Ids(items[i])
  {
    assert items[..i + 1] == items[..i] + [items[i]];
    IdsOfConcat(items[..i], [items[i]]);
    assert IdsAll([items[i]]) == Ids(items[i]) + IdsAll([]);
  }

  /** Collecting two listings in turn is collecting their concatenation. */
  lemma {:induction false} ExtendInTurn(acc: seq<int>, a: seq<int>, b: seq<int>)
    ensures Extend(Extend(acc, a), b) == Extend(acc, a + b)
    decreases |a|
  {
    if a == [] {
      assert a + b == b;
    } else {
      assert (a + b)[1..] == a[1..] + b;
      ExtendInTurn(if a[0] in acc then acc else acc + [a[0]], a[1..], b);
    }
  }

  lemma ExtendByOne(acc: seq<int>, id: int)
    ensures Extend(acc, [id]) == if id in acc then acc else acc + [id]
  {
    assert [id][1..] == [];
  }

  /** The accumulator law: the starting list is kept as a prefix and exactly the first
      occurrences not already in it are appended, in preorder. */
  lemma {:induction false} AccumulatorLaw(acc: seq<int>, ids: seq<int>)
    ensures Extend(acc, ids) == acc + FirstSeen(acc, ids)
    ensures forall id :: id in Extend(acc, ids) <==> id in acc || id in ids
    ensures Distinct(acc) ==> Distinct(Extend(acc, ids))
    decreases |ids|
  {
    if ids != [] {
      var last := |ids| - 1;
      var init := ids[..last];
      assert ids == init + [ids[last]];
      ExtendInTurn(acc, init, [ids[last]]);
      AccumulatorLaw(acc, init);
      ExtendByOne(Extend(acc, init), ids[last]);
    }
  }

  /** What a form requires is duplicate-free and complete. */
  lemma RequiredIdsExact(form: map<string, Json>)
    ensures Distinct(RequiredIds(form))
    ensures forall id :: id in RequiredIds(form) <==> id in Ids(ElementsOf(form))
  {
    AccumulatorLaw([], Ids(ElementsOf(form)));
  }

  /** Collecting a list of trees is collecting the trees in turn. */
  lemma CollectListInTurn(acc: seq<int>, trees: seq<Json>, last: Json)
    ensures Extend(acc, Ids(Arr(trees + [last]))) == Extend(Extend(acc, Ids(Arr(trees))), Ids(last))
  {
    assert (trees + [last])[..|trees|] == trees;
    IdsOfPrefix(trees + [last], |trees|);
    assert (trees + [last])[..|trees| + 1] == trees + [last];
    ExtendInTurn(acc, Ids(Arr(trees)), Ids(last));
  }

  // ----- Collected ids and the places of the items ----------------------------------------------

  function IdsOf(listed: seq<(Path, int)>): seq<int> {
    seq(|listed|, i requires 0 <= i < |listed| => listed[i].1)
  }

  /** The ids of a tree are those of its listing with paths. */
  lemma {:induction false} ListedIds(tree: Json)
    ensures IdsOf(Listing(tree)) == Ids(tree)
    decreases tree, 0
  {
    match tree
    case Obj(fields) => if "Elements" in fields { ListedIds(fields["Elements"]); }
    case Arr(items) =>
      ListedIdsAll(items, |items|);
      assert items[..|items|] == items;
    case _ =>
  }

  lemma {:induction false} ListedIdsAll(items: seq<Json>, n: nat)
    requires n <= |items|
    ensures IdsOf(ListingAll(items, n)) == IdsAll(items[..n])
    decreases items, n
  {
    if n > 0 {
      ListedIdsAll(items, n - 1);
      ListedIds(items[n - 1]);
      IdsOfPrefix(items, n - 1);
      assert IdsOf(ListingAll(items, n)) == IdsOf(ListingAll(items, n - 1)) + IdsOf(Listing(items[n - 1]));
    }
  }

  /** A tree's ids are those some path leads to. */
  lemma IdsIff(tree: Json, id: int)
    ensures id in Ids(tree) <==> exists path :: LeadsTo(tree, path, id)
  {
    var listed := Listing(tree);
    ListedIds(tree);
    if id in Ids(tree) {
      var i :| 0 <= i < |listed| && IdsOf(listed)[i] == id;
      assert listed[i] == (listed[i].0, id) && listed[i] in listed;
      ListingIff(tree, listed[i].0, id);
    }
    if path :| LeadsTo(tree, path, id) {
      ListingIff(tree, path, id);
      var i :| 0 <= i < |listed| && listed[i] == (path, id);
      assert IdsOf(listed)[i] == id;
    }
  }

  /** Collecting a tree adds exactly the ids some path of it leads to. */
  lemma CollectedIff(acc: seq<int>, tree: Json)
    ensures forall id :: id in Extend(acc, Ids(tree)) <==> id in acc || exists path :: LeadsTo(tree, path, id)
  {
    AccumulatorLaw(acc, Ids(tree));
    forall id ensures id in Ids(tree) <==> exists path :: LeadsTo(tree, path, id) { IdsIff(tree, id); }
  }

  /** Where an id stands first. */
  function FirstIndex(ids: seq<int>, id: int): (i: nat)
    requires id in ids
    ensures i < |ids| && ids[i] == id && id !in ids[..i]
    decreases |ids|
  {
    var last := |ids| - 1;
    assert ids == ids[..last] + [ids[last]];
    if id in ids[..last] then
      assert forall k :: 0 <= k <= last ==> ids[..last][..k] == ids[..k];
      FirstIndex(ids[..last], id)
    else last
  }

  lemma FirstIndexOfInit(ids: seq<int>, id: int)
    requires ids != [] && id in ids[..|ids| - 1]
    ensures id in ids && FirstIndex(ids, id) == FirstIndex(ids[..|ids| - 1], id)
  {}

  /** First occurrences are listed in the order in which they stand. */
  lemma {:induction false} FirstSeenInOrder(ids: seq<int>, i: nat, j: nat)
    requires i < j < |FirstSeen([], ids)|
    ensures FirstSeen([], ids)[i] in ids && FirstSeen([], ids)[j] in ids
    ensures FirstIndex(ids, FirstSeen([], ids)[i]) < FirstIndex(ids, FirstSeen([], ids)[j])
    decreases |ids|
  {
    var last := |ids| - 1;
    var init := ids[..last];
    var seen := FirstSeen([], init);
    assert ids == init + [ids[last]];
    AccumulatorLaw([], init);
    AccumulatorLaw([], ids);
    assert seen[i] in seen;
    FirstIndexOfInit(ids, seen[i]);
    if j < |seen| {
      FirstSeenInOrder(init, i, j);
      assert seen[j] in seen;
      FirstIndexOfInit(ids, seen[j]);
    }
  }

  /** What a form requires: the ids of exactly the item nodes below its "Elements". */
  lemma RequiredIdsAreItems(form: map<string, Json>, id: int)
    ensures id in RequiredIds(form) <==> exists path :: LeadsTo(Obj(form), [IntoElements] + path, id)
  {
    var elements := ElementsOf(form);
    CollectedIff([], elements);
    forall path: Path
      ensures LeadsTo(Obj(form), [IntoElements] + path, id) <==> "Elements" in form && LeadsTo(elements, path, id)
    {
      assert ([IntoElements] + path)[1..] == path;
    }
    if "Elements" !in form { assert Ids(elements) == []; }
  }

  /** They stand in the order in which the first nodes carrying them are met going down the tree. */
  lemma RequiredIdsInPreorder(form: map<string, Json>, i: nat, j: nat)
    requires "Elements" in form && i < j < |RequiredIds(form)|
    ensures exists p, q :: FirstPath(form["Elements"], p, RequiredIds(form)[i])
                           && FirstPath(form["Elements"], q, RequiredIds(form)[j]) && Before(p, q)
  {
    var tree, required := form["Elements"], RequiredIds(form);
    RequiredIsFirstSeen(form);
    FirstSeenInOrder(Ids(tree), i, j);
    PathsInOrder(tree, required[i], required[j]);
  }

  lemma RequiredIsFirstSeen(form: map<string, Json>)
    requires "Elements" in form
    ensures RequiredIds(form) == FirstSeen([], Ids(form["Elements"]))
  {
    AccumulatorLaw([], Ids(form["Elements"]));
  }

  lemma PathsInOrder(tree: Json, a: int, b: int)
    requires a in Ids(tree) && b in Ids(tree) && FirstIndex(Ids(tree), a) < FirstIndex(Ids(tree), b)
    ensures exists p, q :: FirstPath(tree, p, a) && FirstPath(tree, q, b) && Before(p, q)
  {
    var p := FirstAt(tree, a);
    var q := FirstAt(tree, b);
    ListingAscends(tree);
    assert Before(p, q);
  }

  /** The first path to an id is the one at its first index in the listing. */
  lemma FirstAt(tree: Json, id: int) returns (path: Path)
    requires id in Ids(tree)
    ensures FirstIndex(Ids(tree), id) < |Listing(tree)| && path == Listing(tree)[FirstIndex(Ids(tree), id)].0
    ensures FirstPath(tree, path, id)
  {
    var ids, listed := Ids(tree), Listing(tree);
    var i := FirstIndex(ids, id);
    ListedIds(tree);
    assert IdsOf(listed)[i] == id;
    forall k | 0 <= k < i ensures listed[k].1 != id {
      assert IdsOf(listed)[k] == ids[..i][k];
    }
    FirstInListing(tree, i);
    path := listed[i].0;
  }
}
