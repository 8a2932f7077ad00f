/** Cutting a list into pages: Python's slices and ceiling division. */
module Paging {

  /** `s[start:end]` for non-negative bounds. */
  function Slice<T>(s: seq<T>, start: nat, end: nat): seq<T> {
    if start >= |s| || end <= start then [] else s[start..if end <= |s| then end else |s|]
  }

  function TotalPages(total: nat, size: nat): nat
    requires size >= 1
  {
    if total > 0 then (total + size - 1) / size else 1
  }

  function PageOf<T>(s: seq<T>, page: nat, size: nat): seq<T>
    requires page >= 1
  {
    Slice(s, (page - 1) * size, (page - 1) * size + size)
  }

  /** Pages 1 to n one after the other. */
  function Pages<T>(s: seq<T>, size: nat, n: nat): seq<T> {
    if n == 0 then [] else Pages(s, size, n - 1) + PageOf(s, n, size)
  }

  lemma {:induction false} PagesArePrefix<T>(s: seq<T>, size: nat, n: nat)
    ensures Pages(s, size, n) == if n * size <= |s| then s[..n * size] else s
  {
    if n > 0 {
      PagesArePrefix(s, size, n - 1);
      assert n * size == (n - 1) * size + size;
    }
  }

  /** The last page is the first that reaches the end. */
  lemma CeilingBounds(total: nat, size: nat)
    requires size >= 1
    ensures TotalPages(total, size) >= 1
    ensures total <= TotalPages(total, size) * size
    ensures total > 0 ==> (TotalPages(total, size) - 1) * size < total
  {
    if total > 0 {
      var n := (total + size - 1) / size;
      assert n * size + (total + size - 1) % size == total + size - 1;
      assert (n - 1) * size == n * size - size;
    }
  }

  lemma ProductGrows(a: nat, b: nat, size: nat)
    requires a <= b
    ensures a * size <= b * size
  {}

  /** Pages 1 to the last give the whole list in order. */
  lemma PagesCover<T>(s: seq<T>, size: nat)
    requires size >= 1
    ensures Pages(s, size, TotalPages(|s|, size)) == s
  {
    var n := TotalPages(|s|, size);
    CeilingBounds(|s|, size);
    PagesArePrefix(s, size, n);
  }

  /** A next page is announced exactly when an element lies beyond this one, pages before the last
      are full, and pages after it are empty. */
  lemma PageBounds<T>(s: seq<T>, size: nat, page: nat)
    requires size >= 1 && page >= 1
    ensures page < TotalPages(|s|, size) <==> page * size < |s|
    ensures page * size < |s| ==> |PageOf(s, page, size)| == size
    ensures page > TotalPages(|s|, size) ==> PageOf(s, page, size) == []
  {
    var n := TotalPages(|s|, size);
    CeilingBounds(|s|, size);
    assert (page - 1) * size + size == page * size;
    if page < n {
      ProductGrows(page, n - 1, size);
    } else {
      ProductGrows(n, page, size);
      if page > n { ProductGrows(n, page - 1, size); }
    }
  }
}
