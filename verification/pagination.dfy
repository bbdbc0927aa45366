/**
 * The company list's paging: the page count, the reset of an out-of-range
 * page, the slice shown, and the row of page buttons with ellipses.
 */
module Pagination {
  /** `state.perPage`. */
  const PerPage: nat := 20

  /** `Math.ceil(n / perPage)`: the fewest pages of `perPage` items that hold `n` items. */
  function TotalPages(n: nat, perPage: nat): (t: nat)
    requires perPage > 0
    ensures n <= t * perPage
    ensures t > 0 ==> (t - 1) * perPage < n
  {
    var t := (n + perPage - 1) / perPage;
    assert n + perPage - 1 == t * perPage + (n + perPage - 1) % perPage;
    t
  }

  /** `if (state.currentPage > totalPages) state.currentPage = 1`. */
  function ClampPage(current: int, totalPages: nat): (c: int)
    ensures current > totalPages ==> c == 1
    ensures current <= totalPages ==> c == current
    ensures 1 <= current ==> 1 <= c && (c <= totalPages || totalPages == 0)
  {
    if current > totalPages then 1 else current
  }

  /** A relative index of `Array.prototype.slice`: negative counts from the end; clamped to `[0, len]`. */
  function SliceIndex(i: int, len: nat): (k: nat)
    ensures k <= len
    ensures 0 <= i <= len ==> k == i
    ensures i > len ==> k == len
    ensures i < 0 ==> k == Max(0, len + i)
  {
    if i < 0 then (if len + i < 0 then 0 else len + i) else if i > len then len else i
  }

  /** `s.slice(start, end)`. */
  function Slice<T>(s: seq<T>, start: int, end: int): (r: seq<T>)
    ensures |r| <= |s|
    ensures |r| == Max(0, SliceIndex(end, |s|) - SliceIndex(start, |s|))
    ensures forall j :: 0 <= j < |r| ==> r[j] == s[SliceIndex(start, |s|) + j]
  {
    var k := SliceIndex(start, |s|);
    var f := SliceIndex(end, |s|);
    if k >= f then [] else s[k..f]
  }

  /** Two adjacent slices make up the slice from the first start to the second end. */
  lemma SliceConcat<T>(s: seq<T>, a: int, b: int, c: int)
    requires 0 <= a <= b <= c
    ensures Slice(s, a, b) + Slice(s, b, c) == Slice(s, a, c)
  {
    var x := Slice(s, a, b) + Slice(s, b, c);
    var y := Slice(s, a, c);
    assert |x| == |y|;
    forall j | 0 <= j < |x| ensures x[j] == y[j] {
      if j >= |Slice(s, a, b)| {
        assert x[j] == Slice(s, b, c)[j - |Slice(s, a, b)|];
      }
    }
  }

  /** The items of page `current`: `slice((current - 1) * perPage, (current - 1) * perPage + perPage)`. */
  function Page<T>(s: seq<T>, current: int, perPage: nat): (r: seq<T>)
    ensures |r| <= perPage
  {
    var start := (current - 1) * perPage;
    var r := Slice(s, start, start + perPage);
    assert |r| <= perPage by {
      var k := SliceIndex(start, |s|);
      var f := SliceIndex(start + perPage, |s|);
      if k < f {
        if start < 0 {
          assert f <= if start + perPage < 0 then |s| + start + perPage else start + perPage;
        }
      }
    }
    r
  }

  /**
   * For a page number of at least 1, the page is the run of items from
   * `(current - 1) * perPage` up to `current * perPage`, cut at the end of the list.
   */
  lemma PageRun<T>(s: seq<T>, current: int, perPage: nat)
    requires 1 <= current
    ensures var lo := (current - 1) * perPage; var hi := lo + perPage;
      Page(s, current, perPage) == s[if lo < |s| then lo else |s|..if hi < |s| then hi else |s|]
  {
    var lo := (current - 1) * perPage;
    var hi := lo + perPage;
    MulNonneg(current - 1, perPage);
    var k := if lo < |s| then lo else |s|;
    var f := if hi < |s| then hi else |s|;
    assert SliceIndex(lo, |s|) == k && SliceIndex(hi, |s|) == f && k <= f;
    if k == f {
      assert s[k..f] == [];
    }
  }

  lemma MulNonneg(a: nat, b: nat)
    ensures 0 <= a * b
  {
  }

  /**
   * Every item is on exactly the page its position says, and that page is
   * within the page count: paging neither drops nor repeats items.
   */
  lemma PageOfItem<T>(s: seq<T>, perPage: nat, i: nat)
    requires perPage > 0 && i < |s|
    ensures var c := i / perPage + 1;
      && 1 <= c <= TotalPages(|s|, perPage)
      && i % perPage < |Page(s, c, perPage)|
      && Page(s, c, perPage)[i % perPage] == s[i]
  {
    PageNumberBound(|s|, perPage, i);
    ItemOnPage(s, perPage, i);
  }

  /** The page of an item is within the page count. */
  lemma PageNumberBound(n: nat, perPage: nat, i: nat)
    requires perPage > 0 && i < n
    ensures 1 <= i / perPage + 1 <= TotalPages(n, perPage)
  {
    var q := i / perPage;
    var t := TotalPages(n, perPage);
    DivMod(i, perPage);
    FactorOrder(q, t, perPage);
  }

  /** An item sits at its remainder on the page of its quotient. */
  lemma ItemOnPage<T>(s: seq<T>, perPage: nat, i: nat)
    requires perPage > 0 && i < |s|
    ensures i % perPage < |Page(s, i / perPage + 1, perPage)|
    ensures Page(s, i / perPage + 1, perPage)[i % perPage] == s[i]
  {
    var q := i / perPage;
    DivMod(i, perPage);
    PageRun(s, q + 1, perPage);
    PageAt(s, q + 1, perPage, q * perPage, i % perPage);
  }

  /** Quotient and remainder recombine to the dividend. */
  lemma DivMod(i: nat, p: nat)
    requires p > 0
    ensures i == (i / p) * p + i % p && 0 <= i % p < p
  {
  }

  /** Item `r` of a page is the item `r` places after the page's first one. */
  lemma PageAt<T>(s: seq<T>, c: int, perPage: nat, lo: nat, r: nat)
    requires 1 <= c && lo == (c - 1) * perPage && r < perPage && lo + r < |s|
    requires var hi := lo + perPage;
      Page(s, c, perPage) == s[if lo < |s| then lo else |s|..if hi < |s| then hi else |s|]
    ensures r < |Page(s, c, perPage)| && Page(s, c, perPage)[r] == s[lo + r]
  {
  }

  /** Multiples of a positive number are ordered as their factors. */
  lemma FactorOrder(q: nat, t: nat, p: nat)
    requires p > 0 && q * p < t * p
    ensures q < t
  {
    MulMonotone(t, q, p);
  }

  lemma MulMonotone(a: int, b: int, p: nat)
    ensures a <= b ==> a * p <= b * p
  {
    if a <= b {
      assert b * p == a * p + (b - a) * p;
    }
  }

  /** One entry of the page-button row: a page number or an ellipsis. */
  datatype PageItem = Num(n: int) | Gap

  function Max(a: int, b: int): int { if a >= b then a else b }
  function Min(a: int, b: int): int { if a <= b then a else b }

  /** The `for` loop over `[i, hi]`: each page number not yet listed is appended. */
  function Window(pages: seq<PageItem>, i: int, hi: int): seq<PageItem>
    decreases hi - i + 1
  {
    if i > hi then pages
    else Window(if Num(i) in pages then pages else pages + [Num(i)], i + 1, hi)
  }

  /**
   * `renderPagination`'s `pages`: nothing for a single page; otherwise page 1,
   * an ellipsis when `current > 3`, the neighbours of `current`, an ellipsis
   * when `current < totalPages - 2`, and the last page.
   */
  function PageList(totalPages: int, current: int): seq<PageItem> {
    if totalPages <= 1 then []
    else
      var p0 := [Num(1)];
      var p1 := if current > 3 then p0 + [Gap] else p0;
      var p2 := Window(p1, Max(2, current - 1), Min(totalPages - 1, current + 1));
      var p3 := if current < totalPages - 2 then p2 + [Gap] else p2;
      if totalPages > 1 && Num(totalPages) !in p3 then p3 + [Num(totalPages)] else p3
  }

  /** The page numbers `lo..hi`. */
  function Range(lo: int, hi: int): (r: seq<PageItem>)
    ensures |r| == if lo <= hi then hi - lo + 1 else 0
    ensures forall j :: 0 <= j < |r| ==> r[j] == Num(lo + j)
    decreases hi - lo + 1
  {
    if lo > hi then [] else [Num(lo)] + Range(lo + 1, hi)
  }

  /** When no number from `i` on is listed yet, the loop appends all of `i..hi`. */
  lemma {:induction false} WindowAppends(pages: seq<PageItem>, i: int, hi: int)
    requires forall k :: i <= k ==> Num(k) !in pages
    ensures Window(pages, i, hi) == pages + Range(i, hi)
    decreases hi - i + 1
  {
    if i <= hi {
      var next := pages + [Num(i)];
      WindowAppends(next, i + 1, hi);
      assert Range(i, hi) == [Num(i)] + Range(i + 1, hi);
      assert next + Range(i + 1, hi) == pages + Range(i, hi);
    }
  }

  /** The button row written out: its parts, in order. */
  lemma PageListParts(totalPages: int, current: int)
    requires 2 <= totalPages && 1 <= current <= totalPages
    ensures PageList(totalPages, current)
      == [Num(1)] + (if current > 3 then [Gap] else []) + Range(Max(2, current - 1), Min(totalPages - 1, current + 1))
        + (if current < totalPages - 2 then [Gap] else []) + [Num(totalPages)]
  {
    var p0 := [Num(1)];
    var g1: seq<PageItem> := if current > 3 then [Gap] else [];
    var g2: seq<PageItem> := if current < totalPages - 2 then [Gap] else [];
    var p1 := if current > 3 then p0 + [Gap] else p0;
    assert p1 == p0 + g1;
    var lo := Max(2, current - 1);
    var hi := Min(totalPages - 1, current + 1);
    WindowAppends(p1, lo, hi);
    var p2 := p1 + Range(lo, hi);
    var p3 := if current < totalPages - 2 then p2 + [Gap] else p2;
    assert p3 == p2 + g2;
    NotListedLast(p0, g1, Range(lo, hi), g2, totalPages);
  }

  /** The last page is in none of the parts before it. */
  lemma NotListedLast(p0: seq<PageItem>, g1: seq<PageItem>, w: seq<PageItem>, g2: seq<PageItem>, totalPages: int)
    requires p0 == [Num(1)] && 2 <= totalPages
    requires (forall j :: 0 <= j < |g1| ==> g1[j] == Gap) && (forall j :: 0 <= j < |g2| ==> g2[j] == Gap)
    requires forall j :: 0 <= j < |w| ==> w[j].Num? && w[j].n < totalPages
    ensures Num(totalPages) !in p0 + g1 + w + g2
  {
  }

  /** The parts of the button row, indexed: page 1 and an optional ellipsis, the window, an optional ellipsis and the last page. */
  lemma PageListAt(totalPages: int, current: int, i: nat)
    requires 2 <= totalPages && 1 <= current <= totalPages
    ensures var lo := Max(2, current - 1); var hi := Min(totalPages - 1, current + 1);
      var g1 := if current > 3 then 1 else 0;
      var w := if lo <= hi then hi - lo + 1 else 0;
      var g2 := if current < totalPages - 2 then 1 else 0;
      && |PageList(totalPages, current)| == 2 + g1 + w + g2
      && (i < |PageList(totalPages, current)| ==>
            PageList(totalPages, current)[i] ==
              if i == 0 then Num(1)
              else if i < 1 + g1 then Gap
              else if i < 1 + g1 + w then Num(lo + i - 1 - g1)
              else if i < 1 + g1 + w + g2 then Gap
              else Num(totalPages))
  {
    PageListParts(totalPages, current);
  }

  /** The row's numbers strictly increase; it starts with page 1 and ends with the last page. */
  lemma PageListIncreasing(totalPages: int, current: int)
    requires 2 <= totalPages && 1 <= current <= totalPages
    ensures var r := PageList(totalPages, current);
      && |r| >= 2 && r[0] == Num(1) && r[|r| - 1] == Num(totalPages)
      && forall i, j :: 0 <= i < j < |r| && r[i].Num? && r[j].Num? ==> r[i].n < r[j].n
  {
    var r := PageList(totalPages, current);
    PageListAt(totalPages, current, 0);
    forall i, j | 0 <= i < j < |r| && r[i].Num? && r[j].Num? ensures r[i].n < r[j].n {
      PageListAt(totalPages, current, i);
      PageListAt(totalPages, current, j);
    }
    PageListAt(totalPages, current, |r| - 1);
  }

  /** A number is listed exactly when it is 1, the last page, or within one of `current` inside `2..totalPages - 1`. */
  lemma PageListNumbers(totalPages: int, current: int)
    requires 2 <= totalPages && 1 <= current <= totalPages
    ensures var r := PageList(totalPages, current);
      forall k :: Num(k) in r <==>
        k == 1 || k == totalPages || Max(2, current - 1) <= k <= Min(totalPages - 1, current + 1)
  {
    var r := PageList(totalPages, current);
    var lo := Max(2, current - 1);
    var g1 := if current > 3 then 1 else 0;
    forall k ensures Num(k) in r <==> k == 1 || k == totalPages || lo <= k <= Min(totalPages - 1, current + 1) {
      if Num(k) in r {
        var i :| 0 <= i < |r| && r[i] == Num(k);
        PageListAt(totalPages, current, i);
      }
      PageListAt(totalPages, current, 0);
      PageListAt(totalPages, current, |r| - 1);
      if lo <= k <= Min(totalPages - 1, current + 1) {
        PageListAt(totalPages, current, 1 + g1 + k - lo);
      }
    }
  }

  /**
   * An ellipsis is present exactly when `current > 3` or
   * `current < totalPages - 2`, and each stands between two listed numbers
   * with at least one page hidden between them.
   */
  lemma PageListGaps(totalPages: int, current: int)
    requires 2 <= totalPages && 1 <= current <= totalPages
    ensures var r := PageList(totalPages, current);
      && (Gap in r <==> current > 3 || current < totalPages - 2)
      && (forall i :: 0 <= i < |r| && r[i] == Gap ==>
            0 < i < |r| - 1 && r[i - 1].Num? && r[i + 1].Num? && r[i - 1].n + 1 < r[i + 1].n)
  {
    PageListHasGap(totalPages, current);
    var r := PageList(totalPages, current);
    forall i | 0 <= i < |r| && r[i] == Gap
      ensures 0 < i < |r| - 1 && r[i - 1].Num? && r[i + 1].Num? && r[i - 1].n + 1 < r[i + 1].n
    {
      PageListGapBetween(totalPages, current, i);
    }
  }

  lemma PageListHasGap(totalPages: int, current: int)
    requires 2 <= totalPages && 1 <= current <= totalPages
    ensures Gap in PageList(totalPages, current) <==> current > 3 || current < totalPages - 2
  {
    var r := PageList(totalPages, current);
    var g1 := if current > 3 then 1 else 0;
    var lo := Max(2, current - 1);
    var hi := Min(totalPages - 1, current + 1);
    var w := if lo <= hi then hi - lo + 1 else 0;
    if Gap in r {
      var i :| 0 <= i < |r| && r[i] == Gap;
      PageListAt(totalPages, current, i);
    }
    if current > 3 {
      PageListAt(totalPages, current, 1);
    }
    if current < totalPages - 2 {
      PageListAt(totalPages, current, 1 + g1 + w);
    }
  }

  lemma PageListGapBetween(totalPages: int, current: int, i: nat)
    requires 2 <= totalPages && 1 <= current <= totalPages
    requires i < |PageList(totalPages, current)| && PageList(totalPages, current)[i] == Gap
    ensures var r := PageList(totalPages, current);
      0 < i < |r| - 1 && r[i - 1].Num? && r[i + 1].Num? && r[i - 1].n + 1 < r[i + 1].n
  {
    PageListAt(totalPages, current, i);
    PageListAt(totalPages, current, i - 1);
    PageListAt(totalPages, current, i + 1);
  }
}
