/** The pagination arithmetic of src/components/AddressSearch.tsx: the page
    slice `currentPageResults`, `totalPages` and `showPagination`, the
    displayed "first〜last" range, the page-number buttons and the
    first/previous/next/last targets. */
module Paginator {
  import opened JsMath

  /** How `Array.prototype.slice` reads an integer argument: a negative one
      counts from the end, and either way it is clipped to `[0, len]`. */
  function SliceIndex(k: int, len: nat): (r: nat)
    ensures r <= len
    ensures 0 <= k ==> r == Min(k, len)
    ensures k < 0 ==> r == Max(len + k, 0)
  {
    if k < 0 then (if len + k < 0 then 0 else len + k) else if k < len then k else len
  }

  /** `Array.prototype.slice(start, end)` on a sequence. */
  function JsSlice<T>(s: seq<T>, start: int, end: int): seq<T> {
    var from, to := SliceIndex(start, |s|), SliceIndex(end, |s|);
    if from < to then s[from..to] else []
  }

  /** `currentPageResults`: the slice from `(page - 1) * limit` of length `limit`. */
  function PageSlice<T>(filtered: seq<T>, page: int, limit: int): seq<T> {
    var start := (page - 1) * limit;
    JsSlice(filtered, start, start + limit)
  }

  lemma ProductNonNegative(a: int, b: int)
    requires 0 <= a && 0 <= b
    ensures 0 <= a * b
  {}

  /** For a page number of at least 1, the page is
      `filtered[(page - 1) * limit .. min(page * limit, |filtered|)]`, clipped. */
  lemma PageSliceClipped<T>(filtered: seq<T>, page: int, limit: int)
    requires 1 <= page && 1 <= limit
    ensures var n := |filtered|;
            PageSlice(filtered, page, limit)
            == filtered[Min((page - 1) * limit, n)..Max(Min((page - 1) * limit, n), Min(page * limit, n))]
  {
    ProductNonNegative(page - 1, limit);
    assert (page - 1) * limit + limit == page * limit;
  }

  /** Pages 1 to `count`, one after the other. */
  function Pages<T>(filtered: seq<T>, limit: int, count: nat): seq<T> {
    if count == 0 then [] else Pages(filtered, limit, count - 1) + PageSlice(filtered, count, limit)
  }

  lemma {:induction false} PagesPrefix<T>(filtered: seq<T>, limit: int, count: nat)
    requires 1 <= limit
    ensures Pages(filtered, limit, count) == filtered[..Min(count * limit, |filtered|)]
  {
    if count > 0 {
      PagesPrefix(filtered, limit, count - 1);
      PageSliceClipped(filtered, count, limit);
      ProductNonNegative(count - 1, limit);
      assert (count - 1) * limit + limit == count * limit;
      var a, b := Min((count - 1) * limit, |filtered|), Min(count * limit, |filtered|);
      assert a <= b;
      PrefixThenSlice(filtered, a, b);
    }
  }

  lemma PrefixThenSlice<T>(s: seq<T>, a: nat, b: nat)
    requires a <= b <= |s|
    ensures s[..a] + s[a..b] == s[..b]
  {
  }

  /** `Math.ceil(totalResults / limit)`. */
  function TotalPages(total: nat, limit: int): (r: nat)
    requires 1 <= limit
    ensures r == 0 <==> total == 0
    ensures total <= r * limit
    ensures 0 < r ==> (r - 1) * limit < total
  {
    var q := (total + limit - 1) / limit;
    assert q * limit + (total + limit - 1) % limit == total + limit - 1;
    assert (q - 1) * limit == q * limit - limit;
    q
  }

  /** Showing pages 1 to `TotalPages` reproduces the whole result list once. */
  lemma PagesCoverResults<T>(filtered: seq<T>, limit: int)
    requires 1 <= limit
    ensures Pages(filtered, limit, TotalPages(|filtered|, limit)) == filtered
  {
    PagesPrefix(filtered, limit, TotalPages(|filtered|, limit));
  }

  /** `showPagination`. */
  predicate ShowPagination(total: nat, limit: int) {
    total > limit
  }

  /** The pager is shown exactly when there is more than one page. */
  lemma ShowPaginationIffSeveralPages(total: nat, limit: int)
    requires 1 <= limit
    ensures ShowPagination(total, limit) <==> TotalPages(total, limit) >= 2
  {
    var r := TotalPages(total, limit);
    if r >= 2 {
      assert (r - 1) * limit >= limit by { ProductNonNegative(r - 2, limit); assert (r - 1) * limit == (r - 2) * limit + limit; }
    }
  }

  /** The "first〜last" numbers shown above the results. */
  function DisplayRange(page: int, limit: int, total: nat): (int, int) {
    ((page - 1) * limit + 1, Min(page * limit, total))
  }

  /** On a page that exists, the displayed range numbers exactly the records
      of that page, counting from 1. */
  lemma DisplayRangeMatchesPage<T>(filtered: seq<T>, page: int, limit: int)
    requires 1 <= limit && 1 <= page <= TotalPages(|filtered|, limit)
    ensures var (first, last) := DisplayRange(page, limit, |filtered|);
            && 1 <= first <= last <= |filtered|
            && PageSlice(filtered, page, limit) == filtered[first - 1..last]
  {
    PageSliceClipped(filtered, page, limit);
    ProductNonNegative(page - 1, limit);
    var r := TotalPages(|filtered|, limit);
    assert (page - 1) * limit <= (r - 1) * limit by {
      ProductNonNegative(r - page, limit);
      assert (r - 1) * limit == (page - 1) * limit + (r - page) * limit;
    }
    assert (page - 1) * limit + limit == page * limit;
  }

  /** The page number of button `i` (lines 557-564 of the component). */
  function WindowSlot(page: int, totalPages: int, i: int): int {
    if page <= 4 then i + 1
    else if page >= totalPages - 3 then totalPages - (6 - i)
    else page - 3 + i
  }

  /** The slots that are rendered: those inside `[1, totalPages]`. */
  function KeepPages(slots: seq<int>, totalPages: int): (r: seq<int>)
    ensures |r| <= |slots|
    ensures forall n :: n in r <==> n in slots && 1 <= n <= totalPages
  {
    if slots == [] then []
    else
      var rest := KeepPages(slots[1..], totalPages);
      assert slots == [slots[0]] + slots[1..];
      if 1 <= slots[0] <= totalPages then [slots[0]] + rest else rest
  }

  predicate Increasing(s: seq<int>) {
    forall k, l :: 0 <= k < l < |s| ==> s[k] < s[l]
  }

  lemma {:induction false} KeepPagesIncreasing(slots: seq<int>, totalPages: int)
    requires Increasing(slots)
    ensures Increasing(KeepPages(slots, totalPages))
  {
    if slots != [] {
      assert Increasing(slots[1..]);
      KeepPagesIncreasing(slots[1..], totalPages);
      var rest := KeepPages(slots[1..], totalPages);
      forall n | n in rest ensures slots[0] < n {
        var k :| 0 <= k < |slots[1..]| && slots[1..][k] == n;
        assert slots[k + 1] == n;
      }
      if 1 <= slots[0] <= totalPages {
        var r := [slots[0]] + rest;
        forall k, l | 0 <= k < l < |r| ensures r[k] < r[l] {
          assert r[l] == rest[l - 1] && rest[l - 1] in rest;
          if k > 0 { assert r[k] == rest[k - 1]; }
        }
      }
    }
  }

  /** The number buttons: `Array.from({ length: Math.min(7, totalPages) }, ...)`
      with the out-of-range slots dropped. */
  function PageWindow(page: int, totalPages: int): seq<int> {
    KeepPages(seq(Max(0, Min(7, totalPages)), i => WindowSlot(page, totalPages, i)), totalPages)
  }

  /** At most `min(7, totalPages)` buttons, each numbered in `[1, totalPages]`,
      in increasing order. */
  lemma PageWindowBounds(page: int, totalPages: int)
    ensures var w := PageWindow(page, totalPages);
            && |w| <= Max(0, Min(7, totalPages))
            && (forall n :: n in w ==> 1 <= n <= totalPages)
            && Increasing(w)
  {
    KeepPagesIncreasing(seq(Max(0, Min(7, totalPages)), i => WindowSlot(page, totalPages, i)), totalPages);
  }

  /** With at least seven pages, or on one of the first four, the current
      page has its own button. */
  lemma PageWindowHasPage(page: int, totalPages: int)
    requires 1 <= page <= totalPages
    requires totalPages >= 7 || page <= 4
    ensures page in PageWindow(page, totalPages)
  {
    var slots := seq(Max(0, Min(7, totalPages)), i => WindowSlot(page, totalPages, i));
    var i := if page <= 4 then page - 1
             else if page >= totalPages - 3 then page - totalPages + 6
             else 3;
    assert slots[i] == page;
  }

  /** As written, with fewer than seven pages and a page past the fourth, the
      buttons are `1 .. 2 * totalPages - 7`: the last pages, and with them
      possibly the current one, get no button. */
  lemma PageWindowAsWritten(page: int, totalPages: int)
    requires 4 < page <= totalPages < 7
    ensures forall n :: n in PageWindow(page, totalPages) <==> 1 <= n <= 2 * totalPages - 7
  {
    var slots := seq(Max(0, Min(7, totalPages)), i => WindowSlot(page, totalPages, i));
    forall n | 1 <= n <= 2 * totalPages - 7 ensures n in slots {
      assert slots[n + 6 - totalPages] == n;
    }
  }

  /** Five pages, on page 5: the buttons are 1, 2 and 3, and 5 is not among them. */
  lemma PageWindowMissesCurrentPage()
    ensures 5 !in PageWindow(5, 5) && 4 !in PageWindow(5, 5)
  {
    PageWindowAsWritten(5, 5);
  }

  /** The evidently intended window: near the end, the last `min(7, totalPages)` pages. */
  function WindowSlotFixed(page: int, totalPages: int, i: int): int {
    if page <= 4 then i + 1
    else if page >= totalPages - 3 then totalPages - (Min(7, totalPages) - 1 - i)
    else page - 3 + i
  }

  function PageWindowFixed(page: int, totalPages: int): seq<int> {
    KeepPages(seq(Max(0, Min(7, totalPages)), i => WindowSlotFixed(page, totalPages, i)), totalPages)
  }

  /** The corrected window keeps the bounds and always shows the current page. */
  lemma PageWindowFixedHasPage(page: int, totalPages: int)
    requires 1 <= page <= totalPages
    ensures var w := PageWindowFixed(page, totalPages);
            && page in w
            && |w| <= Min(7, totalPages)
            && (forall n :: n in w ==> 1 <= n <= totalPages)
            && Increasing(w)
  {
    var slots := seq(Max(0, Min(7, totalPages)), i => WindowSlotFixed(page, totalPages, i));
    KeepPagesIncreasing(slots, totalPages);
    var i := if page <= 4 then page - 1
             else if page >= totalPages - 3 then page - totalPages + Min(7, totalPages) - 1
             else 3;
    assert slots[i] == page;
  }

  /** The extra "…" and last-page button (lines 587-599 of the component). */
  predicate ShowsLastPageLink(page: int, totalPages: int) {
    totalPages > 7 && page < totalPages - 3
  }

  /** When the extra last-page button is shown, the window does not already
      hold the last page. */
  lemma LastPageLinkNotRepeated(page: int, totalPages: int)
    requires ShowsLastPageLink(page, totalPages)
    ensures totalPages !in PageWindow(page, totalPages)
  {
  }

  /** The targets of the first / previous / next / last buttons. */
  function FirstTarget(): int { 1 }
  function PrevTarget(page: int): int { if page > 1 then page - 1 else 1 }
  function NextTarget(page: int, totalPages: int): int { if page < totalPages then page + 1 else totalPages }
  function LastTarget(totalPages: int): int { totalPages }

  /** From a page that exists, every navigation button leads to a page that
      exists, one step at most for previous and next, clamped at the ends. */
  lemma NavigationStaysInRange(page: int, totalPages: int)
    requires 1 <= page <= totalPages
    ensures 1 <= FirstTarget() <= totalPages && 1 <= LastTarget(totalPages) <= totalPages
    ensures 1 <= PrevTarget(page) <= page && page - PrevTarget(page) <= 1
    ensures page <= NextTarget(page, totalPages) <= totalPages && NextTarget(page, totalPages) - page <= 1
    ensures PrevTarget(page) == page <==> page == 1
    ensures NextTarget(page, totalPages) == page <==> page == totalPages
  {
  }
}
