/** The page-button strip under the catalog (`Pagination` component): which
    page numbers are shown, where `'...'` stands in for hidden pages, and which
    buttons are enabled and what they request. */
module Pagination {
  import opened Common

  /** How many pages on either side of the current one are always shown. */
  const Delta := 2

  /** One entry of the strip: a page number or the `'...'` placeholder. */
  datatype Entry = Page(n: int) | Dots

  /** The first loop's test: page `i` is kept when it is the first page, the
      last page, or within `Delta` of the current page. */
  predicate Shown(current: int, total: int, i: int) {
    i == 1 || i == total || (current - Delta <= i && i <= current + Delta)
  }

  /** The pages the first loop has kept after testing 1..n (its array `range`). */
  function KeptUpTo(current: int, total: int, n: int): seq<int>
    decreases n
  {
    if n <= 0 then []
    else KeptUpTo(current, total, n - 1) + (if Shown(current, total, n) then [n] else [])
  }

  /** All the pages the first loop keeps. */
  function Kept(current: int, total: int): seq<int> {
    KeptUpTo(current, total, total)
  }

  /** What the second loop pushes before page `i` when the previous kept page
      was `l`: the missing page itself when exactly one is missing, `'...'`
      when more are missing, nothing when none is. */
  function Bridge(l: int, i: int): seq<Entry> {
    if i - l == 2 then [Page(l + 1)]
    else if i - l != 1 then [Dots]
    else []
  }

  /** The array `rangeWithDots` once the second loop has visited all of `rs`. */
  function WithDots(rs: seq<int>): seq<Entry>
    decreases |rs|
  {
    if |rs| == 0 then []
    else if |rs| == 1 then [Page(rs[0])]
    else WithDots(rs[..|rs| - 1]) + Bridge(rs[|rs| - 2], rs[|rs| - 1]) + [Page(rs[|rs| - 1])]
  }

  /** The strip `getPageNumbers` returns. */
  function PageList(current: int, total: int): seq<Entry> {
    WithDots(Kept(current, total))
  }

  /** `getPageNumbers`: keep the first, the last and the pages near the current
      one, then walk them, filling a single missing page and collapsing a wider
      gap to `'...'`. */
  method GetPageNumbers(currentPage: int, totalPages: int) returns (rangeWithDots: seq<Entry>)
    ensures rangeWithDots == PageList(currentPage, totalPages)
  {
    var range: seq<int> := [];
    var i := 1;
    while i <= totalPages
      invariant 1 <= i
      invariant i <= totalPages + 1 || i == 1
      invariant range == KeptUpTo(currentPage, totalPages, i - 1)
    {
      if Shown(currentPage, totalPages, i) {
        range := range + [i];
      }
      i := i + 1;
    }

    rangeWithDots := [];
    var l: Option<int> := None;
    for k := 0 to |range|
      invariant rangeWithDots == WithDots(range[..k])
      invariant l == if k == 0 then None else Some(range[k - 1])
    {
      var page := range[k];
      if l.Some? {
        if page - l.value == 2 {
          rangeWithDots := rangeWithDots + [Page(l.value + 1)];
        } else if page - l.value != 1 {
          rangeWithDots := rangeWithDots + [Dots];
        }
      }
      rangeWithDots := rangeWithDots + [Page(page)];
      l := Some(page);
      assert range[..k + 1][..k] == range[..k];
    }
    assert range[..|range|] == range;
  }

  // ---------------------------------------------------------------------
  // Shape of a strip

  predicate Increasing(s: seq<int>) {
    forall j, k :: 0 <= j < k < |s| ==> s[j] < s[k]
  }

  /** The local shape of a strip: it starts and ends on a page, two
      neighbouring pages are consecutive numbers, and every `'...'` stands
      between two pages at least three apart, that is, for two or more
      missing pages. */
  predicate Shaped(r: seq<Entry>) {
    |r| >= 1 && r[0].Page? && r[|r| - 1].Page? &&
    (forall k :: 0 < k < |r| && r[k - 1].Page? && r[k].Page? ==> r[k].n == r[k - 1].n + 1) &&
    (forall k :: 0 < k < |r| - 1 && r[k].Dots? ==>
       r[k - 1].Page? && r[k + 1].Page? && r[k + 1].n >= r[k - 1].n + 3)
  }

  /** Page `i` lies in the gap the `'...'` at position `k` stands for. */
  predicate CoveredByDots(r: seq<Entry>, k: int, i: int) {
    0 < k < |r| - 1 && r[k].Dots? && r[k - 1].Page? && r[k + 1].Page? &&
    r[k - 1].n < i < r[k + 1].n
  }

  lemma {:induction false} WithDotsSnoc(rs: seq<int>, x: int)
    requires |rs| >= 1
    ensures WithDots(rs + [x]) == WithDots(rs) + Bridge(rs[|rs| - 1], x) + [Page(x)]
  {
    var s := rs + [x];
    assert s[..|s| - 1] == rs;
    assert s[|s| - 2] == rs[|rs| - 1] && s[|s| - 1] == x;
  }

  /** The pages kept after testing 1..n are exactly those that pass the test,
      in increasing order. */
  lemma {:induction false} KeptUpToMembers(current: int, total: int, n: int)
    ensures forall x :: x in KeptUpTo(current, total, n) <==> 1 <= x <= n && Shown(current, total, x)
    ensures Increasing(KeptUpTo(current, total, n))
    decreases n
  {
    if n > 0 {
      KeptUpToMembers(current, total, n - 1);
      var s := KeptUpTo(current, total, n - 1);
      forall j | 0 <= j < |s| ensures s[j] < n {
        assert s[j] in s;
      }
    }
  }

  /** Walking an increasing list of pages yields a well-shaped strip that
      starts and ends on the list's first and last pages. */
  lemma {:induction false} WithDotsShaped(rs: seq<int>)
    requires |rs| >= 1 && Increasing(rs)
    ensures Shaped(WithDots(rs))
    ensures WithDots(rs)[0] == Page(rs[0])
    ensures WithDots(rs)[|WithDots(rs)| - 1] == Page(rs[|rs| - 1])
    decreases |rs|
  {
    if |rs| > 1 {
      var p := rs[..|rs| - 1];
      var x := rs[|rs| - 1];
      assert rs == p + [x];
      WithDotsShaped(p);
      WithDotsSnoc(p, x);
      var w := WithDots(p);
      var l := p[|p| - 1];
      assert l < x;
      var r := w + Bridge(l, x) + [Page(x)];
      assert r == WithDots(rs);
      forall k | 0 < k < |r| && r[k - 1].Page? && r[k].Page?
        ensures r[k].n == r[k - 1].n + 1
      {
        if k < |w| {
          assert r[k] == w[k] && r[k - 1] == w[k - 1];
        }
      }
      forall k | 0 < k < |r| - 1 && r[k].Dots?
        ensures r[k - 1].Page? && r[k + 1].Page? && r[k + 1].n >= r[k - 1].n + 3
      {
        if k < |w| - 1 {
          assert r[k - 1] == w[k - 1] && r[k] == w[k] && r[k + 1] == w[k + 1];
        }
      }
    }
  }

  /** In a well-shaped strip the page numbers strictly increase. */
  lemma {:induction false} ShapedIncreasing(r: seq<Entry>, j: int, k: int)
    requires Shaped(r) && 0 <= j < k < |r| && r[j].Page? && r[k].Page?
    ensures r[j].n < r[k].n
    decreases k
  {
    if r[k - 1].Page? {
      if j < k - 1 {
        ShapedIncreasing(r, j, k - 1);
      }
    } else {
      if j < k - 2 {
        ShapedIncreasing(r, j, k - 2);
      }
    }
  }

  /** In a well-shaped strip every page from the first up to the page at
      position `m` is either shown or hidden behind a `'...'`. */
  lemma {:induction false} ShapedCovers(r: seq<Entry>, m: int, i: int)
    requires Shaped(r) && 0 <= m < |r| && r[m].Page? && r[0].n <= i <= r[m].n
    ensures Page(i) in r || exists k :: CoveredByDots(r, k, i)
    decreases m
  {
    if i == r[m].n {
      assert r[m] == Page(i);
    } else if r[m - 1].Page? {
      ShapedCovers(r, m - 1, i);
    } else if i > r[m - 2].n {
      assert CoveredByDots(r, m - 1, i);
    } else {
      ShapedCovers(r, m - 2, i);
    }
  }

  /** Every kept page is shown. */
  lemma {:induction false} WithDotsKeeps(rs: seq<int>, x: int)
    requires x in rs
    ensures Page(x) in WithDots(rs)
    decreases |rs|
  {
    if |rs| > 1 {
      var p := rs[..|rs| - 1];
      assert rs == p + [rs[|rs| - 1]];
      WithDotsSnoc(p, rs[|rs| - 1]);
      if x != rs[|rs| - 1] {
        WithDotsKeeps(p, x);
      }
    }
  }

  /** Every shown page was kept or fills a single missing page between two
      kept ones. */
  lemma {:induction false} WithDotsShows(rs: seq<int>, i: int)
    requires Page(i) in WithDots(rs)
    ensures i in rs || (i - 1 in rs && i + 1 in rs)
    decreases |rs|
  {
    if |rs| > 1 {
      var p := rs[..|rs| - 1];
      var x := rs[|rs| - 1];
      assert rs == p + [x];
      WithDotsSnoc(p, x);
      if Page(i) in WithDots(p) {
        WithDotsShows(p, i);
      } else if Page(i) in Bridge(p[|p| - 1], x) {
        assert p[|p| - 1] in p;
      }
    }
  }

  /** A single missing page between two kept pages is shown. */
  lemma {:induction false} WithDotsFills(rs: seq<int>, a: int)
    requires Increasing(rs) && a in rs && a + 2 in rs && a + 1 !in rs
    ensures Page(a + 1) in WithDots(rs)
    decreases |rs|
  {
    var p := rs[..|rs| - 1];
    var x := rs[|rs| - 1];
    assert rs == p + [x];
    WithDotsSnoc(p, x);
    assert forall j :: 0 <= j < |p| ==> p[j] == rs[j] && p[j] < x;
    if x == a + 2 {
      var l := p[|p| - 1];
      assert forall j :: 0 <= j < |p| ==> p[j] <= l by {
        forall j | 0 <= j < |p| ensures p[j] <= l {
          if j < |p| - 1 { assert rs[j] < rs[|p| - 1]; }
        }
      }
      assert a in p;
      assert l in rs;
      assert l == a;
    } else {
      assert a in p && a + 2 in p;
      WithDotsFills(p, a);
    }
  }

  // ---------------------------------------------------------------------
  // Length of the strip

  /** The consecutive pages lo..hi (empty when lo > hi). */
  function Span(lo: int, hi: int): (r: seq<int>)
    ensures |r| == if lo > hi then 0 else hi - lo + 1
    ensures forall k :: 0 <= k < |r| ==> r[k] == lo + k
    decreases hi - lo
  {
    if lo > hi then [] else Span(lo, hi - 1) + [hi]
  }

  function Lo(current: int): int {
    if current - Delta > 2 then current - Delta else 2
  }

  function Hi(current: int, total: int): int {
    if current + Delta < total - 1 then current + Delta else total - 1
  }

  lemma {:induction false} KeptUpToSpan(current: int, total: int, n: int)
    requires 1 <= n <= total - 1
    ensures KeptUpTo(current, total, n) ==
            [1] + Span(Lo(current), if Hi(current, total) < n then Hi(current, total) else n)
    decreases n
  {
    if n > 1 {
      KeptUpToSpan(current, total, n - 1);
    }
  }

  /** With two or more pages, the kept pages are page 1, the pages near the
      current one that are neither first nor last, and the last page. */
  lemma KeptSpan(current: int, total: int)
    requires total >= 2
    ensures Kept(current, total) == [1] + Span(Lo(current), Hi(current, total)) + [total]
  {
    KeptUpToSpan(current, total, total - 1);
  }

  /** Appending a run of consecutive pages adds at most one entry besides
      the pages themselves. */
  lemma {:induction false} WithDotsSpanLength(p: seq<int>, lo: int, hi: int)
    requires |p| >= 1
    ensures |WithDots(p + Span(lo, hi))| <= |WithDots(p)| + 1 + |Span(lo, hi)|
    decreases hi - lo
  {
    if lo <= hi {
      var s := Span(lo, hi - 1);
      assert p + Span(lo, hi) == (p + s) + [hi];
      WithDotsSnoc(p + s, hi);
      if lo < hi {
        WithDotsSpanLength(p, lo, hi - 1);
        assert (p + s)[|p + s| - 1] == hi - 1;
      } else {
        assert p + s == p;
      }
    } else {
      assert p + Span(lo, hi) == p;
    }
  }

  // ---------------------------------------------------------------------
  // Properties of the strip that `getPageNumbers` returns

  /** The strip starts with page 1, ends with the last page, and has the
      local shape: neighbouring pages are consecutive and every `'...'`
      stands for two or more missing pages. */
  lemma PageListShape(current: int, total: int)
    requires total >= 2
    ensures Shaped(PageList(current, total))
    ensures PageList(current, total)[0] == Page(1)
    ensures PageList(current, total)[|PageList(current, total)| - 1] == Page(total)
  {
    KeptSpan(current, total);
    KeptUpToMembers(current, total, total);
    WithDotsShaped(Kept(current, total));
  }

  /** Page numbers strictly increase (hence no duplicates) and lie in
      1..total. */
  lemma PageListOrdered(current: int, total: int)
    requires total >= 2
    ensures forall j, k ::
              (0 <= j < k < |PageList(current, total)| &&
               PageList(current, total)[j].Page? && PageList(current, total)[k].Page?) ==>
              PageList(current, total)[j].n < PageList(current, total)[k].n
    ensures forall e :: e in PageList(current, total) && e.Page? ==> 1 <= e.n <= total
  {
    var r := PageList(current, total);
    PageListShape(current, total);
    forall j, k | 0 <= j < k < |r| && r[j].Page? && r[k].Page? ensures r[j].n < r[k].n {
      ShapedIncreasing(r, j, k);
    }
    forall e | e in r && e.Page? ensures 1 <= e.n <= total {
      var k :| 0 <= k < |r| && r[k] == e;
      if 0 < k { ShapedIncreasing(r, 0, k); }
      if k < |r| - 1 { ShapedIncreasing(r, k, |r| - 1); }
    }
  }

  /** `'...'` is never first, never last and never next to another `'...'`. */
  lemma PageListDots(current: int, total: int)
    requires total >= 2
    ensures PageList(current, total)[0] != Dots
    ensures PageList(current, total)[|PageList(current, total)| - 1] != Dots
    ensures forall k :: 0 <= k < |PageList(current, total)| - 1 && PageList(current, total)[k] == Dots ==>
              PageList(current, total)[k + 1] != Dots
  {
    PageListShape(current, total);
  }

  /** A page is shown exactly when the first loop keeps it or it is the one
      page missing between two kept pages. */
  lemma PageListMembers(current: int, total: int, i: int)
    requires total >= 2
    ensures Page(i) in PageList(current, total) <==>
            (1 <= i <= total && Shown(current, total, i)) ||
            (1 <= i - 1 && i + 1 <= total && Shown(current, total, i - 1) && Shown(current, total, i + 1))
  {
    var rs := Kept(current, total);
    KeptUpToMembers(current, total, total);
    if Page(i) in PageList(current, total) {
      WithDotsShows(rs, i);
    }
    if 1 <= i <= total && Shown(current, total, i) {
      WithDotsKeeps(rs, i);
    } else if 1 <= i - 1 && i + 1 <= total && Shown(current, total, i - 1) && Shown(current, total, i + 1) {
      WithDotsFills(rs, i - 1);
    }
  }

  /** Every page within `Delta` of the current page is shown. */
  lemma PageListWindow(current: int, total: int, i: int)
    requires total >= 2 && 1 <= i <= total && current - Delta <= i <= current + Delta
    ensures Page(i) in PageList(current, total)
  {
    PageListMembers(current, total, i);
  }

  /** Every page is either shown or lies in the gap of one `'...'`. */
  lemma PageListCovers(current: int, total: int, i: int)
    requires total >= 2 && 1 <= i <= total
    ensures Page(i) in PageList(current, total) ||
            exists k :: CoveredByDots(PageList(current, total), k, i)
  {
    var r := PageList(current, total);
    PageListShape(current, total);
    ShapedCovers(r, |r| - 1, i);
  }

  /** The strip never has more than nine entries. */
  lemma PageListLength(current: int, total: int)
    requires total >= 2
    ensures |PageList(current, total)| <= 2 * Delta + 5
  {
    var s := Span(Lo(current), Hi(current, total));
    KeptSpan(current, total);
    WithDotsSpanLength([1], Lo(current), Hi(current, total));
    assert [1] + s + [total] == ([1] + s) + [total];
    WithDotsSnoc([1] + s, total);
  }

  // ---------------------------------------------------------------------
  // The rendered component

  /** A button: whether it is disabled and what its click handler passes to
      `onPageChange` (None: the handler does not call it). */
  datatype Control = Control(disabled: bool, request: Option<int>)

  /** A button of the strip: its entry, whether it is drawn as the current
      page ('primary'), and its control. */
  datatype PageButton = PageButton(entry: Entry, primary: bool, control: Control)

  datatype View = View(prev: Control, pages: seq<PageButton>, next: Control)

  /** What a click on a button does: a disabled button does nothing. */
  function Clicked(c: Control): Option<int> {
    if c.disabled then None else c.request
  }

  function ButtonFor(e: Entry, current: int): PageButton {
    PageButton(e, e == Page(current),
               Control(e == Dots || e == Page(current), if e.Page? then Some(e.n) else None))
  }

  /** The component: nothing when there is at most one page; otherwise Prev,
      one button per strip entry, and Next. */
  function Render(currentPage: int, totalPages: int): (v: Option<View>)
    ensures v.None? <==> totalPages <= 1
    ensures v.Some? ==> |v.value.pages| == |PageList(currentPage, totalPages)|
    ensures v.Some? ==> forall k :: 0 <= k < |v.value.pages| ==>
              v.value.pages[k].entry == PageList(currentPage, totalPages)[k]
  {
    if totalPages <= 1 then None
    else
      var entries := PageList(currentPage, totalPages);
      Some(View(Control(currentPage == 1, Some(currentPage - 1)),
                seq(|entries|, k requires 0 <= k < |entries| => ButtonFor(entries[k], currentPage)),
                Control(currentPage == totalPages, Some(currentPage + 1))))
  }

  /** Prev works exactly when the current page is not the first and asks for
      the previous page; Next works exactly when it is not the last and asks
      for the next page; a strip button works exactly when it is a page other
      than the current one and asks for that page. */
  lemma RenderControls(currentPage: int, totalPages: int)
    requires totalPages >= 2
    ensures Render(currentPage, totalPages).Some?
    ensures Clicked(Render(currentPage, totalPages).value.prev) ==
            if currentPage == 1 then None else Some(currentPage - 1)
    ensures Clicked(Render(currentPage, totalPages).value.next) ==
            if currentPage == totalPages then None else Some(currentPage + 1)
    ensures forall b, p :: b in Render(currentPage, totalPages).value.pages ==>
              (Clicked(b.control) == Some(p) <==> b.entry == Page(p) && p != currentPage)
    ensures forall b :: b in Render(currentPage, totalPages).value.pages ==>
              (b.primary <==> b.entry == Page(currentPage))
  {
  }

  /** When the current page is a real page, every enabled button asks for a
      real page other than the current one. */
  lemma RenderRequestsInRange(currentPage: int, totalPages: int)
    requires totalPages >= 2 && 1 <= currentPage <= totalPages
    ensures Render(currentPage, totalPages).Some?
    ensures forall p :: Clicked(Render(currentPage, totalPages).value.prev) == Some(p) ==>
              1 <= p <= totalPages && p != currentPage
    ensures forall p :: Clicked(Render(currentPage, totalPages).value.next) == Some(p) ==>
              1 <= p <= totalPages && p != currentPage
    ensures forall b, p ::
              (b in Render(currentPage, totalPages).value.pages && Clicked(b.control) == Some(p)) ==>
              1 <= p <= totalPages && p != currentPage
  {
    var v := Render(currentPage, totalPages).value;
    var entries := PageList(currentPage, totalPages);
    PageListOrdered(currentPage, totalPages);
    forall b, p | b in v.pages && Clicked(b.control) == Some(p)
      ensures 1 <= p <= totalPages && p != currentPage
    {
      var k :| 0 <= k < |v.pages| && v.pages[k] == b;
      assert b == ButtonFor(entries[k], currentPage);
      assert entries[k] in entries;
    }
  }
}
