/** Pages of search results: the links of the paginator
    (app/lib/__paginator.php) and the slices the search selects
    (app/lib/__search.php). */
module Paginator {

  function Ceil(x: real): int {
    -(-x).Floor
  }

  /** The number of pages of size `ps`: the fewest that hold all elements. */
  function TotalPages(count: nat, ps: nat): (total: nat)
    requires ps > 0
    ensures (total - 1) * ps < count <= total * ps
  {
    var total := Ceil(count as real / ps as real);
    CeilOfQuotient(count, ps);
    total
  }

  lemma CeilOfQuotient(count: nat, ps: nat)
    requires ps > 0
    ensures var total := Ceil(count as real / ps as real);
            0 <= total && (total - 1) * ps < count <= total * ps
  {
    var total := Ceil(count as real / ps as real);
    QuotientBetween(count as real, ps as real, total);
    RealProduct(total, ps);
    RealProduct(total - 1, ps);
  }

  lemma QuotientBetween(n: real, d: real, total: int)
    requires n >= 0.0 && d > 0.0 && total == Ceil(n / d)
    ensures 0 <= total && (total - 1) as real * d < n <= total as real * d
  {
    var x := n / d;
    ScaledBetween((total - 1) as real, x, total as real, d, n);
  }

  lemma ScaledBetween(low: real, x: real, high: real, d: real, n: real)
    requires low < x <= high && d > 0.0 && x * d == n
    ensures low * d < n <= high * d
  {
  }

  lemma {:induction false} RealProduct(a: int, b: nat)
    ensures (a * b) as real == a as real * b as real
  {
    if b > 0 {
      RealProduct(a, b - 1);
      assert a * b == a * (b - 1) + a;
      assert a as real * b as real == a as real * (b - 1) as real + a as real;
    }
  }

  // The links of the paginator.

  function Range(lo: int, hi: int): (r: seq<int>)
    ensures |r| == (if lo <= hi then hi - lo else 0) && forall i | 0 <= i < |r| :: r[i] == lo + i
  {
    seq(if lo <= hi then hi - lo else 0, i => lo + i)
  }

  lemma RangesMeet(lo: int, mid: int, hi: int)
    requires lo <= mid <= hi
    ensures Range(lo, mid) + Range(mid, hi) == Range(lo, hi)
  {
  }

  function Min(a: int, b: int): int { if a <= b then a else b }

  /** How many links the window holds from the current page on, and before it. */
  function After(p: int, buttons: int, total: nat): (n: nat) {
    if p < total && 0 < buttons then Min(total - p, (buttons + 1) / 2) else 0
  }

  function Before(p: int, buttons: int, total: nat): (n: nat)
    requires p != 0
  {
    var room := buttons - After(p, buttons, total);
    if room <= 0 then 0 else if p > 0 then Min(p - 1, room) else room
  }

  function WithLast(links: seq<int>, total: nat): seq<int> {
    if total - 1 in links then links else links + [total - 1]
  }

  /** The pages linked to. */
  function PageLinks(p: int, buttons: int, total: nat): seq<int> {
    WithLast(
      if p == 0 then Range(0, Min(buttons, total - 1)) + [total - 1]
      else [0] + Range(p - Before(p, buttons, total), p + After(p, buttons, total)),
      total)
  }

  method FirstPages(m: int, total: nat) returns (links: seq<int>)
    requires total > 0
    ensures links == Range(0, Min(m, total - 1))
  {
    links := [];
    var i := 0;
    while i < m
      invariant 0 <= i <= total - 1 && links == Range(0, i) && (0 < m ==> i <= m) && (m <= 0 ==> i == 0)
    {
      if i >= total - 1 { break; }
      links := links + [i];
      i := i + 1;
    }
  }

  method WindowAfter(p: int, m: int, total: nat) returns (after: seq<int>, n: nat)
    ensures n == After(p, m, total) && after == Range(p, p + n)
  {
    after, n := [], 0;
    var i := p;
    while n < m
      invariant after == Range(p, p + n) && i == p + n && n <= After(p, m, total)
      decreases m - n
    {
      if p >= total { break; }
      if i >= total { break; }
      if 2 * n >= m { break; }
      after := after + [i];
      n := n + 1;
      i := i + 1;
    }
  }

  method WindowBefore(p: int, m: int, n: nat) returns (before: seq<int>)
    requires p != 0 && n < m
    ensures var k := if p > 0 then Min(p - 1, m - n) else m - n; before == Range(p - k, p)
  {
    before := [];
    var i, c := p, n;
    while c < m
      invariant n <= c <= m && before == Range(p - (c - n), p)
      invariant (i == p && c == n) || i == p - (c - n) - 1
      invariant p > 0 ==> c - n <= p - 1
      decreases m - c, if i == p then 1 else 0
    {
      if i == p {
        i := i - 1;
        continue;
      }
      if i == 0 { break; }
      before := [i] + before;
      c := c + 1;
      i := i - 1;
    }
  }

  method LinksAround(page: int, m: int, total: nat) returns (links: seq<int>)
    requires page != 0
    ensures links == [0] + Range(page - Before(page, m, total), page + After(page, m, total))
  {
    hide Range;
    var after, n := WindowAfter(page, m, total);
    var before := [];
    if n < m { before := WindowBefore(page, m, n); }
    links := [0] + before + after;
    RangesMeet(page - Before(page, m, total), page, page + n);
    assert n >= m ==> Range(page, page) == [];
  }

  /** `create_paginator`: nothing for a single page, else the links in order.
      A page count is a float, so that no page index is identical to it. */
  method CreatePaginator(count: nat, ps: nat, page: int, requested: int) returns (links: seq<int>)
    requires ps > 0
    ensures var total := TotalPages(count, ps);
            links == if total == 0 || (total == 1 && page == 0) then []
                     else PageLinks(page, if requested == 0 then 5 else requested, total)
  {
    hide Range, After, Before;
    var m := if requested == 0 then 5 else requested;
    var total := TotalPages(count, ps);
    if total == 0 || (total == 1 && page == 0) { return []; }
    if page == 0 {
      var first := FirstPages(m, total);
      links := first + [total - 1];
    } else {
      links := LinksAround(page, m, total);
    }
    if total - 1 !in links {
      links := links + [total - 1];
    }
  }

  lemma LinksIncrease(p: nat, buttons: int, total: nat)
    requires p < total && 1 < total && 0 < buttons
    ensures var links := PageLinks(p, buttons, total);
            forall i, j | 0 <= i < j < |links| :: links[i] < links[j]
  {
  }

  /** The window of consecutive pages, from its first page to before its end. */
  function WindowStart(p: nat, buttons: int, total: nat): int {
    if p == 0 then 0 else p - Before(p, buttons, total)
  }

  function WindowEnd(p: nat, buttons: int, total: nat): int {
    if p == 0 then Min(buttons, total - 1) else p + After(p, buttons, total)
  }

  /** For an existing page: the links increase from the first page to the last,
      and between the two they are exactly a window around the current page. One
      half of it, rounded up, is from the current page on unless the pages end
      before; the rest is before it unless the pages begin after. */
  lemma LinksOfExistingPage(p: nat, buttons: int, total: nat)
    requires p < total && 1 < total && 0 < buttons
    ensures var links := PageLinks(p, buttons, total);
            && (forall i, j | 0 <= i < j < |links| :: links[i] < links[j])
            && 2 <= |links| <= buttons + 2 && links[0] == 0 && links[|links| - 1] == total - 1
            && var lo, hi := WindowStart(p, buttons, total), WindowEnd(p, buttons, total);
               && 0 <= lo <= p < hi <= total
               && (forall k :: k in links <==> k == 0 || k == total - 1 || lo <= k < hi)
               && (if p == 0 then hi == if buttons < total - 1 then buttons else total - 1
                   else
                     && 2 * (hi - p) <= buttons + 1 && (hi == total || buttons <= 2 * (hi - p))
                     && 1 <= lo && hi - lo <= buttons && (lo == 1 || hi - lo == buttons))
  {
    LinksIncrease(p, buttons, total);
    LinkedPages(p, buttons, total);
  }

  lemma LinkedPages(p: nat, buttons: int, total: nat)
    requires p < total && 1 < total && 0 < buttons
    ensures var lo, hi := WindowStart(p, buttons, total), WindowEnd(p, buttons, total);
            && 0 <= lo <= p < hi <= total
            && forall k :: k in PageLinks(p, buttons, total) <==> k == 0 || k == total - 1 || lo <= k < hi
  {
    var lo, hi := WindowStart(p, buttons, total), WindowEnd(p, buttons, total);
    forall k | lo <= k < hi
      ensures k in Range(lo, hi)
    {
      assert Range(lo, hi)[k - lo] == k;
    }
    assert ([0] + Range(lo, hi))[0] == 0;
    assert PageLinks(p, buttons, total)[0] == 0;
  }

  /** For any page index but 0: the first page, the last page, and a window without
      gaps next to the index. From the index on it has half of the buttons, rounded
      up, but no page past the end; the rest is before it, but not below page 1 if
      the index is positive. */
  lemma LinksOfAnyPage(p: int, buttons: int, total: nat)
    requires p != 0 && 0 < buttons && 0 < total
    ensures var lo, hi := p - Before(p, buttons, total), p + After(p, buttons, total);
            && (forall k :: k in PageLinks(p, buttons, total) <==> k == 0 || k == total - 1 || lo <= k < hi)
            && (p >= total ==> hi == p)
            && (p < total ==> hi <= total && 2 * (hi - p) <= buttons + 1 && (hi == total || buttons <= 2 * (hi - p)))
            && hi - lo <= buttons && (p < 0 ==> hi - lo == buttons)
            && (p > 0 ==> 1 <= lo && (lo == 1 || hi - lo == buttons))
  {
    var lo, hi := p - Before(p, buttons, total), p + After(p, buttons, total);
    forall k | lo <= k < hi
      ensures k in Range(lo, hi)
    {
      assert Range(lo, hi)[k - lo] == k;
    }
    assert ([0] + Range(lo, hi))[0] == 0;
    assert PageLinks(p, buttons, total)[0] == 0;
  }

  /** A page index past the end, or below the first page, gives links to pages
      that do not exist. */
  lemma LinksExistExactlyWhen(p: int, buttons: int, total: nat)
    requires 0 < total
    ensures (forall k | k in PageLinks(p, buttons, total) :: 0 <= k < total) <==> buttons <= 0 || 0 <= p <= total
  {
    if buttons > 0 && (p < 0 || p > total) {
      var lo, hi := p - Before(p, buttons, total), p + After(p, buttons, total);
      var k := if p < 0 then p else p - 1;
      assert ([0] + Range(lo, hi))[1 + k - lo] == k;
      assert k in PageLinks(p, buttons, total);
    }
  }

  // The slices of the result list.

  /** The rows the search selects: `LIMIT offset, ps`. */
  function Limit<T>(s: seq<T>, offset: nat, ps: nat): (r: seq<T>)
    ensures |r| <= ps
  {
    if offset >= |s| then [] else s[offset..Min(offset + ps, |s|)]
  }

  /** Pages `0` to `n - 1` one after another, when page `i` starts at `i * step`. */
  function Pages<T>(s: seq<T>, n: nat, step: nat, ps: nat): seq<T> {
    if n == 0 then [] else Pages(s, n - 1, step, ps) + Limit(s, (n - 1) * step, ps)
  }

  lemma {:induction false} PagesArePrefix<T>(s: seq<T>, n: nat, ps: nat)
    ensures Pages(s, n, ps, ps) == s[..Min(n * ps, |s|)]
  {
    if n > 0 {
      PagesArePrefix(s, n - 1, ps);
      assert (n - 1) * ps + ps == n * ps;
    }
  }

  /** The pages hold the whole result list, in order, and none is empty. */
  lemma PagesTileResults<T>(s: seq<T>, ps: nat)
    requires ps > 0
    ensures var total := TotalPages(|s|, ps);
            && Pages(s, total, ps, ps) == s
            && forall p: nat | p < total :: Limit(s, p * ps, ps) != []
  {
    hide TotalPages, Pages;
    var total := TotalPages(|s|, ps);
    PagesArePrefix(s, total, ps);
    forall p: nat | p < total
      ensures Limit(s, p * ps, ps) != []
    {
      MulMonotone(p, total - 1, ps);
    }
  }

  lemma MulMonotone(a: nat, b: nat, c: nat)
    requires a <= b
    ensures a * c <= b * c
  {
  }

  lemma {:induction false} SecondPageStarts<T>(s: seq<T>, n: nat, step: nat, ps: nat)
    requires 2 <= n && 0 < ps < |s| && 0 < step
    ensures var pages := Pages(s, n, step, ps);
            if step < |s| then |pages| > ps && pages[ps] == s[step] else pages == s[..ps]
  {
    MulMonotone(1, n - 1, step);
    if n == 2 {
      assert Pages(s, 1, step, ps) == Pages(s, 0, step, ps) + Limit(s, 0, ps) == s[..ps];
    } else {
      SecondPageStarts(s, n - 1, step, ps);
    }
  }

  /** When the request overrides the page size, offsets keep the step of the old
      one: the pages are the result list only if it fits on one page. */
  lemma OverriddenPagesTileExactlyWhen<T>(s: seq<T>, step: nat, ps: nat)
    requires ps > 0 && step > 0
    requires forall i, j | 0 <= i < j < |s| :: s[i] != s[j]
    ensures Pages(s, TotalPages(|s|, ps), step, ps) == s <==> step == ps || |s| <= ps
  {
    hide TotalPages;
    var total := TotalPages(|s|, ps);
    PagesTileResults(s, ps);
    if total >= 2 {
      MulMonotone(1, total - 1, ps);
      SecondPageStarts(s, total, step, ps);
    } else {
      assert total * ps <= ps;
      assert Pages(s, total, step, ps) == Pages(s, total, ps, ps) by {
        if total == 1 { assert Pages(s, 0, step, ps) == Pages(s, 0, ps, ps); }
      }
    }
  }
}
