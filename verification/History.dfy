/**
 Candle histories: the server-side record a downloader reconstructs.
 A history is a sequence of candles in ascending order of open time (milliseconds).
 */
module History {
  import opened Common

  datatype Quote = Quote(open: real, high: real, low: real, close: real, volume: real, amount: real)

  datatype Candle = Candle(openTime: int, quote: Quote)

  /** When candle i opens. */
  function Time(h: seq<Candle>, i: nat): int
    requires i < |h|
  {
    h[i].openTime
  }

  predicate Before(h: seq<Candle>, i: nat, j: nat)
    requires i < |h| && j < |h|
  {
    Time(h, i) < Time(h, j)
  }

  ghost predicate Ascending(h: seq<Candle>) {
    forall i: nat, j: nat :: i < j < |h| ==> Before(h, i, j)
  }

  predicate Apart(h: seq<Candle>, step: int, i: nat, j: nat)
    requires i < |h| && j < |h|
  {
    Time(h, i) + step <= Time(h, j)
  }

  /** Any two candles open at least `step` apart. */
  ghost predicate Spaced(h: seq<Candle>, step: int) {
    forall i: nat, j: nat :: i < j < |h| ==> Apart(h, step, i, j)
  }

  /** Open times are milliseconds since the epoch. */
  ghost predicate SinceEpoch(h: seq<Candle>) {
    forall i: nat :: i < |h| ==> 0 <= Time(h, i)
  }

  /** Distance from candle i to the next one. */
  function Gap(h: seq<Candle>, i: nat): int
    requires i + 1 < |h|
  {
    Time(h, i + 1) - Time(h, i)
  }

  /** No candle is missing: consecutive candles open exactly `step` apart. */
  ghost predicate Dense(h: seq<Candle>, step: int) {
    forall i: nat :: i + 1 < |h| ==> Gap(h, i) == step
  }

  /** The reference answer: every candle with lo <= openTime <= hi, in history order. */
  function Between(h: seq<Candle>, lo: int, hi: int): seq<Candle> {
    if h == [] then []
    else
      var last := h[|h| - 1];
      Between(h[..|h| - 1], lo, hi) + (if lo <= last.openTime <= hi then [last] else [])
  }

  /** How many candles open before t; in an ascending history, the index of the first one that does not. */
  function Below(h: seq<Candle>, t: int): (n: nat)
    ensures n <= |h|
    ensures n > 0 ==> Time(h, n - 1) < t
    ensures n < |h| ==> t <= Time(h, n)
  {
    BelowFrom(h, t, |h|)
  }

  /** Looks at the first n candles only, from the newest down. */
  function BelowFrom(h: seq<Candle>, t: int, n: nat): (m: nat)
    requires n <= |h|
    ensures m <= n
    ensures m > 0 ==> Time(h, m - 1) < t
    ensures m < n ==> t <= Time(h, m)
  {
    if n == 0 || Time(h, n - 1) < t then n else BelowFrom(h, t, n - 1)
  }

  function Newest(n: nat, s: seq<Candle>): seq<Candle> { if |s| <= n then s else s[|s| - n..] }

  function Oldest(n: nat, s: seq<Candle>): seq<Candle> { if |s| <= n then s else s[..n] }

  function DropNewest(s: seq<Candle>): seq<Candle> { if s == [] then [] else s[..|s| - 1] }

  /** Pages in order of arrival, each inserted in front of what came before it. */
  function Merged(pages: seq<seq<Candle>>): seq<Candle> {
    if pages == [] then []
    else pages[|pages| - 1] + Merged(pages[..|pages| - 1])
  }

  lemma BelowIff(h: seq<Candle>, t: int, i: nat)
    requires Ascending(h) && i < |h|
    ensures Time(h, i) < t <==> i < Below(h, t)
  {
    var n := Below(h, t);
    assert i + 1 < n ==> Before(h, i, n - 1);
    assert n < i ==> Before(h, n, i);
  }

  lemma BelowMonotone(h: seq<Candle>, t: int, u: int)
    requires Ascending(h) && t <= u
    ensures Below(h, t) <= Below(h, u)
  {
    if Below(h, t) > 0 { BelowIff(h, u, Below(h, t) - 1); }
  }

  /** The reference filter of an ascending history is a contiguous piece of it. */
  lemma BetweenIsSlice(h: seq<Candle>, lo: int, hi: int)
    requires Ascending(h)
    ensures lo <= hi + 1 ==> Below(h, lo) <= Below(h, hi + 1) && Between(h, lo, hi) == h[Below(h, lo)..Below(h, hi + 1)]
    ensures lo > hi ==> Between(h, lo, hi) == []
  {
    BetweenPrefix(h, lo, hi, |h|);
    assert h[..|h|] == h;
    if lo <= hi + 1 { BelowMonotone(h, lo, hi + 1); }
  }

  lemma {:induction false} BetweenMembers(h: seq<Candle>, lo: int, hi: int)
    ensures forall c :: c in Between(h, lo, hi) <==> c in h && lo <= c.openTime <= hi
  {
    if h != [] {
      BetweenMembers(h[..|h| - 1], lo, hi);
      assert h == h[..|h| - 1] + [h[|h| - 1]];
    }
  }

  /** Some candle of the history opens after c and not after hi. */
  ghost predicate NewerUpTo(h: seq<Candle>, c: Candle, hi: int) {
    exists d :: d in h && c.openTime < d.openTime <= hi
  }

  /**
   s is, in ascending order, the candles of h from lo on that have a newer one up to hi: everything of
   [lo, hi] but its newest candle.
   */
  ghost predicate AllButNewest(s: seq<Candle>, h: seq<Candle>, lo: int, hi: int) {
    && Ascending(s)
    && (forall c :: c in s ==> c in h)
    && (forall c :: c in h ==> (c in s <==> lo <= c.openTime && NewerUpTo(h, c, hi)))
  }

  lemma SliceMembers(h: seq<Candle>, a: nat, b: nat, i: nat)
    requires Ascending(h) && a <= b <= |h| && i < |h|
    ensures h[i] in h[a..b] <==> a <= i < b
  {
    if a <= i < b { assert h[a..b][i - a] == h[i]; }
    if h[i] in h[a..b] {
      var m: nat :| m < b - a && h[a..b][m] == h[i];
      assert i < a + m ==> Before(h, i, a + m);
      assert a + m < i ==> Before(h, a + m, i);
    }
  }

  lemma NewerUpToIff(h: seq<Candle>, hi: int, i: nat)
    requires Ascending(h) && i < |h|
    ensures NewerUpTo(h, h[i], hi) <==> i + 1 < Below(h, hi + 1)
  {
    var k := Below(h, hi + 1);
    if i + 1 < k {
      BelowIff(h, hi + 1, i + 1);
      assert Before(h, i, i + 1) && h[i + 1] in h;
    }
    if NewerUpTo(h, h[i], hi) {
      var d :| d in h && h[i].openTime < d.openTime <= hi;
      var m: nat :| m < |h| && h[m] == d;
      assert m < i ==> Before(h, m, i);
      BelowIff(h, hi + 1, m);
    }
  }

  /** What dropping the newest candle of a range means for the history. */
  lemma DropNewestBetween(h: seq<Candle>, lo: int, hi: int)
    requires Ascending(h)
    ensures AllButNewest(DropNewest(Between(h, lo, hi)), h, lo, hi)
  {
    var s := DropNewest(Between(h, lo, hi));
    var a, b := Below(h, lo), Max(Below(h, lo), Below(h, hi + 1) - 1);
    DropNewestIsSlice(h, lo, hi);
    SliceAscending(h, a, b);
    forall c | c in s ensures c in h { assert h[a..b] <= h[a..]; }
    forall c | c in h ensures c in s <==> lo <= c.openTime && NewerUpTo(h, c, hi) {
      var i: nat :| i < |h| && h[i] == c;
      BelowIff(h, lo, i);
      NewerUpToIff(h, hi, i);
      SliceMembers(h, a, b, i);
    }
  }

  lemma DropNewestIsSlice(h: seq<Candle>, lo: int, hi: int)
    requires Ascending(h)
    ensures var a, b := Below(h, lo), Max(Below(h, lo), Below(h, hi + 1) - 1);
      b <= |h| && DropNewest(Between(h, lo, hi)) == h[a..b]
  {
    BetweenIsSlice(h, lo, hi);
    if lo > hi { BelowMonotone(h, hi + 1, lo); }
  }

  lemma SliceAscending(h: seq<Candle>, a: nat, b: nat)
    requires Ascending(h) && a <= b <= |h|
    ensures Ascending(h[a..b])
  {
    forall i: nat, j: nat | i < j < b - a ensures Before(h[a..b], i, j) { assert Before(h, a + i, a + j); }
  }

  function Min(a: nat, b: nat): nat { if a < b then a else b }

  lemma {:induction false} BetweenPrefix(h: seq<Candle>, lo: int, hi: int, n: nat)
    requires Ascending(h) && n <= |h|
    ensures Between(h[..n], lo, hi)
         == if lo <= hi && Below(h, lo) <= Min(n, Below(h, hi + 1))
            then h[Below(h, lo)..Min(n, Below(h, hi + 1))] else []
  {
    if n > 0 {
      BetweenPrefix(h, lo, hi, n - 1);
      BelowIff(h, lo, n - 1);
      BelowIff(h, hi + 1, n - 1);
      assert h[..n][..n - 1] == h[..n - 1];
    }
  }

  /** Candle j is the first one that does not open before it. */
  lemma BelowOwn(h: seq<Candle>, j: nat)
    requires Ascending(h) && j < |h|
    ensures Below(h, Time(h, j)) == j
  {
    if j > 0 { assert Before(h, j - 1, j); }
    BelowAt(h, Time(h, j), j);
  }

  /** The index is determined by where the times cross t. */
  lemma BelowAt(h: seq<Candle>, t: int, n: nat)
    requires Ascending(h) && n <= |h|
    requires n > 0 ==> Time(h, n - 1) < t
    requires n < |h| ==> t <= Time(h, n)
    ensures Below(h, t) == n
  {
    if n > 0 { BelowIff(h, t, n - 1); }
    if n < |h| { BelowIff(h, t, n); }
  }

  lemma AscendingJoin(older: seq<Candle>, newer: seq<Candle>)
    requires Ascending(older) && Ascending(newer)
    requires newer != [] ==> forall i: nat :: i < |older| ==> Time(older, i) < Time(newer, 0)
    ensures Ascending(older + newer)
  {
    var all := older + newer;
    forall i: nat, j: nat | i < j < |all| ensures Before(all, i, j) {
      if j < |older| { assert Before(older, i, j); }
      else if |older| <= i { assert Before(newer, i - |older|, j - |older|); }
      else {
        assert Time(older, i) < Time(newer, 0);
        assert |older| < j ==> Before(newer, 0, j - |older|);
      }
    }
  }

  lemma {:induction false} DenseSpan(h: seq<Candle>, step: int, a: nat, n: nat)
    requires Dense(h, step) && a + n < |h|
    ensures Time(h, a + n) - Time(h, a) == n * step
  {
    if n > 0 {
      DenseSpan(h, step, a, n - 1);
      assert Gap(h, a + n - 1) == step;
    }
  }

  /** On a dense history counting candles and measuring time are the same thing. */
  lemma DenseReach(h: seq<Candle>, step: int, a: nat, b: nat, n: nat)
    requires step > 0 && Dense(h, step) && a <= b < |h|
    ensures b - a <= n <==> Time(h, b) - Time(h, a) <= n * step
  {
    DenseSpan(h, step, a, b - a);
    ScaleMonotone(b - a, n, step);
  }

  lemma ScaleMonotone(m: int, n: int, step: int)
    requires step > 0
    ensures m <= n <==> m * step <= n * step
  {
    if m <= n { assert (n - m) * step >= 0; } else { assert (m - n - 1) * step >= 0; }
  }

  /** The first page to arrive ends up last. */
  lemma {:induction false} MergedFirst(page: seq<Candle>, pages: seq<seq<Candle>>)
    ensures Merged([page] + pages) == Merged(pages) + page
  {
    var all := [page] + pages;
    if pages == [] {
      assert all[..|all| - 1] == [];
    } else {
      MergedFirst(page, pages[..|pages| - 1]);
      assert all[..|all| - 1] == [page] + pages[..|pages| - 1];
    }
  }

  lemma SplitSlice(h: seq<Candle>, a: nat, b: nat, c: nat)
    requires a <= b <= c <= |h|
    ensures h[a..c] == h[a..b] + h[b..c]
  {
  }

  lemma NewestOfSlice(h: seq<Candle>, n: nat, a: nat, b: nat)
    requires a <= b <= |h|
    ensures Newest(n, h[a..b]) == h[(if b - a > n then b - n else a)..b]
  {
  }

  lemma OldestOfSlice(h: seq<Candle>, n: nat, a: nat, b: nat)
    requires a <= b <= |h|
    ensures Oldest(n, h[a..b]) == h[a..(if b - a > n then a + n else b)]
  {
  }
}
