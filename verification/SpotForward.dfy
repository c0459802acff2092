/**
 The spot downloader against a server that counts forward from the start time. The window of a
 follow-up request is inclusive at both ends, so it can hold LIMIT + 1 candles; the server then
 leaves out the newest of them and nobody asks again.
 */
module SpotForward {
  import opened Common
  import opened History
  import opened SpotCandles
  import opened SpotServers

  /** The page after oldest candle h[j] is h[Low..High]. */
  ghost function Low(h: seq<Candle>, step: int, startTime: int, j: nat): (i: nat)
    requires j < |h|
    ensures i <= j
  {
    var bound := Max(startTime, Time(h, j) - step - MaxRange(step));
    if startTime > Time(h, j) - step || Below(h, bound) >= j then j
    else if bound <= 0 && j > LIMIT then j - LIMIT
    else Below(h, bound)
  }

  ghost function High(h: seq<Candle>, step: int, startTime: int, j: nat): (t: nat)
    requires j < |h|
    ensures t <= j
  {
    var i := Low(h, step, startTime, j);
    if j - i > LIMIT then i + LIMIT else j
  }

  lemma PageBelow(server: Server, h: seq<Candle>, step: int, startTime: int, j: nat)
    requires Recorded(h, step) && ServesForward(server, h) && j < |h|
    ensures Low(h, step, startTime, j) <= High(h, step, startTime, j)
    ensures Ask(server, NextRequest(step, startTime, Time(h, j)))
         == h[Low(h, step, startTime, j)..High(h, step, startTime, j)]
  {
    ForwardAnswerBelow(server, h, step, Max(startTime, Time(h, j) - step - MaxRange(step)), j);
  }

  /**
   The window of the request after oldest candle h[j] lies in range, holds LIMIT + 1 candles, and has a
   positive start.
   */
  predicate FullWindow(h: seq<Candle>, step: int, s: nat, j: nat)
    requires j < |h|
  {
    && s + LIMIT < j
    && Time(h, j - LIMIT - 1) == Time(h, j) - step - MaxRange(step)
    && Time(h, j - LIMIT - 1) > 0
  }

  lemma {:induction false} SpacedSpan(h: seq<Candle>, step: int, a: nat, n: nat)
    requires Recorded(h, step) && a + n < |h|
    ensures Time(h, a + n) - Time(h, a) >= n * step
  {
    if n > 0 {
      SpacedSpan(h, step, a, n - 1);
      assert Apart(h, step, a + n - 1, a + n);
    }
  }

  /** A stretch of n intervals holds at most n + 1 candles, and that many only when it is filled. */
  lemma SpacedReach(h: seq<Candle>, step: int, a: nat, b: nat, n: nat)
    requires Recorded(h, step) && a <= b < |h| && Time(h, b) - Time(h, a) <= n * step
    ensures b - a <= n
    ensures b - a == n ==> Time(h, b) - Time(h, a) == n * step
  {
    SpacedSpan(h, step, a, b - a);
    ScaleMonotone(b - a, n, step);
  }

  lemma FullWindowStart(h: seq<Candle>, step: int, startTime: int, j: nat)
    requires Recorded(h, step) && j < |h|
    ensures var bound, s := Max(startTime, Time(h, j) - step - MaxRange(step)), Below(h, startTime);
      var a := Below(h, bound);
      && (a < j ==> j - a <= LIMIT + 1)
      && (FullWindow(h, step, s, j) <==> a + LIMIT + 1 == j && bound > 0)
  {
    var low := Time(h, j) - step - MaxRange(step);
    var bound, s := Max(startTime, low), Below(h, startTime);
    var a := Below(h, bound);
    WindowReach(h, step, startTime, j);
    if a < j { SpacedReach(h, step, a, j, LIMIT + 1); }
    if FullWindow(h, step, s, j) {
      BelowIff(h, startTime, j - LIMIT - 1);
      BelowOwn(h, j - LIMIT - 1);
    }
  }

  /**
   What the page below h[j] is: nothing, exactly when no candle is left in range or a hole hides it;
   a full window without its newest candle; or everything from its oldest candle up to h[j].
   */
  lemma PageShape(h: seq<Candle>, step: int, startTime: int, j: nat)
    requires Recorded(h, step) && j < |h|
    ensures var i, t, s := Low(h, step, startTime, j), High(h, step, startTime, j), Below(h, startTime);
      && (i == j <==> j <= s || Gap(h, j - 1) > MaxRange(step) + step)
      && (i < j ==> s <= i < t && Bridged(h, step, i, j))
      && (if FullWindow(h, step, s, j) then i == j - LIMIT - 1 && t == j - 1 else t == j)
  {
    var bound, s := Max(startTime, Time(h, j) - step - MaxRange(step)), Below(h, startTime);
    WindowReach(h, step, startTime, j);
    FullWindowStart(h, step, startTime, j);
    if bound <= 0 { BelowAt(h, bound, 0); }
  }

  /** The newest candles of the full windows that a download meets once h[j] has been reached. */
  ghost function Lost(h: seq<Candle>, step: int, startTime: int, j: nat): (lost: set<nat>)
    requires j < |h|
    decreases j
  {
    var i := Low(h, step, startTime, j);
    if i == j then {}
    else Lost(h, step, startTime, i) + (if FullWindow(h, step, Below(h, startTime), j) then {j - 1} else {})
  }

  /** The oldest index the download collects once h[j] has been reached. */
  ghost function Stop(h: seq<Candle>, step: int, startTime: int, j: nat): (f: nat)
    requires j < |h|
    ensures f <= j
    decreases j
  {
    var i := Low(h, step, startTime, j);
    if i == j then j else Stop(h, step, startTime, i)
  }

  /** The download stops short of the first candle in range exactly when a hole is in the way, which begins at h[f]. */
  lemma {:induction false} StopSpec(h: seq<Candle>, step: int, startTime: int, j: nat)
    requires Recorded(h, step) && j < |h|
    ensures var f, s := Stop(h, step, startTime, j), Below(h, startTime);
      && (j <= s ==> f == j)
      && (s <= j ==> s <= f)
      && (s <= j ==> (f == s <==> Bridged(h, step, s, j)))
      && (s < f && s < j ==> Gap(h, f - 1) > MaxRange(step) + step)
    decreases j
  {
    var i := Low(h, step, startTime, j);
    PageShape(h, step, startTime, j);
    if i < j { StopSpec(h, step, startTime, i); }
  }

  /** A lost candle lies between the stop and h[j], and is the newest one of a full window. */
  lemma {:induction false} LostSpec(h: seq<Candle>, step: int, startTime: int, j: nat)
    requires Recorded(h, step) && j < |h|
    ensures forall x :: x in Lost(h, step, startTime, j) ==>
              Stop(h, step, startTime, j) <= x < j && FullWindow(h, step, Below(h, startTime), x + 1)
    decreases j
  {
    var i := Low(h, step, startTime, j);
    if i < j {
      LostSpec(h, step, startTime, i);
      PageShape(h, step, startTime, j);
    }
  }

  /** h[f..j] without the candles at the lost indices. */
  ghost function Except(h: seq<Candle>, f: nat, j: nat, lost: set<nat>): seq<Candle>
    requires j <= |h|
  {
    if j <= f then []
    else Except(h, f, j - 1, lost) + (if j - 1 in lost then [] else [h[j - 1]])
  }

  lemma {:induction false} ExceptWhole(h: seq<Candle>, f: nat, m: nat, j: nat, lost: set<nat>)
    requires f <= m <= j <= |h|
    requires forall x :: x in lost ==> !(m <= x < j)
    ensures Except(h, f, j, lost) == Except(h, f, m, lost) + h[m..j]
  {
    if m < j { ExceptWhole(h, f, m, j - 1, lost); }
  }

  lemma {:induction false} ExceptSame(h: seq<Candle>, f: nat, j: nat, lost: set<nat>, other: set<nat>)
    requires j <= |h|
    requires forall x: nat :: x < j ==> (x in lost <==> x in other)
    ensures Except(h, f, j, lost) == Except(h, f, j, other)
  {
    if f < j { ExceptSame(h, f, j - 1, lost, other); }
  }

  lemma {:induction false} ExceptLength(h: seq<Candle>, f: nat, j: nat, lost: set<nat>)
    requires f <= j <= |h|
    ensures |Except(h, f, j, lost)| <= j - f
    ensures (exists x :: x in lost && f <= x < j) ==> |Except(h, f, j, lost)| < j - f
  {
    if f < j { ExceptLength(h, f, j - 1, lost); }
  }

  lemma ExceptAllIff(h: seq<Candle>, s: nat, f: nat, j: nat, lost: set<nat>)
    requires s <= f <= j <= |h| && forall x :: x in lost ==> f <= x < j
    ensures Except(h, f, j, lost) == h[s..j] <==> f == s && lost == {}
  {
    ExceptLength(h, f, j, lost);
    if lost == {} {
      ExceptWhole(h, f, f, j, lost);
    } else {
      var x :| x in lost;
      assert f <= x < j;
    }
  }

  /** What one page adds to what comes below it. */
  lemma ExceptBelow(h: seq<Candle>, step: int, startTime: int, j: nat)
    requires Recorded(h, step) && j < |h|
    requires Low(h, step, startTime, j) < j
    ensures var i, t, f := Low(h, step, startTime, j), High(h, step, startTime, j), Stop(h, step, startTime, j);
      && i < t
      && Except(h, f, j, Lost(h, step, startTime, j))
         == Except(h, f, i, Lost(h, step, startTime, i)) + h[i..t]
  {
    var i, t, f := Low(h, step, startTime, j), High(h, step, startTime, j), Stop(h, step, startTime, j);
    PageShape(h, step, startTime, j);
    LostSpec(h, step, startTime, i);
    ExceptSame(h, f, i, Lost(h, step, startTime, i), Lost(h, step, startTime, j));
    ExceptWhole(h, f, i, t, Lost(h, step, startTime, j));
  }

  lemma {:induction false} Collect(server: Server, h: seq<Candle>, step: int, startTime: int,
                                   r: Option<Request>, j: nat, t: nat)
    requires Recorded(h, step) && j <= t <= |h|
    requires Honest(server) && ServesForward(server, h)
    requires r.Some? ==> startTime <= r.value.endTime
    requires Ask(server, r) == h[j..t]
    ensures Merged(Pages(server, step, startTime, r))
         == if j < t then Except(h, Stop(h, step, startTime, j), j, Lost(h, step, startTime, j)) + h[j..t] else []
    decreases j, t
  {
    MergedPages(server, step, startTime, r);
    if j < t {
      var next := NextRequest(step, startTime, Time(h, j));
      var i := Low(h, step, startTime, j);
      PageBelow(server, h, step, startTime, j);
      Collect(server, h, step, startTime, next, i, High(h, step, startTime, j));
      if i < j { ExceptBelow(h, step, startTime, j); }
    }
  }

  /** The first page is h[FirstLow..FirstHigh]. */
  ghost function FirstLow(h: seq<Candle>, step: int, startTime: int, endTime: int): (j: nat)
    ensures j <= |h|
  {
    var s, k := Below(h, startTime), Below(h, endTime + 1);
    if LongRange(step, startTime, endTime) || startTime <= 0 then (if k > LIMIT then k - LIMIT else 0) else s
  }

  ghost function FirstHigh(h: seq<Candle>, step: int, startTime: int, endTime: int): (t: nat)
    ensures t <= |h|
  {
    var s, k := Below(h, startTime), Below(h, endTime + 1);
    if LongRange(step, startTime, endTime) || startTime <= 0 || k - s <= LIMIT then k else s + LIMIT
  }

  lemma FirstPage(server: Server, h: seq<Candle>, step: int, startTime: int, endTime: int)
    requires Recorded(h, step) && ServesForward(server, h) && startTime <= endTime
    ensures FirstLow(h, step, startTime, endTime) <= FirstHigh(h, step, startTime, endTime)
    ensures Ask(server, FirstRequest(step, startTime, endTime))
         == h[FirstLow(h, step, startTime, endTime)..FirstHigh(h, step, startTime, endTime)]
  {
    var s, k := Below(h, startTime), Below(h, endTime + 1);
    var request := FirstRequest(step, startTime, endTime).value;
    BelowMonotone(h, startTime, endTime + 1);
    assert AnswersForward(server, h, request);
    if LongRange(step, startTime, endTime) || startTime <= 0 {
      assert request.startTime.None?;
      assert Window(h, request) == h[0..k];
      NewestOfSlice(h, LIMIT, 0, k);
    } else {
      assert Window(h, request) == h[s..k];
      OldestOfSlice(h, LIMIT, s, k);
    }
  }

  /**
   Every history and every range: the download is the first page preceded by the candles below it down
   to the stop, without the newest candle of each full window met on the way.
   */
  lemma DownloadIsExcept(server: Server, h: seq<Candle>, step: int, startTime: int, endTime: int)
    requires Recorded(h, step) && startTime <= endTime
    requires Honest(server) && ServesForward(server, h)
    ensures var j, t := FirstLow(h, step, startTime, endTime), FirstHigh(h, step, startTime, endTime);
      && j <= t
      && Download(server, step, startTime, endTime)
         == if j < t then Except(h, Stop(h, step, startTime, j), j, Lost(h, step, startTime, j)) + h[j..t] else []
  {
    FirstPage(server, h, step, startTime, endTime);
    Collect(server, h, step, startTime, FirstRequest(step, startTime, endTime),
            FirstLow(h, step, startTime, endTime), FirstHigh(h, step, startTime, endTime));
  }

  /**
   When a download is complete, in terms of the history alone: a short range must not hold LIMIT + 1
   candles unless its start is left open; in a long one the first page must stay inside the range, and
   below it there must be no hole that hides a request window and no full window on the way down.
   */
  ghost predicate Complete(h: seq<Candle>, step: int, startTime: int, endTime: int) {
    var s, k, j := Below(h, startTime), Below(h, endTime + 1), FirstLow(h, step, startTime, endTime);
    || startTime > endTime
    || (!LongRange(step, startTime, endTime) && (startTime <= 0 || k - s <= LIMIT))
    || (LongRange(step, startTime, endTime) && s <= j &&
        (j < |h| ==> Bridged(h, step, s, j) && Lost(h, step, startTime, j) == {}))
  }

  /** The download equals the reference filter of [startTime, endTime] exactly when Complete holds. */
  lemma DownloadIsRangeIffComplete(server: Server, h: seq<Candle>, step: int, startTime: int, endTime: int)
    requires Recorded(h, step)
    requires Honest(server) && ServesForward(server, h)
    ensures Download(server, step, startTime, endTime) == Between(h, startTime, endTime)
       <==> Complete(h, step, startTime, endTime)
  {
    BetweenIsSlice(h, startTime, endTime);
    if startTime <= endTime {
      DownloadIsExcept(server, h, step, startTime, endTime);
      if LongRange(step, startTime, endTime) { LongIff(h, step, startTime, endTime); }
      else { ShortIff(h, step, startTime, endTime); }
    }
  }

  /** What is collected below h[j], a candle in range, is everything in range exactly when nothing stops or is lost. */
  lemma CollectedAllIff(h: seq<Candle>, step: int, startTime: int, j: nat)
    requires Recorded(h, step) && Below(h, startTime) <= j < |h|
    ensures var s, lost := Below(h, startTime), Lost(h, step, startTime, j);
      Except(h, Stop(h, step, startTime, j), j, lost) == h[s..j] <==> Bridged(h, step, s, j) && lost == {}
  {
    StopSpec(h, step, startTime, j);
    LostSpec(h, step, startTime, j);
    ExceptAllIff(h, Below(h, startTime), Stop(h, step, startTime, j), j, Lost(h, step, startTime, j));
  }

  /** What DownloadIsExcept says a download returns. */
  ghost function Collected(h: seq<Candle>, step: int, startTime: int, j: nat, t: nat): seq<Candle>
    requires j <= t <= |h|
  {
    if j < t then Except(h, Stop(h, step, startTime, j), j, Lost(h, step, startTime, j)) + h[j..t] else []
  }

  lemma LongIff(h: seq<Candle>, step: int, startTime: int, endTime: int)
    requires Recorded(h, step) && startTime <= endTime && LongRange(step, startTime, endTime)
    ensures var s, k, j := Below(h, startTime), Below(h, endTime + 1), FirstLow(h, step, startTime, endTime);
      s <= k && j <= k && (Collected(h, step, startTime, j, k) == h[s..k] <==> Complete(h, step, startTime, endTime))
  {
    var s, k, j := Below(h, startTime), Below(h, endTime + 1), FirstLow(h, step, startTime, endTime);
    BelowMonotone(h, startTime, endTime + 1);
    if s <= j < k {
      CollectedAllIff(h, step, startTime, j);
      SplitSlice(h, s, j, k);
      SameTail(Except(h, Stop(h, step, startTime, j), j, Lost(h, step, startTime, j)), h[s..j], h[j..k]);
    } else if j < s {
      assert |h[j..k]| > |h[s..k]|;
    }
  }

  /** A short range holds at most LIMIT + 1 candles. */
  lemma ShortRangeCount(h: seq<Candle>, step: int, startTime: int, endTime: int)
    requires Recorded(h, step) && startTime <= endTime && !LongRange(step, startTime, endTime)
    ensures Below(h, startTime) <= Below(h, endTime + 1) <= Below(h, startTime) + LIMIT + 1
    ensures startTime <= 0 ==> Below(h, startTime) == 0
  {
    var s, k := Below(h, startTime), Below(h, endTime + 1);
    BelowMonotone(h, startTime, endTime + 1);
    if startTime <= 0 { BelowAt(h, startTime, 0); }
    if s < k { SpacedReach(h, step, s, k - 1, LIMIT); }
  }

  /** Fewer than LIMIT + 1 candles below h[j] cannot fill a window. */
  lemma {:induction false} FewLost(h: seq<Candle>, step: int, startTime: int, j: nat)
    requires j < |h| && j <= Below(h, startTime) + LIMIT
    ensures Lost(h, step, startTime, j) == {}
    decreases j
  {
    var i := Low(h, step, startTime, j);
    if i < j { FewLost(h, step, startTime, i); }
  }

  lemma ShortIff(h: seq<Candle>, step: int, startTime: int, endTime: int)
    requires Recorded(h, step) && startTime <= endTime && !LongRange(step, startTime, endTime)
    ensures var s, k := Below(h, startTime), Below(h, endTime + 1);
      var j, t := FirstLow(h, step, startTime, endTime), FirstHigh(h, step, startTime, endTime);
      s <= k && j <= t && (Collected(h, step, startTime, j, t) == h[s..k] <==> Complete(h, step, startTime, endTime))
  {
    var s, k := Below(h, startTime), Below(h, endTime + 1);
    var j, t := FirstLow(h, step, startTime, endTime), FirstHigh(h, step, startTime, endTime);
    ShortRangeCount(h, step, startTime, endTime);
    if j < t {
      if startTime <= 0 { ShortRangeIsBridged(h, step, startTime, endTime); }
      FewLost(h, step, startTime, j);
      CollectedAllIff(h, step, startTime, j);
      SplitSlice(h, s, j, t);
    }
    assert |h[s..t]| == t - s && |h[s..k]| == k - s;
  }

  lemma SameTail(a: seq<Candle>, b: seq<Candle>, tail: seq<Candle>)
    ensures a + tail == b + tail <==> a == b
  {
    if a + tail == b + tail {
      assert |a| == |b|;
      assert a == (a + tail)[..|a|] && b == (b + tail)[..|b|];
    }
  }
}
