/**
 The spot downloader against a server that answers each request with the newest candles of
 its window. The history may have holes; consecutive candles are only at least one interval apart.
 */
module SpotSuffix {
  import opened Common
  import opened History
  import opened SpotCandles
  import opened SpotServers

  /**
   Where the window of the request after oldest candle h[j] begins, and the oldest candle it brings; j
   when it brings none.
   */
  ghost function OlderIndex(h: seq<Candle>, step: int, startTime: int, j: nat): (i: nat)
    requires j < |h|
    ensures i <= j
  {
    var currentEndTime := Time(h, j) - step;
    if startTime > currentEndTime then j
    else
      var a := Below(h, Max(startTime, currentEndTime - MaxRange(step)));
      if a >= j then j else if j - a > LIMIT then j - LIMIT else a
  }

  lemma PageBelow(server: Server, h: seq<Candle>, step: int, startTime: int, j: nat)
    requires Recorded(h, step) && ServesNewest(server, h) && j < |h|
    ensures Ask(server, NextRequest(step, startTime, Time(h, j))) == h[OlderIndex(h, step, startTime, j)..j]
  {
    SuffixAnswerBelow(server, h, step, Max(startTime, Time(h, j) - step - MaxRange(step)), j);
  }

  /** A page reaches below h[j] exactly when the next older candle is in range and no hole hides it. */
  lemma HoleBelow(h: seq<Candle>, step: int, startTime: int, j: nat)
    requires Recorded(h, step) && j < |h|
    ensures var i, s := OlderIndex(h, step, startTime, j), Below(h, startTime);
      && (i < j ==> s <= i && forall k: nat :: i <= k < j ==> Gap(h, k) <= MaxRange(step) + step)
      && (i == j && s < j ==> Gap(h, j - 1) > MaxRange(step) + step)
  {
    WindowReach(h, step, startTime, j);
  }

  /** The oldest index the download collects once h[j] has been reached. */
  ghost function StopIndex(h: seq<Candle>, step: int, startTime: int, j: nat): (f: nat)
    requires j < |h|
    ensures f <= j
    decreases j
  {
    var i := OlderIndex(h, step, startTime, j);
    if i == j then j else StopIndex(h, step, startTime, i)
  }

  /** A request answered by h[j..k], and everything after it, collects a contiguous piece that ends at k. */
  lemma {:induction false} Collect(server: Server, h: seq<Candle>, step: int, startTime: int,
                                   r: Option<Request>, j: nat, k: nat)
    requires Recorded(h, step) && j <= k <= |h|
    requires Honest(server) && ServesNewest(server, h)
    requires r.Some? ==> startTime <= r.value.endTime
    requires Ask(server, r) == h[j..k]
    ensures Merged(Pages(server, step, startTime, r))
         == if j < k then h[StopIndex(h, step, startTime, j)..k] else []
    decreases j, k
  {
    MergedPages(server, step, startTime, r);
    if j < k {
      var i, f := OlderIndex(h, step, startTime, j), StopIndex(h, step, startTime, j);
      var next := NextRequest(step, startTime, Time(h, j));
      PageBelow(server, h, step, startTime, j);
      Collect(server, h, step, startTime, next, i, j);
      assert Merged(Pages(server, step, startTime, next)) == h[f..j];
      SplitSlice(h, f, j, k);
    }
  }

  /**
   The download stops short of the first candle in range exactly when a hole is in the way, which then
   begins at h[f].
   */
  lemma {:induction false} StopIndexSpec(h: seq<Candle>, step: int, startTime: int, j: nat)
    requires Recorded(h, step) && j < |h|
    ensures var f, s := StopIndex(h, step, startTime, j), Below(h, startTime);
      && (j <= s ==> f == j)
      && (s <= j ==> s <= f)
      && (s <= j ==> (f == s <==> Bridged(h, step, s, j)))
      && (s < f && s < j ==> Gap(h, f - 1) > MaxRange(step) + step)
    decreases j
  {
    var i := OlderIndex(h, step, startTime, j);
    HoleBelow(h, step, startTime, j);
    if i < j { StopIndexSpec(h, step, startTime, i); }
  }

  /** The oldest candle of the first page; Below(h, endTime + 1) when that page is empty. */
  ghost function FirstIndex(h: seq<Candle>, step: int, startTime: int, endTime: int): (j: nat)
    ensures j <= Below(h, endTime + 1)
  {
    var k := Below(h, endTime + 1);
    var a := if LongRange(step, startTime, endTime) then 0 else Below(h, startTime);
    if k - a > LIMIT then k - LIMIT else if a <= k then a else k
  }

  lemma FirstPage(server: Server, h: seq<Candle>, step: int, startTime: int, endTime: int)
    requires Recorded(h, step) && ServesNewest(server, h) && startTime <= endTime
    ensures Ask(server, FirstRequest(step, startTime, endTime))
         == h[FirstIndex(h, step, startTime, endTime)..Below(h, endTime + 1)]
  {
    var k := Below(h, endTime + 1);
    var a := if LongRange(step, startTime, endTime) then 0 else Below(h, startTime);
    var request := FirstRequest(step, startTime, endTime).value;
    assert AnswersNewest(server, h, request);
    FirstWindow(h, step, startTime, endTime);
    NewestOfSlice(h, LIMIT, a, k);
  }

  lemma FirstWindow(h: seq<Candle>, step: int, startTime: int, endTime: int)
    requires Recorded(h, step) && startTime <= endTime
    ensures var a, k := if LongRange(step, startTime, endTime) then 0 else Below(h, startTime), Below(h, endTime + 1);
      a <= k && Window(h, FirstRequest(step, startTime, endTime).value) == h[a..k]
  {
    var r := FirstRequest(step, startTime, endTime).value;
    var k := Below(h, endTime + 1);
    BelowMonotone(h, startTime, endTime + 1);
    if startTime <= 0 { BelowAt(h, startTime, 0); }
    if LongRange(step, startTime, endTime) || startTime <= 0 {
      assert r.startTime.None? && Window(h, r) == h[0..k];
    } else {
      assert r.startTime == Some(startTime) && Window(h, r) == h[Below(h, startTime)..k];
    }
  }

  /**
   When a download is complete, in terms a caller can look up beforehand: always for an empty
   or a short range; for a long one, when the first page stays inside the range and no hole
   below it hides a whole request window.
   */
  ghost predicate Complete(h: seq<Candle>, step: int, startTime: int, endTime: int) {
    || startTime > endTime
    || !LongRange(step, startTime, endTime)
    || (var s, j := Below(h, startTime), FirstIndex(h, step, startTime, endTime);
        s <= j && (j < |h| ==> Bridged(h, step, s, j)))
  }

  /** Where the whole download begins in the history. */
  ghost function DownloadIndex(h: seq<Candle>, step: int, startTime: int, endTime: int): (f: nat)
    ensures f <= Below(h, endTime + 1)
  {
    var j := FirstIndex(h, step, startTime, endTime);
    if j < Below(h, endTime + 1) then StopIndex(h, step, startTime, j) else j
  }

  lemma DownloadIsSlice(server: Server, h: seq<Candle>, step: int, startTime: int, endTime: int)
    requires Recorded(h, step) && startTime <= endTime
    requires Honest(server) && ServesNewest(server, h)
    ensures Download(server, step, startTime, endTime)
         == h[DownloadIndex(h, step, startTime, endTime)..Below(h, endTime + 1)]
  {
    FirstPage(server, h, step, startTime, endTime);
    Collect(server, h, step, startTime, FirstRequest(step, startTime, endTime),
            FirstIndex(h, step, startTime, endTime), Below(h, endTime + 1));
  }

  lemma DownloadIndexSpec(h: seq<Candle>, step: int, startTime: int, endTime: int)
    requires Recorded(h, step) && startTime <= endTime
    ensures var f, s, k := DownloadIndex(h, step, startTime, endTime), Below(h, startTime), Below(h, endTime + 1);
      && s <= k
      && (f == s <==> Complete(h, step, startTime, endTime))
      && (s < f ==> f < k && Gap(h, f - 1) > MaxRange(step) + step)
      && (f < s ==> LongRange(step, startTime, endTime) && k - f <= LIMIT)
  {
    var j, s, k := FirstIndex(h, step, startTime, endTime), Below(h, startTime), Below(h, endTime + 1);
    BelowMonotone(h, startTime, endTime + 1);
    if j < k {
      StopIndexSpec(h, step, startTime, j);
      if !LongRange(step, startTime, endTime) { ShortRangeIsBridged(h, step, startTime, endTime); }
    }
  }

  /**
   Every history: the download is one contiguous piece of the history that ends at the newest
   candle not after endTime. A candle in range that it misses lies below a hole that hides a
   whole request window, and a candle before startTime comes back only from a first request
   that was left open below.
   */
  lemma DownloadIsSegment(server: Server, h: seq<Candle>, step: int, startTime: int, endTime: int) returns (f: nat)
    requires Recorded(h, step) && startTime <= endTime
    requires Honest(server) && ServesNewest(server, h)
    ensures f <= Below(h, endTime + 1)
    ensures Download(server, step, startTime, endTime) == h[f..Below(h, endTime + 1)]
    ensures Below(h, startTime) < f ==> f < |h| && Gap(h, f - 1) > MaxRange(step) + step
    ensures f < Below(h, startTime) ==> LongRange(step, startTime, endTime) && Below(h, endTime + 1) - f <= LIMIT
  {
    f := DownloadIndex(h, step, startTime, endTime);
    DownloadIsSlice(server, h, step, startTime, endTime);
    DownloadIndexSpec(h, step, startTime, endTime);
  }

  /** The download equals the reference filter of [startTime, endTime] exactly when Complete holds. */
  lemma DownloadIsRangeIffComplete(server: Server, h: seq<Candle>, step: int, startTime: int, endTime: int)
    requires Recorded(h, step)
    requires Honest(server) && ServesNewest(server, h)
    ensures Download(server, step, startTime, endTime) == Between(h, startTime, endTime)
       <==> Complete(h, step, startTime, endTime)
  {
    BetweenIsSlice(h, startTime, endTime);
    if startTime <= endTime {
      DownloadIsSlice(server, h, step, startTime, endTime);
      DownloadIndexSpec(h, step, startTime, endTime);
    }
  }

  /** On a dense history a page falls short of LIMIT candles only at the start of the range. */
  lemma DensePage(h: seq<Candle>, step: int, startTime: int, j: nat)
    requires Recorded(h, step) && Dense(h, step) && j < |h|
    ensures var i, s := OlderIndex(h, step, startTime, j), Below(h, startTime);
      i == j || i <= s || i == j - LIMIT
  {
    var i, s := OlderIndex(h, step, startTime, j), Below(h, startTime);
    if s < i < j {
      DenseReach(h, step, i - 1, j, LIMIT + 1);
      BelowIff(h, startTime, i - 1);
    }
  }

  /** Requests needed once a page has been received with `d` candles of the range still below it. */
  function Budget(d: int): (n: int)
    ensures n >= 2
    decreases Max(0, d)
  {
    if d <= 0 then 2 else 1 + Budget(d - LIMIT)
  }

  lemma {:induction false} BudgetClosedForm(d: int)
    ensures Budget(d) == (Max(0, d) + LIMIT - 1) / LIMIT + 2
    decreases Max(0, d)
  {
    if d > 0 { BudgetClosedForm(d - LIMIT); }
  }

  /** A page that brings something uses up one request of the budget. */
  lemma BudgetFalls(h: seq<Candle>, step: int, startTime: int, j: nat)
    requires Recorded(h, step) && Dense(h, step) && j < |h|
    ensures var i, s := OlderIndex(h, step, startTime, j), Below(h, startTime);
      (if i == j then 1 else Budget(i - s)) + 1 <= Budget(j - s)
  {
    HoleBelow(h, step, startTime, j);
    DensePage(h, step, startTime, j);
  }

  /** How many requests follow once h[j] is the oldest candle at hand. */
  ghost function RequestsAfter(server: Server, h: seq<Candle>, step: int, startTime: int, j: nat): nat
    requires step > 0 && j < |h| && Honest(server)
  {
    |Requests(server, step, startTime, NextRequest(step, startTime, Time(h, j)))|
  }

  lemma RequestsAfterPage(server: Server, h: seq<Candle>, step: int, startTime: int, j: nat)
    requires Recorded(h, step) && j < |h|
    requires Honest(server) && ServesNewest(server, h)
    ensures var i := OlderIndex(h, step, startTime, j);
      RequestsAfter(server, h, step, startTime, j)
      <= 1 + if i < j then RequestsAfter(server, h, step, startTime, i) else 0
  {
    var next := NextRequest(step, startTime, Time(h, j));
    PageBelow(server, h, step, startTime, j);
    if next.Some? { RequestsUnfold(server, step, startTime, next.value); }
  }

  lemma {:induction false} RequestsBelow(server: Server, h: seq<Candle>, step: int, startTime: int, j: nat)
    requires Recorded(h, step) && Dense(h, step) && j < |h|
    requires Honest(server) && ServesNewest(server, h)
    ensures RequestsAfter(server, h, step, startTime, j) + 1 <= Budget(j - Below(h, startTime))
    decreases j
  {
    var i := OlderIndex(h, step, startTime, j);
    RequestsAfterPage(server, h, step, startTime, j);
    BudgetFalls(h, step, startTime, j);
    if i < j { RequestsBelow(server, h, step, startTime, i); }
  }

  lemma BudgetOfFirst(h: seq<Candle>, step: int, startTime: int, endTime: int)
    requires Ascending(h) && startTime <= endTime
    ensures var j, k, s := FirstIndex(h, step, startTime, endTime), Below(h, endTime + 1), Below(h, startTime);
      s <= k && (j < k ==> Budget(j - s) <= (k - s) / LIMIT + 2)
  {
    var j, k, s := FirstIndex(h, step, startTime, endTime), Below(h, endTime + 1), Below(h, startTime);
    BelowMonotone(h, startTime, endTime + 1);
    BudgetClosedForm(j - s);
    assert j < k ==> Max(0, j - s) <= Max(0, k - s - LIMIT);
  }

  lemma RequestsInAll(server: Server, h: seq<Candle>, step: int, startTime: int, endTime: int)
    requires Recorded(h, step) && startTime <= endTime
    requires Honest(server) && ServesNewest(server, h)
    ensures var j := FirstIndex(h, step, startTime, endTime);
      |Requests(server, step, startTime, FirstRequest(step, startTime, endTime))|
      <= 1 + if j < Below(h, endTime + 1) then RequestsAfter(server, h, step, startTime, j) else 0
  {
    FirstPage(server, h, step, startTime, endTime);
    RequestsUnfold(server, step, startTime, FirstRequest(step, startTime, endTime).value);
  }

  /** On a dense history n candles in range cost at most n / LIMIT + 2 requests. */
  lemma RequestBound(server: Server, h: seq<Candle>, step: int, startTime: int, endTime: int)
    requires Recorded(h, step) && Dense(h, step)
    requires Honest(server) && ServesNewest(server, h)
    ensures |Requests(server, step, startTime, FirstRequest(step, startTime, endTime))|
         <= |Between(h, startTime, endTime)| / LIMIT + 2
  {
    if startTime <= endTime {
      var j := FirstIndex(h, step, startTime, endTime);
      BetweenIsSlice(h, startTime, endTime);
      RequestsInAll(server, h, step, startTime, endTime);
      BudgetOfFirst(h, step, startTime, endTime);
      if j < Below(h, endTime + 1) { RequestsBelow(server, h, step, startTime, j); }
    }
  }

  /** On a dense history that reaches endTime nothing is missed and nothing extra comes back. */
  lemma DenseDownloadIsRange(server: Server, h: seq<Candle>, step: int, startTime: int, endTime: int)
    requires Recorded(h, step) && Dense(h, step)
    requires h != [] && endTime < Time(h, |h| - 1) + step
    requires Honest(server) && ServesNewest(server, h)
    ensures Download(server, step, startTime, endTime) == Between(h, startTime, endTime)
  {
    DownloadIsRangeIffComplete(server, h, step, startTime, endTime);
    if LongRange(step, startTime, endTime) { FirstPageInRange(h, step, startTime, endTime); }
    var s, j := Below(h, startTime), FirstIndex(h, step, startTime, endTime);
    assert j < |h| ==> forall i: nat :: i < j ==> Gap(h, i) == step;
  }

  /**
   So for each of the ten intervals: asking for a history of candles of the length named in the request
   brings all of the range.
   */
  lemma IntervalDownloadIsRange(exchange: Exchange, h: seq<Candle>, interval: CandleInterval,
                                startTime: int, endTime: int)
    requires !interval.Unlisted?
    requires var length := NamedLength(SpotString(interval));
      Recorded(h, length) && Dense(h, length) && h != [] && endTime < Time(h, |h| - 1) + length
    requires var server := exchange(SpotString(interval)); Honest(server) && ServesNewest(server, h)
    ensures Download(exchange(SpotString(interval)), NumberOfMs(interval), startTime, endTime)
         == Between(h, startTime, endTime)
  {
    StepIsNamedLength(interval);
    DenseDownloadIsRange(exchange(SpotString(interval)), h, NumberOfMs(interval), startTime, endTime);
  }

  lemma FirstPageInRange(h: seq<Candle>, step: int, startTime: int, endTime: int)
    requires Recorded(h, step) && Dense(h, step)
    requires h != [] && endTime < Time(h, |h| - 1) + step
    requires startTime <= endTime && LongRange(step, startTime, endTime)
    ensures Below(h, startTime) <= FirstIndex(h, step, startTime, endTime)
  {
    var s, k, j := Below(h, startTime), Below(h, endTime + 1), FirstIndex(h, step, startTime, endTime);
    BelowMonotone(h, startTime, endTime + 1);
    assert 0 < k < |h| ==> Gap(h, k - 1) == step;
    if j < s {
      BelowIff(h, startTime, j);
      DenseReach(h, step, j, k - 1, LIMIT - 1);
      assert false;
    }
  }

  /** One-minute candles: one at time 1, a hole of 1002 minutes, then 1001 candles without a gap. */
  function HoleHistory(quote: Quote): seq<Candle> {
    seq(1002, i => Candle(if i == 0 then 1 else 1 + (1001 + i) * 60000, quote))
  }

  lemma HoleHistoryIsRecorded(quote: Quote)
    ensures Recorded(HoleHistory(quote), 60000)
  {
    var h := HoleHistory(quote);
    forall i: nat, j: nat | i < j < |h| ensures Apart(h, 60000, i, j) && Before(h, i, j) { }
  }

  /** A hole below the first page loses the candle beyond it, although that is in range. */
  lemma HoleLosesCandle(server: Server, quote: Quote)
    requires ServesNewest(server, HoleHistory(quote)) && Honest(server)
    ensures Recorded(HoleHistory(quote), 60000)
    ensures Download(server, 60000, 1, 2002 * 60000 + 1) != Between(HoleHistory(quote), 1, 2002 * 60000 + 1)
  {
    var h := HoleHistory(quote);
    HoleHistoryIsRecorded(quote);
    DownloadIsRangeIffComplete(server, h, 60000, 1, 2002 * 60000 + 1);
    BelowAt(h, 1, 0);
    BelowAt(h, 2002 * 60000 + 2, 1002);
    assert FirstIndex(h, 60000, 1, 2002 * 60000 + 1) == 2;
    assert Gap(h, 0) == 1002 * 60000;
  }

  /** A long range with few candles in it brings back one from before its start. */
  lemma CandleBeforeStart(server: Server, quote: Quote)
    requires ServesNewest(server, [Candle(1, quote), Candle(2000 * 60000, quote)]) && Honest(server)
    ensures var h := [Candle(1, quote), Candle(2000 * 60000, quote)];
      Recorded(h, 60000) && Download(server, 60000, 2, 2000 * 60000) != Between(h, 2, 2000 * 60000)
  {
    var h := [Candle(1, quote), Candle(2000 * 60000, quote)];
    forall i: nat, j: nat | i < j < |h| ensures Apart(h, 60000, i, j) && Before(h, i, j) { }
    DownloadIsRangeIffComplete(server, h, 60000, 2, 2000 * 60000);
    BelowAt(h, 2, 1);
    BelowAt(h, 2000 * 60000 + 1, 2);
  }
}
