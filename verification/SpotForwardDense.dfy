/**
 The forward contract on dense histories, where the candles a download loses can be told from
 their position alone.
 */
module SpotForwardDense {
  import opened Common
  import opened History
  import opened SpotCandles
  import opened SpotServers
  import opened SpotForward

  ghost predicate Grid(h: seq<Candle>, step: int) {
    Recorded(h, step) && Dense(h, step)
  }

  /**
   h[i] ends one of the full windows stacked below h[top], and that window has a positive start.
   */
  predicate Skipped(h: seq<Candle>, s: nat, top: nat, i: nat)
    requires i < |h|
  {
    i < top && (top - 1 - i) % (LIMIT + 1) == 0 && s + LIMIT <= i && Time(h, i - LIMIT) > 0
  }

  function SkippedBelow(h: seq<Candle>, s: nat, top: nat): set<nat>
    requires top <= |h|
  {
    set i: nat | i < top && Skipped(h, s, top, i)
  }

  lemma PositiveAfterFirst(h: seq<Candle>, step: int, a: nat)
    requires Recorded(h, step) && 0 < a < |h|
    ensures Time(h, a) > 0
  {
    assert Apart(h, step, 0, a);
  }

  lemma OnlyFirstAtEpoch(h: seq<Candle>, step: int, a: nat)
    requires Recorded(h, step) && a < |h| && Time(h, a) <= 0
    ensures a == 0 && Time(h, 0) == 0
  {
    if a > 0 { PositiveAfterFirst(h, step, a); }
  }

  /** On a dense history a window in range is full as soon as it is long enough and does not reach the epoch. */
  lemma DenseWindow(h: seq<Candle>, step: int, startTime: int, j: nat)
    requires Grid(h, step) && j < |h|
    ensures var s := Below(h, startTime);
      && (FullWindow(h, step, s, j) <==> s + LIMIT < j && Time(h, j - LIMIT - 1) > 0)
      && (s + LIMIT < j && !FullWindow(h, step, s, j) ==> s == 0 && j == LIMIT + 1)
  {
    var s := Below(h, startTime);
    if s + LIMIT < j {
      DenseSpan(h, step, j - LIMIT - 1, LIMIT + 1);
      if Time(h, j - LIMIT - 1) <= 0 { OnlyFirstAtEpoch(h, step, j - LIMIT - 1); }
    }
  }

  /** No hole stops the download, and what it loses are the skipped positions. */
  lemma {:induction false} LostIsSkipped(h: seq<Candle>, step: int, startTime: int, j: nat)
    requires Grid(h, step) && j < |h|
    ensures Lost(h, step, startTime, j) == SkippedBelow(h, Below(h, startTime), j)
    decreases j
  {
    var i, s := Low(h, step, startTime, j), Below(h, startTime);
    PageShape(h, step, startTime, j);
    DenseWindow(h, step, startTime, j);
    if FullWindow(h, step, s, j) {
      assert Gap(h, j - 1) == step;
      LostIsSkipped(h, step, startTime, i);
      SkippedShift(h, s, j);
    } else {
      FewSkipped(h, s, j);
      if i < j { FewLost(h, step, startTime, i); }
    }
  }

  lemma FewSkipped(h: seq<Candle>, s: nat, j: nat)
    requires j < |h| && (j <= s + LIMIT || (s == 0 && j == LIMIT + 1 && Time(h, 0) <= 0))
    ensures SkippedBelow(h, s, j) == {}
  {
    forall i: nat | i < j ensures !Skipped(h, s, j, i) { assert s + LIMIT <= i ==> i == LIMIT; }
  }

  /** The full window on top adds its newest candle to those below it. */
  lemma SkippedShift(h: seq<Candle>, s: nat, j: nat)
    requires s + LIMIT < j < |h| && Time(h, j - LIMIT - 1) > 0
    ensures SkippedBelow(h, s, j) == SkippedBelow(h, s, j - LIMIT - 1) + {j - 1}
  {
    var i := j - LIMIT - 1;
    forall x: nat | x < j ensures Skipped(h, s, j, x) <==> (x < i && Skipped(h, s, i, x)) || x == j - 1 {
      SkippedOnce(h, s, j, x);
    }
  }

  lemma SkippedOnce(h: seq<Candle>, s: nat, j: nat, x: nat)
    requires s + LIMIT < j < |h| && Time(h, j - LIMIT - 1) > 0 && x < j
    ensures var i := j - LIMIT - 1;
      Skipped(h, s, j, x) <==> (x < i && Skipped(h, s, i, x)) || x == j - 1
  {
    var i := j - LIMIT - 1;
    if x < i { assert ((i - 1 - x) + (LIMIT + 1)) % (LIMIT + 1) == (i - 1 - x) % (LIMIT + 1); }
    else if x < j - 1 { assert 0 < j - 1 - x < LIMIT + 1; }
  }

  lemma DenseIsBridged(h: seq<Candle>, step: int, lo: nat, hi: nat)
    requires Grid(h, step) && hi < |h|
    ensures Bridged(h, step, lo, hi)
  {
    forall i: nat | lo <= i < hi ensures Gap(h, i) <= MaxRange(step) + step { assert Gap(h, i) == step; }
  }

  /**
   Every dense history and every range: the download is the first page preceded by the
   candles of the range below it, without the one lost at the end of each full window.
   */
  lemma DownloadIsKept(server: Server, h: seq<Candle>, step: int, startTime: int, endTime: int)
    requires Grid(h, step) && startTime <= endTime
    requires Honest(server) && ServesForward(server, h)
    ensures var j, t, s := FirstLow(h, step, startTime, endTime), FirstHigh(h, step, startTime, endTime),
                           Below(h, startTime);
      && j <= t
      && Download(server, step, startTime, endTime)
         == if j < t then Except(h, s, j, SkippedBelow(h, s, j)) + h[j..t] else []
  {
    var j, t, s := FirstLow(h, step, startTime, endTime), FirstHigh(h, step, startTime, endTime), Below(h, startTime);
    DownloadIsExcept(server, h, step, startTime, endTime);
    if j < t {
      LostIsSkipped(h, step, startTime, j);
      StopSpec(h, step, startTime, j);
      DenseIsBridged(h, step, s, j);
    }
  }

  /**
   When nothing is lost, in terms of the number of candles involved: a short range must not
   hold LIMIT + 1 candles unless its start is left open; in a long one the first page must stay
   inside the range and leave at most LIMIT candles below it.
   */
  ghost predicate DenseComplete(h: seq<Candle>, step: int, startTime: int, endTime: int) {
    var s, k := Below(h, startTime), Below(h, endTime + 1);
    var j := if k > LIMIT then k - LIMIT else 0;
    || startTime > endTime
    || (!LongRange(step, startTime, endTime) && (startTime <= 0 || k - s <= LIMIT))
    || (LongRange(step, startTime, endTime) && s <= j && (s + LIMIT < j ==> Time(h, j - LIMIT - 1) <= 0))
  }

  /** Nothing is lost exactly when the first window below h[j] is not a full one. */
  lemma NothingLostIff(h: seq<Candle>, step: int, startTime: int, j: nat)
    requires Grid(h, step) && Below(h, startTime) <= j < |h|
    ensures Lost(h, step, startTime, j) == {} <==> !FullWindow(h, step, Below(h, startTime), j)
  {
    var i, s := Low(h, step, startTime, j), Below(h, startTime);
    PageShape(h, step, startTime, j);
    DenseWindow(h, step, startTime, j);
    if FullWindow(h, step, s, j) {
      assert Gap(h, j - 1) == step;
      assert j - 1 in Lost(h, step, startTime, j);
    } else if i < j {
      FewLost(h, step, startTime, i);
    }
  }

  /** The download equals the reference filter of [startTime, endTime] exactly when DenseComplete holds. */
  lemma DownloadIsRangeIffComplete(server: Server, h: seq<Candle>, step: int, startTime: int, endTime: int)
    requires Grid(h, step)
    requires Honest(server) && ServesForward(server, h)
    ensures Download(server, step, startTime, endTime) == Between(h, startTime, endTime)
       <==> DenseComplete(h, step, startTime, endTime)
  {
    SpotForward.DownloadIsRangeIffComplete(server, h, step, startTime, endTime);
    var s, j := Below(h, startTime), FirstLow(h, step, startTime, endTime);
    if LongRange(step, startTime, endTime) && s <= j < |h| {
      DenseIsBridged(h, step, s, j);
      NothingLostIff(h, step, startTime, j);
      DenseWindow(h, step, startTime, j);
    }
  }

  /** From 1000 intervals after h[s] on, and for less than another one, there are 1001 candles. */
  lemma ThousandBelow(h: seq<Candle>, step: int, s: nat, t: int)
    requires Grid(h, step) && s + 1000 < |h|
    requires Time(h, s) + 1000 * step < t <= Time(h, s) + 1001 * step
    ensures Below(h, t) == s + 1001
  {
    DenseSpan(h, step, s, 1000);
    if s + 1001 < |h| { DenseSpan(h, step, s, 1001); }
    BelowAt(h, t, s + 1001);
  }

  lemma ThousandBetween(h: seq<Candle>, step: int, s: nat, endTime: int)
    requires Grid(h, step) && s + 1000 < |h|
    requires Time(h, s) + 1000 * step <= endTime < Time(h, s) + 1001 * step
    ensures Below(h, Time(h, s)) == s && Below(h, endTime + 1) == s + 1001
    ensures Between(h, Time(h, s), endTime) == h[s..s + 1001]
  {
    BelowOwn(h, s);
    ThousandBelow(h, step, s, endTime + 1);
    BetweenIsSlice(h, Time(h, s), endTime);
  }

  lemma LittleMore(h: seq<Candle>, step: int, startTime: int, endTime: int)
    requires LongRange(step, startTime, endTime) && Below(h, endTime + 1) == Below(h, startTime) + 1001
    ensures DenseComplete(h, step, startTime, endTime)
  {
  }

  /**
   A range of exactly 1000 intervals that opens on a candle holds 1001; the request names its start, so
   the newest candle does not come back.
   */
  lemma ThousandIntervals(server: Server, h: seq<Candle>, step: int, s: nat)
    requires Grid(h, step) && s + 1000 < |h| && Time(h, s) > 0
    requires Honest(server) && ServesForward(server, h)
    ensures Between(h, Time(h, s), Time(h, s) + 1000 * step) == h[s..s + 1001]
    ensures Download(server, step, Time(h, s), Time(h, s) + 1000 * step) == h[s..s + 1000]
  {
    ThousandBetween(h, step, s, Time(h, s) + 1000 * step);
    DownloadIsExcept(server, h, step, Time(h, s), Time(h, s) + 1000 * step);
    StopSpec(h, step, Time(h, s), s);
    assert Except(h, s, s, Lost(h, step, Time(h, s), s)) == [];
  }

  /** When the range is longer by a millisecond or more, the start is left out and all 1001 come back. */
  lemma OverThousandIntervals(server: Server, h: seq<Candle>, step: int, s: nat, endTime: int)
    requires Grid(h, step) && s + 1000 < |h|
    requires Time(h, s) + 1000 * step < endTime < Time(h, s) + 1001 * step
    requires Honest(server) && ServesForward(server, h)
    ensures Between(h, Time(h, s), endTime) == h[s..s + 1001]
    ensures Download(server, step, Time(h, s), endTime) == h[s..s + 1001]
  {
    ThousandBetween(h, step, s, endTime);
    LittleMore(h, step, Time(h, s), endTime);
    DownloadIsRangeIffComplete(server, h, step, Time(h, s), endTime);
  }

  /** 2002 one-minute candles without a gap. */
  function FullHistory(quote: Quote): seq<Candle> {
    seq(2002, i => Candle(60000 * (i + 1), quote))
  }

  /** Asking for all of them loses one: the newest of the window below the first page. */
  lemma FullWindowLosesCandle(server: Server, quote: Quote)
    requires ServesForward(server, FullHistory(quote)) && Honest(server)
    ensures Grid(FullHistory(quote), 60000)
    ensures Download(server, 60000, 60000, 2002 * 60000) != Between(FullHistory(quote), 60000, 2002 * 60000)
  {
    var h := FullHistory(quote);
    forall i: nat, j: nat | i < j < |h| ensures Apart(h, 60000, i, j) && Before(h, i, j) { }
    forall i: nat | i + 1 < |h| ensures Gap(h, i) == 60000 { }
    DownloadIsRangeIffComplete(server, h, 60000, 60000, 2002 * 60000);
    BelowAt(h, 60000, 0);
    BelowAt(h, 2002 * 60000 + 1, 2002);
  }
}
