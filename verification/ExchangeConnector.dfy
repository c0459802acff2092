/** The connector's candle call: milliseconds in, seconds to the exchange, milliseconds out. */
module ExchangeConnector {
  import opened Common
  import opened History
  import opened FuturesCandles

  datatype Bar = Bar(openTime: int, open: real, high: real, low: real, close: real, volume: real)

  function ToBar(c: Candle): Bar {
    Bar(c.openTime, c.quote.open, c.quote.high, c.quote.low, c.quote.close, c.quote.volume)
  }

  function Bars(s: seq<Candle>): seq<Bar> {
    seq(|s|, i requires 0 <= i < |s| => ToBar(s[i]))
  }

  /** A bar with the time and the prices of a candle, and its volume. */
  predicate CopyOf(b: Bar, c: Candle) {
    && b.openTime == c.openTime
    && b.open == c.quote.open && b.high == c.quote.high && b.low == c.quote.low && b.close == c.quote.close
    && b.volume == c.quote.volume
  }

  /**
   What the caller gets, from the history alone: copies in ascending order of the candles that open less
   than a second before startTime or later, and that have a newer one up to endTime.
   */
  ghost predicate Answers(bars: seq<Bar>, h: seq<Candle>, startTime: int, endTime: int) {
    && (forall i, j :: 0 <= i < j < |bars| ==> bars[i].openTime < bars[j].openTime)
    && (forall b :: b in bars ==> exists c :: c in h && CopyOf(b, c))
    && (forall c :: c in h ==>
          ((exists b :: b in bars && CopyOf(b, c)) <==> startTime - 1000 < c.openTime && NewerUpTo(h, c, endTime)))
  }

  /** MEXCFuturesExchangeConnector::getHistoricalCandles. */
  method GetHistoricalCandles(server: Server, startTime: int, endTime: int, ghost h: seq<Candle>, ghost cap: nat)
    returns (retVal: seq<Bar>)
    requires Honest(server)
    ensures retVal == Bars(Download(server, TruncDiv(startTime, 1000), TruncDiv(endTime, 1000)))
    ensures Recorded(h) && SinceEpoch(h) && ServesNewest(server, h, cap) && cap > 0 ==>
              Answers(retVal, h, startTime, endTime)
  {
    var candles, _ := GetHistoricalPrices(server, TruncDiv(startTime, 1000), TruncDiv(endTime, 1000), h, cap);
    retVal := [];
    for i := 0 to |candles|
      invariant retVal == Bars(candles)[..i]
    {
      var c := candles[i];
      retVal := retVal + [Bar(c.openTime, c.quote.open, c.quote.high, c.quote.low, c.quote.close, c.quote.volume)];
    }
    if Recorded(h) && SinceEpoch(h) && ServesNewest(server, h, cap) && cap > 0 {
      BarsAnswer(server, h, cap, startTime, endTime);
    }
  }

  /** The range that is asked for, rounded to whole seconds and back in milliseconds. */
  function Rounded(t: int): (r: int)
    ensures t >= 0 ==> 0 <= r <= t < r + 1000
    ensures t < 0 ==> t <= r <= 0 && r < t + 1000
    ensures r % 1000 == 0 && (t % 1000 == 0 ==> r == t)
  {
    1000 * TruncDiv(t, 1000)
  }

  /**
   When rounding changes nothing: no candle opens in the part of startTime's second that comes
   before startTime, or it is the only one up to endTime and is dropped as the newest.
   */
  ghost predicate RoundingHarmless(h: seq<Candle>, startTime: int, endTime: int) {
    || Below(h, Rounded(startTime)) == Below(h, startTime)
    || Below(h, endTime + 1) <= Below(h, Rounded(startTime)) + 1
  }

  /** Rounding the end of the range to a whole second loses nothing. */
  lemma RoundedEnd(h: seq<Candle>, endTime: int)
    requires Recorded(h) && SinceEpoch(h)
    ensures endTime >= 0 ==> Below(h, Rounded(endTime) + 1) == Below(h, endTime + 1)
    ensures endTime < 0 ==> Below(h, endTime + 1) == 0
  {
    var e := Below(h, endTime + 1);
    if endTime < 0 {
      BelowAt(h, endTime + 1, 0);
    } else {
      var r := Rounded(endTime);
      if e > 0 {
        assert OnSecond(h, e - 1);
        assert Time(h, e - 1) <= r;
      }
      BelowAt(h, r + 1, e);
    }
  }

  /** Rounding the start can let one candle in. */
  lemma RoundedStart(h: seq<Candle>, startTime: int)
    requires Recorded(h) && SinceEpoch(h)
    ensures Below(h, Rounded(startTime)) <= Below(h, startTime) <= Below(h, Rounded(startTime)) + 1
    ensures startTime < 0 || startTime % 1000 == 0 ==> Below(h, Rounded(startTime)) == Below(h, startTime)
  {
    if startTime < 0 {
      BelowAt(h, startTime, 0);
      BelowAt(h, Rounded(startTime), 0);
    } else {
      var r := Below(h, Rounded(startTime));
      BelowMonotone(h, Rounded(startTime), startTime);
      if r + 1 < |h| {
        assert Apart(h, 2000, r, r + 1);
        BelowIff(h, startTime, r + 1);
      }
    }
  }

  /**
   End to end, every range: the connector returns the recorded candles from the start rounded
   to its second up to endTime, without the newest.
   */
  lemma CandlesOfRoundedRange(server: Server, h: seq<Candle>, cap: nat, startTime: int, endTime: int)
    requires Recorded(h) && SinceEpoch(h) && Honest(server) && ServesNewest(server, h, cap) && cap > 0
    ensures Download(server, TruncDiv(startTime, 1000), TruncDiv(endTime, 1000))
         == DropNewest(Between(h, Rounded(startTime), endTime))
  {
    DownloadIsRange(server, h, cap, TruncDiv(startTime, 1000), TruncDiv(endTime, 1000));
    SameUpTo(h, startTime, endTime);
  }

  /** End to end, every range, from the history alone. */
  lemma BarsAnswer(server: Server, h: seq<Candle>, cap: nat, startTime: int, endTime: int)
    requires Recorded(h) && SinceEpoch(h) && Honest(server) && ServesNewest(server, h, cap) && cap > 0
    ensures Answers(Bars(Download(server, TruncDiv(startTime, 1000), TruncDiv(endTime, 1000))), h, startTime, endTime)
  {
    CandlesOfRoundedRange(server, h, cap, startTime, endTime);
    DropNewestBetween(h, Rounded(startTime), endTime);
    CopiesAnswer(Download(server, TruncDiv(startTime, 1000), TruncDiv(endTime, 1000)), h, startTime, endTime);
  }

  lemma CopiesAnswer(s: seq<Candle>, h: seq<Candle>, startTime: int, endTime: int)
    requires Recorded(h) && SinceEpoch(h) && AllButNewest(s, h, Rounded(startTime), endTime)
    ensures Answers(Bars(s), h, startTime, endTime)
  {
    var bars := Bars(s);
    forall i: nat, j: nat | i < j < |bars| ensures bars[i].openTime < bars[j].openTime { assert Before(s, i, j); }
    forall b | b in bars ensures exists c :: c in h && CopyOf(b, c) {
      var i: nat :| i < |bars| && bars[i] == b;
      assert s[i] in h && CopyOf(b, s[i]);
    }
    forall c | c in h
      ensures (exists b :: b in bars && CopyOf(b, c)) <==> startTime - 1000 < c.openTime && NewerUpTo(h, c, endTime)
    {
      StartsWithin(h, c, startTime);
      CopiedIff(s, h, c);
    }
  }

  /** A candle has a copy among the bars exactly when it is one of the candles copied. */
  lemma CopiedIff(s: seq<Candle>, h: seq<Candle>, c: Candle)
    requires Ascending(h) && c in h && forall d :: d in s ==> d in h
    ensures (exists b :: b in Bars(s) && CopyOf(b, c)) <==> c in s
  {
    if c in s {
      var i: nat :| i < |s| && s[i] == c;
      assert Bars(s)[i] in Bars(s) && CopyOf(Bars(s)[i], c);
    }
    if b :| b in Bars(s) && CopyOf(b, c) {
      var i: nat :| i < |s| && Bars(s)[i] == b;
      assert s[i] in h && s[i].openTime == c.openTime;
      SameTimeSameCandle(h, s[i], c);
    }
  }

  lemma SameTimeSameCandle(h: seq<Candle>, c: Candle, d: Candle)
    requires Ascending(h) && c in h && d in h && c.openTime == d.openTime
    ensures c == d
  {
    var i: nat :| i < |h| && h[i] == c;
    var j: nat :| j < |h| && h[j] == d;
    assert i < j ==> Before(h, i, j);
    assert j < i ==> Before(h, j, i);
  }

  /** For whole seconds since the epoch, being past the rounded start is being past the last second before it. */
  lemma StartsWithin(h: seq<Candle>, c: Candle, startTime: int)
    requires Recorded(h) && SinceEpoch(h) && c in h
    ensures Rounded(startTime) <= c.openTime <==> startTime - 1000 < c.openTime
  {
    var i: nat :| i < |h| && h[i] == c;
    assert OnSecond(h, i) && 0 <= Time(h, i);
  }

  lemma SameUpTo(h: seq<Candle>, startTime: int, endTime: int)
    requires Recorded(h) && SinceEpoch(h)
    ensures DropNewest(Between(h, Rounded(startTime), Rounded(endTime)))
         == DropNewest(Between(h, Rounded(startTime), endTime))
  {
    var lo, hi := Rounded(startTime), Rounded(endTime);
    if endTime < 0 {
      NothingBeforeEpoch(h, lo, endTime);
      OnlyEpochCandle(h, lo, hi);
    } else {
      RoundedEnd(h, endTime);
      NoSecondBetween(lo, hi, endTime);
      SameEnd(h, lo, hi, endTime);
    }
  }

  lemma NoSecondBetween(lo: int, hi: int, t: int)
    requires lo % 1000 == 0 && hi % 1000 == 0 && t < hi + 1000
    ensures lo <= hi || lo > t
  {
  }

  lemma SameEnd(h: seq<Candle>, lo: int, hi: int, endTime: int)
    requires Ascending(h) && hi <= endTime && (lo <= hi || lo > endTime)
    requires Below(h, hi + 1) == Below(h, endTime + 1)
    ensures Between(h, lo, hi) == Between(h, lo, endTime)
  {
    BetweenIsSlice(h, lo, hi);
    BetweenIsSlice(h, lo, endTime);
  }

  lemma NothingBeforeEpoch(h: seq<Candle>, lo: int, hi: int)
    requires Recorded(h) && SinceEpoch(h) && hi < 0
    ensures Between(h, lo, hi) == []
  {
    BetweenIsSlice(h, lo, hi);
    BelowAt(h, hi + 1, 0);
  }

  lemma OnlyEpochCandle(h: seq<Candle>, lo: int, hi: int)
    requires Recorded(h) && SinceEpoch(h) && hi <= 0
    ensures |Between(h, lo, hi)| <= 1
  {
    BetweenIsSlice(h, lo, hi);
    if |h| > 1 {
      assert Apart(h, 2000, 0, 1);
      BelowIff(h, hi + 1, 1);
    }
  }

  /**
   The connector returns exactly the candles of [startTime, endTime] without the newest, if and only if
   rounding is harmless.
   */
  lemma CandlesAreRangeIff(server: Server, h: seq<Candle>, cap: nat, startTime: int, endTime: int)
    requires Recorded(h) && SinceEpoch(h) && Honest(server) && ServesNewest(server, h, cap) && cap > 0
    ensures Download(server, TruncDiv(startTime, 1000), TruncDiv(endTime, 1000))
            == DropNewest(Between(h, startTime, endTime))
       <==> RoundingHarmless(h, startTime, endTime)
    ensures startTime < 0 || startTime % 1000 == 0 ==> RoundingHarmless(h, startTime, endTime)
  {
    CandlesOfRoundedRange(server, h, cap, startTime, endTime);
    RoundedStart(h, startTime);
    StartRoundingIff(h, startTime, endTime);
  }

  lemma StartRoundingIff(h: seq<Candle>, startTime: int, endTime: int)
    requires Recorded(h) && SinceEpoch(h)
    ensures DropNewest(Between(h, Rounded(startTime), endTime)) == DropNewest(Between(h, startTime, endTime))
       <==> RoundingHarmless(h, startTime, endTime)
  {
    var r, s, k := Below(h, Rounded(startTime)), Below(h, startTime), Below(h, endTime + 1);
    RoundedStart(h, startTime);
    BetweenIsSlice(h, Rounded(startTime), endTime);
    BetweenIsSlice(h, startTime, endTime);
    if endTime < 0 {
      NothingBeforeEpoch(h, Rounded(startTime), endTime);
      NothingBeforeEpoch(h, startTime, endTime);
      BelowAt(h, endTime + 1, 0);
    } else if startTime > endTime {
      BelowMonotone(h, endTime + 1, startTime);
    } else if r < s && r + 1 < k {
      assert |DropNewest(h[r..k])| == k - 1 - r && |DropNewest(h[s..k])| == k - 1 - s;
    }
  }

  /** A start in the middle of a second brings back the candle that opened at the beginning of that second. */
  lemma StartInsideSecond(server: Server, cap: nat, quote: Quote)
    requires ServesNewest(server, [Candle(1000, quote), Candle(61000, quote)], cap) && Honest(server) && cap > 0
    ensures var h := [Candle(1000, quote), Candle(61000, quote)];
      && Recorded(h)
      && Download(server, TruncDiv(1500, 1000), TruncDiv(61000, 1000)) == [Candle(1000, quote)]
      && DropNewest(Between(h, 1500, 61000)) == []
  {
    var h := [Candle(1000, quote), Candle(61000, quote)];
    forall i: nat, j: nat | i < j < |h| ensures Apart(h, 2000, i, j) && Before(h, i, j) { }
    forall i: nat | i < |h| ensures OnSecond(h, i) { }
    CandlesOfRoundedRange(server, h, cap, 1500, 61000);
    BetweenIsSlice(h, Rounded(1500), 61000);
    BetweenIsSlice(h, 1500, 61000);
    BelowAt(h, Rounded(1500), 0);
    BelowAt(h, 1500, 1);
    BelowAt(h, 61001, 2);
  }
}
