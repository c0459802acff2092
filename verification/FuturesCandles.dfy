/**
 The futures candle downloader: column responses turned into rows, the backward pagination
 loop in seconds, and the connector call in milliseconds that wraps it.
 */
module FuturesCandles {
  import opened Common
  import opened History

  /** A candle response: one column per field, times in seconds. */
  datatype Columns = Columns(time: Option<seq<int>>, open: seq<real>, high: seq<real>, low: seq<real>,
                             close: seq<real>, vol: seq<real>, amount: seq<real>)

  function Times(c: Columns): seq<int> { if c.time.None? then [] else c.time.value }

  /** Every column is at least as long as the time column. */
  predicate WellShaped(c: Columns) {
    var n := |Times(c)|;
    n <= |c.open| && n <= |c.high| && n <= |c.low| && n <= |c.close| && n <= |c.vol| && n <= |c.amount|
  }

  function Row(c: Columns, i: nat): Candle
    requires WellShaped(c) && i < |Times(c)|
  {
    Candle(Times(c)[i] * 1000, Quote(c.open[i], c.high[i], c.low[i], c.close[i], c.vol[i], c.amount[i]))
  }

  function Rows(c: Columns): seq<Candle> {
    if WellShaped(c) then seq(|Times(c)|, i requires 0 <= i < |Times(c)| => Row(c, i)) else []
  }

  /** Candles::fromJson. */
  method FromJson(c: Columns) returns (candles: seq<Candle>)
    requires WellShaped(c)
    ensures candles == Rows(c)
  {
    candles := [];
    if c.time.None? || c.time.value == [] { return; }
    var times := c.time.value;
    for i := 0 to |times|
      invariant candles == Rows(c)[..i]
    {
      var candle := Candle(times[i] * 1000, Quote(c.open[i], c.high[i], c.low[i], c.close[i], c.vol[i], c.amount[i]));
      candles := candles + [candle];
    }
  }

  function Column(rows: seq<Candle>, f: Candle -> real): seq<real> {
    seq(|rows|, i requires 0 <= i < |rows| => f(rows[i]))
  }

  /** The response that carries the given rows. */
  function ToColumns(rows: seq<Candle>): Columns {
    Columns(Some(seq(|rows|, i requires 0 <= i < |rows| => TruncDiv(rows[i].openTime, 1000))),
            Column(rows, (c: Candle) => c.quote.open), Column(rows, (c: Candle) => c.quote.high),
            Column(rows, (c: Candle) => c.quote.low), Column(rows, (c: Candle) => c.quote.close),
            Column(rows, (c: Candle) => c.quote.volume), Column(rows, (c: Candle) => c.quote.amount))
  }

  predicate OnSecond(h: seq<Candle>, i: nat)
    requires i < |h|
  {
    Time(h, i) % 1000 == 0
  }

  ghost predicate WholeSeconds(h: seq<Candle>) {
    forall i: nat :: i < |h| ==> OnSecond(h, i)
  }

  /** Reading a response gives back exactly the rows it was made from, when they open on whole seconds. */
  lemma RowsOfColumns(rows: seq<Candle>)
    ensures WholeSeconds(rows) <==> Rows(ToColumns(rows)) == rows
  {
    var c := ToColumns(rows);
    assert WellShaped(c) && |Rows(c)| == |rows|;
    forall i: nat | i < |rows| ensures Rows(c)[i] == rows[i] <==> OnSecond(rows, i) {
      assert Rows(c)[i] == Row(c, i);
    }
    if Rows(c) == rows {
      forall i: nat | i < |rows| ensures OnSecond(rows, i) { assert Rows(c)[i] == rows[i]; }
    }
  }

  /** One request, in seconds. */
  datatype Range = Range(start: int, end: int)

  type Server = Range -> Columns

  ghost predicate HonestAt(server: Server, r: Range) {
    WellShaped(server(r)) && forall t :: t in Times(server(r)) ==> r.start <= t <= r.end
  }

  ghost predicate Honest(server: Server) {
    forall r :: HonestAt(server, r)
  }

  function FirstRequest(startTime: int, endTime: int): Option<Range> {
    if startTime < endTime then Some(Range(startTime, endTime)) else None
  }

  /** The request after a page whose oldest candle opened at `oldest` milliseconds. */
  function NextRequest(startTime: int, oldest: int): Option<Range> {
    FirstRequest(startTime, TruncDiv(oldest, 1000) - 1)
  }

  function Ask(server: Server, r: Option<Range>): seq<Candle> {
    if r.None? then [] else Rows(server(r.value))
  }

  ghost function Depth(r: Option<Range>): nat {
    if r.None? then 0 else Max(0, r.value.end - r.value.start)
  }

  lemma DepthFalls(server: Server, r: Range)
    requires HonestAt(server, r) && r.start < r.end && Rows(server(r)) != []
    ensures Depth(NextRequest(r.start, Rows(server(r))[0].openTime)) < Depth(Some(r))
  {
    var t := Times(server(r))[0];
    assert t in Times(server(r)) && Rows(server(r))[0] == Row(server(r), 0);
    assert TruncDiv(t * 1000, 1000) == t;
  }

  /** The pages written, in order of arrival, when `r` is the next request. */
  ghost function Pages(server: Server, startTime: int, r: Option<Range>): seq<seq<Candle>>
    requires Honest(server)
    requires r.Some? ==> r.value.start == startTime < r.value.end
    decreases Depth(r)
  {
    var page := Ask(server, r);
    if page == [] then []
    else
      assert HonestAt(server, r.value);
      DepthFalls(server, r.value);
      [page] + Pages(server, startTime, NextRequest(startTime, page[0].openTime))
  }

  lemma MergedPages(server: Server, startTime: int, r: Option<Range>)
    requires Honest(server)
    requires r.Some? ==> r.value.start == startTime < r.value.end
    ensures var page := Ask(server, r);
      && (page == [] ==> Pages(server, startTime, r) == [])
      && (page != [] ==>
            Pages(server, startTime, r) == [page] + Pages(server, startTime, NextRequest(startTime, page[0].openTime)))
      && (page != [] ==>
            Merged(Pages(server, startTime, r))
            == Merged(Pages(server, startTime, NextRequest(startTime, page[0].openTime))) + page)
  {
    var page := Ask(server, r);
    if page != [] {
      assert HonestAt(server, r.value);
      DepthFalls(server, r.value);
      MergedFirst(page, Pages(server, startTime, NextRequest(startTime, page[0].openTime)));
    }
  }

  /** One turn of the loop; the range of the request after is shorter. */
  lemma AfterPage(server: Server, startTime: int, r: Range, written: seq<seq<Candle>>) returns (next: Option<Range>)
    requires Honest(server) && r.start == startTime < r.end && Rows(server(r)) != []
    ensures next == NextRequest(startTime, Rows(server(r))[0].openTime)
    ensures Depth(next) < Depth(Some(r))
    ensures written + Pages(server, startTime, Some(r))
         == (written + [Rows(server(r))]) + Pages(server, startTime, next)
  {
    assert HonestAt(server, r);
    DepthFalls(server, r);
    next := NextRequest(startTime, Rows(server(r))[0].openTime);
    MergedPages(server, startTime, Some(r));
    Regroup(written, Rows(server(r)), Pages(server, startTime, next));
  }

  /** What a download returns: everything collected but the newest candle. */
  ghost function Download(server: Server, startTime: int, endTime: int): seq<Candle>
    requires Honest(server)
  {
    DropNewest(Merged(Pages(server, startTime, FirstRequest(startTime, endTime))))
  }

  /**
   RESTClient::getHistoricalPrices; `written` is what the writer callback received, in order. When the
   server holds the history h, the result is everything of it in range but the newest candle.
   */
  method GetHistoricalPrices(server: Server, startTime: int, endTime: int, ghost h: seq<Candle>, ghost cap: nat)
    returns (retVal: seq<Candle>, written: seq<seq<Candle>>)
    requires Honest(server)
    ensures written == Pages(server, startTime, FirstRequest(startTime, endTime))
    ensures retVal == DropNewest(Merged(written)) == Download(server, startTime, endTime)
    ensures Recorded(h) && ServesNewest(server, h, cap) && cap > 0 ==>
              AllButNewest(retVal, h, 1000 * startTime, 1000 * endTime)
  {
    var currentEndTime := endTime;
    var candles: seq<Candle> := [];
    retVal, written := [], [];
    ghost var first := FirstRequest(startTime, endTime);
    ghost var r := first;
    if startTime < currentEndTime {
      candles := Fetch(server, Range(startTime, currentEndTime));
    }
    while candles != []
      invariant r.Some? ==> r.value.start == startTime < r.value.end
      invariant candles == Ask(server, r)
      invariant Pages(server, startTime, first) == written + Pages(server, startTime, r)
      invariant retVal == Merged(written)
      decreases Depth(r), |candles|
    {
      var oldestTimestamp := candles[0].openTime;
      r := AfterPage(server, startTime, r.value, written);
      written := written + [candles];
      retVal := candles + retVal;
      currentEndTime := TruncDiv(oldestTimestamp, 1000) - 1;
      candles := [];
      if startTime < currentEndTime {
        candles := Fetch(server, Range(startTime, currentEndTime));
      }
    }
    MergedPages(server, startTime, r);
    assert written == Pages(server, startTime, first);
    if retVal != [] {
      retVal := retVal[..|retVal| - 1];
    }
    if Recorded(h) && ServesNewest(server, h, cap) && cap > 0 { AllInRange(server, h, cap, startTime, endTime); }
  }

  /** One request and the reading of its response. */
  method Fetch(server: Server, r: Range) returns (candles: seq<Candle>)
    requires Honest(server)
    ensures candles == Rows(server(r))
  {
    assert HonestAt(server, r);
    candles := FromJson(server(r));
  }

  ghost predicate AnswersNewest(server: Server, h: seq<Candle>, cap: nat, r: Range) {
    HonestAt(server, r) && Rows(server(r)) == Newest(cap, Between(h, 1000 * r.start, 1000 * r.end))
  }

  /** Suffix contract: every request is answered with the newest `cap` candles of its range. */
  ghost predicate ServesNewest(server: Server, h: seq<Candle>, cap: nat) {
    forall r :: AnswersNewest(server, h, cap, r)
  }

  /** A futures history: candles on whole seconds, at least two seconds apart. */
  ghost predicate Recorded(h: seq<Candle>) {
    Spaced(h, 2000) && Ascending(h) && WholeSeconds(h)
  }

  lemma SecondBelow(h: seq<Candle>, j: nat)
    requires WholeSeconds(h) && j < |h|
    ensures Time(h, j) == 1000 * (TruncDiv(Time(h, j), 1000) - 1) + 1000
  {
    assert OnSecond(h, j);
  }

  /** Ending one second before h[j] leaves out nothing older than it. */
  lemma WindowBelow(h: seq<Candle>, startTime: int, endTime: int, j: nat)
    requires Recorded(h) && Below(h, 1000 * startTime) <= j < |h|
    requires Time(h, j) == 1000 * endTime + 1000
    ensures startTime < endTime ==> Between(h, 1000 * startTime, 1000 * endTime) == h[Below(h, 1000 * startTime)..j]
    ensures startTime >= endTime ==> j == Below(h, 1000 * startTime)
  {
    if j > 0 {
      assert Apart(h, 2000, j - 1, j);
      BelowIff(h, 1000 * startTime, j - 1);
    }
    if startTime < endTime {
      BetweenIsSlice(h, 1000 * startTime, 1000 * endTime);
      BelowAt(h, 1000 * endTime + 1, j);
    }
  }

  lemma PageOf(server: Server, h: seq<Candle>, cap: nat, r: Range, s: nat, j: nat)
    requires ServesNewest(server, h, cap) && s <= j <= |h|
    requires Between(h, 1000 * r.start, 1000 * r.end) == h[s..j]
    ensures Rows(server(r)) == h[if j - s > cap then j - cap else s..j]
  {
    assert AnswersNewest(server, h, cap, r);
    NewestOfSlice(h, cap, s, j);
  }

  /** The page fetched below h[j]. */
  lemma PageBelow(server: Server, h: seq<Candle>, cap: nat, startTime: int, j: nat)
    requires Recorded(h) && ServesNewest(server, h, cap)
    requires Below(h, 1000 * startTime) <= j < |h|
    ensures Ask(server, NextRequest(startTime, Time(h, j)))
         == h[if j - Below(h, 1000 * startTime) > cap then j - cap else Below(h, 1000 * startTime)..j]
  {
    var s, endTime := Below(h, 1000 * startTime), TruncDiv(Time(h, j), 1000) - 1;
    SecondBelow(h, j);
    WindowBelow(h, startTime, endTime, j);
    if startTime < endTime { PageOf(server, h, cap, Range(startTime, endTime), s, j); }
  }

  /** A request answered by h[j..k], and everything after it, collects all of the range up to h[k]. */
  lemma {:induction false} Collect(server: Server, h: seq<Candle>, cap: nat, startTime: int,
                                   r: Option<Range>, j: nat, k: nat)
    requires Recorded(h) && Honest(server) && ServesNewest(server, h, cap) && cap > 0
    requires r.Some? ==> r.value.start == startTime < r.value.end
    requires Below(h, 1000 * startTime) <= j <= k <= |h|
    requires Ask(server, r) == h[j..k]
    ensures Merged(Pages(server, startTime, r)) == if j < k then h[Below(h, 1000 * startTime)..k] else []
    decreases j, k
  {
    var s := Below(h, 1000 * startTime);
    MergedPages(server, startTime, r);
    if j < k {
      assert h[j..k][0].openTime == Time(h, j);
      PageBelow(server, h, cap, startTime, j);
      Collect(server, h, cap, startTime, NextRequest(startTime, Time(h, j)), if j - s > cap then j - cap else s, j);
      SplitSlice(h, s, j, k);
    }
  }

  /**
   Every range, empty and reversed ones included: the download is exactly the recorded candles
   of [startTime, endTime] without the newest one.
   */
  lemma DownloadIsRange(server: Server, h: seq<Candle>, cap: nat, startTime: int, endTime: int)
    requires Recorded(h) && Honest(server) && ServesNewest(server, h, cap) && cap > 0
    ensures Download(server, startTime, endTime) == DropNewest(Between(h, 1000 * startTime, 1000 * endTime))
  {
    BetweenIsSlice(h, 1000 * startTime, 1000 * endTime);
    if startTime < endTime {
      var s, k := Below(h, 1000 * startTime), Below(h, 1000 * endTime + 1);
      var r := Range(startTime, endTime);
      PageOf(server, h, cap, r, s, k);
      Collect(server, h, cap, startTime, Some(r), if k - s > cap then k - cap else s, k);
    } else {
      MergedPages(server, startTime, None);
      AtMostOne(h, 1000 * startTime, 1000 * endTime);
    }
  }

  /** The same from the history alone: a candle comes back when it is in range and a newer one is too. */
  lemma AllInRange(server: Server, h: seq<Candle>, cap: nat, startTime: int, endTime: int)
    requires Recorded(h) && Honest(server) && ServesNewest(server, h, cap) && cap > 0
    ensures AllButNewest(Download(server, startTime, endTime), h, 1000 * startTime, 1000 * endTime)
  {
    DownloadIsRange(server, h, cap, startTime, endTime);
    DropNewestBetween(h, 1000 * startTime, 1000 * endTime);
  }

  /** An empty or reversed range is not even asked for, whatever the server would say. */
  lemma NothingAsked(server: Server, startTime: int, endTime: int)
    requires Honest(server) && startTime >= endTime
    ensures Pages(server, startTime, FirstRequest(startTime, endTime)) == []
    ensures Download(server, startTime, endTime) == []
  {
    MergedPages(server, startTime, None);
  }

  /** A range shorter than two seconds holds at most one candle. */
  lemma AtMostOne(h: seq<Candle>, lo: int, hi: int)
    requires Recorded(h) && hi < lo + 2000
    ensures |Between(h, lo, hi)| <= 1
  {
    BetweenIsSlice(h, lo, hi);
    if lo <= hi {
      var s := Below(h, lo);
      if s + 1 < |h| {
        assert Apart(h, 2000, s, s + 1);
        BelowIff(h, hi + 1, s + 1);
      }
    }
  }

  /** The server that sends the right rows as columns. */
  function ColumnServer(h: seq<Candle>, cap: nat): Server {
    (r: Range) => ToColumns(Newest(cap, Between(h, 1000 * r.start, 1000 * r.end)))
  }

  lemma ContractCanBeMet(h: seq<Candle>, cap: nat)
    requires Ascending(h) && WholeSeconds(h)
    ensures ServesNewest(ColumnServer(h, cap), h, cap)
  {
    forall r: Range ensures AnswersNewest(ColumnServer(h, cap), h, cap, r) {
      var rows := Newest(cap, Between(h, 1000 * r.start, 1000 * r.end));
      RowsInRange(h, cap, r);
      RowsOfColumns(rows);
      forall t | t in Times(ToColumns(rows)) ensures r.start <= t <= r.end {
        var i: nat :| i < |rows| && t == TruncDiv(rows[i].openTime, 1000);
        assert 1000 * r.start <= Time(rows, i) <= 1000 * r.end;
      }
    }
  }

  lemma RowsInRange(h: seq<Candle>, cap: nat, r: Range)
    requires Ascending(h) && WholeSeconds(h)
    ensures var rows := Newest(cap, Between(h, 1000 * r.start, 1000 * r.end));
      WholeSeconds(rows) && forall i: nat :: i < |rows| ==> 1000 * r.start <= Time(rows, i) <= 1000 * r.end
  {
    var lo, hi := 1000 * r.start, 1000 * r.end;
    var rows := Newest(cap, Between(h, lo, hi));
    BetweenIsSlice(h, lo, hi);
    forall i: nat | i < |rows| ensures OnSecond(rows, i) && lo <= Time(rows, i) <= hi {
      var i' := i + Below(h, hi + 1) - |rows|;
      assert Time(rows, i) == Time(h, i') && OnSecond(h, i');
      BelowIff(h, lo, i');
      BelowIff(h, hi + 1, i');
    }
  }
}
