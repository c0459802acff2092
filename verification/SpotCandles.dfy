/**
 The spot candle downloader: the request rules, the backward pagination loop, and
 the page sequence that specifies the loop. A server is any function from
 requests to pages; the theorems about particular servers are in SpotSuffix and SpotForward.
 */
module SpotCandles {
  import opened Common
  import opened History

  datatype CandleInterval =
    | Min1 | Min5 | Min15 | Min30 | Min60 | Hour4 | Hour8 | Day1 | Week1 | Month1
    | Unlisted(code: int)

  /** Milliseconds in an interval; a month counts as 30 days and an unlisted value as nothing. */
  function NumberOfMs(interval: CandleInterval): int {
    match interval
    case Min1 => 60000
    case Min5 => 60000 * 5
    case Min15 => 60000 * 15
    case Min30 => 60000 * 30
    case Min60 => 60000 * 60
    case Hour4 => 60000 * 240
    case Hour8 => 60000 * 480
    case Day1 => 86400000
    case Week1 => 86400000 * 7
    case Month1 => 86400000 * 30
    case Unlisted(_) => 0
  }

  /** The text that names an interval in a request. */
  function SpotString(interval: CandleInterval): string {
    match interval
    case Min1 => "1m"
    case Min5 => "5m"
    case Min15 => "15m"
    case Min30 => "30m"
    case Min60 => "60m"
    case Hour4 => "4h"
    case Hour8 => "8h"
    case Day1 => "1d"
    case Week1 => "1W"
    case Month1 => "1M"
    case Unlisted(_) => ""
  }

  /** The number that a text of decimal digits stands for. */
  function Decimal(digits: string): int {
    if digits == "" then 0
    else 10 * Decimal(digits[..|digits| - 1]) + (digits[|digits| - 1] as int - '0' as int)
  }

  /** Milliseconds in a unit of time: minutes, hours, days, weeks, and months of 30 days. */
  function UnitMs(unit: char): int {
    if unit == 'm' then 60 * 1000
    else if unit == 'h' then 60 * 60 * 1000
    else if unit == 'd' then 24 * 60 * 60 * 1000
    else if unit == 'W' then 7 * 24 * 60 * 60 * 1000
    else if unit == 'M' then 30 * 24 * 60 * 60 * 1000
    else 0
  }

  /** The length that a text such as "15m" names: a number of units. */
  function NamedLength(text: string): int {
    if text == "" then 0 else Decimal(text[..|text| - 1]) * UnitMs(text[|text| - 1])
  }

  /** The step between requests is the length of the candles asked for. */
  lemma StepIsNamedLength(interval: CandleInterval)
    ensures NumberOfMs(interval) == NamedLength(SpotString(interval))
  {
    var text := SpotString(interval);
    if text != "" {
      DecimalOfOne(text[0]);
      if |text| == 3 { DecimalOfTwo(text[0], text[1]); }
      assert text[..|text| - 1] == if |text| == 3 then [text[0], text[1]] else [text[0]];
    }
  }

  /** The ten lengths, by the names of the intervals. */
  lemma ListedLengths()
    ensures NumberOfMs(Min1) == 60_000 && NumberOfMs(Min5) == 300_000 && NumberOfMs(Min15) == 900_000
    ensures NumberOfMs(Min30) == 1_800_000 && NumberOfMs(Min60) == 3_600_000
    ensures NumberOfMs(Hour4) == 14_400_000 && NumberOfMs(Hour8) == 28_800_000
    ensures NumberOfMs(Day1) == 86_400_000 && NumberOfMs(Week1) == 604_800_000 && NumberOfMs(Month1) == 2_592_000_000
  {
  }

  lemma DecimalOfOne(c: char)
    ensures Decimal([c]) == c as int - '0' as int
  {
    assert [c][..0] == "";
  }

  lemma DecimalOfTwo(c: char, d: char)
    ensures Decimal([c, d]) == 10 * (c as int - '0' as int) + (d as int - '0' as int)
  {
    assert [c, d][..1] == [c];
    DecimalOfOne(c);
  }

  /** Different intervals are asked for under different names. */
  lemma NamesDiffer(a: CandleInterval, b: CandleInterval)
    requires a != b && !a.Unlisted?
    ensures SpotString(a) != SpotString(b)
  {
    var s, t := SpotString(a), SpotString(b);
    assert |s| == |t| ==> s[0] != t[0] || s[|s| - 1] != t[|t| - 1] || |s| == 3;
  }

  const LIMIT: int := 1000

  /** The longest range a first request covers with an explicit start time. */
  function MaxRange(step: int): int { LIMIT * step }

  /** A range too long for one page. */
  predicate LongRange(step: int, startTime: int, endTime: int) { endTime - startTime > MaxRange(step) }

  /** What one request carries. A missing start time leaves the window open below; a missing limit means 500. */
  datatype Request = Request(startTime: Option<int>, endTime: int, limit: Option<nat>)

  function MakeRequest(startTime: int, endTime: int, limit: nat): Request {
    Request(if startTime > 0 then Some(startTime) else None, endTime, if limit != 500 then Some(limit) else None)
  }

  type Server = Request -> seq<Candle>

  /** The servers of one symbol: the text sent as "interval" picks the candles that are answered with. */
  type Exchange = string -> Server

  ghost predicate InWindow(r: Request, page: seq<Candle>) {
    forall i :: 0 <= i < |page| ==>
      page[i].openTime <= r.endTime && (r.startTime.Some? ==> r.startTime.value <= page[i].openTime)
  }

  ghost predicate HonestAt(server: Server, r: Request) { InWindow(r, server(r)) }

  /** The server answers with candles of the requested window only. */
  ghost predicate Honest(server: Server) {
    forall r :: HonestAt(server, r)
  }

  /** The first request: open below when the range is longer than one page can hold, none when the range is empty. */
  function FirstRequest(step: int, startTime: int, endTime: int): Option<Request> {
    if startTime > endTime then None
    else if LongRange(step, startTime, endTime) then Some(MakeRequest(0, endTime, LIMIT))
    else Some(MakeRequest(startTime, endTime, LIMIT))
  }

  /** The request after a page whose oldest candle opened at `oldest`. */
  function NextRequest(step: int, startTime: int, oldest: int): Option<Request> {
    var currentEndTime := oldest - step;
    if startTime > currentEndTime then None
    else Some(MakeRequest(Max(startTime, currentEndTime - MaxRange(step)), currentEndTime, LIMIT))
  }

  function Ask(server: Server, r: Option<Request>): seq<Candle> {
    if r.None? then [] else server(r.value)
  }

  ghost function Depth(r: Option<Request>, startTime: int): nat {
    if r.None? then 0 else Max(0, r.value.endTime - startTime) + 1
  }

  /** The pages written, in order of arrival, when `r` is the next request. */
  ghost function Pages(server: Server, step: int, startTime: int, r: Option<Request>): seq<seq<Candle>>
    requires Honest(server) && step > 0
    requires r.Some? ==> startTime <= r.value.endTime
    decreases Depth(r, startTime)
  {
    var page := Ask(server, r);
    if page == [] then []
    else
      assert HonestAt(server, r.value);
      [page] + Pages(server, step, startTime, NextRequest(step, startTime, page[0].openTime))
  }

  /** The requests sent, in order, when `r` is the next one. */
  ghost function Requests(server: Server, step: int, startTime: int, r: Option<Request>): seq<Request>
    requires Honest(server) && step > 0
    requires r.Some? ==> startTime <= r.value.endTime
    decreases Depth(r, startTime)
  {
    if r.None? then []
    else
      var page := server(r.value);
      if page == [] then [r.value]
      else
        assert HonestAt(server, r.value);
        [r.value] + Requests(server, step, startTime, NextRequest(step, startTime, page[0].openTime))
  }

  /** What the rest of a download brings goes in front of the page at hand. */
  lemma MergedPages(server: Server, step: int, startTime: int, r: Option<Request>)
    requires Honest(server) && step > 0
    requires r.Some? ==> startTime <= r.value.endTime
    ensures var page := Ask(server, r);
      && (page == [] ==> Merged(Pages(server, step, startTime, r)) == [])
      && (page != [] ==>
            Merged(Pages(server, step, startTime, r))
            == Merged(Pages(server, step, startTime, NextRequest(step, startTime, page[0].openTime))) + page)
  {
    var page := Ask(server, r);
    if page != [] {
      assert HonestAt(server, r.value);
      MergedFirst(page, Pages(server, step, startTime, NextRequest(step, startTime, page[0].openTime)));
    }
  }

  lemma RequestsUnfold(server: Server, step: int, startTime: int, r: Request)
    requires Honest(server) && step > 0 && startTime <= r.endTime
    ensures server(r) == [] ==> Requests(server, step, startTime, Some(r)) == [r]
    ensures server(r) != [] ==>
              Requests(server, step, startTime, Some(r))
              == [r] + Requests(server, step, startTime, NextRequest(step, startTime, server(r)[0].openTime))
  {
    assert HonestAt(server, r);
  }

  /** What a download returns. */
  ghost function Download(server: Server, step: int, startTime: int, endTime: int): seq<Candle>
    requires Honest(server) && step > 0
  {
    Merged(Pages(server, step, startTime, FirstRequest(step, startTime, endTime)))
  }

  /** One turn of the loop, seen from both logs; the end time of the request after falls. */
  lemma AfterPage(server: Server, step: int, startTime: int, r: Request, written: seq<seq<Candle>>, sent: seq<Request>)
    returns (next: Option<Request>)
    requires Honest(server) && step > 0 && startTime <= r.endTime && server(r) != []
    ensures next == NextRequest(step, startTime, server(r)[0].openTime)
    ensures next.Some? ==> startTime <= next.value.endTime
    ensures Depth(next, startTime) < Depth(Some(r), startTime)
    ensures written + Pages(server, step, startTime, Some(r))
         == (written + [server(r)]) + Pages(server, step, startTime, next)
    ensures sent + Requests(server, step, startTime, Some(r))
         == (sent + [r]) + Requests(server, step, startTime, next)
  {
    assert HonestAt(server, r);
    next := NextRequest(step, startTime, server(r)[0].openTime);
    RequestsUnfold(server, step, startTime, r);
    Regroup(written, server(r), Pages(server, step, startTime, next));
    Regroup(sent, r, Requests(server, step, startTime, next));
  }

  /**
   RESTClient::getHistoricalPrices. `written` is what the writer callback received and
   `sent` the requests that went out, both in order. It ends for every honest server,
   because the end time of successive requests falls by at least one interval.
   */
  method GetHistoricalPrices(exchange: Exchange, interval: CandleInterval, startTime: int, endTime: int)
    returns (retVal: seq<Candle>, written: seq<seq<Candle>>, sent: seq<Request>)
    requires Honest(exchange(SpotString(interval))) && !interval.Unlisted?
    ensures var server, step := exchange(SpotString(interval)), NumberOfMs(interval);
      && written == Pages(server, step, startTime, FirstRequest(step, startTime, endTime))
      && sent == Requests(server, step, startTime, FirstRequest(step, startTime, endTime))
    ensures retVal == Merged(written)
         == Download(exchange(SpotString(interval)), NumberOfMs(interval), startTime, endTime)
  {
    var server := exchange(SpotString(interval));
    var currentEndTime := endTime;
    var candles: seq<Candle> := [];
    var intervalMs := NumberOfMs(interval);
    retVal, written, sent := [], [], [];
    ghost var first := FirstRequest(intervalMs, startTime, endTime);
    ghost var r, answered := first, [];

    if startTime <= currentEndTime {
      var rangeMs := currentEndTime - startTime;
      var request := if rangeMs > MaxRange(intervalMs) then MakeRequest(0, currentEndTime, LIMIT)
                     else MakeRequest(startTime, currentEndTime, LIMIT);
      sent := sent + [request];
      candles := server(request);
    }
    while candles != []
      invariant r.Some? ==> startTime <= r.value.endTime
      invariant candles == Ask(server, r)
      invariant Pages(server, intervalMs, startTime, first) == written + Pages(server, intervalMs, startTime, r)
      invariant sent == answered + (if r.Some? then [r.value] else [])
      invariant Requests(server, intervalMs, startTime, first) == answered + Requests(server, intervalMs, startTime, r)
      invariant retVal == Merged(written)
      decreases Depth(r, startTime), |candles|
    {
      var oldestTimestamp := candles[0].openTime;
      ghost var next := AfterPage(server, intervalMs, startTime, r.value, written, answered);
      answered := sent;
      written := written + [candles];
      retVal := candles + retVal;
      currentEndTime := oldestTimestamp - intervalMs;
      candles := [];
      r := next;
      if startTime <= currentEndTime {
        var batchStartTime := Max(startTime, currentEndTime - MaxRange(intervalMs));
        var request := MakeRequest(batchStartTime, currentEndTime, LIMIT);
        sent := sent + [request];
        candles := server(request);
      }
    }
  }

  /**
   Every honest server whose pages are ascending: the download is strictly ascending, so free
   of duplicates, and holds nothing after endTime. When the first request names its start time,
   it holds nothing before startTime either.
   */
  lemma DownloadIsAscending(server: Server, step: int, startTime: int, endTime: int)
    requires Honest(server) && step > 0
    requires forall r :: Ascending(server(r))
    ensures var all := Download(server, step, startTime, endTime);
      && Ascending(all)
      && (forall i :: 0 <= i < |all| ==> all[i].openTime <= endTime)
      && (0 < startTime && !LongRange(step, startTime, endTime) ==>
            forall i :: 0 <= i < |all| ==> startTime <= all[i].openTime)
  {
    PagesAreAscending(server, step, startTime, FirstRequest(step, startTime, endTime));
  }

  lemma {:induction false} PagesAreAscending(server: Server, step: int, startTime: int, r: Option<Request>)
    requires Honest(server) && step > 0
    requires forall r :: Ascending(server(r))
    requires r.Some? ==> startTime <= r.value.endTime
    ensures var all := Merged(Pages(server, step, startTime, r));
      && Ascending(all)
      && (forall i :: 0 <= i < |all| ==> r.Some? && all[i].openTime <= r.value.endTime)
      && (r.Some? && r.value.startTime.Some? && 0 < startTime <= r.value.startTime.value ==>
            forall i :: 0 <= i < |all| ==> startTime <= all[i].openTime)
    decreases Depth(r, startTime)
  {
    var page := Ask(server, r);
    MergedPages(server, step, startTime, r);
    if page != [] {
      assert HonestAt(server, r.value);
      assert Ascending(server(r.value));
      var older := NextRequest(step, startTime, page[0].openTime);
      PagesAreAscending(server, step, startTime, older);
      AscendingJoin(Merged(Pages(server, step, startTime, older)), page);
    }
  }

  /** Answers every request with the one candle that opens at its end time. */
  function LatestOnlyServer(quote: Quote): Server {
    (r: Request) => if r.startTime.None? || r.startTime.value <= r.endTime then [Candle(r.endTime, quote)] else []
  }

  /** With the step of an unlisted interval the loop can ask the same request for ever, so it needs a listed one. */
  lemma UnlistedIntervalRepeats(code: int, startTime: int, endTime: int, quote: Quote)
    requires startTime <= endTime
    ensures var step := NumberOfMs(Unlisted(code));
      var r := NextRequest(step, startTime, endTime);
      && Honest(LatestOnlyServer(quote))
      && r.Some?
      && LatestOnlyServer(quote)(r.value) != []
      && NextRequest(step, startTime, LatestOnlyServer(quote)(r.value)[0].openTime) == r
  {
    forall r ensures HonestAt(LatestOnlyServer(quote), r) { }
  }
}
