/**
 Funding-rate history: pages of 1000 records, newest first, filtered by settle time as they
 come in, with an early stop, and sorted at the end.
 */
module FundingRates {
  import opened Common

  datatype HistoricalRate = HistoricalRate(symbol: string, fundingRate: real, settleTime: int)

  datatype FundingRate = FundingRate(symbol: string, fundingRate: real, fundingTime: int)

  datatype Page = Page(totalPage: int, resultList: seq<HistoricalRate>)

  const PAGE_SIZE: nat := 1000

  type Server = int -> Page

  function TotalPages(rates: seq<HistoricalRate>): nat { (|rates| + PAGE_SIZE - 1) / PAGE_SIZE }

  /** How many records the first `pages` pages hold. */
  function Covered(rates: seq<HistoricalRate>, pages: nat): (n: nat)
    ensures n <= |rates|
  {
    if pages * PAGE_SIZE <= |rates| then pages * PAGE_SIZE else |rates|
  }

  ghost predicate PagedAt(server: Server, rates: seq<HistoricalRate>, k: nat) {
    && server(k).totalPage == TotalPages(rates)
    && (k > 0 ==>
          Covered(rates, k - 1) <= Covered(rates, k)
          && server(k).resultList == rates[Covered(rates, k - 1)..Covered(rates, k)])
  }

  /** The server holds `rates` and hands them out in pages numbered from 1. */
  ghost predicate Paged(server: Server, rates: seq<HistoricalRate>) {
    forall k: nat :: PagedAt(server, rates, k)
  }

  function Converted(r: HistoricalRate): FundingRate { FundingRate(r.symbol, r.fundingRate, r.settleTime) }

  /** The reference answer: the records that settle within [startTime, endTime], in list order. */
  function InRange(rates: seq<HistoricalRate>, startTime: int, endTime: int): seq<FundingRate> {
    if rates == [] then []
    else
      var last := rates[|rates| - 1];
      InRange(rates[..|rates| - 1], startTime, endTime)
      + (if startTime <= last.settleTime <= endTime then [Converted(last)] else [])
  }

  lemma {:induction false} InRangeJoin(a: seq<HistoricalRate>, b: seq<HistoricalRate>, startTime: int, endTime: int)
    ensures InRange(a + b, startTime, endTime) == InRange(a, startTime, endTime) + InRange(b, startTime, endTime)
  {
    if b == [] {
      assert a + b == a;
    } else {
      var front, last := b[..|b| - 1], b[|b| - 1];
      InRangeJoin(a, front, startTime, endTime);
      assert (a + b)[..|a + b| - 1] == a + front && (a + b)[|a + b| - 1] == last;
      var kept := if startTime <= last.settleTime <= endTime then [Converted(last)] else [];
      var x, y := InRange(a, startTime, endTime), InRange(front, startTime, endTime);
      assert (x + y) + kept == x + (y + kept);
    }
  }

  /** The positions of the records that settle within [startTime, endTime]. */
  function Matches(rates: seq<HistoricalRate>, startTime: int, endTime: int): set<nat> {
    set i: nat | i < |rates| && startTime <= rates[i].settleTime <= endTime
  }

  /** Those of them that carry the symbol, the rate and the time of x. */
  function MatchesOf(rates: seq<HistoricalRate>, startTime: int, endTime: int, x: FundingRate): set<nat> {
    set i: nat | i < |rates| && startTime <= rates[i].settleTime <= endTime &&
                 rates[i].symbol == x.symbol && rates[i].fundingRate == x.fundingRate &&
                 rates[i].settleTime == x.fundingTime
  }

  /** One rate for each record in range, and none besides. */
  ghost predicate OneForEach(s: seq<FundingRate>, rates: seq<HistoricalRate>, startTime: int, endTime: int) {
    && |s| == |Matches(rates, startTime, endTime)|
    && forall x :: multiset(s)[x] == |MatchesOf(rates, startTime, endTime, x)|
  }

  lemma {:induction false} InRangeCounts(rates: seq<HistoricalRate>, startTime: int, endTime: int)
    ensures OneForEach(InRange(rates, startTime, endTime), rates, startTime, endTime)
  {
    if rates != [] {
      var front := rates[..|rates| - 1];
      InRangeCounts(front, startTime, endTime);
      MatchesStep(rates, startTime, endTime);
      forall x ensures multiset(InRange(rates, startTime, endTime))[x] == |MatchesOf(rates, startTime, endTime, x)| {
        MatchesOfStep(rates, startTime, endTime, x);
      }
    } else {
      assert Matches(rates, startTime, endTime) == {};
      assert forall x :: MatchesOf(rates, startTime, endTime, x) == {};
    }
  }

  lemma MatchesStep(rates: seq<HistoricalRate>, startTime: int, endTime: int)
    requires rates != []
    ensures var n := |rates| - 1;
      |Matches(rates, startTime, endTime)|
      == |Matches(rates[..n], startTime, endTime)| + if startTime <= rates[n].settleTime <= endTime then 1 else 0
  {
    var n := |rates| - 1;
    var before := Matches(rates[..n], startTime, endTime);
    assert n !in before;
    assert Matches(rates, startTime, endTime)
        == before + if startTime <= rates[n].settleTime <= endTime then {n} else {};
  }

  lemma MatchesOfStep(rates: seq<HistoricalRate>, startTime: int, endTime: int, x: FundingRate)
    requires rates != []
    ensures var n := |rates| - 1;
      |MatchesOf(rates, startTime, endTime, x)|
      == |MatchesOf(rates[..n], startTime, endTime, x)|
         + if startTime <= rates[n].settleTime <= endTime && Converted(rates[n]) == x then 1 else 0
  {
    var n := |rates| - 1;
    var before := MatchesOf(rates[..n], startTime, endTime, x);
    assert n !in before;
    assert MatchesOf(rates, startTime, endTime, x)
        == before + if startTime <= rates[n].settleTime <= endTime && Converted(rates[n]) == x then {n} else {};
  }

  /** Having one rate for each record in range is being an arrangement of the reference answer. */
  lemma OneForEachIff(s: seq<FundingRate>, rates: seq<HistoricalRate>, startTime: int, endTime: int)
    ensures OneForEach(s, rates, startTime, endTime)
       <==> multiset(s) == multiset(InRange(rates, startTime, endTime))
  {
    var answer := InRange(rates, startTime, endTime);
    InRangeCounts(rates, startTime, endTime);
    if multiset(s) == multiset(answer) { SameCounts(s, answer); }
    if OneForEach(s, rates, startTime, endTime) {
      forall x ensures multiset(s)[x] == multiset(answer)[x] { }
    }
  }

  lemma SameCounts(s: seq<FundingRate>, t: seq<FundingRate>)
    requires multiset(s) == multiset(t)
    ensures |s| == |t|
  {
    assert |multiset(s)| == |s| && |multiset(t)| == |t|;
  }

  ghost predicate Ascending(s: seq<FundingRate>) {
    forall i, j :: 0 <= i < j < |s| ==> s[i].fundingTime <= s[j].fundingTime
  }

  /** The list runs from the newest record to the oldest. */
  ghost predicate Descending(rates: seq<HistoricalRate>) {
    forall i, j :: 0 <= i < j < |rates| ==> rates[i].settleTime >= rates[j].settleTime
  }

  function Insert(x: FundingRate, s: seq<FundingRate>): (r: seq<FundingRate>)
    ensures multiset(r) == multiset(s) + multiset{x}
  {
    if s == [] || x.fundingTime < s[0].fundingTime then [x] + s
    else
      assert s == [s[0]] + s[1..];
      [s[0]] + Insert(x, s[1..])
  }

  lemma {:induction false} InsertAscending(x: FundingRate, s: seq<FundingRate>)
    requires Ascending(s)
    ensures Ascending(Insert(x, s))
  {
    if s != [] && s[0].fundingTime <= x.fundingTime {
      var tail := Insert(x, s[1..]);
      InsertAscending(x, s[1..]);
      forall i | 0 <= i < |tail| ensures s[0].fundingTime <= tail[i].fundingTime {
        assert tail[i] in multiset(tail);
        assert tail[i] == x || tail[i] in s[1..];
      }
    }
  }

  /** Sorting as the connector uses it: the result is some ascending arrangement of the same records. */
  method SortByFundingTime(s: seq<FundingRate>) returns (r: seq<FundingRate>)
    ensures multiset(r) == multiset(s) && Ascending(r)
  {
    r := [];
    for i := 0 to |s|
      invariant multiset(r) == multiset(s[..i]) && Ascending(r)
    {
      assert s[..i + 1] == s[..i] + [s[i]];
      InsertAscending(s[i], r);
      r := Insert(s[i], r);
    }
    assert s[..|s|] == s;
  }

  /** The page a download stops at when it has come to page k. */
  ghost function StopPage(rates: seq<HistoricalRate>, startTime: int, k: nat): (p: nat)
    ensures k <= p
    decreases TotalPages(rates) - k
  {
    var n := Covered(rates, k);
    if k >= TotalPages(rates) || (n > 0 && rates[n - 1].settleTime < startTime) then k
    else StopPage(rates, startTime, k + 1)
  }

  /** The guard of the early stop: the last record of page k, which is not the last page, settled before the start. */
  ghost predicate StopsAt(rates: seq<HistoricalRate>, startTime: int, k: nat) {
    1 <= k < TotalPages(rates) && rates[Covered(rates, k) - 1].settleTime < startTime
  }

  /** No page that triggers the early stop is followed by a record in range. */
  ghost predicate StopsAreSafe(rates: seq<HistoricalRate>, startTime: int, endTime: int) {
    forall k: nat :: StopsAt(rates, startTime, k) ==> NoneFrom(rates, Covered(rates, k), startTime, endTime)
  }

  /** From record n on nothing is in range. */
  predicate NoneFrom(rates: seq<HistoricalRate>, n: nat, startTime: int, endTime: int) {
    forall i: nat :: n <= i < |rates| ==> !(startTime <= rates[i].settleTime <= endTime)
  }

  /** The filter over one page: appends the records in range to what has been collected. */
  method KeepInRange(collected: seq<FundingRate>, page: seq<HistoricalRate>, startTime: int, endTime: int)
    returns (kept: seq<FundingRate>)
    ensures kept == collected + InRange(page, startTime, endTime)
    ensures |kept| == |collected| + |Matches(page, startTime, endTime)|
  {
    kept := collected;
    for i := 0 to |page|
      invariant kept == collected + InRange(page[..i], startTime, endTime)
    {
      var rate := page[i];
      assert page[..i + 1][..i] == page[..i];
      if rate.settleTime >= startTime && rate.settleTime <= endTime {
        kept := kept + [FundingRate(rate.symbol, rate.fundingRate, rate.settleTime)];
      }
    }
    assert page[..|page|] == page;
    InRangeCounts(page, startTime, endTime);
  }

  /** MEXCFuturesExchangeConnector::getHistoricalFundingRates; `pages` counts the requests. */
  method GetHistoricalFundingRates(server: Server, startTime: int, endTime: int, ghost rates: seq<HistoricalRate>)
    returns (retVal: seq<FundingRate>, pages: nat)
    requires Paged(server, rates)
    ensures pages == StopPage(rates, startTime, 1)
    ensures multiset(retVal) == multiset(InRange(rates[..Covered(rates, pages)], startTime, endTime))
    ensures multiset(retVal) == multiset(InRange(rates, startTime, endTime))
            <==> StopsAreSafe(rates, startTime, endTime)
    ensures Descending(rates) ==> multiset(retVal) == multiset(InRange(rates, startTime, endTime))
    ensures OneForEach(retVal, rates[..Covered(rates, pages)], startTime, endTime)
    ensures OneForEach(retVal, rates, startTime, endTime) <==> StopsAreSafe(rates, startTime, endTime)
    ensures Descending(rates) ==> OneForEach(retVal, rates, startTime, endTime)
    ensures Ascending(retVal)
  {
    retVal := [];
    var pageNum := 1;
    while true
      invariant 1 <= pageNum
      invariant StopPage(rates, startTime, pageNum) == StopPage(rates, startTime, 1)
      invariant retVal == InRange(rates[..Covered(rates, pageNum - 1)], startTime, endTime)
      decreases TotalPages(rates) - pageNum
    {
      var page := server(pageNum);
      retVal := KeepInRange(retVal, page.resultList, startTime, endTime);
      TakePage(server, rates, pageNum, startTime, endTime);
      if pageNum >= page.totalPage || page.resultList == [] {
        break;
      }
      if page.resultList != [] && page.resultList[|page.resultList| - 1].settleTime < startTime {
        break;
      }
      pageNum := pageNum + 1;
    }
    pages := pageNum;
    retVal := SortByFundingTime(retVal);
    AnswerIff(retVal, rates, startTime, endTime);
  }

  /** One turn of the loop: what page k adds, and whether the download ends with it. */
  lemma TakePage(server: Server, rates: seq<HistoricalRate>, k: nat, startTime: int, endTime: int)
    requires Paged(server, rates) && k > 0
    ensures var page := server(k);
      && InRange(rates[..Covered(rates, k)], startTime, endTime)
         == InRange(rates[..Covered(rates, k - 1)], startTime, endTime) + InRange(page.resultList, startTime, endTime)
      && page.totalPage == TotalPages(rates)
      && (page.resultList == [] ==> k >= page.totalPage)
      && StopPage(rates, startTime, k)
         == if k >= page.totalPage || page.resultList[|page.resultList| - 1].settleTime < startTime then k
            else StopPage(rates, startTime, k + 1)
  {
    assert PagedAt(server, rates, k);
    PageJoins(rates, k, startTime, endTime);
    LastOfPage(rates, k);
  }

  lemma PageJoins(rates: seq<HistoricalRate>, k: nat, startTime: int, endTime: int)
    requires k > 0
    ensures Covered(rates, k - 1) <= Covered(rates, k)
    ensures InRange(rates[..Covered(rates, k)], startTime, endTime)
         == InRange(rates[..Covered(rates, k - 1)], startTime, endTime)
            + InRange(rates[Covered(rates, k - 1)..Covered(rates, k)], startTime, endTime)
  {
    var m, n := Covered(rates, k - 1), Covered(rates, k);
    assert rates[..n] == rates[..m] + rates[m..n];
    InRangeJoin(rates[..m], rates[m..n], startTime, endTime);
  }

  /** Every page before the last is full, so a page is empty only when the list is. */
  lemma LastOfPage(rates: seq<HistoricalRate>, k: nat)
    requires k > 0
    ensures k < TotalPages(rates) ==> Covered(rates, k - 1) < Covered(rates, k) == k * PAGE_SIZE
    ensures k >= TotalPages(rates) ==> Covered(rates, k) == |rates|
  {
  }

  /** In a list from newest to oldest nothing after the page a download stops at is in range. */
  lemma {:induction false} NothingAfterStop(rates: seq<HistoricalRate>, startTime: int, endTime: int, k: nat)
    requires Descending(rates) && k > 0
    ensures InRange(rates[Covered(rates, StopPage(rates, startTime, k))..], startTime, endTime) == []
    decreases TotalPages(rates) - k
  {
    var n := Covered(rates, k);
    LastOfPage(rates, k);
    if k >= TotalPages(rates) {
    } else if rates[n - 1].settleTime < startTime {
      EmptyIff(rates[n..], startTime, endTime);
    } else {
      NothingAfterStop(rates, startTime, endTime, k + 1);
    }
  }

  /** So for such a list the pages fetched hold the whole answer. */
  lemma StopIsSafe(rates: seq<HistoricalRate>, startTime: int, endTime: int)
    requires Descending(rates)
    ensures InRange(rates[..Covered(rates, StopPage(rates, startTime, 1))], startTime, endTime)
         == InRange(rates, startTime, endTime)
  {
    var n := Covered(rates, StopPage(rates, startTime, 1));
    assert rates[..n] + rates[n..] == rates;
    InRangeJoin(rates[..n], rates[n..], startTime, endTime);
    NothingAfterStop(rates, startTime, endTime, 1);
  }

  /** From page k on the download passes pages that do not trigger the stop; it ends at one that does or at the last. */
  lemma {:induction false} StopPageSpec(rates: seq<HistoricalRate>, startTime: int, k: nat)
    requires k > 0
    ensures var p := StopPage(rates, startTime, k);
      && (forall j: nat :: k <= j < p ==> !StopsAt(rates, startTime, j))
      && (p >= TotalPages(rates) || StopsAt(rates, startTime, p))
    decreases TotalPages(rates) - k
  {
    if StopPage(rates, startTime, k) != k { StopPageSpec(rates, startTime, k + 1); }
  }

  lemma CoveredGrows(rates: seq<HistoricalRate>, j: nat, k: nat)
    requires j <= k
    ensures Covered(rates, j) <= Covered(rates, k)
  {
  }

  /**
   For a list in any order: the download is complete exactly when no page that triggers the early
   stop is followed by a record in range.
   */
  lemma {:induction false} CompleteIff(rates: seq<HistoricalRate>, startTime: int, endTime: int)
    ensures var n := Covered(rates, StopPage(rates, startTime, 1));
      multiset(InRange(rates[..n], startTime, endTime)) == multiset(InRange(rates, startTime, endTime))
      <==> StopsAreSafe(rates, startTime, endTime)
  {
    var p := StopPage(rates, startTime, 1);
    var n := Covered(rates, p);
    CutIsCompleteIff(rates, startTime, endTime, n);
    StopPageSpec(rates, startTime, 1);
    LastOfPage(rates, p);
    if StopsAreSafe(rates, startTime, endTime) {
      assert StopsAt(rates, startTime, p) ==> NoneFrom(rates, n, startTime, endTime);
    }
    if NoneFrom(rates, n, startTime, endTime) {
      forall k: nat | StopsAt(rates, startTime, k) ensures NoneFrom(rates, Covered(rates, k), startTime, endTime) {
        CoveredGrows(rates, p, k);
      }
    }
  }

  /** What an arrangement of the in-range records of the pages fetched says of the whole list. */
  lemma AnswerIff(s: seq<FundingRate>, rates: seq<HistoricalRate>, startTime: int, endTime: int)
    requires var n := Covered(rates, StopPage(rates, startTime, 1));
      multiset(s) == multiset(InRange(rates[..n], startTime, endTime))
    ensures multiset(s) == multiset(InRange(rates, startTime, endTime)) <==> StopsAreSafe(rates, startTime, endTime)
    ensures Descending(rates) ==> multiset(s) == multiset(InRange(rates, startTime, endTime))
    ensures OneForEach(s, rates[..Covered(rates, StopPage(rates, startTime, 1))], startTime, endTime)
    ensures OneForEach(s, rates, startTime, endTime) <==> StopsAreSafe(rates, startTime, endTime)
    ensures Descending(rates) ==> OneForEach(s, rates, startTime, endTime)
  {
    CompleteIff(rates, startTime, endTime);
    if Descending(rates) { StopIsSafe(rates, startTime, endTime); }
    OneForEachIff(s, rates[..Covered(rates, StopPage(rates, startTime, 1))], startTime, endTime);
    OneForEachIff(s, rates, startTime, endTime);
  }

  lemma CutIsCompleteIff(rates: seq<HistoricalRate>, startTime: int, endTime: int, n: nat)
    requires n <= |rates|
    ensures multiset(InRange(rates[..n], startTime, endTime)) == multiset(InRange(rates, startTime, endTime))
        <==> NoneFrom(rates, n, startTime, endTime)
  {
    assert rates[..n] + rates[n..] == rates;
    InRangeJoin(rates[..n], rates[n..], startTime, endTime);
    SameRecordsIff(InRange(rates[..n], startTime, endTime), InRange(rates[n..], startTime, endTime));
    EmptyIff(rates[n..], startTime, endTime);
    NoneInTail(rates, startTime, endTime, n);
  }

  lemma NoneInTail(rates: seq<HistoricalRate>, startTime: int, endTime: int, n: nat)
    requires n <= |rates|
    ensures NoneFrom(rates, n, startTime, endTime) <==> NoneFrom(rates[n..], 0, startTime, endTime)
  {
    if NoneFrom(rates[n..], 0, startTime, endTime) {
      forall i: nat | n <= i < |rates| ensures !(startTime <= rates[i].settleTime <= endTime) {
        assert rates[n..][i - n] == rates[i];
      }
    }
  }

  lemma SameRecordsIff(front: seq<FundingRate>, back: seq<FundingRate>)
    ensures multiset(front) == multiset(front + back) <==> back == []
  {
    assert |multiset(front + back)| == |front + back| && |multiset(front)| == |front|;
    assert back == [] ==> front + back == front;
  }

  lemma {:induction false} EmptyIff(rates: seq<HistoricalRate>, startTime: int, endTime: int)
    ensures InRange(rates, startTime, endTime) == [] <==> NoneFrom(rates, 0, startTime, endTime)
  {
    if rates != [] {
      var front, last := rates[..|rates| - 1], rates[|rates| - 1];
      EmptyIff(front, startTime, endTime);
      assert forall i :: 0 <= i < |front| ==> front[i] == rates[i];
      assert forall i :: 0 <= i < |rates| ==> rates[i] == if i < |front| then front[i] else last;
    }
  }

  /** On a list in any other order the early stop can lose a record: here the one on the second page. */
  lemma UnsortedListLosesRecord(rates: seq<HistoricalRate>)
    requires |rates| == 1001
    requires forall i :: 0 <= i < 1000 ==> rates[i] == HistoricalRate("BTC_USDT", 0.0, 2)
    requires rates[1000] == HistoricalRate("BTC_USDT", 0.0, 5)
    ensures InRange(rates[..Covered(rates, StopPage(rates, 3, 1))], 3, 9) != InRange(rates, 3, 9)
  {
    var front, last := rates[..1000], [rates[1000]];
    assert StopPage(rates, 3, 1) == 1 && rates == front + last;
    EmptyIff(front, 3, 9);
    InRangeJoin(front, last, 3, 9);
    assert last[..0] == [];
  }
}
