/** Two readings of the exchange's candle endpoint over a recorded history. */
module SpotServers {
  import opened Common
  import opened History
  import opened SpotCandles

  function PageSize(r: Request): nat { if r.limit.Some? then r.limit.value else 500 }

  /** The recorded candles inside the window of a request. */
  function Window(h: seq<Candle>, r: Request): seq<Candle> {
    var a := if r.startTime.Some? then Below(h, r.startTime.value) else 0;
    var b := Below(h, r.endTime + 1);
    if a <= b then h[a..b] else []
  }

  ghost predicate AnswersNewest(server: Server, h: seq<Candle>, r: Request) {
    server(r) == Newest(PageSize(r), Window(h, r))
  }

  /** Suffix contract: every request is answered with the newest candles of its window. */
  ghost predicate ServesNewest(server: Server, h: seq<Candle>) {
    forall r :: AnswersNewest(server, h, r)
  }

  ghost predicate AnswersForward(server: Server, h: seq<Candle>, r: Request) {
    server(r) == if r.startTime.Some? then Oldest(PageSize(r), Window(h, r)) else Newest(PageSize(r), Window(h, r))
  }

  /**
   Forward contract: a request with a start time gets the first candles of its window, one without gets
   the newest up to endTime.
   */
  ghost predicate ServesForward(server: Server, h: seq<Candle>) {
    forall r :: AnswersForward(server, h, r)
  }

  /** A history the theorems speak about. */
  ghost predicate Recorded(h: seq<Candle>, step: int) {
    step > 0 && Spaced(h, step) && Ascending(h) && SinceEpoch(h)
  }

  lemma WindowIsHonest(h: seq<Candle>, r: Request)
    requires Ascending(h)
    ensures InWindow(r, Window(h, r))
  {
    var a := if r.startTime.Some? then Below(h, r.startTime.value) else 0;
    forall i | 0 <= i < |Window(h, r)|
      ensures Window(h, r)[i].openTime <= r.endTime
      ensures r.startTime.Some? ==> r.startTime.value <= Window(h, r)[i].openTime
    {
      assert Window(h, r)[i] == h[a + i];
      BelowIff(h, r.endTime + 1, a + i);
      if r.startTime.Some? { BelowIff(h, r.startTime.value, a + i); }
    }
  }

  /** Both contracts can be met, and a server that meets one is honest. */
  lemma ContractsAreHonest(server: Server, h: seq<Candle>)
    requires Ascending(h)
    requires ServesNewest(server, h) || ServesForward(server, h)
    ensures Honest(server)
  {
    forall r ensures HonestAt(server, r) {
      WindowIsHonest(h, r);
      assert ServesNewest(server, h) ==> AnswersNewest(server, h, r);
      assert ServesForward(server, h) ==> AnswersForward(server, h, r);
    }
  }

  lemma ContractsCanBeMet(h: seq<Candle>)
    ensures exists server :: ServesNewest(server, h)
    ensures exists server :: ServesForward(server, h)
  {
    var newest: Server := (r: Request) => Newest(PageSize(r), Window(h, r));
    var forwards: Server :=
      (r: Request) => if r.startTime.Some? then Oldest(PageSize(r), Window(h, r))
                      else Newest(PageSize(r), Window(h, r));
    assert ServesNewest(newest, h);
    assert ServesForward(forwards, h);
  }

  /** The window of a request that ends one step below h[j]. */
  lemma WindowBelow(h: seq<Candle>, step: int, bound: int, j: nat)
    requires Recorded(h, step) && j < |h|
    ensures var a := Below(h, bound);
      Window(h, MakeRequest(bound, Time(h, j) - step, LIMIT)) == if a <= j then h[a..j] else []
  {
    if j > 0 { assert Apart(h, step, j - 1, j); }
    BelowAt(h, Time(h, j) - step + 1, j);
    if bound <= 0 { BelowAt(h, bound, 0); }
  }

  /** What comes back for a window that ends one step below h[j]. */
  lemma SuffixAnswerBelow(server: Server, h: seq<Candle>, step: int, bound: int, j: nat)
    requires Recorded(h, step) && ServesNewest(server, h) && j < |h|
    ensures var a := Below(h, bound);
      server(MakeRequest(bound, Time(h, j) - step, LIMIT))
      == if a >= j then [] else if j - a <= LIMIT then h[a..j] else h[j - LIMIT..j]
  {
    var r := MakeRequest(bound, Time(h, j) - step, LIMIT);
    assert AnswersNewest(server, h, r);
    var a := Below(h, bound);
    WindowBelow(h, step, bound, j);
    if a < j { NewestOfSlice(h, LIMIT, a, j); }
  }

  lemma ForwardAnswerBelow(server: Server, h: seq<Candle>, step: int, bound: int, j: nat)
    requires Recorded(h, step) && ServesForward(server, h) && j < |h|
    ensures bound <= 0 ==> Below(h, bound) == 0
    ensures var a := Below(h, bound);
      server(MakeRequest(bound, Time(h, j) - step, LIMIT))
      == if a >= j then []
         else if j - a <= LIMIT then h[a..j]
         else if bound > 0 then h[a..a + LIMIT]
         else h[j - LIMIT..j]
  {
    var r := MakeRequest(bound, Time(h, j) - step, LIMIT);
    var a := Below(h, bound);
    if bound <= 0 { BelowAt(h, bound, 0); }
    assert AnswersForward(server, h, r);
    WindowBelow(h, step, bound, j);
    if a < j {
      NewestOfSlice(h, LIMIT, a, j);
      OldestOfSlice(h, LIMIT, a, j);
    }
  }

  /** No hole between candles lo and hi swallows a whole request window together with the step before it. */
  ghost predicate Bridged(h: seq<Candle>, step: int, lo: nat, hi: nat)
    requires hi < |h|
  {
    forall i: nat :: lo <= i < hi ==> Gap(h, i) <= MaxRange(step) + step
  }

  /**
   How far down the window of the request after oldest candle h[j] reaches: it holds the next older
   candle exactly when that is in range and no hole hides it.
   */
  lemma WindowReach(h: seq<Candle>, step: int, startTime: int, j: nat)
    requires Recorded(h, step) && j < |h|
    ensures var a, s := Below(h, Max(startTime, Time(h, j) - step - MaxRange(step))), Below(h, startTime);
      && s <= a
      && (a < j ==> startTime <= Time(h, j) - step && Bridged(h, step, a, j))
      && (j <= a && s < j ==> Gap(h, j - 1) > MaxRange(step) + step)
  {
    var bound := Max(startTime, Time(h, j) - step - MaxRange(step));
    var a, s := Below(h, bound), Below(h, startTime);
    BelowMonotone(h, startTime, bound);
    if a < j {
      assert Apart(h, step, j - 1, j);
      BelowIff(h, bound, j - 1);
      forall k: nat | a <= k < j ensures Gap(h, k) <= MaxRange(step) + step {
        BelowIff(h, bound, k);
        assert k + 1 < j ==> Apart(h, step, k + 1, j);
      }
    } else if s < j {
      BelowIff(h, startTime, j - 1);
      BelowIff(h, bound, j - 1);
      assert Apart(h, step, j - 1, j);
    }
  }

  lemma ShortRangeIsBridged(h: seq<Candle>, step: int, startTime: int, endTime: int)
    requires Recorded(h, step) && !LongRange(step, startTime, endTime)
    requires Below(h, startTime) < Below(h, endTime + 1)
    ensures Bridged(h, step, Below(h, startTime), Below(h, endTime + 1) - 1)
  {
    forall i: nat | Below(h, startTime) <= i < Below(h, endTime + 1) - 1
      ensures Gap(h, i) <= MaxRange(step) + step
    {
      BelowIff(h, startTime, i);
      BelowIff(h, endTime + 1, i + 1);
    }
  }
}
