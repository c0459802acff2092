/**
 The sliding-window rate limiter of both REST clients, used by one caller at a time on a
 clock that never goes back. A request is recorded with the time it came in, before any
 sleep, and the queue is not purged again after the sleep.
 */
module RateLimiting {
  import opened Common

  const LOCAL_LIMIT: nat := 10
  const WINDOW_MS: int := 1000

  /** Drops recorded times from the front of the queue while they are older than the window. */
  function Purge(q: seq<int>, now: int): seq<int> {
    if q != [] && now - q[0] > WINDOW_MS then Purge(q[1..], now) else q
  }

  /** How long a caller sleeps when it finds `q` after the purge. */
  function SleepTime(q: seq<int>, now: int): nat {
    if |q| >= LOCAL_LIMIT then Max(0, (q[0] + WINDOW_MS) - now + 10) else 0
  }

  /** One passed request: when it was recorded and when the caller was let go. */
  datatype Entry = Entry(recorded: int, released: int)

  /** The queue a log leaves behind. */
  ghost function QueueAfter(log: seq<Entry>): seq<int> {
    if log == [] then []
    else
      var now := log[|log| - 1].recorded;
      Purge(QueueAfter(log[..|log| - 1]), now) + [now]
  }

  /**
   The logs of one caller at a time: each request comes in after the one before was released, and
   sleeps as long as it must.
   */
  ghost predicate Run(log: seq<Entry>) {
    log == [] ||
    (var before, last := log[..|log| - 1], log[|log| - 1];
     && Run(before)
     && (before != [] ==> before[|before| - 1].released <= last.recorded)
     && last.recorded + SleepTime(Purge(QueueAfter(before), last.recorded), last.recorded) <= last.released)
  }

  /**
   When the code lets a call at `now` go on, from the log alone: at once, unless the tenth request before
   it was recorded within the last 1000 ms; then 1010 ms after the time recorded for that one.
   */
  ghost function ReleaseTime(log: seq<Entry>, now: int): int {
    if |log| >= 10 && now - log[|log| - 10].recorded <= 1000 then log[|log| - 10].recorded + 1010 else now
  }

  class RateLimiter {
    var requestTimes: seq<int>
    ghost var log: seq<Entry>

    ghost predicate Valid()
      reads this
    {
      Run(log) && requestTimes == QueueAfter(log)
    }

    constructor ()
      ensures Valid() && log == []
    {
      requestTimes, log := [], [];
    }

    /**
     RateLimiter::wait, called when the clock shows `now`; `late` is how much later than the code asks for
     the call returns. It is added whether the call sleeps or not.
     */
    method Wait(now: int, late: nat) returns (released: int)
      requires Valid()
      requires log != [] ==> log[|log| - 1].released <= now
      modifies this
      ensures Valid()
      ensures log == old(log) + [Entry(now, released)]
      ensures requestTimes == Purge(old(requestTimes), now) + [now]
      ensures released == now + SleepTime(Purge(old(requestTimes), now), now) + late
      ensures var n := |old(log)|;
        released == late + if n >= 10 && now - old(log)[n - 10].recorded <= 1000 then old(log)[n - 10].recorded + 1010
                           else now
    {
      SleepOfRun(log, now);
      while requestTimes != [] && now - requestTimes[0] > WINDOW_MS
        invariant Purge(requestTimes, now) == Purge(old(requestTimes), now)
        invariant log == old(log)
        decreases |requestTimes|
      {
        requestTimes := requestTimes[1..];
      }
      released := now + late;
      if |requestTimes| >= LOCAL_LIMIT {
        var oldest := requestTimes[0];
        var waitTime := (oldest + WINDOW_MS) - now + 10;
        if waitTime > 0 {
          released := now + waitTime + late;
        }
      }
      requestTimes := requestTimes + [now];
      log := log + [Entry(now, released)];
      assert log[..|log| - 1] == old(log);
    }
  }

  /** After the purge a full queue always makes the caller sleep, for 10 to 1010 ms. */
  lemma {:induction false} SleepBounds(q: seq<int>, now: int)
    requires forall i :: 0 <= i < |q| ==> q[i] <= now
    ensures var p := Purge(q, now);
      SleepTime(p, now) == 0 || 10 <= SleepTime(p, now) <= WINDOW_MS + 10
    ensures |Purge(q, now)| >= LOCAL_LIMIT <==> SleepTime(Purge(q, now), now) > 0
    ensures |Purge(q, now)| <= |q|
  {
    if q != [] && now - q[0] > WINDOW_MS { SleepBounds(q[1..], now); }
  }

  lemma {:induction false} RunPrefix(log: seq<Entry>, n: nat)
    requires Run(log) && n <= |log|
    ensures Run(log[..n])
    decreases |log|
  {
    if n == |log| {
      assert log[..n] == log;
    } else {
      RunPrefix(log[..|log| - 1], n);
      assert log[..|log| - 1][..n] == log[..n];
    }
  }

  /** Times never go back along a run. */
  lemma {:induction false} RunOrder(log: seq<Entry>, i: nat, j: nat)
    requires Run(log) && i < j < |log|
    ensures log[i].recorded <= log[i].released <= log[j].recorded <= log[j].released
    decreases |log|
  {
    var before := log[..|log| - 1];
    if j < |log| - 1 {
      RunOrder(before, i, j);
    } else if i < j - 1 {
      RunOrder(before, i, j - 1);
    } else {
      assert Run(before) && before[i] == log[i];
    }
  }

  /** The purge cuts off exactly the leading times that are older than the window. */
  lemma {:induction false} PurgeCut(q: seq<int>, now: int)
    ensures var p := Purge(q, now);
      && |p| <= |q|
      && p == q[|q| - |p|..]
      && (forall i :: 0 <= i < |q| - |p| ==> now - q[i] > WINDOW_MS)
      && (p != [] ==> now - p[0] <= WINDOW_MS)
  {
    if q != [] && now - q[0] > WINDOW_MS { PurgeCut(q[1..], now); }
  }

  function Recorded(log: seq<Entry>): seq<int> {
    seq(|log|, i requires 0 <= i < |log| => log[i].recorded)
  }

  /** The queue holds the requests from index lo on: those recorded within the window of the last one. */
  ghost predicate InQueue(log: seq<Entry>, lo: nat) {
    && lo <= |log|
    && QueueAfter(log) == Recorded(log)[lo..]
    && (log != [] ==>
          var last := log[|log| - 1];
          && lo < |log|
          && (forall j :: 0 <= j < lo ==> last.recorded - log[j].recorded > WINDOW_MS)
          && last.recorded - log[lo].recorded <= WINDOW_MS)
  }

  /**
   It never holds more than LOCAL_LIMIT + 1 of them, and when it does the last request waited for the
   oldest to expire.
   */
  ghost predicate Bounded(log: seq<Entry>, lo: nat)
    requires lo <= |log|
  {
    && |log| - lo <= LOCAL_LIMIT + 1
    && (|log| - lo == LOCAL_LIMIT + 1 ==> log[|log| - 1].released >= log[lo].recorded + WINDOW_MS + 10)
  }

  lemma {:induction false} QueueOfRun(log: seq<Entry>) returns (lo: nat)
    requires Run(log)
    ensures InQueue(log, lo) && Bounded(log, lo)
  {
    lo := 0;
    if log != [] {
      var before, last := log[..|log| - 1], log[|log| - 1];
      var lo' := QueueOfRun(before);
      var q := QueueAfter(before);
      PurgeCut(q, last.recorded);
      lo := |before| - |Purge(q, last.recorded)|;
      QueueStep(log, lo', lo);
    }
  }

  /** What the last request finds after its purge: the requests from lo on, at most LOCAL_LIMIT of them. */
  lemma PurgedQueue(before: seq<Entry>, now: int, lo': nat, lo: nat)
    requires Run(before) && InQueue(before, lo') && Bounded(before, lo')
    requires before != [] ==> before[|before| - 1].released <= now
    requires lo == |before| - |Purge(QueueAfter(before), now)|
    ensures lo' <= lo <= |before| <= lo + LOCAL_LIMIT
    ensures Purge(QueueAfter(before), now) == Recorded(before)[lo..]
    ensures forall j :: 0 <= j < lo ==> now - before[j].recorded > WINDOW_MS
    ensures lo < |before| ==> now - before[lo].recorded <= WINDOW_MS
  {
    var times := Recorded(before);
    PurgeSlice(times, lo', now);
    if before != [] { LastInOrder(before); }
    forall j | 0 <= j < lo ensures now - before[j].recorded > WINDOW_MS {
      assert times[j] == before[j].recorded;
    }
  }

  lemma LastInOrder(log: seq<Entry>)
    requires Run(log) && log != []
    ensures log[|log| - 1].recorded <= log[|log| - 1].released
  {
  }

  lemma PurgeSlice(times: seq<int>, a: nat, now: int)
    requires a <= |times|
    ensures var p := Purge(times[a..], now);
      var b := |times| - |p|;
      && a <= b <= |times|
      && p == times[b..]
      && (forall j :: a <= j < b ==> now - times[j] > WINDOW_MS)
      && (b < |times| ==> now - times[b] <= WINDOW_MS)
  {
    var q := times[a..];
    PurgeCut(q, now);
    var b := |times| - |Purge(q, now)|;
    assert q[b - a..] == times[b..];
    forall j | a <= j < b ensures now - times[j] > WINDOW_MS { assert q[j - a] == times[j]; }
  }

  lemma QueueStep(log: seq<Entry>, lo': nat, lo: nat)
    requires Run(log) && log != []
    requires var before := log[..|log| - 1]; InQueue(before, lo') && Bounded(before, lo')
    requires var q := QueueAfter(log[..|log| - 1]); lo == |log| - 1 - |Purge(q, log[|log| - 1].recorded)|
    ensures InQueue(log, lo) && Bounded(log, lo)
  {
    var before, last := log[..|log| - 1], log[|log| - 1];
    PurgedQueue(before, last.recorded, lo', lo);
    assert Recorded(log) == Recorded(before) + [last.recorded];
    assert Recorded(log)[lo..] == Recorded(before)[lo..] + [last.recorded];
    assert forall j :: 0 <= j < |before| ==> before[j] == log[j];
  }

  /**
   Every call of every run: the queue has at most LOCAL_LIMIT entries after the purge and
   one more after the call, and the caller sleeps not at all or for 10 to 1010 ms.
   */
  lemma CallIsBounded(log: seq<Entry>, now: int)
    requires Run(log) && (log != [] ==> log[|log| - 1].released <= now)
    ensures var p := Purge(QueueAfter(log), now);
      && |p| <= LOCAL_LIMIT && |QueueAfter(log)| <= LOCAL_LIMIT + 1
      && (SleepTime(p, now) > 0 <==> |p| == LOCAL_LIMIT)
      && (SleepTime(p, now) == 0 || 10 <= SleepTime(p, now) <= WINDOW_MS + 10)
  {
    var lo := QueueOfRun(log);
    var q := QueueAfter(log);
    PurgeCut(q, now);
    PurgedQueue(log, now, lo, |log| - |Purge(q, now)|);
    NotAhead(log, now);
    assert Recorded(log)[lo..] == q;
    SleepBounds(q, now);
  }

  /** Every call of every run sleeps until the time that the log alone gives. */
  lemma SleepOfRun(log: seq<Entry>, now: int)
    requires Run(log) && (log != [] ==> log[|log| - 1].released <= now)
    ensures now + SleepTime(Purge(QueueAfter(log), now), now) == ReleaseTime(log, now)
  {
    var lo' := QueueOfRun(log);
    var p := Purge(QueueAfter(log), now);
    PurgeCut(QueueAfter(log), now);
    var lo := |log| - |p|;
    PurgedQueue(log, now, lo', lo);
    SleepOfCut(log, now, lo);
  }

  /** The same, with the queue after the purge cut out of the log. */
  lemma SleepOfCut(log: seq<Entry>, now: int, lo: nat)
    requires lo <= |log| <= lo + LOCAL_LIMIT
    requires forall j :: 0 <= j < lo ==> now - log[j].recorded > WINDOW_MS
    requires lo < |log| ==> now - log[lo].recorded <= WINDOW_MS
    ensures now + SleepTime(Recorded(log)[lo..], now) == ReleaseTime(log, now)
  {
    var p := Recorded(log)[lo..];
    if |p| == LOCAL_LIMIT {
      assert p[0] == log[lo].recorded;
    }
  }

  /** The queue is in order of time. */
  lemma QueueIsSorted(log: seq<Entry>, i: nat, j: nat)
    requires Run(log) && i < j < |QueueAfter(log)|
    ensures QueueAfter(log)[i] <= QueueAfter(log)[j]
  {
    var lo := QueueOfRun(log);
    RunOrder(log, lo + i, lo + j);
  }

  lemma NotAhead(log: seq<Entry>, now: int)
    requires Run(log) && (log != [] ==> log[|log| - 1].released <= now)
    ensures forall i :: 0 <= i < |log| ==> Recorded(log)[i] <= now
  {
    forall i | 0 <= i < |log| ensures Recorded(log)[i] <= now {
      LastInOrder(log);
      if i < |log| - 1 { RunOrder(log, i, |log| - 1); }
    }
  }

  /** Ten requests on, the window of a request has passed, counted from the time it was recorded with. */
  lemma TenLater(log: seq<Entry>, i: nat)
    requires Run(log) && i + LOCAL_LIMIT == |log| - 1
    ensures log[i + LOCAL_LIMIT].released > log[i].recorded + WINDOW_MS
  {
    var lo := QueueOfRun(log);
    LastInOrder(log);
  }

  /**
   Any LOCAL_LIMIT + 2 consecutive releases span more than the window: a closed window holds at most 11
   releases.
   */
  lemma TwelveReleasesSpan(log: seq<Entry>, i: nat, j: nat)
    requires Run(log) && i + LOCAL_LIMIT + 1 <= j < |log|
    ensures log[j].released - log[i].released > WINDOW_MS
  {
    var k := i + LOCAL_LIMIT + 1;
    RunPrefix(log, k + 1);
    TenLater(log[..k + 1], i + 1);
    RunOrder(log, i, i + 1);
    if k < j { RunOrder(log, k, j); }
  }

  /** A window that opens with a request released the moment it was recorded holds at most LOCAL_LIMIT. */
  lemma ElevenReleasesSpan(log: seq<Entry>, i: nat, j: nat)
    requires Run(log) && i + LOCAL_LIMIT <= j < |log|
    requires log[i].released == log[i].recorded
    ensures log[j].released - log[i].released > WINDOW_MS
  {
    var k := i + LOCAL_LIMIT;
    RunPrefix(log, k + 1);
    TenLater(log[..k + 1], i);
    if k < j { RunOrder(log, k, j); }
  }

  /** n requests that come in and leave at one instant. */
  function Burst(n: nat, now: int): seq<Entry> {
    seq(n, _ => Entry(now, now))
  }

  /** Once everything recorded has left the window, ten requests pass at once. */
  lemma {:induction false} BurstRuns(log: seq<Entry>, n: nat, now: int)
    requires Run(log) && n <= LOCAL_LIMIT
    requires log != [] ==> log[|log| - 1].released <= now && log[|log| - 1].recorded + WINDOW_MS < now
    ensures Run(log + Burst(n, now))
    ensures n > 0 ==> QueueAfter(log + Burst(n, now)) == seq(n, _ => now)
  {
    var all := log + Burst(n, now);
    if n == 0 {
      assert all == log;
    } else {
      BurstRuns(log, n - 1, now);
      var before := log + Burst(n - 1, now);
      assert all == before + [Entry(now, now)];
      if n == 1 {
        assert before == log;
        EverythingExpires(log, now);
      } else {
        AllFresh(n - 1, now);
      }
      BurstStep(all, before, n, now);
    }
  }

  lemma AllFresh(n: nat, now: int)
    ensures Purge(seq(n, _ => now), now) == seq(n, _ => now)
  {
  }

  lemma BurstStep(all: seq<Entry>, before: seq<Entry>, n: nat, now: int)
    requires 0 < n <= LOCAL_LIMIT && all == before + [Entry(now, now)]
    requires Run(before) && (before != [] ==> before[|before| - 1].released <= now)
    requires Purge(QueueAfter(before), now) == (if n == 1 then [] else seq(n - 1, _ => now))
    ensures Run(all) && QueueAfter(all) == seq(n, _ => now)
  {
    assert all[..|all| - 1] == before;
    assert seq(n - 1, _ => now) + [now] == seq(n, _ => now);
  }

  lemma EverythingExpires(log: seq<Entry>, now: int)
    requires Run(log)
    requires log != [] ==> log[|log| - 1].recorded + WINDOW_MS < now
    ensures Purge(QueueAfter(log), now) == []
  {
    var lo := QueueOfRun(log);
    var times := Recorded(log);
    PurgeSlice(times, lo, now);
    var b := |times| - |Purge(QueueAfter(log), now)|;
    if b < |times| - 1 { RunOrder(log, b, |log| - 1); }
  }

  /**
   Exactly when eleven fit: after any run, the closed window that opens with the last release
   can take ten more if and only if that request was released later than it was recorded.
   */
  lemma ElevenFitIff(log: seq<Entry>)
    requires Run(log) && log != []
    ensures var last := log[|log| - 1];
      (exists more: seq<Entry> ::
         |more| == LOCAL_LIMIT && Run(log + more) && more[LOCAL_LIMIT - 1].released <= last.released + WINDOW_MS)
      <==> last.recorded < last.released
  {
    var last := log[|log| - 1];
    LastInOrder(log);
    forall more: seq<Entry> |
      |more| == LOCAL_LIMIT && Run(log + more) && more[LOCAL_LIMIT - 1].released <= last.released + WINDOW_MS
      ensures last.recorded < last.released
    {
      if last.recorded == last.released {
        ElevenReleasesSpan(log + more, |log| - 1, |log| - 1 + LOCAL_LIMIT);
      }
    }
    if last.recorded < last.released {
      var now := Max(last.recorded + WINDOW_MS + 1, last.released);
      BurstRuns(log, LOCAL_LIMIT, now);
    }
  }

  /** The bound of 11 is reached: eleven requests at once, ten more when the last of them is let go. */
  lemma ElevenReached() returns (log: seq<Entry>)
    ensures Run(log) && |log| == 2 * LOCAL_LIMIT + 1
    ensures log[2 * LOCAL_LIMIT].released == log[LOCAL_LIMIT].released
  {
    var first := Burst(LOCAL_LIMIT, 0);
    BurstRuns([], LOCAL_LIMIT, 0);
    assert [] + first == first;
    var sleeper := Entry(0, WINDOW_MS + 10);
    log := first + [sleeper];
    assert log[..|log| - 1] == first;
    assert Run(log);
    BurstRuns(log, LOCAL_LIMIT, WINDOW_MS + 10);
    log := log + Burst(LOCAL_LIMIT, WINDOW_MS + 10);
  }
}
