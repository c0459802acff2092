/**
 The same rate limiter shared by any number of threads. A thread that has to sleep gives the
 lock back, so its call is two steps, and others run between them. Enter reads the clock and
 acts on it at one moment: a request admitted without sleeping is released at the time it
 records, and how long it then takes to leave the lock and be sent is not counted.
 */
module ConcurrentLimiter {
  import opened RateLimiting

  /** A thread asleep: the time it will record, and the earliest time it may go on. */
  datatype Sleeper = Sleeper(recorded: int, wake: int)

  datatype Release = Release(at: int, recorded: int, slept: bool)

  datatype State = State(clock: int, queue: seq<int>, sleeping: map<nat, Sleeper>, log: seq<Release>)

  datatype Step =
    | Tick(ms: nat)        // time passes
    | Enter(thread: nat)   // a thread calls wait, up to the unlock or the return
    | Wake(thread: nat)    // a thread has slept long enough and takes the lock again

  predicate Enabled(s: State, step: Step) {
    match step
    case Tick(_) => true
    case Enter(t) => t !in s.sleeping
    case Wake(t) => t in s.sleeping && s.sleeping[t].wake <= s.clock
  }

  function Apply(s: State, step: Step): State
    requires Enabled(s, step)
  {
    match step
    case Tick(ms) => s.(clock := s.clock + ms)
    case Enter(t) =>
      var q := Purge(s.queue, s.clock);
      var sleep := SleepTime(q, s.clock);
      if sleep > 0 then s.(queue := q, sleeping := s.sleeping[t := Sleeper(s.clock, s.clock + sleep)])
      else s.(queue := q + [s.clock], log := s.log + [Release(s.clock, s.clock, false)])
    case Wake(t) =>
      var recorded := s.sleeping[t].recorded;
      s.(queue := s.queue + [recorded], sleeping := s.sleeping - {t}, log := s.log + [Release(s.clock, recorded, true)])
  }

  const START := State(0, [], map[], [])

  /** The steps can be taken in this order, from the start. */
  predicate Legal(steps: seq<Step>)
    decreases |steps|, 0
  {
    steps == [] ||
    (Legal(steps[..|steps| - 1]) && Enabled(After(steps[..|steps| - 1]), steps[|steps| - 1]))
  }

  function After(steps: seq<Step>): State
    requires Legal(steps)
    decreases |steps|, 1
  {
    if steps == [] then START else Apply(After(steps[..|steps| - 1]), steps[|steps| - 1])
  }

  /** Requests admitted without sleeping in a closed stretch of time. */
  function Direct(log: seq<Release>, from: int, to: int): nat {
    if log == [] then 0
    else
      var last := log[|log| - 1];
      Direct(log[..|log| - 1], from, to) + (if !last.slept && from <= last.at <= to then 1 else 0)
  }

  /** Requests admitted without sleeping in the closed window that opens at w. */
  function InWindow(log: seq<Release>, w: int): nat { Direct(log, w, w + WINDOW_MS) }

  /** Queue entries not older than x. */
  function AtLeast(q: seq<int>, x: int): (n: nat)
    ensures n <= |q|
  {
    if q == [] then 0 else (if q[0] >= x then 1 else 0) + AtLeast(q[1..], x)
  }

  lemma {:induction false} AtLeastAppend(q: seq<int>, t: int, x: int)
    ensures AtLeast(q + [t], x) == AtLeast(q, x) + (if t >= x then 1 else 0)
  {
    if q == [] {
      assert q + [t] == [t];
    } else {
      AtLeastAppend(q[1..], t, x);
      assert (q + [t])[1..] == q[1..] + [t];
    }
  }

  /** A purge takes away nothing that is still in the window, wherever it stands in the queue. */
  lemma {:induction false} PurgeKeepsRecent(q: seq<int>, now: int, x: int)
    requires x >= now - WINDOW_MS
    ensures AtLeast(Purge(q, now), x) == AtLeast(q, x)
  {
    if q != [] && now - q[0] > WINDOW_MS { PurgeKeepsRecent(q[1..], now, x); }
  }

  lemma {:induction false} DirectBounds(log: seq<Release>, from: int, to: int, clock: int)
    requires forall i :: 0 <= i < |log| ==> log[i].at <= clock
    ensures Direct(log, from, to) <= Direct(log, from, clock)
    ensures clock < from ==> Direct(log, from, to) == 0
    ensures to >= clock ==> Direct(log, from, to) == Direct(log, from, clock)
  {
    if log != [] { DirectBounds(log[..|log| - 1], from, to, clock); }
  }

  /** Times lie in the past, sleeps are bounded. */
  ghost predicate Timely(s: State) {
    && (forall i :: 0 <= i < |s.queue| ==> s.queue[i] <= s.clock)
    && (forall i :: 0 <= i < |s.log| ==> s.log[i].recorded <= s.log[i].at <= s.clock)
    && (forall t :: t in s.sleeping ==>
          s.sleeping[t].recorded <= s.clock && 10 <= s.sleeping[t].wake - s.sleeping[t].recorded <= WINDOW_MS + 10)
  }

  /** A request admitted without sleeping stays in the queue for as long as it is in the window. */
  ghost predicate Remembered(s: State) {
    forall x :: x >= s.clock - WINDOW_MS ==> Direct(s.log, x, s.clock) <= AtLeast(s.queue, x)
  }

  ghost predicate WindowsBounded(log: seq<Release>) {
    forall w :: InWindow(log, w) <= LOCAL_LIMIT
  }

  ghost predicate Inv(s: State) {
    Timely(s) && Remembered(s) && WindowsBounded(s.log)
  }

  lemma StepKeepsTimely(s: State, step: Step)
    requires Timely(s) && Enabled(s, step)
    ensures Timely(Apply(s, step))
  {
    if step.Enter? {
      PurgeNotAhead(s.queue, s.clock);
      SleepBounds(s.queue, s.clock);
    }
  }

  lemma PurgeNotAhead(q: seq<int>, clock: int)
    requires forall i :: 0 <= i < |q| ==> q[i] <= clock
    ensures var p := Purge(q, clock); forall i :: 0 <= i < |p| ==> p[i] <= clock
  {
    PurgeCut(q, clock);
    var p := Purge(q, clock);
    forall i | 0 <= i < |p| ensures p[i] <= clock { assert p[i] == q[|q| - |p| + i]; }
  }

  lemma StepKeepsRemembered(s: State, step: Step)
    requires Timely(s) && Remembered(s) && Enabled(s, step)
    ensures Remembered(Apply(s, step))
  {
    var s' := Apply(s, step);
    forall x | x >= s'.clock - WINDOW_MS ensures Direct(s'.log, x, s'.clock) <= AtLeast(s'.queue, x) {
      DirectBounds(s.log, x, s'.clock, s.clock);
      match step
      case Tick(_) =>
      case Enter(t) =>
        var q := Purge(s.queue, s.clock);
        PurgeKeepsRecent(s.queue, s.clock, x);
        AtLeastAppend(q, s.clock, x);
        assert s'.log == s.log || s'.log[..|s'.log| - 1] == s.log;
      case Wake(t) =>
        AtLeastAppend(s.queue, s.sleeping[t].recorded, x);
        assert s'.log[..|s'.log| - 1] == s.log;
    }
  }

  /** A request is admitted without sleeping only while fewer than LOCAL_LIMIT others are in the window. */
  lemma StepKeepsWindows(s: State, step: Step)
    requires Inv(s) && Enabled(s, step)
    ensures WindowsBounded(Apply(s, step).log)
  {
    var s' := Apply(s, step);
    forall w ensures InWindow(s'.log, w) <= LOCAL_LIMIT {
      if s'.log != s.log {
        assert s'.log[..|s'.log| - 1] == s.log;
        assert InWindow(s.log, w) <= LOCAL_LIMIT;
        if step.Enter? && w <= s.clock <= w + WINDOW_MS {
          SleepBounds(s.queue, s.clock);
          PurgeKeepsRecent(s.queue, s.clock, w);
          DirectBounds(s.log, w, w + WINDOW_MS, s.clock);
        }
      }
    }
  }

  lemma {:induction false} LegalRunsKeepInv(steps: seq<Step>)
    requires Legal(steps)
    ensures Inv(After(steps))
  {
    if steps != [] {
      var front, last := steps[..|steps| - 1], steps[|steps| - 1];
      LegalRunsKeepInv(front);
      StepKeepsTimely(After(front), last);
      StepKeepsRemembered(After(front), last);
      StepKeepsWindows(After(front), last);
    }
  }

  /**
   Any number of threads, any interleaving: no closed window of 1000 ms holds more than ten
   requests admitted without sleeping, each counted at the clock reading it records under the
   lock, and every sleep lasts 10 to 1010 ms.
   */
  lemma DirectAdmissionsBounded(steps: seq<Step>, w: int)
    requires Legal(steps)
    ensures InWindow(After(steps).log, w) <= LOCAL_LIMIT
    ensures forall t :: t in After(steps).sleeping ==>
              var sleeper := After(steps).sleeping[t];
              10 <= sleeper.wake - sleeper.recorded <= WINDOW_MS + 10
  {
    LegalRunsKeepInv(steps);
  }

  /**
   What a call does in any state, in numbers: with k the first queue entry not older than 1000 ms, it
   drops the entries before that one, and goes to sleep until 1010 ms after it when ten or more are left.
   */
  lemma EnterSpec(s: State, t: nat, k: nat)
    requires Enabled(s, Enter(t)) && k <= |s.queue|
    requires forall i :: 0 <= i < k ==> s.clock - s.queue[i] > 1000
    requires k < |s.queue| ==> s.clock - s.queue[k] <= 1000
    ensures Apply(s, Enter(t))
         == if |s.queue| - k >= 10
            then s.(queue := s.queue[k..], sleeping := s.sleeping[t := Sleeper(s.clock, s.queue[k] + 1010)])
            else s.(queue := s.queue[k..] + [s.clock], log := s.log + [Release(s.clock, s.clock, false)])
  {
    PurgeAt(s.queue, s.clock, k);
  }

  lemma {:induction false} PurgeAt(q: seq<int>, now: int, k: nat)
    requires k <= |q|
    requires forall i :: 0 <= i < k ==> now - q[i] > 1000
    requires k < |q| ==> now - q[k] <= 1000
    ensures Purge(q, now) == q[k..]
  {
    if k > 0 {
      assert now - q[0] > 1000;
      PurgeAt(q[1..], now, k - 1);
    }
  }

  /** The times recorded by the requests let go so far. */
  function Times(log: seq<Release>): seq<int> {
    if log == [] then [] else Times(log[..|log| - 1]) + [log[|log| - 1].recorded]
  }

  /**
   The queue holds times recorded by requests that were let go, each as often as it was recorded at most,
   and exactly as often when it is not older than 1000 ms.
   */
  ghost predicate HoldsRecorded(queue: seq<int>, log: seq<Release>, clock: int) {
    && multiset(queue) <= multiset(Times(log))
    && forall x :: x >= clock - 1000 ==> multiset(queue)[x] == multiset(Times(log))[x]
  }

  lemma {:induction false} PurgeCounts(q: seq<int>, now: int)
    ensures multiset(Purge(q, now)) <= multiset(q)
    ensures forall x :: x >= now - 1000 ==> multiset(Purge(q, now))[x] == multiset(q)[x]
  {
    if q != [] && now - q[0] > WINDOW_MS {
      PurgeCounts(q[1..], now);
      assert q == [q[0]] + q[1..];
    }
  }

  lemma RecordOne(queue: seq<int>, log: seq<Release>, clock: int, r: Release)
    requires HoldsRecorded(queue, log, clock)
    ensures HoldsRecorded(queue + [r.recorded], log + [r], clock)
  {
    assert (log + [r])[..|log + [r]| - 1] == log;
    assert Times(log + [r]) == Times(log) + [r.recorded];
  }

  lemma PurgeKeepsRecorded(queue: seq<int>, log: seq<Release>, clock: int)
    requires HoldsRecorded(queue, log, clock)
    ensures HoldsRecorded(Purge(queue, clock), log, clock)
  {
    PurgeCounts(queue, clock);
  }

  lemma StepKeepsRecorded(s: State, step: Step)
    requires HoldsRecorded(s.queue, s.log, s.clock) && Enabled(s, step)
    ensures var s' := Apply(s, step); HoldsRecorded(s'.queue, s'.log, s'.clock)
  {
    match step
    case Tick(_) =>
    case Enter(_) =>
      PurgeKeepsRecorded(s.queue, s.log, s.clock);
      RecordOne(Purge(s.queue, s.clock), s.log, s.clock, Release(s.clock, s.clock, false));
    case Wake(t) =>
      RecordOne(s.queue, s.log, s.clock, Release(s.clock, s.sleeping[t].recorded, true));
  }

  lemma {:induction false} QueueHoldsRecorded(steps: seq<Step>)
    requires Legal(steps)
    ensures var s := After(steps); HoldsRecorded(s.queue, s.log, s.clock)
  {
    if steps != [] {
      QueueHoldsRecorded(steps[..|steps| - 1]);
      StepKeepsRecorded(After(steps[..|steps| - 1]), steps[|steps| - 1]);
    }
  }

  // The other half: requests that do sleep are not bounded at all.

  function Zeros(n: nat): seq<int> { seq(n, _ => 0) }

  function Admitted(n: nat): seq<Release> { seq(n, _ => Release(0, 0, false)) }

  function Woken(n: nat): seq<Release> { seq(n, _ => Release(WINDOW_MS + 10, 0, true)) }

  /** Threads LOCAL_LIMIT to n - 1, asleep since time 0. */
  function Sleepers(n: nat): (m: map<nat, Sleeper>)
    ensures forall t :: t in m <==> LOCAL_LIMIT <= t < n
    ensures forall t :: t in m ==> m[t] == Sleeper(0, WINDOW_MS + 10)
  {
    if n <= LOCAL_LIMIT then map[] else Sleepers(n - 1)[n - 1 := Sleeper(0, WINDOW_MS + 10)]
  }

  function Enters(n: nat): seq<Step> { seq(n, t requires t >= 0 => Enter(t)) }

  /** Threads n - 1 down to n - m. */
  function Wakes(n: nat, m: nat): seq<Step>
    requires m <= n
  {
    seq(m, t requires 0 <= t < m => Wake(n - 1 - t))
  }

  /** The state at time 0 when n threads have called. */
  function Crowded(n: nat): State {
    if n <= LOCAL_LIMIT then State(0, Zeros(n), map[], Admitted(n))
    else State(0, Zeros(LOCAL_LIMIT), Sleepers(n), Admitted(LOCAL_LIMIT))
  }

  lemma EnterOne(n: nat)
    ensures var step := Enter(n); Enabled(Crowded(n), step) && Apply(Crowded(n), step) == Crowded(n + 1)
  {
    EnterSpec(Crowded(n), n, 0);
    if n < LOCAL_LIMIT {
      assert Zeros(n) + [0] == Zeros(n + 1) && Admitted(n) + [Release(0, 0, false)] == Admitted(n + 1);
    } else {
      assert Sleepers(n + 1) == Sleepers(n)[n := Sleeper(0, WINDOW_MS + 10)];
    }
  }

  /** n threads call at time 0: the first ten pass, the others all sleep until 1010. */
  lemma {:induction false} Crowd(n: nat)
    ensures Legal(Enters(n)) && After(Enters(n)) == Crowded(n)
  {
    if n == 0 {
      assert Enters(0) == [];
    } else {
      Crowd(n - 1);
      EnterOne(n - 1);
      assert Enters(n)[..n - 1] == Enters(n - 1);
    }
  }

  /** The state at time 1010 when m of the n sleepers have been let go. */
  function Awake(n: nat, m: nat): State
    requires m <= n
  {
    State(WINDOW_MS + 10, Zeros(LOCAL_LIMIT + m), Sleepers(LOCAL_LIMIT + n - m), Admitted(LOCAL_LIMIT) + Woken(m))
  }

  lemma WakeOne(n: nat, m: nat)
    requires m < n
    ensures var step := Wake(LOCAL_LIMIT + n - m - 1);
      Enabled(Awake(n, m), step) && Apply(Awake(n, m), step) == Awake(n, m + 1)
  {
    var t := LOCAL_LIMIT + n - m - 1;
    assert Sleepers(t + 1) - {t} == Sleepers(t);
    assert Woken(m + 1) == Woken(m) + [Release(WINDOW_MS + 10, 0, true)];
    assert Zeros(LOCAL_LIMIT + m) + [0] == Zeros(LOCAL_LIMIT + m + 1);
  }

  /** At 1010 m of them wake, one after the other, in no time. */
  lemma {:induction false} WakeAll(n: nat, m: nat)
    requires m <= n
    ensures var steps := Enters(LOCAL_LIMIT + n) + [Tick(WINDOW_MS + 10)] + Wakes(LOCAL_LIMIT + n, m);
      Legal(steps) && After(steps) == Awake(n, m)
  {
    var enters, tick := Enters(LOCAL_LIMIT + n), [Tick(WINDOW_MS + 10)];
    var steps := enters + tick + Wakes(LOCAL_LIMIT + n, m);
    if m == 0 {
      Crowd(LOCAL_LIMIT + n);
      assert steps == enters + tick && steps[..|steps| - 1] == enters;
      assert Admitted(LOCAL_LIMIT) + Woken(0) == Admitted(LOCAL_LIMIT);
    } else {
      WakeAll(n, m - 1);
      WakeOne(n, m - 1);
      assert steps[..|steps| - 1] == enters + tick + Wakes(LOCAL_LIMIT + n, m - 1);
    }
  }

  /** For every n some run releases n sleepers at one instant. */
  lemma SleepersUnbounded(n: nat) returns (steps: seq<Step>)
    ensures Legal(steps)
    ensures var log := After(steps).log;
      |log| >= n && forall i :: |log| - n <= i < |log| ==> log[i] == Release(WINDOW_MS + 10, 0, true)
  {
    steps := Enters(LOCAL_LIMIT + n) + [Tick(WINDOW_MS + 10)] + Wakes(LOCAL_LIMIT + n, n);
    WakeAll(n, n);
  }
}
