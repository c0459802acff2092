/** What every run of the subscription session keeps, and when replies reach the right request. */
module SubscriptionRuns {
  import opened Common
  import opened Subscriptions

  function NonNull(s: seq<Json>): seq<Json> {
    if s == [] then [] else (if s[0].Null? then [] else [s[0]]) + NonNull(s[1..])
  }

  function Held(x: Json): multiset<Json> { if x.Null? then multiset{} else multiset{x} }

  /** The requests of a list that can be dumped as text. */
  function Printable(s: seq<Json>): seq<Json> {
    if s == [] then []
    else Printable(s[..|s| - 1]) + (if Sendable(s[|s| - 1]) then [s[|s| - 1]] else [])
  }

  lemma {:induction false} PrintableJoin(a: seq<Json>, b: seq<Json>)
    ensures Printable(a + b) == Printable(a) + Printable(b)
  {
    if b == [] {
      assert a + b == a;
    } else {
      var front, last := b[..|b| - 1], b[|b| - 1];
      PrintableJoin(a, front);
      assert (a + b)[..|a + b| - 1] == a + front && (a + b)[|a + b| - 1] == last;
      var end := if Sendable(last) then [last] else [];
      assert (Printable(a) + Printable(front)) + end == Printable(a) + (Printable(front) + end);
    }
  }

  lemma PrintableStep(s: seq<Json>, x: Json)
    ensures Printable(s + [x]) == if Sendable(x) then Printable(s) + [x] else Printable(s)
  {
    assert (s + [x])[..|s + [x]| - 1] == s;
  }

  lemma {:induction false} PrintableIsSendable(s: seq<Json>, x: Json)
    ensures x in Printable(s) <==> x in s && Sendable(x)
  {
    if s != [] {
      PrintableIsSendable(s[..|s| - 1], x);
      assert s == s[..|s| - 1] + [s[|s| - 1]];
    }
  }

  /**
   The queue: nothing is lost or reordered between being accepted, queued and pulled, and what has
   been sent are the pulled requests that have a text.
   */
  ghost predicate QueueInOrder(s: State) {
    && s.accepted == s.pulled + s.subscriptionRequests
    && (forall x :: x in s.accepted ==> x.Request?)
    && s.sent == Printable(s.pulled)
  }

  /** The slot holds the newest pulled request, or null; when it was sent, it is the newest one sent. */
  ghost predicate SlotIsNewest(s: State) {
    && (s.slot.Empty? <==> s.subscribing.Null?)
    && (!s.slot.Empty? ==> s.pulled != [] && s.subscribing == s.pulled[|s.pulled| - 1])
    && (s.slot.Sent? ==> Sendable(s.subscribing) && s.slot.index + 1 == |s.sent|)
    && (s.slot.Unsent? ==> !Sendable(s.subscribing))
  }

  /** Reads and writes outstanding, and a read handled to its first half. */
  function Operations(s: State): nat { s.openReads + s.openWrites + if s.turn then 1 else 0 }

  /** Never two operations at once, none before the handshake, and none after an answer was cut short. */
  ghost predicate OneOperation(s: State) {
    Operations(s) <= (if s.connected && !s.torn then 1 else 0) && (s.torn ==> s.connected)
  }

  /** What is confirmed or awaited has been pulled, no request counted twice. */
  ghost predicate CreditedOnce(s: State) {
    multiset(NonNull(s.subscriptions)) + Held(s.subscribing) <= multiset(s.pulled)
  }

  /** How many requests had been pulled when the reply before the k-th was handled. */
  function PulledBefore(replies: seq<Reply>, k: nat): nat
    requires k <= |replies|
  {
    if k == 0 then 0 else replies[k - 1].pulledBefore
  }

  /**
   A reply goes to the newest request pulled, unless a reply has come since that was pulled; then it
   goes to nobody. The newest request is also the newest one sent exactly when it has a text.
   */
  ghost predicate CreditAt(replies: seq<Reply>, pulled: seq<Json>, k: nat)
    requires k < |replies|
  {
    var r := replies[k];
    && PulledBefore(replies, k) <= r.pulledBefore <= |pulled|
    && r.sentBefore == |Printable(pulled[..r.pulledBefore])|
    && (if r.pulledBefore == PulledBefore(replies, k) then r.credited.Empty?
        else if Sendable(pulled[r.pulledBefore - 1]) then r.credited.Sent? && r.credited.index + 1 == r.sentBefore
        else r.credited.Unsent?)
  }

  ghost predicate CreditsFollowPulls(s: State) {
    && (forall k: nat :: k < |s.replies| ==> CreditAt(s.replies, s.pulled, k))
    && PulledBefore(s.replies, |s.replies|) <= |s.pulled|
    && (!s.torn ==> (s.slot.Empty? <==> |s.pulled| == PulledBefore(s.replies, |s.replies|)))
  }

  ghost predicate Inv(s: State) {
    QueueInOrder(s) && SlotIsNewest(s) && OneOperation(s) && CreditedOnce(s) && CreditsFollowPulls(s)
  }

  lemma TakeKeepsInv(s: State)
    requires Inv(s)
    ensures Inv(Take(s))
  {
    if s.subscriptionRequests != [] {
      TakeKeepsQueue(s);
      TakeKeepsCredits(s);
      assert multiset(s.pulled + [s.subscriptionRequests[0]]) == multiset(s.pulled) + Held(s.subscriptionRequests[0]);
    }
  }

  lemma TakeKeepsQueue(s: State)
    requires QueueInOrder(s) && s.subscriptionRequests != []
    ensures QueueInOrder(Take(s)) && s.subscriptionRequests[0].Request?
  {
    MoveFront(s.pulled, s.subscriptionRequests);
    assert s.subscriptionRequests[0] in s.accepted;
    PrintableStep(s.pulled, s.subscriptionRequests[0]);
  }

  lemma MoveFront(pulled: seq<Json>, queue: seq<Json>)
    requires queue != []
    ensures pulled + queue == (pulled + [queue[0]]) + queue[1..]
    ensures (pulled + queue)[|pulled|] == queue[0]
  {
  }

  lemma TakeKeepsCredits(s: State)
    requires CreditsFollowPulls(s) && s.subscriptionRequests != []
    ensures CreditsFollowPulls(Take(s))
  {
    var s' := Take(s);
    forall k: nat | k < |s.replies| ensures CreditAt(s.replies, s'.pulled, k) {
      assert CreditAt(s.replies, s.pulled, k);
      assert s'.pulled[..s.replies[k].pulledBefore] == s.pulled[..s.replies[k].pulledBefore];
    }
  }

  lemma {:induction false} RemoveFirstCounts(s: seq<Json>, x: Json)
    ensures multiset(RemoveFirst(s, x)) == multiset(s) - multiset{x}
  {
    if s != [] {
      assert s == [s[0]] + s[1..];
      if s[0] != x { RemoveFirstCounts(s[1..], x); }
    }
  }

  lemma {:induction false} NonNullRemove(s: seq<Json>, x: Json)
    ensures multiset(NonNull(RemoveFirst(s, x))) == multiset(NonNull(s)) - Held(x)
  {
    if s != [] {
      var rest := RemoveFirst(s[1..], x);
      assert s == [s[0]] + s[1..];
      NonNullCons(s[0], s[1..]);
      if s[0] != x {
        NonNullRemove(s[1..], x);
        NonNullCons(s[0], rest);
        HeldApart(s[0], x, multiset(NonNull(s[1..])));
      }
    }
  }

  lemma HeldApart(x: Json, y: Json, m: multiset<Json>)
    requires x != y
    ensures (Held(x) + m) - Held(y) == Held(x) + (m - Held(y))
  {
  }

  lemma NonNullCons(x: Json, s: seq<Json>)
    ensures multiset(NonNull([x] + s)) == Held(x) + multiset(NonNull(s))
  {
    assert ([x] + s)[1..] == s;
  }

  lemma {:induction false} NonNullAppend(s: seq<Json>, x: Json)
    ensures NonNull(s + [x]) == NonNull(s) + NonNull([x])
  {
    if s == [] {
      assert s + [x] == [x];
    } else {
      NonNullAppend(s[1..], x);
      assert (s + [x])[1..] == s[1..] + [x];
      var first := if s[0].Null? then [] else [s[0]];
      assert first + (NonNull(s[1..]) + NonNull([x])) == (first + NonNull(s[1..])) + NonNull([x]);
    }
  }

  lemma AnswerKeepsInv(s: State, success: bool)
    requires Inv(s) && !s.torn
    ensures Inv(Answer(s, success))
  {
    if success {
      NonNullAppend(s.subscriptions, s.subscribing);
      assert multiset(NonNull([s.subscribing])) == Held(s.subscribing);
    } else {
      NonNullRemove(s.subscriptions, s.subscribing);
    }
    ReplyKeepsCredits(s, Answer(s, success), success);
  }

  /** A reply that is handled to its end or cut short. */
  lemma ReplyKeepsCredits(s: State, s': State, success: bool)
    requires QueueInOrder(s) && SlotIsNewest(s) && CreditsFollowPulls(s) && !s.torn
    requires s'.replies == Replied(s, success) && s'.pulled == s.pulled && (s'.torn || s'.slot.Empty?)
    ensures CreditsFollowPulls(s')
  {
    var n := |s.replies|;
    forall k: nat | k < |s'.replies| ensures CreditAt(s'.replies, s'.pulled, k) {
      if k < n {
        assert CreditAt(s.replies, s.pulled, k);
      } else {
        assert s.pulled[..|s.pulled|] == s.pulled && PulledBefore(s'.replies, n) == PulledBefore(s.replies, n);
      }
    }
  }

  lemma EnqueueKeepsInv(s: State, request: RequestObject)
    requires Inv(s)
    ensures Inv(Enqueue(s, request))
  {
    var s' := Enqueue(s, request);
    if s' != s {
      assert s'.accepted == s'.pulled + s'.subscriptionRequests;
    }
  }

  /** The state once a read has completed. */
  function Done(s: State): State
    requires s.openReads > 0
  {
    s.(openReads := s.openReads - 1)
  }

  lemma ReadDoneKeepsInv(s: State)
    requires Inv(s) && s.openReads > 0
    ensures Inv(Done(s)) && s.connected && !s.torn && Operations(Done(s)) == 0
  {
    SameLogs(s, Done(s));
  }

  lemma ReceiveKeepsInv(s: State, m: Message)
    requires Inv(s) && s.connected && !s.torn && Operations(s) == 0
    ensures Inv(Receive(s, m))
  {
    if Tears(s, m) {
      TearKeepsInv(s);
    } else if !Fatal(m) {
      HandleKeepsInv(s, m);
      SameLogs(Handle(s, m), Receive(s, m));
    }
  }

  lemma HandleKeepsInv(s: State, m: Message)
    requires Inv(s) && !s.torn
    ensures var s' := Handle(s, m);
      Inv(s') && s'.connected == s.connected && s'.torn == s.torn && Operations(s') == Operations(s)
  {
    if m.ControlMessage? && m.data.Text? { AnswerKeepsInv(s, m.data.success); }
  }

  lemma TearKeepsInv(s: State)
    requires Inv(s) && s.connected && !s.torn && Operations(s) == 0
    ensures Inv(Torn(s))
  {
    NonNullRemove(s.subscriptions, s.subscribing);
    ReplyKeepsCredits(s, Torn(s), false);
  }

  lemma ContinueKeepsInv(s: State)
    requires Inv(s) && s.turn
    ensures Inv(Continue(s))
  {
    TakeKeepsInv(s);
    SameLogs(Take(s), Continue(s));
  }

  lemma HandshakeKeepsInv(s: State)
    requires Inv(s) && !s.connected
    ensures Inv(Apply(s, Handshake))
  {
    TakeKeepsInv(s);
    SameLogs(Take(s), Apply(s, Handshake));
  }

  lemma StepKeepsInv(s: State, step: Step)
    requires Inv(s) && Enabled(s, step)
    ensures Inv(Apply(s, step))
  {
    if step.Subscribe? {
      EnqueueKeepsInv(s, step.request);
    } else if step.Handshake? {
      HandshakeKeepsInv(s);
    } else if step.ReadDone? {
      ReadDoneKeepsInv(s);
      ReceiveKeepsInv(Done(s), step.message);
    } else if step.Proceed? {
      ContinueKeepsInv(s);
    } else {
      SameLogs(s, Apply(s, step));
    }
  }

  /** Only the connection and the operations may differ. */
  lemma SameLogs(s: State, s': State)
    requires Inv(s)
    requires s' == s.(connected := s'.connected, openReads := s'.openReads, openWrites := s'.openWrites,
                      turn := s'.turn, processed := s'.processed)
    requires OneOperation(s')
    ensures Inv(s')
  {
  }

  lemma {:induction false} RunsKeepInv(steps: seq<Step>)
    requires Legal(steps)
    ensures Inv(After(steps))
  {
    if steps != [] {
      RunsKeepInv(steps[..|steps| - 1]);
      StepKeepsInv(After(steps[..|steps| - 1]), steps[|steps| - 1]);
    }
  }

  /**
   Any interleaving of messages: what is confirmed, awaited and queued fits into what was
   accepted, so nothing is confirmed that was never asked for and no request is credited twice.
   */
  lemma NothingInvented(steps: seq<Step>)
    requires Legal(steps)
    ensures var s := After(steps);
      multiset(NonNull(s.subscriptions)) + Held(s.subscribing) + multiset(s.subscriptionRequests)
      <= multiset(s.accepted)
  {
    RunsKeepInv(steps);
    var s := After(steps);
    assert multiset(s.accepted) == multiset(s.pulled) + multiset(s.subscriptionRequests);
  }

  /**
   Accepted requests are exactly those pulled followed by those still queued, in order, and those sent
   are exactly the pulled ones that have a text; so what can be sent has been sent or is queued, in
   order. Reads, writes and handled messages never overlap.
   */
  lemma QueueKeepsOrder(steps: seq<Step>)
    requires Legal(steps)
    ensures var s := After(steps);
      && s.accepted == s.pulled + s.subscriptionRequests
      && s.sent == Printable(s.pulled)
      && Printable(s.accepted) == s.sent + Printable(s.subscriptionRequests)
      && Operations(s) <= 1
  {
    RunsKeepInv(steps);
    PrintableJoin(After(steps).pulled, After(steps).subscriptionRequests);
  }

  /** The session is up: connected, with an operation outstanding. */
  predicate Up(s: State) { s.connected && Operations(s) == 1 }

  /** One step of a session that stays up takes a request per message while there are any, and drops none. */
  lemma StepProgress(s: State, step: Step)
    requires OneOperation(s) && s.connected && Enabled(s, step) && Up(Apply(s, step))
    ensures var s' := Apply(s, step);
      && Up(s)
      && s.accepted <= s'.accepted
      && s.processed <= s'.processed <= s.processed + 1
      && |s'.pulled| == |s.pulled| + (if s'.processed > s.processed && s.subscriptionRequests != [] then 1 else 0)
  {
  }

  lemma {:induction false} PulledPerMessage(s: State, steps: seq<Step>)
    requires Inv(s) && s.connected && LegalFrom(s, steps) && Up(AfterFrom(s, steps))
    ensures var s' := AfterFrom(s, steps);
      && Inv(s')
      && s.accepted <= s'.accepted
      && s.processed <= s'.processed
      && (|s'.pulled| >= |s.accepted| || |s'.pulled| >= |s.pulled| + (s'.processed - s.processed))
  {
    if steps != [] {
      var front, last := steps[..|steps| - 1], steps[|steps| - 1];
      var t := AfterFrom(s, front);
      ConnectedStays(s, front);
      InvFrom(s, front);
      StepProgress(t, last);
      StepKeepsInv(t, last);
      PulledPerMessage(s, front);
    }
  }

  /**
   While a session stays up, every message it handles takes one more request from the queue: once
   p + 1 messages are handled, the request at position p of the queue has been taken and, when it has
   a text, sent, right after those before it.
   */
  lemma RequestsGoOut(s: State, steps: seq<Step>, p: nat)
    requires Inv(s) && s.connected && LegalFrom(s, steps) && Up(AfterFrom(s, steps))
    requires p < |s.subscriptionRequests| && s.processed + p + 1 <= AfterFrom(s, steps).processed
    ensures var s', request, n := AfterFrom(s, steps), s.subscriptionRequests[p],
                                  |s.sent| + |Printable(s.subscriptionRequests[..p])|;
      && |s.pulled| + p < |s'.pulled| && s'.pulled[|s.pulled| + p] == request
      && (Sendable(request) ==> n < |s'.sent| && s'.sent[n] == request)
  {
    PulledPerMessage(s, steps);
    assert Inv(AfterFrom(s, steps));
    SentInOrder(s, AfterFrom(s, steps), p);
  }

  lemma SentInOrder(s: State, s': State, p: nat)
    requires QueueInOrder(s) && QueueInOrder(s') && s.accepted <= s'.accepted
    requires p < |s.subscriptionRequests| && |s.pulled| + p < |s'.pulled|
    ensures var request, n := s.subscriptionRequests[p], |s.sent| + |Printable(s.subscriptionRequests[..p])|;
      && s'.pulled[|s.pulled| + p] == request
      && (Sendable(request) ==> n < |s'.sent| && s'.sent[n] == request)
  {
    var i := |s.pulled| + p;
    TakenInOrder(s, s', p);
    if Sendable(s'.pulled[i]) { PrintableAt(s'.pulled, i); }
    PrintableJoin(s.pulled, s.subscriptionRequests[..p]);
  }

  lemma TakenInOrder(s: State, s': State, p: nat)
    requires QueueInOrder(s) && QueueInOrder(s') && s.accepted <= s'.accepted
    requires p < |s.subscriptionRequests| && |s.pulled| + p < |s'.pulled|
    ensures s'.pulled[|s.pulled| + p] == s.subscriptionRequests[p]
    ensures s'.pulled[..|s.pulled| + p] == s.pulled + s.subscriptionRequests[..p]
  {
    var i := |s.pulled| + p;
    assert s.accepted[i] == s.subscriptionRequests[p] && s'.accepted[i] == s.accepted[i];
    assert s.accepted[..i] == s.pulled + s.subscriptionRequests[..p] && s'.accepted[..i] == s.accepted[..i];
    assert s'.pulled[..i] == s'.accepted[..i];
  }

  /** Where a request with a text stands among those with one. */
  lemma PrintableAt(s: seq<Json>, i: nat)
    requires i < |s| && Sendable(s[i])
    ensures |Printable(s[..i])| < |Printable(s)| && Printable(s)[|Printable(s[..i])|] == s[i]
  {
    assert s == (s[..i] + [s[i]]) + s[i + 1..];
    PrintableJoin(s[..i] + [s[i]], s[i + 1..]);
    PrintableStep(s[..i], s[i]);
  }

  lemma {:induction false} ConnectedStays(s: State, steps: seq<Step>)
    requires s.connected && LegalFrom(s, steps)
    ensures AfterFrom(s, steps).connected
  {
    if steps != [] { ConnectedStays(s, steps[..|steps| - 1]); }
  }

  lemma {:induction false} InvFrom(s: State, steps: seq<Step>)
    requires Inv(s) && LegalFrom(s, steps)
    ensures Inv(AfterFrom(s, steps))
  {
    if steps != [] {
      InvFrom(s, steps[..|steps| - 1]);
      StepKeepsInv(AfterFrom(s, steps[..|steps| - 1]), steps[|steps| - 1]);
    }
  }
}
