/** Which request a reply is credited to, what the confirmed list then means, and what de-duplication compares. */
module SubscriptionReplies {
  import opened Common
  import opened Subscriptions
  import opened SubscriptionRuns

  ghost predicate OwnAt(s: State, k: nat)
    requires k < |s.replies|
  {
    s.replies[k].credited == Sent(k)
  }

  ghost predicate InTurnAt(s: State, k: nat)
    requires k < |s.replies|
  {
    var r := s.replies[k];
    r.sentBefore == k + 1 && 0 < r.pulledBefore <= |s.pulled| && Sendable(s.pulled[r.pulledBefore - 1])
  }

  /** Every reply is credited to the request it answers: the k-th reply to the k-th request sent. */
  ghost predicate OwnReplies(s: State) {
    forall k: nat :: k < |s.replies| ==> OwnAt(s, k)
  }

  /**
   Requests and replies take turns: when reply k came, k + 1 requests had been sent, and the newest
   request taken from the queue was the last of them.
   */
  ghost predicate InTurn(s: State) {
    forall k: nat :: k < |s.replies| ==> InTurnAt(s, k)
  }

  /** In every run, replies reach their own requests exactly when requests and replies take turns. */
  lemma AttributionIff(steps: seq<Step>)
    requires Legal(steps)
    ensures OwnReplies(After(steps)) <==> InTurn(After(steps))
  {
    RunsKeepInv(steps);
    AttributionOfState(After(steps));
  }

  lemma AttributionOfState(s: State)
    requires CreditsFollowPulls(s)
    ensures OwnReplies(s) <==> InTurn(s)
  {
    if OwnReplies(s) {
      forall k: nat | k < |s.replies| ensures InTurnAt(s, k) {
        assert OwnAt(s, k) && CreditAt(s.replies, s.pulled, k);
      }
    }
    if InTurn(s) {
      forall k: nat | k < |s.replies| ensures OwnAt(s, k) {
        assert InTurnAt(s, k) && CreditAt(s.replies, s.pulled, k);
        assert k > 0 ==> InTurnAt(s, k - 1) && CreditAt(s.replies, s.pulled, k - 1);
      }
    }
  }

  /** The confirmed list that replies to requests in order call for. */
  ghost function Confirmed(requests: seq<Json>, replies: seq<Reply>): seq<Json>
    requires |replies| <= |requests|
  {
    if replies == [] then []
    else
      var n := |replies| - 1;
      var before := Confirmed(requests, replies[..n]);
      if replies[n].success then before + [requests[n]] else RemoveFirst(before, requests[n])
  }

  lemma {:induction false} ConfirmedGrows(requests: seq<Json>, more: seq<Json>, replies: seq<Reply>)
    requires |replies| <= |requests|
    ensures Confirmed(requests + more, replies) == Confirmed(requests, replies)
  {
    if replies != [] { ConfirmedGrows(requests, more, replies[..|replies| - 1]); }
  }

  lemma {:induction false} RemoveFirstKeepsOut(s: seq<Json>, x: Json, y: Json)
    requires y !in s
    ensures y !in RemoveFirst(s, x)
  {
    if s != [] && s[0] != x { RemoveFirstKeepsOut(s[1..], x, y); }
  }

  /** In turn, the confirmed list is the fold of the replies over the sent requests, and null is never in it. */
  ghost predicate FoldHolds(s: State) {
    InTurn(s) ==>
      |s.replies| <= |s.sent| && s.subscriptions == Confirmed(s.sent, s.replies) && Null !in s.subscriptions
  }

  lemma ReplyKeepsFold(s: State, s': State, success: bool)
    requires Inv(s) && !s.torn && FoldHolds(s)
    requires s'.replies == Replied(s, success) && s'.pulled == s.pulled && s'.sent == s.sent
    requires s'.torn || s'.slot.Empty?
    requires s'.subscriptions == if success then s.subscriptions + [s.subscribing]
                                 else RemoveFirst(s.subscriptions, s.subscribing)
    ensures FoldHolds(s')
  {
    if InTurn(s') {
      var k := |s.replies|;
      forall i: nat | i < k ensures InTurnAt(s, i) { assert InTurnAt(s', i); }
      ReplyKeepsCredits(s, s', success);
      AttributionOfState(s');
      assert OwnAt(s', k);
      SlotIsSent(s);
      assert s'.replies[..k] == s.replies;
      if !success { RemoveFirstKeepsOut(s.subscriptions, s.subscribing, Null); }
    }
  }

  lemma SlotIsSent(s: State)
    requires QueueInOrder(s) && SlotIsNewest(s) && s.slot.Sent?
    ensures s.slot.index < |s.sent| && s.sent[s.slot.index] == s.subscribing
  {
    PrintableAt(s.pulled, |s.pulled| - 1);
    PrintableStep(s.pulled[..|s.pulled| - 1], s.subscribing);
  }

  lemma QuietKeepsFold(s: State, s': State)
    requires FoldHolds(s) && s'.replies == s.replies && s'.subscriptions == s.subscriptions
    requires s.pulled <= s'.pulled && s.sent <= s'.sent
    requires CreditsFollowPulls(s)
    ensures FoldHolds(s')
  {
    if InTurn(s') {
      forall k: nat | k < |s.replies| ensures InTurnAt(s, k) {
        assert InTurnAt(s', k) && CreditAt(s.replies, s.pulled, k);
      }
      assert s'.sent == s.sent + s'.sent[|s.sent|..];
      ConfirmedGrows(s.sent, s'.sent[|s.sent|..], s.replies);
    }
  }

  /** The steps that handle no reply. */
  lemma QuietStep(s: State, step: Step)
    requires Enabled(s, step) && !step.ReadDone?
    ensures var s' := Apply(s, step);
      s'.replies == s.replies && s'.subscriptions == s.subscriptions && s.pulled <= s'.pulled && s.sent <= s'.sent
  {
  }

  lemma ReceiveKeepsFold(s: State, m: Message)
    requires Inv(s) && !s.torn && FoldHolds(s)
    ensures FoldHolds(Receive(s, m))
  {
    if Tears(s, m) || (m.ControlMessage? && m.data.Text?) {
      ReplyKeepsFold(s, Receive(s, m), m.data.success);
    } else {
      QuietKeepsFold(s, Receive(s, m));
    }
  }

  lemma StepKeepsFold(s: State, step: Step)
    requires Inv(s) && FoldHolds(s) && Enabled(s, step)
    ensures FoldHolds(Apply(s, step))
  {
    if step.ReadDone? {
      ReadDoneKeepsInv(s);
      QuietKeepsFold(s, Done(s));
      ReceiveKeepsFold(Done(s), step.message);
    } else {
      QuietStep(s, step);
      QuietKeepsFold(s, Apply(s, step));
    }
  }

  lemma {:induction false} RunsKeepFold(steps: seq<Step>)
    requires Legal(steps)
    ensures FoldHolds(After(steps))
  {
    if steps != [] {
      var front := steps[..|steps| - 1];
      RunsKeepFold(front);
      RunsKeepInv(front);
      StepKeepsFold(After(front), steps[|steps| - 1]);
    }
  }

  /**
   When requests and replies take turns, the list is what the replies to the sent requests call for,
   and null is never stored.
   */
  lemma ConfirmedIsFoldOfReplies(steps: seq<Step>)
    requires Legal(steps) && InTurn(After(steps))
    ensures var s := After(steps);
      |s.replies| <= |s.sent| && s.subscriptions == Confirmed(s.sent, s.replies) && Null !in s.subscriptions
  {
    RunsKeepFold(steps);
  }

  lemma OneMore(steps: seq<Step>, step: Step)
    requires Legal(steps) && Enabled(After(steps), step)
    ensures Legal(steps + [step]) && After(steps + [step]) == Apply(After(steps), step)
  {
    assert (steps + [step])[..|steps + [step]| - 1] == steps;
  }

  /** A read brings a message that does not end in an exception, and the session goes on. */
  lemma Reads(steps: seq<Step>, m: Message)
    requires Legal(steps) && After(steps).openReads > 0
    requires !Fatal(m) && !Tears(After(steps), m)
    ensures var longer, s := steps + [ReadDone(m), Proceed], After(steps);
      Legal(longer) && After(longer) == Continue(Handle(s.(openReads := s.openReads - 1), m).(turn := true))
  {
    OneMore(steps, ReadDone(m));
    OneMore(steps + [ReadDone(m)], Proceed);
    assert (steps + [ReadDone(m)]) + [Proceed] == steps + [ReadDone(m), Proceed];
  }

  /** Both requests queued, the first sent, a data event read, the second sent: both are out and no reply has come. */
  lemma BothSent(a: RequestObject, b: RequestObject) returns (steps: seq<Step>)
    requires a.printable && b.printable
    ensures Legal(steps)
    ensures After(steps)
         == State([], [], b, true, 1, 0, false, [a, b], [a, b], [a, b], Sent(1), [], 1, false)
  {
    steps := [];
    OneMore(steps, Subscribe(a));
    steps := steps + [Subscribe(a)];
    OneMore(steps, Subscribe(b));
    steps := steps + [Subscribe(b)];
    assert After(steps) == State([], [a, b], Null, false, 0, 0, false, [a, b], [], [], Empty, [], 0, false);
    OneMore(steps, Handshake);
    steps := steps + [Handshake];
    OneMore(steps, WriteDone);
    steps := steps + [WriteDone];
    assert After(steps) == State([], [b], a, true, 1, 0, false, [a, b], [a], [a], Sent(0), [], 0, false);
    Reads(steps, DataEvent);
    steps := steps + [ReadDone(DataEvent), Proceed];
    OneMore(steps, WriteDone);
    steps := steps + [WriteDone];
  }

  /**
   Out of turn: the server confirms the first request and refuses the second, but a second
   request has been sent before the first reply came; the session lists the refused one.
   */
  lemma MisattributedReply(a: RequestObject, b: RequestObject) returns (steps: seq<Step>)
    requires a != b && a.printable && b.printable
    ensures Legal(steps)
    ensures var s := After(steps);
      && s.sent == [a, b] && |s.replies| == 2 && s.replies[0].success && !s.replies[1].success
      && s.subscriptions == [b] && Confirmed(s.sent, s.replies) == [a] && !InTurn(s)
  {
    steps := BothSent(a, b);
    Reads(steps, ControlMessage(Text(true)));
    steps := steps + [ReadDone(ControlMessage(Text(true))), Proceed];
    var first := Reply(true, Sent(1), 2, 2);
    assert After(steps)
        == State([b], [], Null, true, 1, 0, false, [a, b], [a, b], [a, b], Empty, [first], 2, false);
    Reads(steps, ControlMessage(Text(false)));
    assert RemoveFirst([b], Null) == [b] + RemoveFirst([b][1..], Null);
    steps := steps + [ReadDone(ControlMessage(Text(false))), Proceed];
    var replies := [first, Reply(false, Empty, 2, 2)];
    assert After(steps)
        == State([b], [], Null, true, 1, 0, false, [a, b], [a, b], [a, b], Empty, replies, 3, false);
    FoldOfTwo(a, b, replies);
    assert !InTurnAt(After(steps), 0);
  }

  lemma {:induction false} FoldOfTwo(a: Json, b: Json, replies: seq<Reply>)
    requires a != b && |replies| == 2 && replies[0].success && !replies[1].success
    ensures Confirmed([a, b], replies) == [a]
  {
    assert replies[..1][..0] == [];
    assert Confirmed([a, b], replies[..1]) == [a];
    assert RemoveFirst([a], b) == [a] + RemoveFirst([a][1..], b);
  }

  /** Everything confirmed, apart from null, was sent. */
  ghost predicate ConfirmedWasSent(s: State) {
    forall x :: x in s.subscriptions && x != Null ==> x in s.sent
  }

  /** The same at every moment of a run. */
  ghost predicate AlwaysSent(steps: seq<Step>)
    requires Legal(steps)
  {
    ConfirmedWasSent(After(steps)) && (steps != [] ==> AlwaysSent(steps[..|steps| - 1]))
  }

  predicate UnsentSuccess(r: Reply) { r.success && r.credited.Unsent? }

  /** No success arrived while the slot held a request that cannot be dumped. */
  ghost predicate NoUnsentSuccess(s: State) { forall r :: r in s.replies ==> !UnsentSuccess(r) }

  /**
   In every run, whatever is confirmed was sent, at every moment, exactly when no success arrived
   while the slot held a request that cannot be dumped.
   */
  lemma {:induction false} AlwaysSentIff(steps: seq<Step>)
    requires Legal(steps)
    ensures AlwaysSent(steps) <==> NoUnsentSuccess(After(steps))
  {
    if steps != [] {
      var front, last := steps[..|steps| - 1], steps[|steps| - 1];
      AlwaysSentIff(front);
      RunsKeepInv(front);
      RepliesStay(After(front), last);
      if NoUnsentSuccess(After(front)) { StepSentIff(After(front), last); }
    }
  }

  lemma RepliesStay(s: State, step: Step)
    requires Enabled(s, step)
    ensures s.replies <= Apply(s, step).replies
    ensures NoUnsentSuccess(Apply(s, step)) ==> NoUnsentSuccess(s)
  {
    assert forall r :: r in s.replies ==> r in Apply(s, step).replies;
  }

  lemma StepSentIff(s: State, step: Step)
    requires Inv(s) && Enabled(s, step) && ConfirmedWasSent(s) && NoUnsentSuccess(s)
    ensures ConfirmedWasSent(Apply(s, step)) <==> NoUnsentSuccess(Apply(s, step))
  {
    if step.ReadDone? {
      ReadDoneKeepsInv(s);
      ReceiveSentIff(Done(s), step.message);
    } else {
      QuietStep(s, step);
    }
  }

  lemma ReceiveSentIff(s: State, m: Message)
    requires Inv(s) && ConfirmedWasSent(s) && NoUnsentSuccess(s)
    ensures ConfirmedWasSent(Receive(s, m)) <==> NoUnsentSuccess(Receive(s, m))
  {
    if Tears(s, m) || (m.ControlMessage? && m.data.Text?) {
      if m.data.success {
        SuccessSentIff(s);
      } else {
        RefusalKeepsSent(s, Receive(s, m));
      }
    }
  }

  lemma SuccessSentIff(s: State)
    requires Inv(s) && ConfirmedWasSent(s) && NoUnsentSuccess(s)
    ensures ConfirmedWasSent(Answer(s, true)) <==> NoUnsentSuccess(Answer(s, true))
  {
    var s', x := Answer(s, true), s.subscribing;
    assert x in s'.subscriptions && s'.replies[|s.replies|] in s'.replies;
    if s.slot.Sent? {
      SlotIsSent(s);
    } else if s.slot.Unsent? {
      PrintableIsSendable(s.pulled, x);
    }
  }

  lemma RefusalKeepsSent(s: State, s': State)
    requires ConfirmedWasSent(s) && NoUnsentSuccess(s)
    requires s'.subscriptions == RemoveFirst(s.subscriptions, s.subscribing)
    requires s'.sent == s.sent && s'.replies == Replied(s, false)
    ensures ConfirmedWasSent(s') && NoUnsentSuccess(s')
  {
    forall x | x !in s.subscriptions ensures x !in s'.subscriptions {
      RemoveFirstKeepsOut(s.subscriptions, s.subscribing, x);
    }
  }

  /** So when every request accepted can be dumped, nothing unsent is ever confirmed. */
  lemma {:induction false} PrintableRunsConfirmSent(steps: seq<Step>)
    requires Legal(steps) && forall x :: x in After(steps).accepted ==> Sendable(x)
    ensures AlwaysSent(steps)
  {
    RunsKeepInv(steps);
    var s := After(steps);
    forall k: nat | k < |s.replies| ensures !s.replies[k].credited.Unsent? {
      assert CreditAt(s.replies, s.pulled, k);
      var n := s.replies[k].pulledBefore;
      assert n > 0 ==> s.accepted[n - 1] == s.pulled[n - 1] && s.accepted[n - 1] in s.accepted;
    }
    AlwaysSentIff(steps);
  }

  /** Three requests queued before the handshake, and the first one sent. */
  lemma FirstOfThreeSent(c: RequestObject, a: RequestObject, u: RequestObject) returns (steps: seq<Step>)
    requires c.printable
    ensures Legal(steps)
    ensures After(steps) == State([], [a, u], c, true, 1, 0, false, [c, a, u], [c], [c], Sent(0), [], 0, false)
  {
    steps := [];
    OneMore(steps, Subscribe(c));
    steps := steps + [Subscribe(c)];
    OneMore(steps, Subscribe(a));
    steps := steps + [Subscribe(a)];
    OneMore(steps, Subscribe(u));
    steps := steps + [Subscribe(u)];
    assert After(steps) == State([], [c, a, u], Null, false, 0, 0, false, [c, a, u], [], [], Empty, [], 0, false);
    OneMore(steps, Handshake);
    steps := steps + [Handshake];
    OneMore(steps, WriteDone);
    steps := steps + [WriteDone];
  }

  /** Then the first one confirmed and the second one sent. */
  lemma SecondSent(c: RequestObject, a: RequestObject, u: RequestObject) returns (steps: seq<Step>)
    requires c.printable && a.printable
    ensures Legal(steps)
    ensures After(steps)
         == State([c], [u], a, true, 1, 0, false, [c, a, u], [c, a], [c, a], Sent(1), [Reply(true, Sent(0), 1, 1)],
                  1, false)
  {
    steps := FirstOfThreeSent(c, a, u);
    Reads(steps, ControlMessage(Text(true)));
    steps := steps + [ReadDone(ControlMessage(Text(true))), Proceed];
    OneMore(steps, WriteDone);
    steps := steps + [WriteDone];
  }

  /**
   With a request that cannot be dumped, a request that was never sent can be confirmed while the
   session stays up: a data event pulls it, and the success meant for the request before it comes next.
   */
  lemma UnsentConfirmed(c: RequestObject, a: RequestObject, u: RequestObject) returns (steps: seq<Step>)
    requires c.printable && a.printable && !u.printable
    ensures Legal(steps)
    ensures var s := After(steps);
      && Up(s) && s.subscriptions == [c, u] && s.sent == [c, a] && u !in s.sent
      && |s.replies| == 2 && s.replies[0].success && s.replies[1].success
  {
    steps := SecondSent(c, a, u);
    var first := Reply(true, Sent(0), 1, 1);
    Reads(steps, DataEvent);
    steps := steps + [ReadDone(DataEvent), Proceed];
    assert After(steps)
        == State([c], [], u, true, 1, 0, false, [c, a, u], [c, a, u], [c, a], Unsent, [first], 2, false);
    Reads(steps, ControlMessage(Text(true)));
    steps := steps + [ReadDone(ControlMessage(Text(true))), Proceed];
    var replies := [first, Reply(true, Unsent, 2, 3)];
    assert After(steps)
        == State([c, u], [], Null, true, 1, 0, false, [c, a, u], [c, a, u], [c, a], Empty, replies, 3, false);
  }

  /** A confirmed entry that a request does not collide with: another method, or the same one and another symbol. */
  predicate Differs(sub: Json, request: RequestObject) {
    && sub.Request? && sub.methodName.Some? && request.methodName.Some?
    && (sub.methodName != request.methodName ||
        (sub.symbol.Some? && request.symbol.Some? && sub.symbol != request.symbol))
  }

  /** Either no entry stands in the way, or there is a first one that does. */
  lemma {:induction false} AdmitDecided(subscriptions: seq<Json>, request: RequestObject) returns (i: nat)
    ensures i <= |subscriptions|
    ensures forall k :: 0 <= k < i ==> Compare(subscriptions[k], request) == Accepted
    ensures Admit(subscriptions, request)
         == if i < |subscriptions| then Compare(subscriptions[i], request) else Accepted
    ensures i < |subscriptions| ==> Compare(subscriptions[i], request) != Accepted
  {
    i := 0;
    if subscriptions != [] && Compare(subscriptions[0], request) == Accepted {
      i := AdmitDecided(subscriptions[1..], request);
      i := i + 1;
      assert forall k :: 1 <= k < |subscriptions| ==> subscriptions[k] == subscriptions[1..][k - 1];
    }
  }

  lemma AcceptedIff(subscriptions: seq<Json>, request: RequestObject)
    ensures Admit(subscriptions, request) == Accepted <==> forall sub :: sub in subscriptions ==> Differs(sub, request)
  {
    var i := AdmitDecided(subscriptions, request);
    assert i < |subscriptions| ==> subscriptions[i] in subscriptions && !Differs(subscriptions[i], request);
  }

  predicate Refusal(step: Step) { step == ReadDone(ControlMessage(Text(false))) }

  /**
   A success that comes when nothing is awaited stores null. From then on, as long as no request is
   refused, whatever else happens no further request is accepted.
   */
  lemma {:induction false} NullEndsSubscribing(s: State, steps: seq<Step>)
    requires LegalFrom(s, steps) && Null in s.subscriptions
    requires forall step :: step in steps ==> !Refusal(step)
    ensures AfterFrom(s, steps).accepted == s.accepted && Null in AfterFrom(s, steps).subscriptions
  {
    if steps != [] {
      var front, last := steps[..|steps| - 1], steps[|steps| - 1];
      NullEndsSubscribing(s, front);
      assert last in steps;
      NullStays(AfterFrom(s, front), last);
    }
  }

  lemma NullStays(s: State, step: Step)
    requires Enabled(s, step) && Null in s.subscriptions && !Refusal(step)
    ensures Apply(s, step).accepted == s.accepted && Null in Apply(s, step).subscriptions
  {
    if step.Subscribe? { AcceptedIff(s.subscriptions, step.request); }
  }

  predicate SameMethod(sub: Json, request: RequestObject) { sub.Request? && sub.methodName == request.methodName }

  predicate SameSymbol(sub: Json, request: RequestObject) { sub.Request? && sub.symbol == request.symbol }

  predicate TopLevelShape(j: Json) { j.Request? && j.methodName.Some? && j.symbol.Some? }

  /** With both keys at the top level the outcome is always defined, and a duplicate is an equal pair of keys. */
  lemma TopLevelDeduplicates(subscriptions: seq<Json>, request: RequestObject)
    requires TopLevelShape(request) && forall sub :: sub in subscriptions ==> TopLevelShape(sub)
    ensures Admit(subscriptions, request)
         == if exists sub :: sub in subscriptions && SameMethod(sub, request) && SameSymbol(sub, request)
            then Duplicate else Accepted
  {
    var i := AdmitDecided(subscriptions, request);
    assert i < |subscriptions| ==> subscriptions[i] in subscriptions && SameMethod(subscriptions[i], request);
  }

  /** The shape the stream manager builds: the symbol sits under "param", not at the top level. */
  predicate StreamManagerShape(j: Json) { j.Request? && j.methodName.Some? && j.symbol.None? }

  /**
   For that shape nothing is ever recognised as a duplicate: the lookup is undefined as soon as any
   entry of the same method is confirmed.
   */
  lemma StreamManagerNeverDeduplicates(subscriptions: seq<Json>, request: RequestObject)
    requires StreamManagerShape(request) && forall sub :: sub in subscriptions ==> StreamManagerShape(sub)
    ensures Admit(subscriptions, request)
         == if exists sub :: sub in subscriptions && SameMethod(sub, request) then Undefined else Accepted
  {
    var i := AdmitDecided(subscriptions, request);
    assert i < |subscriptions| ==> subscriptions[i] in subscriptions && SameMethod(subscriptions[i], request);
  }
}
