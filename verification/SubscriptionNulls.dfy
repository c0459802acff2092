/** When null enters the confirmed list, how often it is there, and what it does to the next request. */
module SubscriptionNulls {
  import opened Common
  import opened Subscriptions
  import opened SubscriptionRuns
  import opened SubscriptionReplies

  /**
   The number of nulls that the replies call for: a success credited to nobody adds one, a refusal
   credited to nobody takes one away if there is one.
   */
  ghost function NullsCalledFor(replies: seq<Reply>): nat {
    if replies == [] then 0
    else
      var before, last := NullsCalledFor(replies[..|replies| - 1]), replies[|replies| - 1];
      if !last.credited.Empty? then before
      else if last.success then before + 1
      else if before > 0 then before - 1 else 0
  }

  lemma ReplyCountsNulls(s: State, s': State, success: bool)
    requires SlotIsNewest(s) && multiset(s.subscriptions)[Null] == NullsCalledFor(s.replies)
    requires s'.replies == Replied(s, success)
    requires s'.subscriptions == if success then s.subscriptions + [s.subscribing]
                                 else RemoveFirst(s.subscriptions, s.subscribing)
    ensures multiset(s'.subscriptions)[Null] == NullsCalledFor(s'.replies)
  {
    assert s'.replies[..|s'.replies| - 1] == s.replies;
    RemoveFirstCounts(s.subscriptions, s.subscribing);
  }

  lemma StepCountsNulls(s: State, step: Step)
    requires Inv(s) && Enabled(s, step) && multiset(s.subscriptions)[Null] == NullsCalledFor(s.replies)
    ensures var s' := Apply(s, step); multiset(s'.subscriptions)[Null] == NullsCalledFor(s'.replies)
  {
    if step.ReadDone? {
      var m := step.message;
      if !Fatal(m) && m.ControlMessage? && m.data.Text? { ReplyCountsNulls(Done(s), Apply(s, step), m.data.success); }
    } else {
      QuietStep(s, step);
    }
  }

  /** In every run the list holds exactly as many nulls as the replies call for. */
  lemma {:induction false} NullsOfRun(steps: seq<Step>)
    requires Legal(steps)
    ensures multiset(After(steps).subscriptions)[Null] == NullsCalledFor(After(steps).replies)
  {
    if steps != [] {
      var front := steps[..|steps| - 1];
      NullsOfRun(front);
      RunsKeepInv(front);
      StepCountsNulls(After(front), steps[|steps| - 1]);
    }
  }

  predicate CreditedToNobody(r: Reply, success: bool) { r.success == success && r.credited.Empty? }

  lemma {:induction false} NullsCalledForIff(replies: seq<Reply>)
    requires forall r :: r in replies ==> !CreditedToNobody(r, false)
    ensures NullsCalledFor(replies) > 0 <==> exists r :: r in replies && CreditedToNobody(r, true)
  {
    if replies != [] {
      var front, last := replies[..|replies| - 1], replies[|replies| - 1];
      NullsCalledForIff(front);
      assert replies == front + [last];
      assert last in replies;
    }
  }

  /**
   In a run in which nothing was refused while nothing was awaited, null is listed exactly when some
   success came while nothing was awaited.
   */
  lemma NullListedIff(steps: seq<Step>)
    requires Legal(steps) && forall r :: r in After(steps).replies ==> !CreditedToNobody(r, false)
    ensures Null in After(steps).subscriptions
       <==> exists r :: r in After(steps).replies && CreditedToNobody(r, true)
  {
    NullsOfRun(steps);
    NullsCalledForIff(After(steps).replies);
    assert Null in After(steps).subscriptions <==> multiset(After(steps).subscriptions)[Null] > 0;
  }

  /** Two requests sent before either was answered, and both confirmed: the list holds the second one and null. */
  lemma NullStored(a: RequestObject, b: RequestObject) returns (steps: seq<Step>)
    requires a.printable && b.printable
    ensures Legal(steps)
    ensures var s := After(steps);
      && Up(s) && s.sent == [a, b] && s.subscriptions == [b, Null]
      && |s.replies| == 2 && s.replies[0].success && s.replies[1].success
  {
    steps := BothSent(a, b);
    var yes := ControlMessage(Text(true));
    Reads(steps, yes);
    steps := steps + [ReadDone(yes), Proceed];
    var first := Reply(true, Sent(1), 2, 2);
    assert After(steps)
        == State([b], [], Null, true, 1, 0, false, [a, b], [a, b], [a, b], Empty, [first], 2, false);
    Reads(steps, yes);
    steps := steps + [ReadDone(yes), Proceed];
    assert After(steps)
        == State([b, Null], [], Null, true, 1, 0, false, [a, b], [a, b], [a, b], Empty,
                 [first, Reply(true, Empty, 2, 2)], 3, false);
  }

  /**
   A request throws exactly when the first listed entry that does not differ from it is null.
   */
  lemma ThrowsIff(subscriptions: seq<Json>, request: RequestObject)
    ensures Admit(subscriptions, request) == Throws
       <==> exists i: nat :: i < |subscriptions| && subscriptions[i].Null? && AllDiffer(subscriptions[..i], request)
  {
    var i := AdmitDecided(subscriptions, request);
    assert AllDiffer(subscriptions[..i], request);
    forall k: nat | k < |subscriptions| && subscriptions[k].Null? && AllDiffer(subscriptions[..k], request)
      ensures k == i
    {
      ElementOfPrefix(subscriptions, k);
    }
  }

  /** A key the comparison reads is missing: the method, or the symbol where the methods agree. */
  predicate LacksKey(sub: Json, request: RequestObject) {
    && sub.Request?
    && (sub.methodName.None? || request.methodName.None? ||
        (sub.methodName == request.methodName && (sub.symbol.None? || request.symbol.None?)))
  }

  /** The outcome is undefined exactly when the first listed entry that does not differ lacks a key that is read. */
  lemma UndefinedIff(subscriptions: seq<Json>, request: RequestObject)
    ensures Admit(subscriptions, request) == Undefined
       <==> exists i: nat :: i < |subscriptions| && LacksKey(subscriptions[i], request)
                             && AllDiffer(subscriptions[..i], request)
  {
    var i := AdmitDecided(subscriptions, request);
    assert AllDiffer(subscriptions[..i], request);
    forall k: nat | k < |subscriptions| && LacksKey(subscriptions[k], request) && AllDiffer(subscriptions[..k], request)
      ensures k == i
    {
      ElementOfPrefix(subscriptions, k);
    }
  }

  lemma ElementOfPrefix(s: seq<Json>, k: nat)
    requires k <= |s|
    ensures forall i: nat :: i < k ==> s[i] in s[..k]
  {
    forall i: nat | i < k ensures s[i] in s[..k] { assert s[..k][i] == s[i]; }
  }

  predicate AllDiffer(subscriptions: seq<Json>, request: RequestObject) {
    forall sub :: sub in subscriptions ==> Differs(sub, request)
  }
}
