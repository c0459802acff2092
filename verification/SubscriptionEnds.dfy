/** What ends a session, what does not, and that an ended session does nothing any more. */
module SubscriptionEnds {
  import opened Common
  import opened Subscriptions
  import opened SubscriptionRuns

  /**
   The steps that end a session: a failed operation; a read of something that is not JSON, whose channel
   is not a text, or whose control data is not a text; and a refusal of a request that cannot be dumped.
   */
  predicate Ends(s: State, step: Step) {
    match step
    case HandshakeFailed => true
    case WriteFailed => true
    case ReadFailed => true
    case ReadDone(NotJson) => true
    case ReadDone(BadChannel) => true
    case ReadDone(ControlMessage(NotText)) => true
    case ReadDone(ControlMessage(Text(success))) => !success && s.subscribing.Request? && !s.subscribing.printable
    case _ => false
  }

  /** Connected, with nothing outstanding: no handler will be called again. */
  predicate Ended(s: State) { s.connected && Operations(s) == 0 }

  /** A session that is up, or has not been connected, is ended by these steps and by no others. */
  lemma EndedIff(s: State, step: Step)
    requires OneOperation(s) && Enabled(s, step) && !Ended(s)
    ensures Ended(Apply(s, step)) <==> Ends(s, step)
  {
  }

  lemma EndedStep(s: State, step: Step)
    requires Ended(s) && Enabled(s, step)
    ensures var s' := Apply(s, step); step.Subscribe? && Ended(s') && SameTraffic(s, s')
  {
  }

  /** Nothing more has been sent, taken, answered or handled. */
  predicate SameTraffic(s: State, s': State) {
    && s'.sent == s.sent && s'.pulled == s.pulled
    && s'.replies == s.replies && s'.processed == s.processed
    && s'.subscriptions == s.subscriptions && s'.subscribing == s.subscribing
  }

  /** An ended session stays so in every continuation, which can only queue requests. */
  lemma {:induction false} EndedStays(s: State, steps: seq<Step>)
    requires Ended(s) && LegalFrom(s, steps)
    ensures Ended(AfterFrom(s, steps)) && SameTraffic(s, AfterFrom(s, steps))
    ensures forall step :: step in steps ==> step.Subscribe?
  {
    if steps != [] {
      var front, last := steps[..|steps| - 1], steps[|steps| - 1];
      EndedStays(s, front);
      EndedStep(AfterFrom(s, front), last);
      assert steps == front + [last];
    }
  }

  /** After a run and a step that ends the session, nothing is sent or handled in any continuation. */
  lemma NothingAfterEnd(steps: seq<Step>, step: Step, more: seq<Step>)
    requires Legal(steps) && Enabled(After(steps), step) && Ends(After(steps), step)
    requires LegalFrom(Apply(After(steps), step), more)
    ensures var s' := AfterFrom(Apply(After(steps), step), more);
      && Ended(s') && SameTraffic(Apply(After(steps), step), s')
      && s'.sent == After(steps).sent && s'.processed == After(steps).processed
  {
    RunsKeepInv(steps);
    EndsFromEnabled(After(steps), step);
    EndedStays(Apply(After(steps), step), more);
  }

  /** A step that ends a session finds it with an operation outstanding or unconnected, and sends nothing. */
  lemma EndsFromEnabled(s: State, step: Step)
    requires OneOperation(s) && Enabled(s, step) && Ends(s, step)
    ensures Ended(Apply(s, step))
    ensures Apply(s, step).sent == s.sent && Apply(s, step).processed == s.processed
  {
    EndedIff(s, step);
  }

  /** The handshake starts a write, whether there is a text to send or not, and a completed write starts a read. */
  lemma WritesThenReads(s: State)
    requires OneOperation(s)
    ensures !s.connected ==>
              var s' := Apply(s, Handshake);
              s'.openWrites == 1 && Up(s')
    ensures s.openWrites > 0 ==> Apply(s, WriteDone) == s.(openWrites := 0, openReads := 1)
  {
  }

  /**
   A refusal takes one copy of what is awaited off the list; the slot is emptied, unless writing the log
   entry throws, which is when the session ends.
   */
  lemma RefusalSpec(s: State)
    requires OneOperation(s) && s.openReads > 0
    ensures var s' := Apply(s, ReadDone(ControlMessage(Text(false))));
      && multiset(s'.subscriptions) == multiset(s.subscriptions) - multiset{s.subscribing}
      && |s'.replies| == |s.replies| + 1
      && s'.subscribing == (if s.subscribing == Null || s.subscribing.printable then Null else s.subscribing)
      && (Ended(s') <==> s'.subscribing != Null)
  {
    RemoveFirstCounts(s.subscriptions, s.subscribing);
    EndedIff(s, ReadDone(ControlMessage(Text(false))));
  }

  /** Messages that are JSON but no object, and control messages without data. */
  predicate Ignored(m: Message) { m == NotObject || m == ControlMessage(NoData) || m == DataEvent }

  /**
   Such messages change no list and are counted as handled; the session sends the next request that is
   queued, or reads on.
   */
  lemma IgnoredGoesOn(s: State, m: Message)
    requires OneOperation(s) && s.openReads > 0 && Ignored(m) && forall x :: x in s.subscriptionRequests ==> x.Request?
    ensures Enabled(s, ReadDone(m)) && Enabled(Apply(s, ReadDone(m)), Proceed)
    ensures var s' := Apply(Apply(s, ReadDone(m)), Proceed);
      && Up(s') && s'.subscriptions == s.subscriptions && s'.replies == s.replies && s'.processed == s.processed + 1
      && s'.pulled + s'.subscriptionRequests == s.pulled + s.subscriptionRequests
      && (s'.openWrites == 1 <==> s.subscriptionRequests != [] && s.subscriptionRequests[0].printable)
      && (s.subscriptionRequests == [] ==> s' == s.(processed := s.processed + 1))
      && (s.subscriptionRequests != [] ==> s'.pulled == s.pulled + [s.subscriptionRequests[0]])
  {
    MoveFrontIfAny(s);
  }

  lemma MoveFrontIfAny(s: State)
    ensures s.subscriptionRequests != [] ==>
              s.pulled + s.subscriptionRequests
              == (s.pulled + [s.subscriptionRequests[0]]) + s.subscriptionRequests[1..]
  {
    if s.subscriptionRequests != [] { MoveFront(s.pulled, s.subscriptionRequests); }
  }
}
