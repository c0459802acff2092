/**
 The subscription side of the futures WebSocket session: a queue of requests to send, one slot
 for the request whose reply is awaited, and the list of confirmed subscriptions. The state
 carries logs beside the session's own fields, so that whole runs can be spoken about.
 */
module Subscriptions {
  import opened Common

  /**
   A JSON value as far as the session looks into it: null, or a request object with its
   top-level "method" and "symbol", the rest of it, and whether it can be dumped as text.
   */
  datatype Json = Null | Request(methodName: Option<string>, symbol: Option<string>, param: string, printable: bool)

  type RequestObject = j: Json | j.Request? witness Request(None, None, "", true)

  /** The outcomes of writeSubscription. Undefined: a constant object is asked for a key it does not have. */
  datatype Admission = Accepted | Duplicate | Throws | Undefined

  /** Compares a request with one confirmed entry; Accepted means they differ. */
  function Compare(sub: Json, request: RequestObject): Admission {
    if sub.Null? then Throws
    else if sub.methodName.None? || request.methodName.None? then Undefined
    else if sub.methodName != request.methodName then Accepted
    else if sub.symbol.None? || request.symbol.None? then Undefined
    else if sub.symbol == request.symbol then Duplicate
    else Accepted
  }

  function Admit(subscriptions: seq<Json>, request: RequestObject): Admission {
    if subscriptions == [] then Accepted
    else if Compare(subscriptions[0], request) != Accepted then Compare(subscriptions[0], request)
    else Admit(subscriptions[1..], request)
  }

  function RemoveFirst(s: seq<Json>, x: Json): seq<Json> {
    if s == [] then [] else if s[0] == x then s[1..] else [s[0]] + RemoveFirst(s[1..], x)
  }

  /** What `subscribing` holds: nothing, a request that was not sent, or the request sent as number `index`. */
  datatype Slot = Empty | Unsent | Sent(index: nat)

  /**
   A reply as it was handled: what it was credited to, and how many requests had been sent and
   pulled by then.
   */
  datatype Reply = Reply(success: bool, credited: Slot, sentBefore: nat, pulledBefore: nat)

  datatype State = State(
    subscriptions: seq<Json>, subscriptionRequests: seq<Json>, subscribing: Json,
    connected: bool, openReads: nat, openWrites: nat,  // handshake done; reads and writes outstanding
    turn: bool,                                        // a message has been handled, the next operation not started
    accepted: seq<Json>, pulled: seq<Json>,            // logs: requests queued, requests taken from the queue
    sent: seq<Json>,                                   // log: requests whose text was written
    slot: Slot, replies: seq<Reply>,                   // logs: what `subscribing` is, replies handled
    processed: nat,                                    // log: messages handled up to the next operation
    torn: bool)                                        // log: an exception cut an answer short

  const START := State([], [], Null, false, 0, 0, false, [], [], [], Empty, [], 0, false)

  datatype Control = NoData | Text(success: bool) | NotText

  /** What a read can bring. */
  datatype Message = NotJson | NotObject | BadChannel | ControlMessage(data: Control) | DataEvent

  /** Messages whose handling ends in an exception, which closes the session. */
  predicate Fatal(m: Message) {
    m.NotJson? || m.BadChannel? || (m.ControlMessage? && m.data.NotText?)
  }

  /** Proceed is the end of onRead, after the lock taken to handle the message has been released. */
  datatype Step =
    | Subscribe(request: RequestObject)
    | Handshake
    | HandshakeFailed
    | WriteDone
    | WriteFailed
    | ReadDone(message: Message)
    | ReadFailed
    | Proceed

  function Enqueue(s: State, request: RequestObject): State {
    if Admit(s.subscriptions, request).Accepted? then
      s.(subscriptionRequests := s.subscriptionRequests + [request], accepted := s.accepted + [request])
    else s
  }

  /** A request that can be dumped as text. */
  predicate Sendable(x: Json) { x.Request? && x.printable }

  /** What readSubscription returns: the text of the front of the queue, or none for the empty string. */
  function NextText(s: State): Option<Json> {
    if s.subscriptionRequests != [] && Sendable(s.subscriptionRequests[0]) then Some(s.subscriptionRequests[0])
    else None
  }

  /** readSubscription: takes the next request from the queue into the slot. */
  function Pull(s: State): State {
    if s.subscriptionRequests == [] then s
    else
      var front := s.subscriptionRequests[0];
      s.(subscribing := front, subscriptionRequests := s.subscriptionRequests[1..], pulled := s.pulled + [front],
         slot := if Sendable(front) then Sent(|s.sent|) else Unsent)
  }

  /** The same, with the text written. */
  function Take(s: State): State {
    Pull(s).(sent := if NextText(s).Some? then s.sent + [NextText(s).value] else s.sent)
  }

  function Replied(s: State, success: bool): seq<Reply> {
    s.replies + [Reply(success, s.slot, |s.sent|, |s.pulled|)]
  }

  /**
   handleApiControlMsg for a reply that is a text: success adds the slot to the list, failure removes
   its first copy.
   */
  function Answer(s: State, success: bool): State {
    s.(subscriptions := if success then s.subscriptions + [s.subscribing]
                        else RemoveFirst(s.subscriptions, s.subscribing),
       subscribing := Null, slot := Empty, replies := Replied(s, success))
  }

  /** A refusal while the slot holds a request that cannot be dumped: writing the log entry throws. */
  predicate Tears(s: State, m: Message) {
    m == ControlMessage(Text(false)) && s.subscribing.Request? && !s.subscribing.printable
  }

  /** By then the request has been taken off the list, but the slot has not been emptied. */
  function Torn(s: State): State {
    s.(subscriptions := RemoveFirst(s.subscriptions, s.subscribing), replies := Replied(s, false), torn := true)
  }

  function Handle(s: State, m: Message): State {
    if m.ControlMessage? && m.data.Text? then Answer(s, m.data.success) else s
  }

  /** The message of a completed read; unless it ends in an exception, onRead goes on. */
  function Receive(s: State, m: Message): State {
    if Fatal(m) then s
    else if Tears(s, m) then Torn(s)
    else Handle(s, m).(turn := true)
  }

  /** onRead after the message: send the next request, or read on. */
  function Continue(s: State): State {
    if NextText(s).Some? then Take(s).(turn := false, processed := s.processed + 1, openWrites := s.openWrites + 1)
    else Take(s).(turn := false, processed := s.processed + 1, openReads := s.openReads + 1)
  }

  predicate Enabled(s: State, step: Step) {
    match step
    case Subscribe(request) => Admit(s.subscriptions, request) != Undefined
    case Handshake => !s.connected
    case HandshakeFailed => !s.connected
    case WriteDone => s.openWrites > 0
    case WriteFailed => s.openWrites > 0
    case ReadDone(_) => s.openReads > 0
    case ReadFailed => s.openReads > 0
    case Proceed => s.turn
  }

  function Apply(s: State, step: Step): State
    requires Enabled(s, step)
  {
    match step
    case Subscribe(request) => Enqueue(s, request)
    case Handshake => Take(s).(connected := true, openWrites := s.openWrites + 1)
    case HandshakeFailed => s.(connected := true)
    case WriteDone => s.(openWrites := s.openWrites - 1, openReads := s.openReads + 1)
    case WriteFailed => s.(openWrites := s.openWrites - 1)
    case ReadDone(m) => Receive(s.(openReads := s.openReads - 1), m)
    case ReadFailed => s.(openReads := s.openReads - 1)
    case Proceed => Continue(s)
  }

  /** The steps can be taken in this order from s. */
  predicate LegalFrom(s: State, steps: seq<Step>)
    decreases |steps|, 0
  {
    steps == [] ||
    (LegalFrom(s, steps[..|steps| - 1]) && Enabled(AfterFrom(s, steps[..|steps| - 1]), steps[|steps| - 1]))
  }

  function AfterFrom(s: State, steps: seq<Step>): State
    requires LegalFrom(s, steps)
    decreases |steps|, 1
  {
    if steps == [] then s else Apply(AfterFrom(s, steps[..|steps| - 1]), steps[|steps| - 1])
  }

  predicate Legal(steps: seq<Step>) { LegalFrom(START, steps) }

  function After(steps: seq<Step>): State
    requires Legal(steps)
  {
    AfterFrom(START, steps)
  }

  /**
   The session itself; `written` stands for the socket, the texts handed to async_write without the
   empty ones, and `log` is the state with its logs that the fields are part of.
   */
  class WebSocketSession {
    var subscriptions: seq<Json>
    var subscriptionRequests: seq<Json>
    var subscribing: Json
    var connected: bool
    var openReads: nat
    var openWrites: nat
    var written: seq<Json>
    ghost var log: State

    ghost predicate Valid()
      reads this
    {
      && log.subscriptions == subscriptions
      && log.subscriptionRequests == subscriptionRequests
      && log.subscribing == subscribing
      && log.connected == connected && log.openReads == openReads && log.openWrites == openWrites
      && log.sent == written
      && forall r :: r in subscriptionRequests ==> r.Request?
    }

    constructor ()
      ensures Valid() && log == START
    {
      subscriptions, subscriptionRequests, subscribing := [], [], Null;
      connected, openReads, openWrites, written := false, 0, 0, [];
      log := START;
    }

    /** writeSubscription; an outcome other than Accepted leaves everything as it was. */
    method WriteSubscription(request: RequestObject) returns (outcome: Admission)
      requires Valid()
      modifies this
      ensures Valid()
      ensures outcome == Admit(old(subscriptions), request)
      ensures log == Enqueue(old(log), request)
    {
      for i := 0 to |subscriptions|
        invariant Valid() && log == old(log) && subscriptions == old(subscriptions)
        invariant Admit(subscriptions, request) == Admit(subscriptions[i..], request)
      {
        outcome := Compare(subscriptions[i], request);
        if outcome != Accepted { return; }
      }
      subscriptionRequests := subscriptionRequests + [request];
      outcome := Accepted;
      log := Enqueue(log, request);
    }

    /** readSubscription; None stands for the empty string. */
    method ReadSubscription() returns (text: Option<Json>)
      requires Valid()
      modifies this
      ensures Valid()
      ensures log == Pull(old(log))
      ensures text == NextText(old(log))
    {
      text := None;
      if subscriptionRequests == [] { return; }
      subscribing := subscriptionRequests[0];
      if subscribing.printable { text := Some(subscriptionRequests[0]); }
      subscriptionRequests := subscriptionRequests[1..];
      log := Pull(log);
    }

    /** handleApiControlMsg; `threw` when it ends in an exception. */
    method HandleApiControlMsg(data: Control) returns (threw: bool)
      requires Valid()
      modifies this
      ensures Valid()
      ensures threw == (data.NotText? || Tears(old(log), ControlMessage(data)))
      ensures log == if Tears(old(log), ControlMessage(data)) then Torn(old(log))
                     else Handle(old(log), ControlMessage(data))
    {
      threw := data.NotText?;
      if data.Text? {
        if !data.success {
          var i := FindSubscription(subscribing);
          if i < |subscriptions| { subscriptions := subscriptions[..i] + subscriptions[i + 1..]; }
          if subscribing.Request? && !subscribing.printable {
            log := Torn(log);
            return true;
          }
        } else {
          subscriptions := subscriptions + [subscribing];
        }
        subscribing := Null;
        log := Answer(log, data.success);
      }
    }

    /** The first position of x, or the length of the list. */
    method FindSubscription(x: Json) returns (i: nat)
      ensures i <= |subscriptions| && x !in subscriptions[..i]
      ensures i < |subscriptions| ==> subscriptions[i] == x
      ensures i == |subscriptions| ==> x !in subscriptions
      ensures RemoveFirst(subscriptions, x)
           == if i < |subscriptions| then subscriptions[..i] + subscriptions[i + 1..] else subscriptions
    {
      i := 0;
      while i < |subscriptions| && subscriptions[i] != x
        invariant i <= |subscriptions| && x !in subscriptions[..i]
      {
        i := i + 1;
      }
      RemoveAt(subscriptions, x, i);
    }

    /** isSubscribed. */
    method IsSubscribed(request: Json) returns (found: bool)
      ensures found <==> request in subscriptions
    {
      var i := FindSubscription(request);
      found := i < |subscriptions|;
    }

    /** ws.async_write: the text goes out and the write is outstanding. */
    method AsyncWrite(text: Option<Json>)
      requires Valid()
      modifies this
      ensures Valid()
      ensures written == if text.Some? then old(written) + [text.value] else old(written)
      ensures log == old(log).(sent := written, openWrites := old(openWrites) + 1)
    {
      if text.Some? { written := written + [text.value]; }
      openWrites := openWrites + 1;
      log := log.(sent := written, openWrites := openWrites);
    }

    /** onHandshake: what is written is the text of the first request queued, if it has one. */
    method OnHandshake(failed: bool)
      requires Valid() && !connected
      modifies this
      ensures Valid()
      ensures log == Apply(old(log), if failed then HandshakeFailed else Handshake)
    {
      connected := true;
      log := log.(connected := true);
      if failed { return; }
      var text := ReadSubscription();
      AsyncWrite(text);
    }

    method OnWrite(failed: bool)
      requires Valid() && openWrites > 0
      modifies this
      ensures Valid()
      ensures log == Apply(old(log), if failed then WriteFailed else WriteDone)
    {
      openWrites := openWrites - 1;
      log := log.(openWrites := openWrites);
      if failed { return; }
      openReads := openReads + 1;
      log := log.(openReads := openReads);
    }

    /**
     onRead when no other thread comes in between its two halves; `closing` when the session asks for
     the socket to be closed.
     */
    method OnRead(message: Option<Message>) returns (closing: bool)
      requires Valid() && openReads > 0
      modifies this
      ensures Valid()
      ensures message.None? ==> log == Apply(old(log), ReadFailed) && !closing
      ensures message.Some? ==>
                var handled := Apply(old(log), ReadDone(message.value));
                if Fatal(message.value) || Tears(old(log), message.value) then log == handled && closing
                else
                  && log == Apply(handled, Proceed)
                  && (closing <==> log.subscriptions == [] && log.sent == old(log).sent)
    {
      if message.None? {
        openReads := openReads - 1;
        log := log.(openReads := openReads);
        return false;
      }
      closing := HandleMessage(message.value);
      if !closing { closing := SendOrRead(); }
    }

    /** The first half: the message, up to an exception if there is one. */
    method HandleMessage(m: Message) returns (threw: bool)
      requires Valid() && openReads > 0
      modifies this
      ensures Valid()
      ensures threw <==> Fatal(m) || Tears(old(log), m)
      ensures log == Apply(old(log), ReadDone(m))
    {
      openReads := openReads - 1;
      log := log.(openReads := openReads);
      if m.NotJson? || m.BadChannel? { return true; }
      threw := false;
      if m.ControlMessage? { threw := HandleApiControlMsg(m.data); }
      if !threw { log := log.(turn := true); }
    }

    /**
     The second half: write the next request, or read on; with nothing subscribed the session also
     closes. Requests may have been queued since the first half.
     */
    method SendOrRead() returns (closing: bool)
      requires Valid() && log.turn
      modifies this
      ensures Valid()
      ensures log == Apply(old(log), Proceed)
      ensures closing <==> old(subscriptions) == [] && NextText(old(log)).None?
    {
      log := log.(turn := false, processed := log.processed + 1);
      var text := ReadSubscription();
      closing := text.None? && subscriptions == [];
      if text.Some? {
        AsyncWrite(text);
      } else {
        openReads := openReads + 1;
        log := log.(openReads := openReads);
      }
    }
  }

  lemma {:induction false} RemoveAt(s: seq<Json>, x: Json, i: nat)
    requires i <= |s| && x !in s[..i] && (i < |s| ==> s[i] == x)
    ensures RemoveFirst(s, x) == if i < |s| then s[..i] + s[i + 1..] else s
  {
    if i > 0 {
      var rest := s[1..];
      assert s[..i] == [s[0]] + rest[..i - 1];
      RemoveAt(rest, x, i - 1);
      if i < |s| { assert [s[0]] + (rest[..i - 1] + rest[i..]) == s[..i] + s[i + 1..]; }
    }
  }
}
