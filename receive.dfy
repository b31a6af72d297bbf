/** The dispatch rule of the recognition receive loop (receiveLoop and
    onMessageReceive) as a state machine over a finite trace of inbound
    events. The real loop blocks for ever; the model reads a finite trace and
    reports whether the loop stopped or was still listening when it ended. */
module Receive {
  import opened Definitions
  import opened FileKeys
  import opened LabelText

  /** A received payload after JSON decoding: the decoder's error, or the
      recognition response {user, id, text}. */
  datatype Envelope = Malformed(error: Error) | Response(user: string, id: string, text: string)

  /** What Receive() hands the loop: a transport error, a data message (with
      the repository failures its write-back meets), or a subscription
      acknowledgement with the remaining subscription count. */
  datatype Event =
    | ReceiveError(error: Error)
    | Message(body: Envelope, faults: Faults)
    | Subscription(count: int)

  datatype Stop =
    | SubscribeFailed(error: Error)
    | TransportFailed(error: Error)
    | Unsubscribed
    | Listening

  datatype RunResult = RunResult(db: Db, stop: Stop)

  /** onMessageReceive's effect on the repository: a malformed payload is
      dropped, a response is written back (and a failed write-back changes
      nothing). */
  function OnMessage(db: Db, body: Envelope, faults: Faults): (r: StepResult) {
    match body
    case Malformed(e) => StepResult(Fail(e), db)
    case Response(user, id, text) => LabelTextStep(db, user, id, text, faults)
  }

  /** The listening loop: a transport error or a count of 0 ends it; every
      other subscription count is ignored; every message is handled and its
      error, if any, only logged. */
  function Run(db: Db, events: seq<Event>): (r: RunResult)
    decreases |events|
  {
    if events == [] then RunResult(db, Listening)
    else
      match events[0]
      case ReceiveError(e) => RunResult(db, TransportFailed(e))
      case Subscription(count) =>
        if count == 0 then RunResult(db, Unsubscribed) else Run(db, events[1..])
      case Message(body, faults) => Run(OnMessage(db, body, faults).db, events[1..])
  }

  /** receiveLoop: subscribe, and on success run the listening loop. */
  function ReceiveLoopSpec(subscribe: Outcome, db: Db, events: seq<Event>): (r: RunResult) {
    match subscribe
    case Fail(e) => RunResult(db, SubscribeFailed(e))
    case Pass => Run(db, events)
  }

  /** Running a trace in two pieces: if the loop is still listening after the
      first piece, the second continues from the state it reached; otherwise
      the second piece is never read. */
  lemma {:induction false} RunAppend(db: Db, a: seq<Event>, b: seq<Event>)
    ensures Run(db, a + b) ==
              if Run(db, a).stop == Listening then Run(Run(db, a).db, b) else Run(db, a)
    decreases |a|
  {
    if a == [] {
      assert a + b == b;
    } else {
      assert (a + b)[0] == a[0];
      assert (a + b)[1..] == a[1..] + b;
      match a[0]
      case ReceiveError(e) =>
      case Subscription(count) =>
        if count != 0 { RunAppend(db, a[1..], b); }
      case Message(body, faults) =>
        RunAppend(OnMessage(db, body, faults).db, a[1..], b);
    }
  }

  /** The loop ends at an unsubscribe (count 0) or a transport error reached
      while listening: the state is the one reached before it, and nothing
      after it is applied. */
  lemma RunStopsAt(db: Db, a: seq<Event>, e: Event, b: seq<Event>)
    requires Run(db, a).stop == Listening
    requires e.ReceiveError? || e == Subscription(0)
    ensures Run(db, a + [e] + b) ==
              RunResult(Run(db, a).db, if e.ReceiveError? then TransportFailed(e.error) else Unsubscribed)
  {
    assert a + [e] + b == a + ([e] + b);
    RunAppend(db, a, [e] + b);
  }

  /** A subscription acknowledgement with a non-zero count is a no-op. */
  lemma SubscriptionIgnored(db: Db, a: seq<Event>, count: int, b: seq<Event>)
    requires count != 0
    ensures Run(db, a + [Subscription(count)] + b) == Run(db, a + b)
  {
    assert a + [Subscription(count)] + b == a + ([Subscription(count)] + b);
    assert ([Subscription(count)] + b)[1..] == b;
    RunAppend(db, a, [Subscription(count)] + b);
    RunAppend(db, a, b);
  }

  /** A message that fails — its payload does not decode, or its write-back
      fails — is dropped: the loop goes on as if it had not arrived, so every
      later message is still applied. */
  lemma FailedMessageDropped(db: Db, a: seq<Event>, body: Envelope, faults: Faults, b: seq<Event>)
    requires OnMessage(Run(db, a).db, body, faults).outcome.Fail?
    ensures Run(db, a + [Message(body, faults)] + b) == Run(db, a + b)
  {
    var m := Message(body, faults);
    assert a + [m] + b == a + ([m] + b);
    assert ([m] + b)[1..] == b;
    RunAppend(db, a, [m] + b);
    RunAppend(db, a, b);
    match body
    case Malformed(e) =>
    case Response(user, id, text) =>
      LabelTextFailures(Run(db, a).db, user, id, text, faults);
  }

  /** A message that is handled successfully while listening is applied
      before the rest of the trace. */
  lemma MessageApplied(db: Db, a: seq<Event>, user: string, id: string, text: string, faults: Faults, b: seq<Event>)
    requires Run(db, a).stop == Listening
    ensures Run(db, a + [Message(Response(user, id, text), faults)] + b) ==
              Run(LabelTextStep(Run(db, a).db, user, id, text, faults).db, b)
  {
    var m := Message(Response(user, id, text), faults);
    assert a + [m] + b == a + ([m] + b);
    assert ([m] + b)[1..] == b;
    RunAppend(db, a, [m] + b);
  }

  /** No event the loop handles breaks the derivation of file keys. */
  lemma {:induction false} RunKeepsKeys(digest: string -> string, db: Db, events: seq<Event>)
    requires KeysDerived(digest, db.closets)
    ensures KeysDerived(digest, Run(db, events).db.closets)
    decreases |events|
  {
    if events != [] {
      match events[0]
      case ReceiveError(e) =>
      case Subscription(count) =>
        RunKeepsKeys(digest, db, events[1..]);
      case Message(body, faults) =>
        match body {
          case Malformed(e) =>
          case Response(user, id, text) =>
            LabelTextKeepsKeys(digest, db, user, id, text, faults);
        }
        RunKeepsKeys(digest, OnMessage(db, body, faults).db, events[1..]);
    }
  }

  /** Writes only accumulate: the loop never removes a logged write, and every
      write it adds is an Update (the loop never creates a closet). */
  lemma {:induction false} RunOnlyUpdates(db: Db, events: seq<Event>)
    ensures var r := Run(db, events);
            |db.writes| <= |r.db.writes| && r.db.writes[..|db.writes|] == db.writes &&
            forall k :: |db.writes| <= k < |r.db.writes| ==> r.db.writes[k].Update?
    ensures (forall u :: u in Run(db, events).db.closets <==> u in db.closets)
    decreases |events|
  {
    if events != [] {
      match events[0]
      case ReceiveError(e) =>
      case Subscription(count) =>
        RunOnlyUpdates(db, events[1..]);
      case Message(body, faults) =>
        var next := OnMessage(db, body, faults).db;
        RunOnlyUpdates(next, events[1..]);
        assert next.writes[..|db.writes|] == db.writes;
        var r := Run(next, events[1..]);
        assert r.db.writes[..|next.writes|][..|db.writes|] == r.db.writes[..|db.writes|];
    }
  }
}
