/** The recognition bridge (wardrobeLabelToText): the receive loop that
    consumes recognition responses and writes them back through the closet
    service. Its methods are proved to follow the functions of module
    Receive, so every lemma proved there holds of them. */
module Bridge {
  import opened Definitions
  import opened Receive
  import opened Service

  class LabelToText {
    /** The closet service the responses are written back through. */
    const s: WardrobeService

    constructor (s: WardrobeService)
      ensures this.s == s
    {
      this.s := s;
    }

    /** onMessageReceive: a payload that does not decode is returned as an
        error; a response is written back with updateWardrobeLabelText, whose
        error is returned. */
    method OnMessageReceive(body: Envelope, faults: Faults) returns (r: Outcome)
      modifies s
      ensures var step := OnMessage(old(s.DbState()), body, faults);
              r == step.outcome && s.DbState() == step.db
      ensures s.files == old(s.files) && s.published == old(s.published)
      ensures s.deleteRequests == old(s.deleteRequests)
    {
      match body
      case Malformed(e) =>
        r := Fail(e);
      case Response(user, id, text) =>
        r := s.UpdateWardrobeLabelText(user, id, text, faults);
    }

    /** receiveLoop over a finite trace: a failed subscribe returns at once;
        then a transport error or a subscription count of 0 ends the loop,
        any other count is ignored, and every message is handled with its
        error only logged. Listening means the trace ran out first. */
    method ReceiveLoop(subscribe: Outcome, events: seq<Event>) returns (stop: Stop)
      modifies s
      ensures var spec := ReceiveLoopSpec(subscribe, old(s.DbState()), events);
              stop == spec.stop && s.DbState() == spec.db
      ensures s.files == old(s.files) && s.published == old(s.published)
      ensures s.deleteRequests == old(s.deleteRequests)
    {
      if subscribe.Fail? {
        return SubscribeFailed(subscribe.error);
      }
      var i := 0;
      while i < |events|
        invariant 0 <= i <= |events|
        invariant Run(old(s.DbState()), events) == Run(s.DbState(), events[i..])
        invariant s.files == old(s.files) && s.published == old(s.published)
        invariant s.deleteRequests == old(s.deleteRequests)
        decreases |events| - i
      {
        assert events[i..][0] == events[i] && events[i..][1..] == events[i + 1..];
        match events[i] {
          case ReceiveError(e) =>
            return TransportFailed(e);
          case Message(body, faults) =>
            // the error is only logged
            var err := OnMessageReceive(body, faults);
          case Subscription(count) =>
            if count == 0 {
              return Unsubscribed;
            }
        }
        i := i + 1;
      }
      stop := Listening;
    }
  }
}
