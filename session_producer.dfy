/**
 * The closure scheduler: publishing a "close this session" message to the
 * delayed exchange. The broker itself is not modelled; what the rest of the
 * core relies on is the queue of published (session id, delay) pairs.
 */
module Producer {
  import opened Domain

  /** The message payload: the id of the session to close. */
  datatype SessionMessage = SessionMessage(votingSessionId: SessionId)

  class SessionProducer {
    /** Every closure published so far, in order: the session id and the `x-delay` header in milliseconds. */
    ghost var scheduled: seq<(SessionId, int)>

    constructor ()
      ensures scheduled == []
    {
      scheduled := [];
    }

    /** Publishes one closure message for `sessionId` with delay `delayMs`. */
    method SchedulerSessionClosure(sessionId: SessionId, delayMs: int)
      modifies this
      ensures scheduled == old(scheduled) + [(sessionId, delayMs)]
    {
      scheduled := scheduled + [(sessionId, delayMs)];
    }
  }
}
