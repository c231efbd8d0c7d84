/**
 * The listener of the close-session queue: every delivered message is handled
 * under a trace id placed in the logging context (MDC), the session it names is
 * closed, and the trace id is removed from the context again however the
 * closure ends.
 */
module SessionConsumer {
  import opened Domain
  import opened Repositories
  import opened Producer
  import VotingSessionService

  /** The MDC key under which the trace id of the current unit of work is kept. */
  const TRACE_KEY := "requestTraceId"

  /** The prefix of a trace id made up by the listener itself. */
  const GENERATED_PREFIX := "amqp-"

  /**
   * `Character.isWhitespace`: the ASCII controls TAB to CR and FS to US, the
   * space, and the Unicode space, line and paragraph separators except the
   * non-breaking ones (U+00A0, U+2007, U+202F).
   */
  predicate IsWhitespace(c: char)
  {
    || '\t' <= c <= '\r'
    || '\U{1C}' <= c <= ' '
    || c == '\U{1680}'
    || '\U{2000}' <= c <= '\U{2006}'
    || '\U{2008}' <= c <= '\U{200A}'
    || c == '\U{2028}' || c == '\U{2029}'
    || c == '\U{205F}' || c == '\U{3000}'
  }

  /** `String.isBlank`: empty, or whitespace only. */
  predicate IsBlank(s: string): (r: bool)
    ensures |s| == 0 ==> r
    ensures r <==> forall c :: c in s ==> IsWhitespace(c)
  {
    forall i :: 0 <= i < |s| ==> IsWhitespace(s[i])
  }

  /**
   * The trace id the message is handled under: the `requestTraceId` header
   * when it is present and not blank, otherwise "amqp-" followed by a freshly
   * generated UUID (`generated`). Either way the context never receives a
   * blank trace id.
   */
  function ChooseTraceId(header: Option<string>, generated: string): (r: string)
    ensures !IsBlank(r)
    ensures header.Some? && !IsBlank(header.value) ==> r == header.value
    ensures header.None? || IsBlank(header.value) ==> r == GENERATED_PREFIX + generated
  {
    if header.None? || IsBlank(header.value) then
      assert !IsWhitespace((GENERATED_PREFIX + generated)[0]);
      GENERATED_PREFIX + generated
    else header.value
  }

  /** What the listener does to its surroundings, in order. */
  datatype ConsumerEvent =
    | MdcPut(key: string, value: string)
    | CloseRequested(message: SessionMessage)
    | MdcRemove(key: string)

  class SessionConsumer {
    /** The store behind `votingSessionService.closeSession`. */
    const store: Store
    /** The logging context of the listener thread. */
    var mdc: map<string, string>
    /** Every context change and closure request made so far. */
    ghost var events: seq<ConsumerEvent>

    constructor (store: Store)
      ensures this.store == store
      ensures mdc == map[] && events == []
    {
      this.store := store;
      mdc := map[];
      events := [];
    }

    /**
     * `onMessage`: puts the trace id in the context, closes the session named
     * by the payload and removes the trace id again. A null payload fails with
     * a NullPointerException when its session id is first read, before any
     * closure is asked for; a NotFound from the closure is passed on so that
     * the broker retries the message.
     */
    method OnMessage(payload: Option<SessionMessage>, traceHeader: Option<string>, generated: string)
      returns (r: Result<VotingSession>)
      requires store.Valid()
      modifies this, store
      ensures store.Valid()
      ensures mdc == old(mdc) - {TRACE_KEY}
      ensures store.proposals == old(store.proposals) && store.votes == old(store.votes)
      ensures payload.None? ==>
        && r == Failure(NullPointer)
        && store.sessions == old(store.sessions)
        && events == old(events) + [MdcPut(TRACE_KEY, ChooseTraceId(traceHeader, generated)), MdcRemove(TRACE_KEY)]
      ensures payload.Some? ==>
        events == old(events) + [
          MdcPut(TRACE_KEY, ChooseTraceId(traceHeader, generated)),
          CloseRequested(payload.value),
          MdcRemove(TRACE_KEY)]
      ensures payload.Some? && SessionIdFree(old(store.sessions), payload.value.votingSessionId) ==>
        r == Failure(NotFound(VotingSessionService.VOTING_SESSION_NOT_FOUND)) && store.sessions == old(store.sessions)
      ensures payload.Some? && !SessionIdFree(old(store.sessions), payload.value.votingSessionId) ==>
        && r.Success? && r.value.id == payload.value.votingSessionId && r.value.status == CLOSED
        && store.sessions == VotingSessionService.CloseInTable(old(store.sessions), payload.value.votingSessionId)
      ensures old(store.Consistent()) ==> store.Consistent()
    {
      var traceId := ChooseTraceId(traceHeader, generated);
      mdc := mdc[TRACE_KEY := traceId];
      events := events + [MdcPut(TRACE_KEY, traceId)];
      if payload.None? {
        r := Failure(NullPointer);
      } else {
        events := events + [CloseRequested(payload.value)];
        r := VotingSessionService.CloseSession(store, payload);
      }
      mdc := mdc - {TRACE_KEY};
      events := events + [MdcRemove(TRACE_KEY)];
    }
  }

  /**
   * Two closure messages delivered one after the other close both sessions,
   * leave every other session as it was, and give the same table in either
   * order.
   */
  lemma {:induction false} ConsecutiveClosures(sessions: seq<VotingSession>, a: SessionId, b: SessionId)
    ensures var r := VotingSessionService.CloseInTable(VotingSessionService.CloseInTable(sessions, a), b);
      && |r| == |sessions|
      && (forall i :: 0 <= i < |sessions| && (sessions[i].id == a || sessions[i].id == b) ==> r[i] == sessions[i].(status := CLOSED))
      && (forall i :: 0 <= i < |sessions| && sessions[i].id != a && sessions[i].id != b ==> r[i] == sessions[i])
    ensures VotingSessionService.CloseInTable(VotingSessionService.CloseInTable(sessions, a), b)
         == VotingSessionService.CloseInTable(VotingSessionService.CloseInTable(sessions, b), a)
  {
    var ab := VotingSessionService.CloseInTable(VotingSessionService.CloseInTable(sessions, a), b);
    var ba := VotingSessionService.CloseInTable(VotingSessionService.CloseInTable(sessions, b), a);
    forall i | 0 <= i < |sessions| ensures ab[i] == ba[i] {
    }
  }
}
