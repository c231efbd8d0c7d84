/**
 * The voting-session lifecycle: the existence query, session creation, the
 * scheduling of its closure, the lookup of the open session of a proposal and
 * the closure itself.
 */
module VotingSessionService {
  import opened Domain
  import opened Repositories
  import opened Producer

  const VOTING_SESSION_NOT_FOUND := "Voting session not found!"

  /**
   * The message of the NotFound raised when a proposal has no OPENED session.
   * Its text is not part of the modelled source; only its kind matters here.
   */
  const ACTIVE_SESSION_NOT_FOUND := "Active voting session not found!"

  // ---- Java long arithmetic ----

  const LONG_MIN := -0x8000_0000_0000_0000
  const LONG_MAX := 0x7FFF_FFFF_FFFF_FFFF

  predicate IsLong(x: int)
  {
    LONG_MIN <= x <= LONG_MAX
  }

  /** Two's-complement wrap-around of a mathematical integer into a Java `long`. */
  function WrapLong(x: int): (r: int)
    ensures IsLong(r)
    ensures IsLong(x) ==> r == x
    ensures (r - x) % 0x1_0000_0000_0000_0000 == 0
  {
    (x - LONG_MIN) % 0x1_0000_0000_0000_0000 + LONG_MIN
  }

  /** `duration * 1000L`: the delay in milliseconds, wrapping as Java does on overflow. */
  function DelayMs(duration: int): (ms: int)
    requires IsLong(duration)
    ensures IsLong(ms)
    ensures -(LONG_MAX / 1000) <= duration <= LONG_MAX / 1000 ==> ms == duration * 1000
  {
    WrapLong(duration * 1000)
  }

  // ---- queries ----

  /**
   * `hasVotingSessionOpened`: true as soon as any session row exists for the
   * proposal, whatever its status — a CLOSED session counts too.
   */
  predicate HasVotingSessionOpened(sessions: seq<VotingSession>, proposalId: ProposalId): (r: bool)
    ensures r <==> exists i :: 0 <= i < |sessions| && sessions[i].proposalId == proposalId
  {
    FindByProposalId(sessions, proposalId).Some?
  }

  /** `getSessionActiveByProposalId`: the proposal's OPENED session, or NotFound. */
  function GetSessionActiveByProposalId(sessions: seq<VotingSession>, proposalId: ProposalId): (r: Result<VotingSession>)
    ensures r.Success? ==> r.value in sessions && r.value.proposalId == proposalId && r.value.status == OPENED
    ensures r.Failure? <==>
      forall i :: 0 <= i < |sessions| ==> sessions[i].proposalId != proposalId || sessions[i].status != OPENED
    ensures r.Failure? ==> r.error == NotFound(ACTIVE_SESSION_NOT_FOUND)
  {
    match FindByProposalIdAndStatus(sessions, proposalId, OPENED)
    case None => Failure(NotFound(ACTIVE_SESSION_NOT_FOUND))
    case Some(s) => Success(s)
  }

  // ---- closure, as a function of the session table ----

  /** The session table after the session `id` is marked CLOSED. */
  function CloseInTable(sessions: seq<VotingSession>, id: SessionId): (r: seq<VotingSession>)
    ensures SessionsEvolve(sessions, r) && |r| == |sessions|
  {
    seq(|sessions|, i requires 0 <= i < |sessions| =>
      if sessions[i].id == id then sessions[i].(status := CLOSED) else sessions[i])
  }

  /** After closure the session `id` is CLOSED, and every other session is untouched. */
  lemma CloseInTableEffect(sessions: seq<VotingSession>, id: SessionId)
    ensures forall i :: 0 <= i < |sessions| && sessions[i].id == id ==> CloseInTable(sessions, id)[i].status == CLOSED
    ensures forall i :: 0 <= i < |sessions| && sessions[i].id != id ==> CloseInTable(sessions, id)[i] == sessions[i]
  {
  }

  /** Delivering the same closure twice leaves the table as one delivery does. */
  lemma CloseIsIdempotent(sessions: seq<VotingSession>, id: SessionId)
    ensures CloseInTable(CloseInTable(sessions, id), id) == CloseInTable(sessions, id)
  {
  }

  /** Closing a session that is already CLOSED, or absent, changes nothing. */
  lemma {:induction false} CloseOfClosedIsNoOp(sessions: seq<VotingSession>, id: SessionId)
    requires forall i :: 0 <= i < |sessions| && sessions[i].id == id ==> sessions[i].status == CLOSED
    ensures CloseInTable(sessions, id) == sessions
  {
    var r := CloseInTable(sessions, id);
    forall i | 0 <= i < |sessions| ensures r[i] == sessions[i] {
      if sessions[i].id == id {
        assert sessions[i].(status := CLOSED) == sessions[i];
      }
    }
  }

  /**
   * A table change that keeps every row's id and proposal (and only closes
   * sessions or adds none) keeps the service-level invariants.
   */
  lemma {:induction false} SameRowsKeepInvariants(before: seq<VotingSession>, after: seq<VotingSession>, votes: seq<Vote>)
    requires SessionsEvolve(before, after) && |after| == |before|
    ensures OneSessionPerProposal(before) ==> OneSessionPerProposal(after)
    ensures VotesUnderOwnProposal(before, votes) ==> VotesUnderOwnProposal(after, votes)
    ensures forall id :: SessionExists(before, id) ==> SessionExists(after, id)
  {
    if VotesUnderOwnProposal(before, votes) {
      forall i | 0 <= i < |votes| ensures CastUnderOwnProposal(after, votes[i]) {
        assert CastUnderOwnProposal(before, votes[i]);
        var j :| 0 <= j < |before| && before[j].id == votes[i].sessionId && before[j].proposalId == votes[i].proposalId;
        assert SessionSucceeds(before[j], after[j]);
      }
    }
    forall id | SessionExists(before, id) ensures SessionExists(after, id) {
      var j :| 0 <= j < |before| && before[j].id == id;
      assert SessionSucceeds(before[j], after[j]);
    }
  }

  // ---- operations ----

  /**
   * `create`: stores a new OPENED session for the proposal, open from `now`
   * for `duration` seconds, and returns it.
   */
  method Create(store: Store, proposal: Proposal, duration: int, now: int, newId: SessionId)
    returns (session: VotingSession)
    requires store.Valid()
    requires proposal.id in store.proposals
    requires SessionIdFree(store.sessions, newId)
    modifies store
    ensures store.Valid()
    ensures session.id == newId && session.proposalId == proposal.id && session.status == OPENED
    ensures session.openedAt == now && session.closesAt == now + duration
    ensures store.sessions == old(store.sessions) + [session]
    ensures store.proposals == old(store.proposals) && store.votes == old(store.votes)
  {
    session := VotingSession(newId, proposal.id, now, now + duration, OPENED);
    store.SaveSession(session);
  }

  /** `schedulerSessionClosure`: publishes one closure for the session, delayed by the duration in milliseconds. */
  method SchedulerSessionClosure(producer: SessionProducer, sessionId: SessionId, duration: int)
    requires IsLong(duration)
    modifies producer
    ensures producer.scheduled == old(producer.scheduled) + [(sessionId, DelayMs(duration))]
  {
    producer.SchedulerSessionClosure(sessionId, DelayMs(duration));
  }

  /**
   * `closeSession`: a missing message or an unknown session id raises NotFound;
   * otherwise the session is saved with status CLOSED and returned.
   */
  method CloseSession(store: Store, message: Option<SessionMessage>) returns (r: Result<VotingSession>)
    requires store.Valid()
    modifies store
    ensures store.Valid()
    ensures store.proposals == old(store.proposals) && store.votes == old(store.votes)
    ensures message.None? || SessionIdFree(old(store.sessions), message.value.votingSessionId) ==>
      r == Failure(NotFound(VOTING_SESSION_NOT_FOUND)) && store.sessions == old(store.sessions)
    ensures message.Some? && !SessionIdFree(old(store.sessions), message.value.votingSessionId) ==>
      && r == Success(FindById(old(store.sessions), message.value.votingSessionId).value.(status := CLOSED))
      && store.sessions == CloseInTable(old(store.sessions), message.value.votingSessionId)
    ensures SessionsEvolve(old(store.sessions), store.sessions)
    ensures old(store.Consistent()) ==> store.Consistent()
  {
    if message.None? {
      return Failure(NotFound(VOTING_SESSION_NOT_FOUND));
    }
    var id := message.value.votingSessionId;
    var index := IndexOfSession(store.sessions, id);
    if index.None? {
      return Failure(NotFound(VOTING_SESSION_NOT_FOUND));
    }
    ghost var before := store.sessions;
    var closed := store.sessions[index.value].(status := CLOSED);
    store.SaveSession(closed);
    r := Success(closed);
    assert store.sessions == CloseInTable(before, id) by {
      forall k | 0 <= k < |before| ensures store.sessions[k] == CloseInTable(before, id)[k] {
        if k != index.value {
          assert before[k].id != id by {
            if k < index.value {
              assert before[k].id != before[index.value].id;
            } else {
              assert before[index.value].id != before[k].id;
            }
          }
        }
      }
    }
    SameRowsKeepInvariants(before, store.sessions, store.votes);
  }
}
