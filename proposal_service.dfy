/**
 * Proposals: creation, the opening of a proposal's single voting session,
 * the status a proposal shows (WAITING, OPENED or CLOSED, derived from its
 * session), the summaries of a page of proposals, and a proposal's details,
 * which carry the vote tally once the proposal is CLOSED.
 */
module ProposalService {
  import opened Domain
  import opened Repositories
  import opened Producer
  import opened VotingSessionService
  import opened VoteService

  /** The session length, in seconds, when the request gives none. */
  const DEFAULT_DURATION := 60
  /** The largest duration a request may carry, in seconds. */
  const MAX_DURATION := 3600
  const SESSION_ALREADY_OPENED := "Session voting to proposal already opened"

  datatype CreateProposalRequest = CreateProposalRequest(title: string, description: Option<string>)

  /** The optional body of the opening request; its duration may be null. */
  datatype OpenSessionRequest = OpenSessionRequest(durationSeconds: Option<int>)

  datatype ProposalStatusEnum = WAITING | OPENED | CLOSED

  datatype ProposalSummary = ProposalSummary(
    id: ProposalId, title: string, description: Option<string>, status: ProposalStatusEnum)

  /** One page of proposal rows as the repository returns it. */
  datatype Page<T> = Page(content: seq<T>, number: int, size: int, totalElements: int, totalPages: int)

  datatype PagedResponse<T> = PagedResponse(content: seq<T>, page: int, size: int, totalElements: int, totalPages: int)

  datatype ProposalDetailsResponse = ProposalDetailsResponse(
    proposalId: ProposalId, title: string, description: Option<string>,
    status: ProposalStatusEnum, result: Option<ProposalResultResponse>)

  /** The request validation's bounds on the duration: absent, or between 0 and 3600 seconds. */
  predicate DurationInRange(request: Option<OpenSessionRequest>)
  {
    request.None? || request.value.durationSeconds.None? ||
    0 <= request.value.durationSeconds.value <= MAX_DURATION
  }

  /** The session length: the request's duration when both the request and its field are present, else 60. */
  function EffectiveDuration(request: Option<OpenSessionRequest>): (d: int)
    ensures request.Some? && request.value.durationSeconds.Some? ==> d == request.value.durationSeconds.value
    ensures request.None? || request.value.durationSeconds.None? ==> d == DEFAULT_DURATION
    ensures DurationInRange(request) ==> 0 <= d <= MAX_DURATION
  {
    if request.Some? && request.value.durationSeconds.Some? then request.value.durationSeconds.value
    else DEFAULT_DURATION
  }

  /** `create`: stores the proposal built from the request under a fresh id. */
  method Create(store: Store, request: CreateProposalRequest, newId: ProposalId) returns (proposal: Proposal)
    requires store.Valid()
    requires newId !in store.proposals
    modifies store
    ensures proposal == Proposal(newId, request.title, request.description)
    ensures store.proposals == old(store.proposals)[newId := proposal]
    ensures store.sessions == old(store.sessions) && store.votes == old(store.votes)
    ensures store.Valid()
    ensures old(store.Consistent()) ==> store.Consistent()
  {
    proposal := Proposal(newId, request.title, request.description);
    store.SaveProposal(proposal);
  }

  /**
   * `openVotingSession`: NotFound for an unknown proposal; SessionOpened when
   * the proposal already has a session, whatever its status; otherwise a new
   * OPENED session lasting the effective duration, and one scheduled closure
   * for it, delayed by that duration in milliseconds.
   */
  method OpenVotingSession(
    store: Store, producer: SessionProducer, proposalId: ProposalId,
    request: Option<OpenSessionRequest>, now: int, newSessionId: SessionId)
    returns (r: Result<VotingSession>)
    requires store.Valid()
    requires DurationInRange(request)
    requires SessionIdFree(store.sessions, newSessionId)
    modifies store, producer
    ensures proposalId !in old(store.proposals) ==> r == Failure(NotFound(PROPOSAL_NOT_FOUND))
    ensures proposalId in old(store.proposals) && HasVotingSessionOpened(old(store.sessions), proposalId) ==>
      r == Failure(SessionOpened(SESSION_ALREADY_OPENED))
    ensures r.Failure? ==> store.sessions == old(store.sessions) && producer.scheduled == old(producer.scheduled)
    ensures r.Success? <==>
      proposalId in old(store.proposals) && !HasVotingSessionOpened(old(store.sessions), proposalId)
    ensures r.Success? ==>
      && r.value == VotingSession(newSessionId, proposalId, now, now + EffectiveDuration(request), SessionStatus.OPENED)
      && store.sessions == old(store.sessions) + [r.value]
      && producer.scheduled == old(producer.scheduled) + [(newSessionId, EffectiveDuration(request) * 1000)]
    ensures store.proposals == old(store.proposals) && store.votes == old(store.votes)
    ensures store.Valid()
    ensures SessionsEvolve(old(store.sessions), store.sessions)
    ensures old(store.Consistent()) ==> store.Consistent()
  {
    var proposal := GetProposal(store.proposals, proposalId);
    if proposal.Failure? {
      return Failure(proposal.error);
    }
    if HasVotingSessionOpened(store.sessions, proposalId) {
      return Failure(SessionOpened(SESSION_ALREADY_OPENED));
    }
    var duration := EffectiveDuration(request);
    ghost var before := store.sessions;
    ghost var wasConsistent := store.Consistent();
    var session := VotingSessionService.Create(store, proposal.value, duration, now, newSessionId);
    SchedulerSessionClosure(producer, session.id, duration);
    r := Success(session);
    if wasConsistent {
      AddingSessionKeepsInvariants(before, session, store.votes);
    }
  }

  /**
   * Adding the first session of a proposal keeps one session per proposal, and
   * keeps every vote under a session of its own proposal.
   */
  lemma AddingSessionKeepsInvariants(sessions: seq<VotingSession>, s: VotingSession, votes: seq<Vote>)
    requires OneSessionPerProposal(sessions) && VotesUnderOwnProposal(sessions, votes)
    requires !HasVotingSessionOpened(sessions, s.proposalId)
    ensures OneSessionPerProposal(sessions + [s])
    ensures VotesUnderOwnProposal(sessions + [s], votes)
  {
    var after := sessions + [s];
    forall i, j | 0 <= i < j < |after| ensures after[i].proposalId != after[j].proposalId {
      if j == |sessions| {
        assert after[i] == sessions[i];
      } else {
        assert after[i] == sessions[i] && after[j] == sessions[j];
      }
    }
    forall k | 0 <= k < |votes| ensures CastUnderOwnProposal(after, votes[k]) {
      assert CastUnderOwnProposal(sessions, votes[k]);
      var j :| 0 <= j < |sessions| && sessions[j].id == votes[k].sessionId && sessions[j].proposalId == votes[k].proposalId;
      assert after[j] == sessions[j];
    }
  }

  /** `determineProposalStatus`: WAITING without a session, otherwise the session's own status. */
  function DetermineProposalStatus(session: Option<VotingSession>): (status: ProposalStatusEnum)
    ensures status == ProposalStatusEnum.WAITING <==> session.None?
    ensures status == ProposalStatusEnum.OPENED <==> session.Some? && session.value.status == SessionStatus.OPENED
    ensures status == ProposalStatusEnum.CLOSED <==> session.Some? && session.value.status == SessionStatus.CLOSED
  {
    match session
    case None => ProposalStatusEnum.WAITING
    case Some(s) =>
      match s.status
      case OPENED => ProposalStatusEnum.OPENED
      case CLOSED => ProposalStatusEnum.CLOSED
  }

  /** The session a proposal row reaches through its one-to-one association. */
  function SessionOf(sessions: seq<VotingSession>, proposalId: ProposalId): (r: Option<VotingSession>)
    ensures r.Some? ==> r.value in sessions && r.value.proposalId == proposalId
    ensures r.None? <==> !HasVotingSessionOpened(sessions, proposalId)
  {
    FindByProposalId(sessions, proposalId)
  }

  /** `mapToProposalSummary`: the proposal's id, title and description, and its derived status. */
  function MapToProposalSummary(proposal: Proposal, sessions: seq<VotingSession>): (r: ProposalSummary)
    ensures r.id == proposal.id && r.title == proposal.title && r.description == proposal.description
    ensures r.status == DetermineProposalStatus(SessionOf(sessions, proposal.id))
    ensures r.status == ProposalStatusEnum.WAITING <==> !HasVotingSessionOpened(sessions, proposal.id)
  {
    ProposalSummary(proposal.id, proposal.title, proposal.description,
                    DetermineProposalStatus(SessionOf(sessions, proposal.id)))
  }

  /** `getAllProposals`: one summary per proposal of the page, in page order, with the page's figures. */
  function GetAllProposals(page: Page<Proposal>, sessions: seq<VotingSession>): (r: PagedResponse<ProposalSummary>)
    ensures |r.content| == |page.content|
    ensures forall i :: 0 <= i < |page.content| ==> r.content[i] == MapToProposalSummary(page.content[i], sessions)
    ensures r.page == page.number && r.size == page.size
    ensures r.totalElements == page.totalElements && r.totalPages == page.totalPages
  {
    var summaries := seq(|page.content|, i requires 0 <= i < |page.content| =>
      MapToProposalSummary(page.content[i], sessions));
    PagedResponse(summaries, page.number, page.size, page.totalElements, page.totalPages)
  }

  /** The summaries keep the proposals' ids in page order. */
  lemma SummariesFollowPageOrder(page: Page<Proposal>, sessions: seq<VotingSession>)
    ensures forall i :: 0 <= i < |page.content| ==>
      GetAllProposals(page, sessions).content[i].id == page.content[i].id
      && GetAllProposals(page, sessions).content[i].title == page.content[i].title
      && GetAllProposals(page, sessions).content[i].description == page.content[i].description
  {
  }

  /**
   * `getProposalDetail`: NotFound for an unknown proposal; otherwise its data
   * and status, with the vote tally attached exactly when the status is CLOSED.
   */
  function GetProposalDetail(
    proposals: map<ProposalId, Proposal>, sessions: seq<VotingSession>, votes: seq<Vote>, proposalId: ProposalId)
    : (r: Result<ProposalDetailsResponse>)
    ensures r.Failure? <==> proposalId !in proposals
    ensures r.Failure? ==> r.error == NotFound(PROPOSAL_NOT_FOUND)
    ensures r.Success? ==>
      && r.value.proposalId == proposals[proposalId].id
      && r.value.title == proposals[proposalId].title
      && r.value.description == proposals[proposalId].description
      && r.value.status == DetermineProposalStatus(SessionOf(sessions, proposalId))
    ensures r.Success? ==> (r.value.result.Some? <==> r.value.status == ProposalStatusEnum.CLOSED)
    ensures r.Success? && r.value.result.Some? ==> r.value.result.value == GetVoteResult(votes, Some(proposalId))
  {
    match GetProposal(proposals, proposalId)
    case Failure(e) => Failure(e)
    case Success(proposal) =>
      var status := DetermineProposalStatus(SessionOf(sessions, proposalId));
      var details := ProposalDetailsResponse(proposal.id, proposal.title, proposal.description, status, None);
      if status == ProposalStatusEnum.CLOSED then Success(details.(result := Some(GetVoteResult(votes, Some(proposalId)))))
      else Success(details)
  }

  // ---- the lifecycle, across operations ----

  /** A proposal without a session shows WAITING; the session the opening adds makes it OPENED. */
  lemma OpeningMakesProposalOpened(sessions: seq<VotingSession>, s: VotingSession)
    requires !HasVotingSessionOpened(sessions, s.proposalId)
    requires s.status == SessionStatus.OPENED
    ensures DetermineProposalStatus(SessionOf(sessions, s.proposalId)) == ProposalStatusEnum.WAITING
    ensures SessionOf(sessions + [s], s.proposalId) == Some(s)
    ensures DetermineProposalStatus(SessionOf(sessions + [s], s.proposalId)) == ProposalStatusEnum.OPENED
  {
    var after := sessions + [s];
    var found := SessionOf(after, s.proposalId);
    assert after[|sessions|] == s;
  }

  /** Closing a proposal's session makes the proposal CLOSED, and its details then carry the tally. */
  lemma ClosingMakesProposalClosed(sessions: seq<VotingSession>, s: VotingSession)
    requires OneSessionPerProposal(sessions)
    requires SessionOf(sessions, s.proposalId) == Some(s)
    ensures SessionOf(CloseInTable(sessions, s.id), s.proposalId) == Some(s.(status := SessionStatus.CLOSED))
    ensures DetermineProposalStatus(SessionOf(CloseInTable(sessions, s.id), s.proposalId)) == ProposalStatusEnum.CLOSED
  {
    var after := CloseInTable(sessions, s.id);
    var i :| 0 <= i < |sessions| && sessions[i] == s;
    assert after[i] == s.(status := SessionStatus.CLOSED);
  }

  /** The details of a CLOSED proposal count each of its votes exactly once. */
  lemma ClosedDetailsCountEveryVote(
    proposals: map<ProposalId, Proposal>, sessions: seq<VotingSession>, votes: seq<Vote>, proposalId: ProposalId)
    requires GetProposalDetail(proposals, sessions, votes, proposalId).Success?
    requires GetProposalDetail(proposals, sessions, votes, proposalId).value.status == ProposalStatusEnum.CLOSED
    ensures GetProposalDetail(proposals, sessions, votes, proposalId).value.result.Some?
    ensures GetProposalDetail(proposals, sessions, votes, proposalId).value.result.value.totalVotes
         == |VoteRepository.VotesOn(votes, Some(proposalId))|
  {
  }
}
