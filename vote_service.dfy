/**
 * Vote casting and the vote tally. A vote is accepted only after four checks,
 * run in a fixed order: the associate's eligibility, the existence of the
 * proposal, a voting session for it (which must be the OPENED one), and the
 * absence of an earlier vote by the same associate on the same proposal.
 */
module VoteService {
  import opened Domain
  import opened VoteRepository
  import opened Repositories
  import opened VotingSessionService
  import opened AssociateValidationService

  const ASSOCIATE_NOT_ALLOWED := "Associado sem permiss\U{E3}o para voltar"
  const PROPOSAL_NOT_FOUND := "Proposal not found!"
  const NO_ACTIVE_SESSION := "No active voting session found for this proposal"
  const ALREADY_VOTED := "Associate has already voted on this proposal"

  /** The request body of a vote: the associate, the associate's CPF (may be null) and the choice. */
  datatype VoteRequest = VoteRequest(associateId: AssociateId, associateCpf: Option<string>, vote: bool)

  /** The tally returned for a proposal. */
  datatype ProposalResultResponse = ProposalResultResponse(countYes: nat, countNo: nat, totalVotes: nat)

  /** The CPF check as configured: the feature flag and the remote client. */
  datatype CpfValidation = CpfValidation(enabled: bool, client: string -> CpfReply)

  /** `getProposal`: the stored proposal, or NotFound. */
  function GetProposal(proposals: map<ProposalId, Proposal>, proposalId: ProposalId): (r: Result<Proposal>)
    ensures r.Success? <==> proposalId in proposals
    ensures r.Success? ==> r.value == proposals[proposalId]
    ensures r.Failure? ==> r.error == NotFound(PROPOSAL_NOT_FOUND)
  {
    if proposalId in proposals then Success(proposals[proposalId]) else Failure(NotFound(PROPOSAL_NOT_FOUND))
  }

  /**
   * `getActiveVotingSession`: NotFound unless some session exists for the
   * proposal; then the proposal's OPENED session, which may itself be missing.
   */
  function GetActiveVotingSession(sessions: seq<VotingSession>, proposalId: ProposalId): (r: Result<VotingSession>)
    ensures !HasVotingSessionOpened(sessions, proposalId) ==> r == Failure(NotFound(NO_ACTIVE_SESSION))
    ensures HasVotingSessionOpened(sessions, proposalId) ==> r == GetSessionActiveByProposalId(sessions, proposalId)
    ensures r.Success? ==> r.value in sessions && r.value.proposalId == proposalId && r.value.status == OPENED
  {
    if !HasVotingSessionOpened(sessions, proposalId) then Failure(NotFound(NO_ACTIVE_SESSION))
    else GetSessionActiveByProposalId(sessions, proposalId)
  }

  /** `createVote`: the new row, tied to the proposal and the session it is cast under. */
  function CreateVote(id: VoteId, proposal: Proposal, session: VotingSession, request: VoteRequest): (v: Vote)
    ensures v.id == id && v.proposalId == proposal.id && v.sessionId == session.id
    ensures v.associateId == request.associateId && v.vote == request.vote
  {
    Vote(id, request.associateId, proposal.id, session.id, request.vote)
  }

  /**
   * What `castVote` decides on the given tables: the vote to insert, or the
   * exception of the first check that fails.
   */
  function CastVoteOutcome(
    proposals: map<ProposalId, Proposal>, sessions: seq<VotingSession>, votes: seq<Vote>,
    validation: CpfValidation, proposalId: ProposalId, request: VoteRequest, newVoteId: VoteId)
    : (r: Result<Vote>)
    requires ProposalsKeyedById(proposals)
    // the first check: eligibility, whatever the tables hold
    ensures IsValidCpf(validation.enabled, validation.client, request.associateCpf).outcome.Failure? ==>
      r == Failure(IsValidCpf(validation.enabled, validation.client, request.associateCpf).outcome.error)
    ensures IsValidCpf(validation.enabled, validation.client, request.associateCpf).outcome == Success(false) ==>
      r == Failure(AssociatePermissionVote(ASSOCIATE_NOT_ALLOWED))
    // the later checks, each reached only when the earlier ones pass
    ensures IsValidCpf(validation.enabled, validation.client, request.associateCpf).outcome == Success(true) ==>
      && (proposalId !in proposals ==> r == Failure(NotFound(PROPOSAL_NOT_FOUND)))
      && (proposalId in proposals && !HasVotingSessionOpened(sessions, proposalId) ==>
            r == Failure(NotFound(NO_ACTIVE_SESSION)))
      && (proposalId in proposals && HasVotingSessionOpened(sessions, proposalId)
          && GetSessionActiveByProposalId(sessions, proposalId).Failure? ==>
            r == Failure(NotFound(ACTIVE_SESSION_NOT_FOUND)))
      && (proposalId in proposals && GetSessionActiveByProposalId(sessions, proposalId).Success?
          && ExistsByProposalIdAndAssociateId(votes, proposalId, request.associateId) ==>
            r == Failure(DuplicateVote(ALREADY_VOTED)))
    // success: all four checks passed, and the vote is the request's, under the proposal's OPENED session
    ensures r.Success? <==>
      && IsValidCpf(validation.enabled, validation.client, request.associateCpf).outcome == Success(true)
      && proposalId in proposals
      && (exists i :: 0 <= i < |sessions| && sessions[i].proposalId == proposalId && sessions[i].status == OPENED)
      && !ExistsByProposalIdAndAssociateId(votes, proposalId, request.associateId)
    ensures r.Success? ==>
      && r.value.id == newVoteId && r.value.proposalId == proposalId
      && r.value.associateId == request.associateId && r.value.vote == request.vote
      && (exists i :: 0 <= i < |sessions| && sessions[i].id == r.value.sessionId
                      && sessions[i].proposalId == proposalId && sessions[i].status == OPENED)
  {
    match IsValidCpf(validation.enabled, validation.client, request.associateCpf).outcome
    case Failure(e) => Failure(e)
    case Success(valid) =>
      if !valid then Failure(AssociatePermissionVote(ASSOCIATE_NOT_ALLOWED))
      else match GetProposal(proposals, proposalId)
        case Failure(e) => Failure(e)
        case Success(proposal) =>
          match GetActiveVotingSession(sessions, proposalId)
          case Failure(e) => Failure(e)
          case Success(session) =>
            if ExistsByProposalIdAndAssociateId(votes, proposalId, request.associateId) then
              Failure(DuplicateVote(ALREADY_VOTED))
            else
              Success(CreateVote(newVoteId, proposal, session, request))
  }

  /**
   * `castVote`: runs the checks and, when they all pass, inserts exactly one
   * vote; otherwise the vote table is left as it was.
   */
  method CastVote(store: Store, validation: CpfValidation, proposalId: ProposalId, request: VoteRequest, newVoteId: VoteId)
    returns (r: Result<Vote>)
    requires store.Valid()
    requires VoteIdFree(store.votes, newVoteId)
    modifies store
    ensures r == CastVoteOutcome(old(store.proposals), old(store.sessions), old(store.votes),
                                 validation, proposalId, request, newVoteId)
    ensures r.Success? ==> store.votes == old(store.votes) + [r.value]
    ensures r.Failure? ==> store.votes == old(store.votes)
    ensures store.proposals == old(store.proposals) && store.sessions == old(store.sessions)
    ensures store.Valid()
    ensures old(store.Consistent()) ==> store.Consistent()
  {
    var check := IsValidCpf(validation.enabled, validation.client, request.associateCpf);
    if check.outcome.Failure? {
      return Failure(check.outcome.error);
    }
    if !check.outcome.value {
      return Failure(AssociatePermissionVote(ASSOCIATE_NOT_ALLOWED));
    }
    var proposal := GetProposal(store.proposals, proposalId);
    if proposal.Failure? {
      return Failure(proposal.error);
    }
    var session := GetActiveVotingSession(store.sessions, proposalId);
    if session.Failure? {
      return Failure(session.error);
    }
    if ExistsByProposalIdAndAssociateId(store.votes, proposalId, request.associateId) {
      return Failure(DuplicateVote(ALREADY_VOTED));
    }
    var vote := CreateVote(newVoteId, proposal.value, session.value, request);
    ghost var sessions := store.sessions;
    assert SessionExists(sessions, vote.sessionId) by {
      var i :| 0 <= i < |sessions| && sessions[i] == session.value;
    }
    ghost var wasConsistent := store.Consistent();
    ghost var before := store.votes;
    r := store.SaveVote(vote);
    if wasConsistent {
      forall k | 0 <= k < |store.votes| ensures CastUnderOwnProposal(store.sessions, store.votes[k]) {
        if k < |before| {
          assert store.votes[k] == before[k];
          assert CastUnderOwnProposal(sessions, before[k]);
        } else {
          var i :| 0 <= i < |sessions| && sessions[i] == session.value;
        }
      }
    }
  }

  /** `getVoteResult`: the proposal's yes and no counts, and their sum as the total. */
  function GetVoteResult(votes: seq<Vote>, proposalId: Option<ProposalId>): (r: ProposalResultResponse)
    ensures r.countYes == CountYes(votes, proposalId) && r.countNo == CountNo(votes, proposalId)
    ensures r.totalVotes == r.countYes + r.countNo
    ensures r.totalVotes == |VotesOn(votes, proposalId)|
  {
    var summary := CountVoteResults(votes, proposalId);
    ProposalResultResponse(summary.countYes, summary.countNo, summary.countYes + summary.countNo)
  }

  // ---- properties across calls ----

  /** The eligibility check comes first: an ineligible associate gets the same answer whatever the tables hold. */
  lemma IneligibleIsDecidedFirst(
    proposals1: map<ProposalId, Proposal>, sessions1: seq<VotingSession>, votes1: seq<Vote>,
    proposals2: map<ProposalId, Proposal>, sessions2: seq<VotingSession>, votes2: seq<Vote>,
    validation: CpfValidation, proposalId: ProposalId, request: VoteRequest, newVoteId: VoteId)
    requires ProposalsKeyedById(proposals1) && ProposalsKeyedById(proposals2)
    requires IsValidCpf(validation.enabled, validation.client, request.associateCpf).outcome != Success(true)
    ensures CastVoteOutcome(proposals1, sessions1, votes1, validation, proposalId, request, newVoteId)
         == CastVoteOutcome(proposals2, sessions2, votes2, validation, proposalId, request, newVoteId)
    ensures CastVoteOutcome(proposals1, sessions1, votes1, validation, proposalId, request, newVoteId).Failure?
  {
  }

  /**
   * A proposal whose session is CLOSED still passes the session-existence
   * check, but the lookup of its OPENED session fails, so no vote is taken.
   */
  lemma ClosedSessionRejectsVote(sessions: seq<VotingSession>, proposalId: ProposalId, votes: seq<Vote>,
                                 proposals: map<ProposalId, Proposal>, validation: CpfValidation,
                                 request: VoteRequest, newVoteId: VoteId)
    requires OneSessionPerProposal(sessions) && ProposalsKeyedById(proposals)
    requires IsValidCpf(validation.enabled, validation.client, request.associateCpf).outcome == Success(true)
    requires exists i :: 0 <= i < |sessions| && sessions[i].proposalId == proposalId && sessions[i].status == CLOSED
    requires proposalId in proposals
    ensures HasVotingSessionOpened(sessions, proposalId)
    ensures CastVoteOutcome(proposals, sessions, votes, validation, proposalId, request, newVoteId)
         == Failure(NotFound(ACTIVE_SESSION_NOT_FOUND))
  {
    var i :| 0 <= i < |sessions| && sessions[i].proposalId == proposalId && sessions[i].status == CLOSED;
    forall j | 0 <= j < |sessions| ensures sessions[j].proposalId != proposalId || sessions[j].status != OPENED {
      assert j != i ==> sessions[j].proposalId != sessions[i].proposalId;
    }
  }

  /** Once a vote is accepted, the same associate's next vote on that proposal is a DuplicateVote. */
  lemma SecondVoteIsDuplicate(
    proposals: map<ProposalId, Proposal>, sessions: seq<VotingSession>, votes: seq<Vote>,
    validation: CpfValidation, proposalId: ProposalId, first: VoteRequest, second: VoteRequest,
    firstId: VoteId, secondId: VoteId)
    requires ProposalsKeyedById(proposals)
    requires CastVoteOutcome(proposals, sessions, votes, validation, proposalId, first, firstId).Success?
    requires second.associateId == first.associateId
    requires IsValidCpf(validation.enabled, validation.client, second.associateCpf).outcome == Success(true)
    ensures
      var cast := CastVoteOutcome(proposals, sessions, votes, validation, proposalId, first, firstId).value;
      CastVoteOutcome(proposals, sessions, votes + [cast], validation, proposalId, second, secondId)
        == Failure(DuplicateVote(ALREADY_VOTED))
  {
    var cast := CastVoteOutcome(proposals, sessions, votes, validation, proposalId, first, firstId).value;
    var after := votes + [cast];
    assert CastBy(after[|votes|], proposalId, second.associateId);
  }

  /** An accepted vote raises its proposal's tally by one, on the side of its choice, and the total by one. */
  lemma AcceptedVoteIsTallied(votes: seq<Vote>, v: Vote)
    ensures GetVoteResult(votes + [v], Some(v.proposalId)).totalVotes
         == GetVoteResult(votes, Some(v.proposalId)).totalVotes + 1
    ensures v.vote ==>
      GetVoteResult(votes + [v], Some(v.proposalId)).countYes == GetVoteResult(votes, Some(v.proposalId)).countYes + 1
    ensures !v.vote ==>
      GetVoteResult(votes + [v], Some(v.proposalId)).countNo == GetVoteResult(votes, Some(v.proposalId)).countNo + 1
  {
    AppendCountsOnce(votes, v, Some(v.proposalId), true);
    AppendCountsOnce(votes, v, Some(v.proposalId), false);
  }

  /** A vote on one proposal leaves every other proposal's tally as it was. */
  lemma OtherProposalsUntouched(votes: seq<Vote>, v: Vote, other: ProposalId)
    requires other != v.proposalId
    ensures GetVoteResult(votes + [v], Some(other)) == GetVoteResult(votes, Some(other))
  {
    AppendCountsOnce(votes, v, Some(other), true);
    AppendCountsOnce(votes, v, Some(other), false);
  }
}
