/**
 * The relational store behind the repositories: the proposal, voting_session
 * and vote tables, the queries the services run on them, and the constraints
 * the database enforces.
 */
module Repositories {
  import opened Domain
  import opened VoteRepository

  // ---- voting_session queries ----

  /** The position of the session row with primary key `id`. */
  function IndexOfSession(sessions: seq<VotingSession>, id: SessionId): (r: Option<nat>)
    ensures r.Some? ==> r.value < |sessions| && sessions[r.value].id == id
    ensures r.None? <==> SessionIdFree(sessions, id)
  {
    FirstIndex(sessions, (s: VotingSession) => s.id == id)
  }

  /** `findById`. */
  function FindById(sessions: seq<VotingSession>, id: SessionId): (r: Option<VotingSession>)
    ensures r.Some? ==> r.value in sessions && r.value.id == id
    ensures r.None? <==> SessionIdFree(sessions, id)
  {
    match IndexOfSession(sessions, id)
    case None => None
    case Some(i) => Some(sessions[i])
  }

  /** `findByProposalId`: a session row of the proposal, whatever its status. */
  function FindByProposalId(sessions: seq<VotingSession>, proposalId: ProposalId): (r: Option<VotingSession>)
    ensures r.Some? ==> r.value in sessions && r.value.proposalId == proposalId
    ensures r.None? <==> forall i :: 0 <= i < |sessions| ==> sessions[i].proposalId != proposalId
  {
    match FirstIndex(sessions, (s: VotingSession) => s.proposalId == proposalId)
    case None => None
    case Some(i) => Some(sessions[i])
  }

  /** `findByProposalIdAndStatus`: a session row of the proposal with the given status. */
  function FindByProposalIdAndStatus(sessions: seq<VotingSession>, proposalId: ProposalId, status: SessionStatus)
    : (r: Option<VotingSession>)
    ensures r.Some? ==> r.value in sessions && r.value.proposalId == proposalId && r.value.status == status
    ensures r.None? <==>
      forall i :: 0 <= i < |sessions| ==> sessions[i].proposalId != proposalId || sessions[i].status != status
  {
    match FirstIndex(sessions, (s: VotingSession) => s.proposalId == proposalId && s.status == status)
    case None => None
    case Some(i) => Some(sessions[i])
  }

  predicate SessionIdFree(sessions: seq<VotingSession>, id: SessionId)
  {
    forall i :: 0 <= i < |sessions| ==> sessions[i].id != id
  }

  predicate VoteIdFree(votes: seq<Vote>, id: VoteId)
  {
    forall i :: 0 <= i < |votes| ==> votes[i].id != id
  }

  // ---- constraints ----

  ghost predicate UniqueSessionIds(sessions: seq<VotingSession>)
  {
    forall i, j :: 0 <= i < j < |sessions| ==> sessions[i].id != sessions[j].id
  }

  /**
   * No two sessions for the same proposal. The table does not enforce this (the
   * join column carries no unique constraint); the services keep it.
   */
  ghost predicate OneSessionPerProposal(sessions: seq<VotingSession>)
  {
    forall i, j :: 0 <= i < j < |sessions| ==> sessions[i].proposalId != sessions[j].proposalId
  }

  ghost predicate SessionExists(sessions: seq<VotingSession>, id: SessionId)
  {
    exists i :: 0 <= i < |sessions| && sessions[i].id == id
  }

  /** Every proposal row is stored under its own primary key. */
  ghost predicate ProposalsKeyedById(proposals: map<ProposalId, Proposal>)
  {
    forall id :: id in proposals ==> proposals[id].id == id
  }

  /** What the database guarantees: primary keys, non-null foreign keys and the vote uniqueness constraint. */
  ghost predicate TableConstraints(proposals: map<ProposalId, Proposal>, sessions: seq<VotingSession>, votes: seq<Vote>)
  {
    && ProposalsKeyedById(proposals)
    && UniqueSessionIds(sessions)
    && (forall i :: 0 <= i < |sessions| ==> sessions[i].proposalId in proposals)
    && UniqueVoteIds(votes)
    && OneVotePerAssociate(votes)
    && (forall i :: 0 <= i < |votes| ==> votes[i].proposalId in proposals)
    && (forall i :: 0 <= i < |votes| ==> SessionExists(sessions, votes[i].sessionId))
  }

  /** Every vote was cast under a session of its own proposal. */
  ghost predicate VotesUnderOwnProposal(sessions: seq<VotingSession>, votes: seq<Vote>)
  {
    forall i :: 0 <= i < |votes| ==> CastUnderOwnProposal(sessions, votes[i])
  }

  ghost predicate CastUnderOwnProposal(sessions: seq<VotingSession>, v: Vote)
  {
    exists j :: 0 <= j < |sessions| && sessions[j].id == v.sessionId && sessions[j].proposalId == v.proposalId
  }

  /** `after` is `before` with, at most, sessions closed and sessions added: nothing is reopened or rewritten. */
  ghost predicate SessionsEvolve(before: seq<VotingSession>, after: seq<VotingSession>)
  {
    |before| <= |after| && forall i :: 0 <= i < |before| ==> SessionSucceeds(before[i], after[i])
  }

  predicate SessionSucceeds(a: VotingSession, b: VotingSession)
  {
    && b.id == a.id && b.proposalId == a.proposalId
    && b.openedAt == a.openedAt && b.closesAt == a.closesAt
    && (a.status == CLOSED ==> b.status == CLOSED)
  }

  /** The three tables, updated in place by the repositories' `save`. */
  class Store {
    var proposals: map<ProposalId, Proposal>
    var sessions: seq<VotingSession>
    var votes: seq<Vote>

    ghost predicate Valid()
      reads this
    {
      TableConstraints(proposals, sessions, votes)
    }

    /** The state the services keep on top of the table constraints. */
    ghost predicate Consistent()
      reads this
    {
      Valid() && OneSessionPerProposal(sessions) && VotesUnderOwnProposal(sessions, votes)
    }

    constructor ()
      ensures Consistent()
      ensures proposals == map[] && sessions == [] && votes == []
    {
      proposals, sessions, votes := map[], [], [];
    }

    /** `proposalRepository.save`: insert or overwrite the row with the proposal's id. */
    method SaveProposal(p: Proposal)
      requires Valid()
      modifies this
      ensures Valid()
      ensures proposals == old(proposals)[p.id := p]
      ensures sessions == old(sessions) && votes == old(votes)
    {
      proposals := proposals[p.id := p];
    }

    /** `votingSessionRepository.save`: overwrite the row with the session's id, or insert it. */
    method SaveSession(s: VotingSession)
      requires Valid()
      requires s.proposalId in proposals
      modifies this
      ensures Valid()
      ensures match IndexOfSession(old(sessions), s.id)
        case Some(i) => sessions == old(sessions)[i := s]
        case None => sessions == old(sessions) + [s]
      ensures proposals == old(proposals) && votes == old(votes)
    {
      var i := IndexOfSession(sessions, s.id);
      if i.Some? {
        ghost var was := sessions;
        sessions := sessions[i.value := s];
        forall k | 0 <= k < |votes| ensures SessionExists(sessions, votes[k].sessionId) {
          var j :| 0 <= j < |was| && was[j].id == votes[k].sessionId;
          assert sessions[j].id == was[j].id;
        }
      } else {
        ghost var was := sessions;
        sessions := sessions + [s];
        forall k | 0 <= k < |votes| ensures SessionExists(sessions, votes[k].sessionId) {
          var j :| 0 <= j < |was| && was[j].id == votes[k].sessionId;
          assert sessions[j] == was[j];
        }
      }
    }

    /**
     * `voteRepository.save` of a new row: the uniqueness constraint over
     * (proposal_id, associate_id) rejects a second vote of the same associate on
     * the same proposal and leaves the table as it was.
     */
    method SaveVote(v: Vote) returns (r: Result<Vote>)
      requires Valid()
      requires VoteIdFree(votes, v.id)
      requires v.proposalId in proposals && SessionExists(sessions, v.sessionId)
      modifies this
      ensures Valid()
      ensures ExistsByProposalIdAndAssociateId(old(votes), v.proposalId, v.associateId) ==>
        r == Failure(UniqueViolation(UNIQUE_PROPOSAL_ASSOCIATE)) && votes == old(votes)
      ensures !ExistsByProposalIdAndAssociateId(old(votes), v.proposalId, v.associateId) ==>
        r == Success(v) && votes == old(votes) + [v]
      ensures proposals == old(proposals) && sessions == old(sessions)
    {
      if ExistsByProposalIdAndAssociateId(votes, v.proposalId, v.associateId) {
        r := Failure(UniqueViolation(UNIQUE_PROPOSAL_ASSOCIATE));
      } else {
        votes := votes + [v];
        r := Success(v);
      }
    }
  }
}
