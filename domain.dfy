/**
 * The persistent entities of the cooperative-proposals service, as values.
 *
 * Identifiers (UUIDs in the service) are natural numbers; timestamps are
 * whole seconds. A JPA association is represented by the identifier of the
 * referenced row.
 */
module Domain {

  type ProposalId = nat
  type SessionId = nat
  type VoteId = nat
  type AssociateId = nat

  /** A value that may be absent (a Java `null` or an empty `Optional`). */
  datatype Option<+T> = None | Some(value: T)

  /** The outcome of an operation that either returns a value or raises one of the service's exceptions. */
  datatype Result<+T> = Success(value: T) | Failure(error: Error)

  /** The exceptions the core raises, each with the message it carries. */
  datatype Error =
    | NotFound(message: string)
    | SessionOpened(message: string)
    | AssociatePermissionVote(message: string)
    | DuplicateVote(message: string)
    | Runtime(message: string)
    | NullPointer
    | UniqueViolation(constraint: string)

  datatype SessionStatus = OPENED | CLOSED

  /** A proposal row: identity, title and an optional description. */
  datatype Proposal = Proposal(id: ProposalId, title: string, description: Option<string>)

  /** A voting-session row; `proposalId` is the non-null `proposal_id` join column. */
  datatype VotingSession = VotingSession(
    id: SessionId,
    proposalId: ProposalId,
    openedAt: int,
    closesAt: int,
    status: SessionStatus)

  /**
   * A vote row: the associate who cast it, the proposal and the voting session it
   * was cast under (both non-null join columns), and the choice, `true` meaning YES.
   */
  datatype Vote = Vote(
    id: VoteId,
    associateId: AssociateId,
    proposalId: ProposalId,
    sessionId: SessionId,
    vote: bool)

  /** The first index of `s` whose element satisfies `p`, if any. */
  function FirstIndex<T>(s: seq<T>, p: T -> bool): (r: Option<nat>)
    ensures r.Some? ==> r.value < |s| && p(s[r.value])
    ensures r.Some? ==> forall i :: 0 <= i < r.value ==> !p(s[i])
    ensures r.None? <==> forall i :: 0 <= i < |s| ==> !p(s[i])
  {
    if |s| == 0 then None
    else if p(s[0]) then Some(0)
    else match FirstIndex(s[1..], p)
      case None => None
      case Some(k) => Some(k + 1)
  }
}
