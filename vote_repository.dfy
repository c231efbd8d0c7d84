/**
 * The meaning of the vote table and of the two derived queries the services
 * run against it: the existence check by (proposal, associate) and the
 * yes/no tally of `countVoteResults`.
 */
module VoteRepository {
  import opened Domain

  /** The name of the table-level uniqueness constraint over (proposal_id, associate_id). */
  const UNIQUE_PROPOSAL_ASSOCIATE := "uk_vote_proposal_associate"

  /** The uniqueness constraint: no two rows share both proposal and associate. */
  ghost predicate OneVotePerAssociate(votes: seq<Vote>)
  {
    forall i, j :: 0 <= i < j < |votes| ==>
      votes[i].proposalId != votes[j].proposalId || votes[i].associateId != votes[j].associateId
  }

  /** The primary key: no two rows share an id. */
  ghost predicate UniqueVoteIds(votes: seq<Vote>)
  {
    forall i, j :: 0 <= i < j < |votes| ==> votes[i].id != votes[j].id
  }

  predicate CastBy(v: Vote, proposalId: ProposalId, associateId: AssociateId)
  {
    v.proposalId == proposalId && v.associateId == associateId
  }

  /** `existsByProposalIdAndAssociateId`: whether the table holds a vote of that associate on that proposal. */
  predicate ExistsByProposalIdAndAssociateId(votes: seq<Vote>, proposalId: ProposalId, associateId: AssociateId): (r: bool)
    ensures r <==> exists i :: 0 <= i < |votes| && CastBy(votes[i], proposalId, associateId)
  {
    FirstIndex(votes, (v: Vote) => CastBy(v, proposalId, associateId)).Some?
  }

  /** The `WHERE (:proposalId IS NULL OR proposal_id = :proposalId)` filter of the tally query. */
  predicate OnProposal(v: Vote, proposalId: Option<ProposalId>)
  {
    proposalId.None? || v.proposalId == proposalId.value
  }

  /** The rows the tally query ranges over, in table order. */
  function VotesOn(votes: seq<Vote>, proposalId: Option<ProposalId>): (r: seq<Vote>)
    ensures |r| <= |votes|
    ensures forall v :: v in r ==> v in votes && OnProposal(v, proposalId)
    ensures forall i :: 0 <= i < |votes| && OnProposal(votes[i], proposalId) ==> votes[i] in r
    ensures forall v :: multiset(r)[v] == if OnProposal(v, proposalId) then multiset(votes)[v] else 0
  {
    if |votes| == 0 then []
    else
      var rest := VotesOn(votes[..|votes| - 1], proposalId);
      var last := votes[|votes| - 1];
      assert votes == votes[..|votes| - 1] + [last];
      if OnProposal(last, proposalId) then rest + [last] else rest
  }

  /** `COUNT(*) FILTER (WHERE vote = choice)` over the filtered rows. */
  function CountChoice(votes: seq<Vote>, proposalId: Option<ProposalId>, choice: bool): nat
  {
    if |votes| == 0 then 0
    else
      var last := votes[|votes| - 1];
      CountChoice(votes[..|votes| - 1], proposalId, choice)
        + (if OnProposal(last, proposalId) && last.vote == choice then 1 else 0)
  }

  /** No filtered row carries the choice `choice`. */
  predicate NoneWithChoice(votes: seq<Vote>, proposalId: Option<ProposalId>, choice: bool)
  {
    forall i :: 0 <= i < |votes| ==> !(OnProposal(votes[i], proposalId) && votes[i].vote == choice)
  }

  lemma {:induction false} CountChoiceZeroIffNone(votes: seq<Vote>, proposalId: Option<ProposalId>, choice: bool)
    ensures CountChoice(votes, proposalId, choice) == 0 <==> NoneWithChoice(votes, proposalId, choice)
  {
    if |votes| > 0 {
      var init := votes[..|votes| - 1];
      CountChoiceZeroIffNone(init, proposalId, choice);
      assert forall i :: 0 <= i < |init| ==> init[i] == votes[i];
    }
  }

  /** Every counted row is one of the filtered rows. */
  lemma {:induction false} CountChoiceBounded(votes: seq<Vote>, proposalId: Option<ProposalId>, choice: bool)
    ensures CountChoice(votes, proposalId, choice) <= |VotesOn(votes, proposalId)|
  {
    if |votes| > 0 {
      CountChoiceBounded(votes[..|votes| - 1], proposalId, choice);
    }
  }

  /** The `countYes` column: zero exactly when no filtered row is a YES, and never above the filtered rows. */
  function CountYes(votes: seq<Vote>, proposalId: Option<ProposalId>): (r: nat)
    ensures r == 0 <==> NoneWithChoice(votes, proposalId, true)
    ensures r <= |VotesOn(votes, proposalId)|
  {
    CountChoiceZeroIffNone(votes, proposalId, true);
    CountChoiceBounded(votes, proposalId, true);
    CountChoice(votes, proposalId, true)
  }

  /** The `countNo` column: zero exactly when no filtered row is a NO, and never above the filtered rows. */
  function CountNo(votes: seq<Vote>, proposalId: Option<ProposalId>): (r: nat)
    ensures r == 0 <==> NoneWithChoice(votes, proposalId, false)
    ensures r <= |VotesOn(votes, proposalId)|
  {
    CountChoiceZeroIffNone(votes, proposalId, false);
    CountChoiceBounded(votes, proposalId, false);
    CountChoice(votes, proposalId, false)
  }

  /** The projection `countVoteResults` returns. */
  datatype VoteSummary = VoteSummary(countYes: nat, countNo: nat)

  function CountVoteResults(votes: seq<Vote>, proposalId: Option<ProposalId>): (r: VoteSummary)
    ensures r.countYes == CountYes(votes, proposalId) && r.countNo == CountNo(votes, proposalId)
    ensures r.countYes + r.countNo == |VotesOn(votes, proposalId)|
  {
    YesAndNoPartitionTheFilteredRows(votes, proposalId);
    VoteSummary(CountYes(votes, proposalId), CountNo(votes, proposalId))
  }

  /** Every filtered row is counted exactly once, as YES or as NO. */
  lemma {:induction false} YesAndNoPartitionTheFilteredRows(votes: seq<Vote>, proposalId: Option<ProposalId>)
    ensures CountYes(votes, proposalId) + CountNo(votes, proposalId) == |VotesOn(votes, proposalId)|
  {
    if |votes| > 0 {
      YesAndNoPartitionTheFilteredRows(votes[..|votes| - 1], proposalId);
    }
  }

  /** With a null proposal id the filter keeps every row, so the tally covers the whole table. */
  lemma {:induction false} NullProposalCountsEveryVote(votes: seq<Vote>)
    ensures VotesOn(votes, None) == votes
    ensures CountYes(votes, None) + CountNo(votes, None) == |votes|
  {
    if |votes| > 0 {
      NullProposalCountsEveryVote(votes[..|votes| - 1]);
      assert votes[..|votes| - 1] + [votes[|votes| - 1]] == votes;
    }
    YesAndNoPartitionTheFilteredRows(votes, None);
  }

  /** Appending a row raises exactly one counter of its own proposal's tally by one. */
  lemma AppendCountsOnce(votes: seq<Vote>, v: Vote, proposalId: Option<ProposalId>, choice: bool)
    ensures CountChoice(votes + [v], proposalId, choice)
         == CountChoice(votes, proposalId, choice) + (if OnProposal(v, proposalId) && v.vote == choice then 1 else 0)
  {
    assert (votes + [v])[..|votes|] == votes;
  }

  /** The number of rows cast by `associateId` on `proposalId`. */
  function CountBy(votes: seq<Vote>, proposalId: ProposalId, associateId: AssociateId): nat
  {
    if |votes| == 0 then 0
    else
      CountBy(votes[..|votes| - 1], proposalId, associateId)
        + (if CastBy(votes[|votes| - 1], proposalId, associateId) then 1 else 0)
  }

  lemma {:induction false} CountByZeroIffAbsent(votes: seq<Vote>, proposalId: ProposalId, associateId: AssociateId)
    ensures CountBy(votes, proposalId, associateId) == 0 <==> !ExistsByProposalIdAndAssociateId(votes, proposalId, associateId)
  {
    if |votes| > 0 {
      var init := votes[..|votes| - 1];
      CountByZeroIffAbsent(init, proposalId, associateId);
      if ExistsByProposalIdAndAssociateId(init, proposalId, associateId) {
        var i :| 0 <= i < |init| && CastBy(init[i], proposalId, associateId);
        assert votes[i] == init[i];
      }
      if ExistsByProposalIdAndAssociateId(votes, proposalId, associateId) {
        var i :| 0 <= i < |votes| && CastBy(votes[i], proposalId, associateId);
        if i < |init| {
          assert init[i] == votes[i];
        }
      }
    }
  }

  /**
   * The uniqueness constraint is exactly "each associate has at most one row per proposal":
   * under it no (proposal, associate) pair is ever counted twice, and conversely.
   */
  lemma {:induction false} OneVotePerAssociateIffCountedOnce(votes: seq<Vote>)
    ensures OneVotePerAssociate(votes) <==>
      forall p: ProposalId, a: AssociateId :: CountBy(votes, p, a) <= 1
  {
    if OneVotePerAssociate(votes) {
      forall p: ProposalId, a: AssociateId ensures CountBy(votes, p, a) <= 1 {
        AtMostOnceUnderConstraint(votes, p, a);
      }
    }
    if !OneVotePerAssociate(votes) {
      var i, j :| 0 <= i < j < |votes| &&
        votes[i].proposalId == votes[j].proposalId && votes[i].associateId == votes[j].associateId;
      CountByAtLeastTwo(votes, i, j);
    }
  }

  lemma {:induction false} AtMostOnceUnderConstraint(votes: seq<Vote>, proposalId: ProposalId, associateId: AssociateId)
    requires OneVotePerAssociate(votes)
    ensures CountBy(votes, proposalId, associateId) <= 1
  {
    if |votes| > 0 {
      var init := votes[..|votes| - 1];
      assert OneVotePerAssociate(init) by {
        forall i, j | 0 <= i < j < |init|
          ensures init[i].proposalId != init[j].proposalId || init[i].associateId != init[j].associateId
        {
          assert init[i] == votes[i] && init[j] == votes[j];
        }
      }
      AtMostOnceUnderConstraint(init, proposalId, associateId);
      if CastBy(votes[|votes| - 1], proposalId, associateId) {
        forall i | 0 <= i < |init| ensures !CastBy(init[i], proposalId, associateId) {
          assert init[i] == votes[i];
        }
        CountByZeroIffAbsent(init, proposalId, associateId);
      }
    }
  }

  lemma {:induction false} CountByAtLeastTwo(votes: seq<Vote>, i: nat, j: nat)
    requires i < j < |votes|
    requires votes[i].proposalId == votes[j].proposalId && votes[i].associateId == votes[j].associateId
    ensures CountBy(votes, votes[j].proposalId, votes[j].associateId) >= 2
  {
    var init := votes[..|votes| - 1];
    var p, a := votes[j].proposalId, votes[j].associateId;
    if j == |votes| - 1 {
      assert init[i] == votes[i];
      CountByZeroIffAbsent(init, p, a);
    } else {
      assert init[i] == votes[i] && init[j] == votes[j];
      CountByAtLeastTwo(init, i, j);
    }
  }
}
