/**
 * The `cast_vote` handler: the window, count and duplicate checks, the tally
 * loop, and the vote record it writes into the freshly initialised account.
 */
module VoteCasting {
  import opened Wrappers
  import opened Text
  import opened Errors
  import opened States
  import opened Tallying

  /** Votes are accepted from the opening second through the finishing second, both included. */
  predicate IsOpen(p: Proposal, now: i64) {
    p.proposal_open_from <= now <= p.proposal_finished_from
  }

  /** The ballot passes the count checks: at least one id, no more ids than candidates. */
  predicate BallotSizeFits(p: Proposal, candidateIds: seq<string>) {
    0 < |candidateIds| <= |p.candidates|
  }

  /**
   * The checks before the tally loop, in source order. `NoVotesProvided` and
   * `TooManyApprovals`, which the source names but never declares, are read
   * as `NotEnoughCandidateVotes` and `TooManyCandidateVotes`.
   */
  function ValidateBallot(p: Proposal, candidateIds: seq<string>, now: i64): (r: Option<VotingError>)
    ensures r == Some(ProposalClosed) <==> !IsOpen(p, now)
    ensures r == Some(NotEnoughCandidateVotes) <==> IsOpen(p, now) && |candidateIds| == 0
    ensures r == Some(TooManyCandidateVotes) <==>
      IsOpen(p, now) && |candidateIds| > 0 && |candidateIds| > |p.candidates|
    ensures r == Some(DuplicateCandidates) <==>
      IsOpen(p, now) && BallotSizeFits(p, candidateIds) && !Distinct(candidateIds)
    ensures r == None <==>
      IsOpen(p, now) && BallotSizeFits(p, candidateIds) && Distinct(candidateIds)
    ensures r.Some? ==> FromVoting(r.value)
  {
    DistinctIffSetSize(candidateIds);
    if p.proposal_open_from > now || p.proposal_finished_from < now then Some(ProposalClosed)
    else if |candidateIds| == 0 then Some(NotEnoughCandidateVotes)
    else if |candidateIds| > |p.candidates| then Some(TooManyCandidateVotes)
    else if |Elems(candidateIds)| != |candidateIds| then Some(DuplicateCandidates)
    else None
  }

  /**
   * The vote account's contents: the chosen ids in `BTreeMap` key order, each
   * with count 0, the proposal and voter addresses, and the bump. The code
   * never assigns the bump, so the zeroed account keeps 0; the corrected
   * variant stores the bump found for the vote address.
   */
  function VoteRecord(variant: Variant, proposal: ProposalKey, voter: Pubkey, bump: u8, candidateIds: seq<string>): (v: Vote)
    requires Distinct(candidateIds)
    ensures v.proposal == proposal && v.voter == voter
    ensures |v.candidates| == |candidateIds|
    ensures Elems(Ids(v.candidates)) == Elems(candidateIds)
    ensures StrictlyAscending(Ids(v.candidates))
    ensures forall i :: 0 <= i < |v.candidates| ==> v.candidates[i].vote_count == 0
    ensures v.bump == (if variant == AsWritten then 0 else bump)
  {
    SortDistinct(candidateIds);
    Vote(proposal, voter, FreshCandidates(SortStrings(candidateIds)), if variant == AsWritten then 0 else bump)
  }

  /**
   * The handler: on success, the proposal with updated counters and the vote
   * record to write; on failure, the first error met.
   */
  function CastVoteHandler(
    variant: Variant, p: Proposal, proposal: ProposalKey, voter: Pubkey, bump: u8,
    candidateIds: seq<string>, now: i64): (r: Result<(Proposal, Vote), VotingError>)
    requires CountersBelowMax(p.candidates)
    ensures r.Err? ==> FromVoting(r.error)
    ensures r.Err? && r.error != InvalidCandidateId ==> ValidateBallot(p, candidateIds, now) == Some(r.error)
    ensures ValidateBallot(p, candidateIds, now).Some? ==> r == Err(ValidateBallot(p, candidateIds, now).value)
    ensures r.Ok? ==>
      && ValidateBallot(p, candidateIds, now).None?
      && r.value.0 == p.(candidates := r.value.0.candidates)
      && Incremented(p.candidates, Elems(candidateIds), r.value.0.candidates)
      && r.value.1 == VoteRecord(variant, proposal, voter, bump, candidateIds)
    ensures variant == Intended ==>
      (r.Ok? <==> ValidateBallot(p, candidateIds, now).None? && Elems(candidateIds) <= Elems(Ids(p.candidates)))
    ensures variant == AsWritten ==>
      (r.Ok? <==> ValidateBallot(p, candidateIds, now).None? && Elems(Ids(p.candidates)) <= Elems(candidateIds))
  {
    EveryIdChosen(p.candidates, Elems(candidateIds));
    match ValidateBallot(p, candidateIds, now)
    case Some(e) => Err(e)
    case None =>
      match Tally(variant, p.candidates, Elems(candidateIds))
      case Err(e) => Err(e)
      case Ok(updated) =>
        Ok((p.(candidates := updated), VoteRecord(variant, proposal, voter, bump, candidateIds)))
  }

  /**
   * Finding, at the handler: on a well-formed proposal the code as written
   * accepts a ballot exactly when voting is open and the ballot names every
   * candidate once, so every successful vote adds one to every candidate.
   */
  lemma AsWrittenVoteNeedsWholeSet(p: Proposal, proposal: ProposalKey, voter: Pubkey, bump: u8, candidateIds: seq<string>, now: i64)
    requires WellFormedProposal(p) && CountersBelowMax(p.candidates)
    ensures CastVoteHandler(AsWritten, p, proposal, voter, bump, candidateIds, now).Ok? <==>
      IsOpen(p, now) && Distinct(candidateIds) && Elems(candidateIds) == Elems(Ids(p.candidates))
  {
    var r := CastVoteHandler(AsWritten, p, proposal, voter, bump, candidateIds, now);
    if IsOpen(p, now) && Distinct(candidateIds) && Elems(candidateIds) == Elems(Ids(p.candidates)) {
      DistinctIffSetSize(candidateIds);
      DistinctIffSetSize(Ids(p.candidates));
      assert BallotSizeFits(p, candidateIds);
      AsWrittenNeedsEveryCandidate(p.candidates, candidateIds);
    }
    if r.Ok? {
      AsWrittenNeedsEveryCandidate(p.candidates, candidateIds);
    }
  }
}
