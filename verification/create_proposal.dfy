/**
 * The `create_proposal` handler: its first-failure-wins validation chain and
 * the record it writes into the freshly initialised proposal account.
 */
module ProposalCreation {
  import opened Wrappers
  import opened Text
  import opened Errors
  import opened States

  /** The title and description fit their byte bounds (only upper bounds exist). */
  predicate TextFits(title: string, description: string) {
    Utf8Len(title) <= PROPOSAL_MAX_TITLE_LENGTH && Utf8Len(description) <= PROPOSAL_MAX_DESCRIPTION_LENGTH
  }

  predicate CandidateCountFits(candidateIds: seq<string>) {
    MIN_NUMBER_OF_CANDIDATES <= |candidateIds| <= MAX_NUMBER_OF_CANDIDATES
  }

  /**
   * The time test passes exactly when voting opens no earlier than now and
   * closes strictly later than it opens; the third disjunct of the source
   * (`finished < now`) adds nothing.
   */
  predicate ValidWindow(openFrom: i64, finishedFrom: i64, now: i64) {
    now <= openFrom < finishedFrom
  }

  /**
   * The validation chain, in source order; `None` means every check passed.
   * Each error is reported exactly when its own check fails and every earlier
   * check passed.
   */
  function Validate(
    title: string, description: string, candidateIds: seq<string>,
    openFrom: i64, finishedFrom: i64, now: i64): (r: Option<VotingError>)
    ensures r == Some(TitleTooLong) <==> Utf8Len(title) > PROPOSAL_MAX_TITLE_LENGTH
    ensures r == Some(DescriptionTooLong) <==>
      Utf8Len(title) <= PROPOSAL_MAX_TITLE_LENGTH && Utf8Len(description) > PROPOSAL_MAX_DESCRIPTION_LENGTH
    ensures r == Some(NotEnoughCandidates) <==>
      TextFits(title, description) && |candidateIds| < MIN_NUMBER_OF_CANDIDATES
    ensures r == Some(TooManyCandidates) <==>
      TextFits(title, description) && |candidateIds| > MAX_NUMBER_OF_CANDIDATES
    ensures r == Some(DuplicateCandidates) <==>
      TextFits(title, description) && CandidateCountFits(candidateIds) && !Distinct(candidateIds)
    ensures r == Some(InvalidProposalTime) <==>
      TextFits(title, description) && CandidateCountFits(candidateIds) && Distinct(candidateIds)
      && !ValidWindow(openFrom, finishedFrom, now)
    ensures r == None <==>
      TextFits(title, description) && CandidateCountFits(candidateIds) && Distinct(candidateIds)
      && ValidWindow(openFrom, finishedFrom, now)
    ensures r.Some? ==> FromCreation(r.value)
  {
    DistinctIffSetSize(candidateIds);
    if Utf8Len(title) > PROPOSAL_MAX_TITLE_LENGTH then Some(TitleTooLong)
    else if Utf8Len(description) > PROPOSAL_MAX_DESCRIPTION_LENGTH then Some(DescriptionTooLong)
    else if |candidateIds| < MIN_NUMBER_OF_CANDIDATES then Some(NotEnoughCandidates)
    else if |candidateIds| > MAX_NUMBER_OF_CANDIDATES then Some(TooManyCandidates)
    else if |Elems(candidateIds)| != |candidateIds| then Some(DuplicateCandidates)
    else if openFrom >= finishedFrom || openFrom < now || finishedFrom < now then Some(InvalidProposalTime)
    else None
  }

  /**
   * The handler: validate, then fill the account with the given fields, the
   * signer as proposer and the bump found for the account's address.
   */
  function CreateProposalHandler(
    proposer: Pubkey, bump: u8, title: string, description: string,
    candidateIds: seq<string>, openFrom: i64, finishedFrom: i64, now: i64): (r: Result<Proposal, VotingError>)
    ensures r.Ok? <==> Validate(title, description, candidateIds, openFrom, finishedFrom, now).None?
    ensures r.Err? ==> Validate(title, description, candidateIds, openFrom, finishedFrom, now) == Some(r.error)
    ensures r.Ok? ==>
      && WellFormedProposal(r.value)
      && now <= r.value.proposal_open_from
      && r.value.title == title && r.value.description == description
      && Ids(r.value.candidates) == candidateIds
      && (forall i :: 0 <= i < |r.value.candidates| ==> r.value.candidates[i].vote_count == 0)
      && r.value.proposal_open_from == openFrom && r.value.proposal_finished_from == finishedFrom
      && r.value.proposer == proposer && r.value.bump == bump
  {
    match Validate(title, description, candidateIds, openFrom, finishedFrom, now)
    case Some(e) => Err(e)
    case None =>
      Ok(Proposal(title, description, FreshCandidates(candidateIds), openFrom, finishedFrom, proposer, bump))
  }

  /** The byte length of `n` copies of one character. */
  lemma {:induction false} RepeatedByteLength(c: char, n: nat)
    ensures Utf8Len(seq(n, i => c)) == n * Utf8Width(c)
  {
    if n > 0 {
      var s := seq(n, i => c);
      assert s[1..] == seq(n - 1, i => c);
      RepeatedByteLength(c, n - 1);
    }
  }

  /**
   * Lengths are bytes, not characters: 101 ASCII letters are too long, and so
   * are 34 three-byte characters (102 bytes), while 33 of them (99 bytes) fit.
   * An empty title and an empty description are accepted.
   */
  lemma TitleBoundCountsBytes(now: i64)
    requires now < 0x7FFF_FFFF_FFFF_FFFF
    ensures Validate(seq(101, i => 'x'), "", ["A", "B"], now, now + 1, now) == Some(TitleTooLong)
    ensures Validate(seq(34, i => '€'), "", ["A", "B"], now, now + 1, now) == Some(TitleTooLong)
    ensures Validate(seq(33, i => '€'), "", ["A", "B"], now, now + 1, now) == None
    ensures Validate("", "", ["A", "B"], now, now + 1, now) == None
  {
    RepeatedByteLength('x', 101);
    RepeatedByteLength('€', 34);
    RepeatedByteLength('€', 33);
  }
}
