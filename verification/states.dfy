/** Account layouts, bounds and seed tags of the voting program. */
module States {
  import opened Text

  const MIN_NUMBER_OF_CANDIDATES: nat := 2
  const MAX_NUMBER_OF_CANDIDATES: nat := 12

  const PROPOSAL_MAX_TITLE_LENGTH: nat := 100
  const PROPOSAL_MAX_DESCRIPTION_LENGTH: nat := 600
  /** The `max_len` of `Candidate::id`; it sizes the account but no instruction checks it. */
  const CANDIDATE_ID_MAX_LENGTH: nat := 50

  const PROPOSAL_SEED: string := "PROPOSAL_SEED"
  const VOTE_SEED: string := "VOTE_SEED"

  const U64_MAX: int := 0xFFFF_FFFF_FFFF_FFFF

  type u8 = x: int | 0 <= x < 0x100
  type u64 = x: int | 0 <= x <= 0xFFFF_FFFF_FFFF_FFFF
  type i64 = x: int | -0x8000_0000_0000_0000 <= x < 0x8000_0000_0000_0000

  /** A 32-byte public key. */
  type Pubkey = s: seq<u8> | |s| == 32 witness seq(32, i => 0)

  /**
   * Address of a proposal account: the program-derived address of the seeds
   * [PROPOSAL_SEED, title bytes, proposer key]. Derivation is taken to be
   * injective, so the address is represented by the seed material itself.
   */
  datatype ProposalKey = ProposalKey(proposer: Pubkey, title: string)

  /** Address of a vote account: seeds [VOTE_SEED, voter key, proposal address]. */
  datatype VoteKey = VoteKey(voter: Pubkey, proposal: ProposalKey)

  datatype Candidate = Candidate(id: string, vote_count: u64)

  datatype Proposal = Proposal(
    title: string,
    description: string,
    candidates: seq<Candidate>,
    proposal_open_from: i64,
    proposal_finished_from: i64,
    proposer: Pubkey,
    bump: u8)

  datatype Vote = Vote(
    proposal: ProposalKey,
    voter: Pubkey,
    candidates: seq<Candidate>,
    bump: u8)

  /** The ids of a candidate list, in order. */
  function Ids(cs: seq<Candidate>): (ids: seq<string>)
    ensures |ids| == |cs|
    ensures forall i :: 0 <= i < |cs| ==> ids[i] == cs[i].id
  {
    seq(|cs|, i requires 0 <= i < |cs| => cs[i].id)
  }

  /** Each given id becomes a candidate with no votes, in input order. */
  function FreshCandidates(ids: seq<string>): (cs: seq<Candidate>)
    ensures Ids(cs) == ids
    ensures forall i :: 0 <= i < |cs| ==> cs[i].vote_count == 0
  {
    seq(|ids|, i requires 0 <= i < |ids| => Candidate(ids[i], 0))
  }

  /** Every counter can take one more increment without leaving `u64`. */
  predicate CountersBelowMax(cs: seq<Candidate>) {
    forall i :: 0 <= i < |cs| ==> cs[i].vote_count < U64_MAX
  }

  /** What a successfully created proposal satisfies for its whole life. */
  predicate WellFormedProposal(p: Proposal) {
    && Utf8Len(p.title) <= PROPOSAL_MAX_TITLE_LENGTH
    && Utf8Len(p.description) <= PROPOSAL_MAX_DESCRIPTION_LENGTH
    && MIN_NUMBER_OF_CANDIDATES <= |p.candidates| <= MAX_NUMBER_OF_CANDIDATES
    && Distinct(Ids(p.candidates))
    && p.proposal_open_from < p.proposal_finished_from
  }

  /** A vote record lists between one and twelve distinct ids, in ascending key order, each with count 0. */
  predicate WellFormedVote(v: Vote) {
    && 1 <= |v.candidates| <= MAX_NUMBER_OF_CANDIDATES
    && StrictlyAscending(Ids(v.candidates))
    && forall i :: 0 <= i < |v.candidates| ==> v.candidates[i].vote_count == 0
  }

  /**
   * The fixed bounds are consistent, and the two seed tags differ, so no
   * proposal address can coincide with a vote address.
   */
  lemma BoundsAndSeeds()
    ensures 0 < MIN_NUMBER_OF_CANDIDATES <= MAX_NUMBER_OF_CANDIDATES
    ensures CANDIDATE_ID_MAX_LENGTH < PROPOSAL_MAX_TITLE_LENGTH < PROPOSAL_MAX_DESCRIPTION_LENGTH
    ensures PROPOSAL_SEED != VOTE_SEED
  {
    assert |PROPOSAL_SEED| == 13 && |VOTE_SEED| == 9;
  }
}
