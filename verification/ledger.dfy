/**
 * The program's accounts as a store of two maps, and the two instructions as
 * all-or-nothing transitions over it. Anchor's `init` at a program-derived
 * address refuses an address that already holds an account, and an
 * instruction that returns an error leaves no write behind.
 */
module Ledger {
  import opened Wrappers
  import opened Text
  import opened Errors
  import opened States
  import opened Tallying
  import opened ProposalCreation
  import opened VoteCasting

  /** Proposal accounts by (proposer, title); vote accounts by (voter, proposal). */
  datatype Store = Store(proposals: map<ProposalKey, Proposal>, votes: map<VoteKey, Vote>)

  const EmptyStore: Store := Store(map[], map[])

  /** Why an instruction fails: the runtime's account checks, or the program's own error. */
  datatype InstructionError =
    | AccountAlreadyInUse
    | AccountNotInitialized
    | Program(error: VotingError)

  /** The store after an instruction: its writes on success, untouched on failure. */
  function Commit(s: Store, r: Result<Store, InstructionError>): Store {
    match r
    case Ok(t) => t
    case Err(_) => s
  }

  /**
   * `create_proposal` signed by `proposer`. The `init` of the proposal account
   * fails before the handler runs when its address is taken.
   */
  function CreateProposal(
    s: Store, proposer: Pubkey, bump: u8, title: string, description: string,
    candidateIds: seq<string>, openFrom: i64, finishedFrom: i64, now: i64): (r: Result<Store, InstructionError>)
    ensures ProposalKey(proposer, title) in s.proposals ==> r == Err(AccountAlreadyInUse)
    ensures ProposalKey(proposer, title) !in s.proposals ==>
      match Validate(title, description, candidateIds, openFrom, finishedFrom, now)
      case Some(e) => r == Err(Program(e))
      case None => r.Ok?
    ensures r.Ok? ==>
      && r.value.votes == s.votes
      && r.value.proposals.Keys == s.proposals.Keys + {ProposalKey(proposer, title)}
      && (forall k :: k in s.proposals ==> r.value.proposals[k] == s.proposals[k])
      && CreateProposalHandler(proposer, bump, title, description, candidateIds, openFrom, finishedFrom, now)
         == Ok(r.value.proposals[ProposalKey(proposer, title)])
  {
    var key := ProposalKey(proposer, title);
    if key in s.proposals then Err(AccountAlreadyInUse)
    else
      match CreateProposalHandler(proposer, bump, title, description, candidateIds, openFrom, finishedFrom, now)
      case Err(e) => Err(Program(e))
      case Ok(p) => Ok(s.(proposals := s.proposals[key := p]))
  }

  /**
   * When the vote reaches the handler (the proposal exists and `voter` has no
   * vote account on it), every counter of the proposal can take one more vote.
   */
  predicate CanTally(s: Store, voter: Pubkey, proposal: ProposalKey) {
    proposal in s.proposals && VoteKey(voter, proposal) !in s.votes ==>
      CountersBelowMax(s.proposals[proposal].candidates)
  }

  /**
   * `cast_vote` signed by `voter` on the proposal at `proposal`. The proposal
   * account must exist, and the `init` of the vote account fails when the
   * voter already has one for this proposal; both are checked before the
   * handler runs.
   */
  function CastVote(
    variant: Variant, s: Store, voter: Pubkey, proposal: ProposalKey, bump: u8,
    candidateIds: seq<string>, now: i64): (r: Result<Store, InstructionError>)
    requires CanTally(s, voter, proposal)
    ensures proposal !in s.proposals ==> r == Err(AccountNotInitialized)
    ensures proposal in s.proposals && VoteKey(voter, proposal) in s.votes ==> r == Err(AccountAlreadyInUse)
    ensures proposal in s.proposals && VoteKey(voter, proposal) !in s.votes ==>
      match ValidateBallot(s.proposals[proposal], candidateIds, now)
      case Some(e) => r == Err(Program(e))
      case None => r.Ok? || r == Err(Program(InvalidCandidateId))
    ensures r.Ok? ==>
      && proposal in s.proposals && VoteKey(voter, proposal) !in s.votes
      && IsOpen(s.proposals[proposal], now)
      && r.value.votes == s.votes[VoteKey(voter, proposal) := VoteRecord(variant, proposal, voter, bump, candidateIds)]
      && r.value.proposals.Keys == s.proposals.Keys
      && (forall k :: k in s.proposals && k != proposal ==> r.value.proposals[k] == s.proposals[k])
      && r.value.proposals[proposal] == s.proposals[proposal].(candidates := r.value.proposals[proposal].candidates)
      && Incremented(s.proposals[proposal].candidates, Elems(candidateIds), r.value.proposals[proposal].candidates)
  {
    if proposal !in s.proposals then Err(AccountNotInitialized)
    else
      var voteKey := VoteKey(voter, proposal);
      if voteKey in s.votes then Err(AccountAlreadyInUse)
      else
        match CastVoteHandler(variant, s.proposals[proposal], proposal, voter, bump, candidateIds, now)
        case Err(e) => Err(Program(e))
        case Ok((p, v)) => Ok(Store(s.proposals[proposal := p], s.votes[voteKey := v]))
  }

  /** The vote accounts of proposal `k` whose ballot names `id`. */
  function Backers(votes: map<VoteKey, Vote>, k: ProposalKey, id: string): set<VoteKey> {
    set vk | vk in votes && vk.proposal == k && id in Elems(Ids(votes[vk].candidates))
  }

  predicate ProposalAt(s: Store, k: ProposalKey)
    requires k in s.proposals
  {
    && s.proposals[k].proposer == k.proposer
    && s.proposals[k].title == k.title
    && WellFormedProposal(s.proposals[k])
  }

  predicate VoteAt(s: Store, vk: VoteKey)
    requires vk in s.votes
  {
    && vk.proposal in s.proposals
    && s.votes[vk].voter == vk.voter
    && s.votes[vk].proposal == vk.proposal
    && WellFormedVote(s.votes[vk])
    && Elems(Ids(s.votes[vk].candidates)) <= Elems(Ids(s.proposals[vk.proposal].candidates))
  }

  /** Every counter equals the number of vote accounts on its proposal that name it. */
  predicate TalliesMatchVotes(s: Store) {
    forall k, i :: k in s.proposals && 0 <= i < |s.proposals[k].candidates| ==>
      s.proposals[k].candidates[i].vote_count == |Backers(s.votes, k, s.proposals[k].candidates[i].id)|
  }

  /** The store invariant both instructions keep. */
  predicate Valid(s: Store) {
    && (forall k :: k in s.proposals ==> ProposalAt(s, k))
    && (forall vk :: vk in s.votes ==> VoteAt(s, vk))
    && TalliesMatchVotes(s)
  }

  lemma EmptyStoreValid()
    ensures Valid(EmptyStore)
  {
  }

  /** A proposal nobody has voted on yet has no backers for any id. */
  lemma NoBackersOfUnknownProposal(s: Store, k: ProposalKey, id: string)
    requires forall vk :: vk in s.votes ==> VoteAt(s, vk)
    requires k !in s.proposals
    ensures Backers(s.votes, k, id) == {}
  {
  }

  lemma CreateProposalKeepsValid(
    s: Store, proposer: Pubkey, bump: u8, title: string, description: string,
    candidateIds: seq<string>, openFrom: i64, finishedFrom: i64, now: i64)
    requires Valid(s)
    ensures Valid(Commit(s, CreateProposal(s, proposer, bump, title, description, candidateIds, openFrom, finishedFrom, now)))
  {
    var r := CreateProposal(s, proposer, bump, title, description, candidateIds, openFrom, finishedFrom, now);
    if r.Ok? {
      var t := r.value;
      var key := ProposalKey(proposer, title);
      forall k, i | k in t.proposals && 0 <= i < |t.proposals[k].candidates|
        ensures t.proposals[k].candidates[i].vote_count == |Backers(t.votes, k, t.proposals[k].candidates[i].id)|
      {
        if k == key {
          NoBackersOfUnknownProposal(s, key, t.proposals[k].candidates[i].id);
        }
      }
      forall vk | vk in t.votes ensures VoteAt(t, vk) {
        assert VoteAt(s, vk);
      }
    }
  }

  /** Backers of other proposals do not see a new vote account. */
  lemma BackersElsewhere(votes: map<VoteKey, Vote>, vk: VoteKey, v: Vote, k: ProposalKey, id: string)
    requires k != vk.proposal
    ensures Backers(votes[vk := v], k, id) == Backers(votes, k, id)
  {
  }

  /** A new vote account on `vk.proposal` joins the backers of exactly the ids it names. */
  lemma BackersHere(votes: map<VoteKey, Vote>, vk: VoteKey, v: Vote, id: string)
    requires vk !in votes
    ensures |Backers(votes[vk := v], vk.proposal, id)| ==
      |Backers(votes, vk.proposal, id)| + (if id in Elems(Ids(v.candidates)) then 1 else 0)
  {
    var before := Backers(votes, vk.proposal, id);
    var after := Backers(votes[vk := v], vk.proposal, id);
    if id in Elems(Ids(v.candidates)) {
      assert after == before + {vk};
    } else {
      assert after == before;
    }
  }

  /** On a well-formed proposal, an accepted ballot names only candidates of that proposal. */
  lemma AcceptedBallotNamesCandidates(
    variant: Variant, p: Proposal, proposal: ProposalKey, voter: Pubkey, bump: u8,
    candidateIds: seq<string>, now: i64)
    requires WellFormedProposal(p) && CountersBelowMax(p.candidates)
    requires CastVoteHandler(variant, p, proposal, voter, bump, candidateIds, now).Ok?
    ensures Elems(candidateIds) <= Elems(Ids(p.candidates))
  {
    if variant == AsWritten {
      AsWrittenVoteNeedsWholeSet(p, proposal, voter, bump, candidateIds, now);
    }
  }

  lemma CastVoteKeepsValid(
    variant: Variant, s: Store, voter: Pubkey, proposal: ProposalKey, bump: u8,
    candidateIds: seq<string>, now: i64)
    requires Valid(s) && CanTally(s, voter, proposal)
    ensures Valid(Commit(s, CastVote(variant, s, voter, proposal, bump, candidateIds, now)))
  {
    var r := CastVote(variant, s, voter, proposal, bump, candidateIds, now);
    if r.Ok? {
      var t := r.value;
      var vk := VoteKey(voter, proposal);
      var p := s.proposals[proposal];
      var v := VoteRecord(variant, proposal, voter, bump, candidateIds);
      assert ProposalAt(s, proposal);
      assert CastVoteHandler(variant, p, proposal, voter, bump, candidateIds, now).Ok?;
      AcceptedBallotNamesCandidates(variant, p, proposal, voter, bump, candidateIds, now);
      IncrementedKeepsIds(p.candidates, Elems(candidateIds), t.proposals[proposal].candidates);
      ProposalsAfterVote(s, t, proposal);
      assert |candidateIds| <= |p.candidates|;
      VotesAfterVote(s, t, vk, v);
      TalliesAfterVote(s, t, vk, v);
    }
  }

  /** Only the voted proposal's counters move; every proposal stays well-formed. */
  lemma ProposalsAfterVote(s: Store, t: Store, proposal: ProposalKey)
    requires forall k :: k in s.proposals ==> ProposalAt(s, k)
    requires proposal in s.proposals
    requires t.proposals.Keys == s.proposals.Keys
    requires forall k :: k in s.proposals && k != proposal ==> t.proposals[k] == s.proposals[k]
    requires t.proposals[proposal] == s.proposals[proposal].(candidates := t.proposals[proposal].candidates)
    requires Ids(t.proposals[proposal].candidates) == Ids(s.proposals[proposal].candidates)
    ensures forall k :: k in t.proposals ==> ProposalAt(t, k)
    ensures forall k :: k in t.proposals ==> Ids(t.proposals[k].candidates) == Ids(s.proposals[k].candidates)
  {
    forall k | k in t.proposals ensures ProposalAt(t, k) {
      assert ProposalAt(s, k);
      if k == proposal {
        assert |t.proposals[k].candidates| == |Ids(t.proposals[k].candidates)|;
      }
    }
  }

  /** The new vote account is attached to its proposal, and the old ones stay attached. */
  lemma VotesAfterVote(s: Store, t: Store, vk: VoteKey, v: Vote)
    requires forall w :: w in s.votes ==> VoteAt(s, w)
    requires t.votes == s.votes[vk := v]
    requires t.proposals.Keys == s.proposals.Keys
    requires forall k :: k in t.proposals ==> Ids(t.proposals[k].candidates) == Ids(s.proposals[k].candidates)
    requires vk.proposal in s.proposals && v.voter == vk.voter && v.proposal == vk.proposal
    requires WellFormedVote(v)
    requires Elems(Ids(v.candidates)) <= Elems(Ids(s.proposals[vk.proposal].candidates))
    ensures forall w :: w in t.votes ==> VoteAt(t, w)
  {
    forall w | w in t.votes ensures VoteAt(t, w) {
      if w != vk {
        assert VoteAt(s, w);
      }
    }
  }

  /** Counters and backers grow together: each id the new ballot names gains one of each. */
  lemma TalliesAfterVote(s: Store, t: Store, vk: VoteKey, v: Vote)
    requires TalliesMatchVotes(s)
    requires vk !in s.votes && vk.proposal in s.proposals
    requires t.votes == s.votes[vk := v]
    requires t.proposals.Keys == s.proposals.Keys
    requires forall k :: k in s.proposals && k != vk.proposal ==> t.proposals[k] == s.proposals[k]
    requires Incremented(s.proposals[vk.proposal].candidates, Elems(Ids(v.candidates)), t.proposals[vk.proposal].candidates)
    ensures TalliesMatchVotes(t)
  {
    forall k, i | k in t.proposals && 0 <= i < |t.proposals[k].candidates|
      ensures t.proposals[k].candidates[i].vote_count == |Backers(t.votes, k, t.proposals[k].candidates[i].id)|
    {
      var id := t.proposals[k].candidates[i].id;
      if k == vk.proposal {
        BackersHere(s.votes, vk, v, id);
        assert id == s.proposals[k].candidates[i].id;
      } else {
        BackersElsewhere(s.votes, vk, v, k, id);
      }
    }
  }

  /**
   * Exactly-once creation: after a successful creation, any second creation by
   * the same proposer with the same title fails, whatever its other
   * arguments, and leaves the existing record as it was.
   */
  lemma CreationIsExactlyOnce(
    s: Store, proposer: Pubkey, bump: u8, title: string, description: string,
    candidateIds: seq<string>, openFrom: i64, finishedFrom: i64, now: i64,
    bump2: u8, description2: string, candidateIds2: seq<string>, openFrom2: i64, finishedFrom2: i64, now2: i64)
    requires CreateProposal(s, proposer, bump, title, description, candidateIds, openFrom, finishedFrom, now).Ok?
    ensures var t := CreateProposal(s, proposer, bump, title, description, candidateIds, openFrom, finishedFrom, now).value;
      && CreateProposal(t, proposer, bump2, title, description2, candidateIds2, openFrom2, finishedFrom2, now2)
         == Err(AccountAlreadyInUse)
      && Commit(t, CreateProposal(t, proposer, bump2, title, description2, candidateIds2, openFrom2, finishedFrom2, now2)) == t
  {
  }

  /**
   * Exactly-once voting: after a successful vote, the same voter's second vote
   * on the same proposal fails whatever ids, bump or time it carries, and
   * changes nothing.
   */
  lemma VotingIsExactlyOnce(
    variant: Variant, s: Store, voter: Pubkey, proposal: ProposalKey, bump: u8,
    candidateIds: seq<string>, now: i64,
    bump2: u8, candidateIds2: seq<string>, now2: i64)
    requires CanTally(s, voter, proposal)
    requires CastVote(variant, s, voter, proposal, bump, candidateIds, now).Ok?
    ensures var t := CastVote(variant, s, voter, proposal, bump, candidateIds, now).value;
      && CanTally(t, voter, proposal)
      && CastVote(variant, t, voter, proposal, bump2, candidateIds2, now2) == Err(AccountAlreadyInUse)
      && Commit(t, CastVote(variant, t, voter, proposal, bump2, candidateIds2, now2)) == t
  {
  }

  /** Outside the window a vote fails with `ProposalClosed`, whatever the ballot holds. */
  lemma ClosedProposalRejectsVotes(
    variant: Variant, s: Store, voter: Pubkey, proposal: ProposalKey, bump: u8,
    candidateIds: seq<string>, now: i64)
    requires CanTally(s, voter, proposal)
    requires proposal in s.proposals && VoteKey(voter, proposal) !in s.votes
    requires now < s.proposals[proposal].proposal_open_from || s.proposals[proposal].proposal_finished_from < now
    ensures CastVote(variant, s, voter, proposal, bump, candidateIds, now) == Err(Program(ProposalClosed))
  {
  }

  /**
   * What `t` keeps of `s`: no account disappears, vote accounts never change,
   * and a proposal keeps every field except its counters, which never decrease.
   */
  predicate Extends(s: Store, t: Store) {
    && s.proposals.Keys <= t.proposals.Keys
    && s.votes.Keys <= t.votes.Keys
    && (forall vk :: vk in s.votes ==> t.votes[vk] == s.votes[vk])
    && (forall k :: k in s.proposals ==> CountersGrew(s.proposals[k], t.proposals[k]))
  }

  /** `q` is `p` with counters no lower, everything else equal. */
  predicate CountersGrew(p: Proposal, q: Proposal) {
    && q == p.(candidates := q.candidates)
    && Ids(q.candidates) == Ids(p.candidates)
    && forall i :: 0 <= i < |p.candidates| ==> p.candidates[i].vote_count <= q.candidates[i].vote_count
  }

  lemma ExtendsTransitive(s: Store, t: Store, u: Store)
    requires Extends(s, t) && Extends(t, u)
    ensures Extends(s, u)
  {
    forall k | k in s.proposals ensures CountersGrew(s.proposals[k], u.proposals[k]) {
      assert CountersGrew(t.proposals[k], u.proposals[k]);
      assert |t.proposals[k].candidates| == |s.proposals[k].candidates| by {
        assert |Ids(t.proposals[k].candidates)| == |Ids(s.proposals[k].candidates)|;
      }
    }
  }

  /** One instruction of a transaction, with the clock reading it sees. */
  datatype Instruction =
    | CreateProposalIx(proposer: Pubkey, bump: u8, title: string, description: string,
                       candidateIds: seq<string>, openFrom: i64, finishedFrom: i64, now: i64)
    | CastVoteIx(voter: Pubkey, proposal: ProposalKey, bump: u8, candidateIds: seq<string>, now: i64)

  predicate CanExecute(s: Store, ix: Instruction) {
    ix.CastVoteIx? ==> CanTally(s, ix.voter, ix.proposal)
  }

  /** Runs one instruction and commits it. */
  function Step(variant: Variant, s: Store, ix: Instruction): Store
    requires CanExecute(s, ix)
  {
    match ix
    case CreateProposalIx(proposer, bump, title, description, candidateIds, openFrom, finishedFrom, now) =>
      Commit(s, CreateProposal(s, proposer, bump, title, description, candidateIds, openFrom, finishedFrom, now))
    case CastVoteIx(voter, proposal, bump, candidateIds, now) =>
      Commit(s, CastVote(variant, s, voter, proposal, bump, candidateIds, now))
  }

  /** No vote in `ixs` meets a counter already at `u64::MAX`. */
  predicate CanRun(variant: Variant, s: Store, ixs: seq<Instruction>)
    decreases |ixs|
  {
    |ixs| == 0 || (CanExecute(s, ixs[0]) && CanRun(variant, Step(variant, s, ixs[0]), ixs[1..]))
  }

  /** The store after a sequence of instructions, each committed or discarded on its own. */
  function Run(variant: Variant, s: Store, ixs: seq<Instruction>): Store
    requires CanRun(variant, s, ixs)
    decreases |ixs|
  {
    if |ixs| == 0 then s else Run(variant, Step(variant, s, ixs[0]), ixs[1..])
  }

  lemma StepKeepsValid(variant: Variant, s: Store, ix: Instruction)
    requires Valid(s) && CanExecute(s, ix)
    ensures Valid(Step(variant, s, ix))
    ensures Extends(s, Step(variant, s, ix))
  {
    match ix
    case CreateProposalIx(proposer, bump, title, description, candidateIds, openFrom, finishedFrom, now) =>
      CreateProposalKeepsValid(s, proposer, bump, title, description, candidateIds, openFrom, finishedFrom, now);
      CreateProposalExtends(s, proposer, bump, title, description, candidateIds, openFrom, finishedFrom, now);
    case CastVoteIx(voter, proposal, bump, candidateIds, now) =>
      CastVoteKeepsValid(variant, s, voter, proposal, bump, candidateIds, now);
      CastVoteExtends(variant, s, voter, proposal, bump, candidateIds, now);
  }

  lemma ExtendsReflexive(s: Store)
    ensures Extends(s, s)
  {
    forall k | k in s.proposals ensures CountersGrew(s.proposals[k], s.proposals[k]) {
    }
  }

  lemma CreateProposalExtends(
    s: Store, proposer: Pubkey, bump: u8, title: string, description: string,
    candidateIds: seq<string>, openFrom: i64, finishedFrom: i64, now: i64)
    ensures Extends(s, Commit(s, CreateProposal(s, proposer, bump, title, description, candidateIds, openFrom, finishedFrom, now)))
  {
    ExtendsReflexive(s);
  }

  lemma CastVoteExtends(
    variant: Variant, s: Store, voter: Pubkey, proposal: ProposalKey, bump: u8,
    candidateIds: seq<string>, now: i64)
    requires CanTally(s, voter, proposal)
    ensures Extends(s, Commit(s, CastVote(variant, s, voter, proposal, bump, candidateIds, now)))
  {
    ExtendsReflexive(s);
    var r := CastVote(variant, s, voter, proposal, bump, candidateIds, now);
    if r.Ok? {
      var p := s.proposals[proposal];
      var q := r.value.proposals[proposal];
      IncrementedKeepsIds(p.candidates, Elems(candidateIds), q.candidates);
      assert CountersGrew(p, q);
    }
  }

  /**
   * From any valid store, the empty ledger included (`EmptyStoreValid`), any
   * runnable sequence of instructions leaves a valid store:
   * every proposal well-formed, every vote account on an existing proposal
   * naming only its candidates, and every counter equal to the number of vote
   * accounts that name it. The store only ever grows, and counters never fall.
   */
  lemma {:induction false} RunKeepsValid(variant: Variant, s: Store, ixs: seq<Instruction>)
    requires Valid(s) && CanRun(variant, s, ixs)
    ensures Valid(Run(variant, s, ixs))
    ensures Extends(s, Run(variant, s, ixs))
    decreases |ixs|
  {
    if |ixs| > 0 {
      var t := Step(variant, s, ixs[0]);
      StepKeepsValid(variant, s, ixs[0]);
      RunKeepsValid(variant, t, ixs[1..]);
      ExtendsTransitive(s, t, Run(variant, t, ixs[1..]));
    } else {
      ExtendsReflexive(s);
    }
  }
}
