# Voting program — a Dafny model

This project models an Anchor (Solana) voting program and the pure logic of its web frontend.

The program has two instructions:

- `create_proposal` checks a title, a description, a list of candidate ids and a voting window. If every check passes, it writes a `Proposal` account whose address is derived from the proposer and the title.
- `cast_vote` checks the window, the ballot size and duplicate ids. It then adds one vote per chosen candidate and writes a `Vote` account whose address is derived from the voter and the proposal.

Anchor's `init` refuses an address that already holds an account. An instruction that fails leaves no write behind.

The frontend pieces modelled are:

- the ranking of candidates by votes, the crowned leader and the Active/Ended badge (`proposal-list.tsx`);
- the checkbox toggle and submit guard of the vote form (`cast-vote-form.tsx`);
- adding a candidate, resetting the form and converting the finish date in the proposal form (`create-proposal-form.tsx`).

## Layout

| file | module | contents |
|---|---|---|
| `wrappers.dfy` | `Wrappers` | `Option`, `Result` |
| `text.dfy` | `Text` | UTF-8 byte length (`String::len`); the `String` order used by `BTreeSet`/`BTreeMap`; distinctness as "set size equals length"; an insertion sort giving `BTreeMap` key order |
| `errors.dfy` | `Errors` | `VotingError`, Anchor's error codes (6000 + declaration index), and which instruction raises which variant |
| `states.dfy` | `States` | bounds, seed tags, `u8`/`u64`/`i64`, `Proposal`, `Vote`, `Candidate`, and the well-formedness predicates |
| `create_proposal.dfy` | `ProposalCreation` | the validation chain and the handler of `create_proposal` |
| `tally.dfy` | `Tallying` | the tally loop of `cast_vote`, both as written and corrected (see Findings) |
| `cast_vote.dfy` | `VoteCasting` | the checks, the vote record and the handler of `cast_vote` |
| `ledger.dfy` | `Ledger` | the account store, both instructions as all-or-nothing transitions, the store invariant, and runs of instructions |
| `proposal_list.dfy` | `ProposalList` | sorting by votes, the winner, ranks, the badge |
| `cast_vote_form.dfy` | `CastVoteForm` | toggle, submit guard, the card's vote control, and how a ballot from the form fares on chain |
| `create_proposal_form.dfy` | `CreateProposalForm` | add-candidate, reset, finish-date rounding |
| `scenarios.dfy` | `Scenarios` | the repository's end-to-end test (title "Presidential election 2024", candidates John, Barry, Grok) replayed on the ledger, plus ballots on its proposal |

### Modelling choices

- **Addresses.** A program-derived address is represented by its seed material. A proposal is keyed by `ProposalKey(proposer, title)` and a vote by `VoteKey(voter, proposalKey)`. Derivation is treated as injective. The seed tags differ (`States.BoundsAndSeeds`), so the two key spaces cannot meet.
- **Two behaviours.** `Tallying.Variant` selects the behaviour of `cast_vote`:
  - `AsWritten`: the code as it stands;
  - `Intended`: the corrected tally loop, and the vote's bump recorded.

  The ledger invariants are proved for both.
- **Clocks and the bump as inputs.** `Clock::get()` and the bump found by Anchor are inputs (`now`, `bump`). The frontend's `new Date()` is an input in milliseconds (`nowMs`).
- **Lengths.** `String::len` is the UTF-8 byte length, `Text.Utf8Len`. The title bound therefore counts bytes, not characters (`ProposalCreation.TitleBoundCountsBytes`).
- **Names in the source that do not match.**
  - `create_proposal.rs` uses `PROPOSAL_TITLE_LENGTH` and `PROPOSAL_DESCRIPTION_LENGTH`. These are read as `states.rs`'s `PROPOSAL_MAX_TITLE_LENGTH` (100) and `PROPOSAL_MAX_DESCRIPTION_LENGTH` (600).
  - `cast_vote.rs` raises `NoVotesProvided` and `TooManyApprovals`, which `errors.rs` does not declare. They are read as `NotEnoughCandidateVotes` and `TooManyCandidateVotes`.
- **Arity.** The handler takes six parameters, including `proposal_open_from`, and the model follows the handler. The dispatcher in `programs/voting-program/src/lib.rs:16-31` forwards only five arguments. The repository's test passes five arguments plus the accounts context, among them an opening time (`tests/voting-program.ts:43`).
- **Time window.**
  - Creation accepts the window exactly when `now <= open_from < finished_from`. The source's third disjunct, `finished_from < now`, is implied by the other two.
  - Voting is accepted from `open_from` through `finished_from`, both inclusive.
  - The frontend badge and vote form look only at `finished_from * 1000 > nowMs`. `ProposalList.BadgeAgainstWindow` pins down the two disagreements: the badge shows Active before the window opens, and Ended during the finishing second, while the program still accepts votes.
- **Duplicates.** The duplicate tests compare the size of a `BTreeSet`/`BTreeMap` with the input length. `Text.DistinctIffSetSize` proves this is exactly "no two equal entries".

## Model

| member | source | states |
|---|---|---|
| Text.Utf8Len | programs/voting-program/src/instructions/create_proposal.rs:16-22 | the length the bounds are checked against is a byte count: at least the number of characters, at most four times it, and zero only for the empty string |
| Text.DistinctIffSetSize | programs/voting-program/src/instructions/create_proposal.rs:32-35 | collecting into a set never grows a list, and the sizes agree exactly when no two entries are equal (both directions) |
| Text.SortStrings | programs/voting-program/src/instructions/cast_vote.rs:29-33 | the key order of a `BTreeMap`: a permutation of the input, in ascending `String` order |
| Text.SortDistinct | programs/voting-program/src/instructions/cast_vote.rs:50 | for distinct ids, `into_values` order holds the same ids, as many, strictly ascending |
| Text.LessTotal | programs/voting-program/src/instructions/cast_vote.rs:29-33 | any two different strings are ordered one way, so the map order is defined for every ballot |
| Errors.Code | programs/voting-program/src/errors.rs:3-27 | each variant's code lies in 6000..6010 and is 6000 plus its position in declaration order |
| Errors.FromCode | programs/voting-program/src/errors.rs:3-27 | a code decodes exactly when it is one of the eleven assigned codes |
| Errors.CodeRoundTrip | programs/voting-program/src/errors.rs:3-27 | the eleven variants are pairwise distinct; encoding then decoding gives the variant back, and decoding then encoding gives the code back |
| Errors.ErrorOrigins | programs/voting-program/src/errors.rs:5-26 | `DuplicateCandidates` is the only variant both instructions raise, and `CandidateIdTooLong` is the only one neither raises |
| States.FreshCandidates | programs/voting-program/src/instructions/create_proposal.rs:47-50 | the new candidate list keeps the given ids in input order, each with zero votes |
| States.BoundsAndSeeds | programs/voting-program/src/states.rs:5-12 | 0 < 2 <= 12 for the candidate counts, 50 < 100 < 600 for the text bounds, and the two seed tags differ |
| ProposalCreation.Validate | programs/voting-program/src/instructions/create_proposal.rs:16-43 | checks run first-failure-wins: each error is returned iff its own check fails and all earlier ones pass, in the order title, description, too few / too many candidates, duplicates, window; success iff all pass; only creation errors appear |
| ProposalCreation.CreateProposalHandler | programs/voting-program/src/instructions/create_proposal.rs:45-54 | succeeds iff validation passes, else returns validation's error; a success stores the given title, description, times, proposer and bump, the ids in input order with zero votes, and is well-formed |
| ProposalCreation.TitleBoundCountsBytes | programs/voting-program/src/instructions/create_proposal.rs:16-22 | 101 ASCII characters and 34 three-byte characters are too long while 33 fit; empty title and description pass |
| Tallying.IncrementedKeepsIds | programs/voting-program/src/instructions/cast_vote.rs:39-48 | an update by the loop keeps ids and order and lowers no counter |
| Tallying.TallyAsWritten | programs/voting-program/src/instructions/cast_vote.rs:41-48 | the loop succeeds iff every proposal candidate was chosen, and then adds exactly one vote to each chosen candidate; any failure is `InvalidCandidateId` |
| Tallying.TallyIntended | programs/voting-program/src/instructions/cast_vote.rs:41-48 | corrected loop: succeeds iff every chosen id names a candidate, and then adds exactly one vote to each chosen candidate and none to the others |
| Tallying.Tally | programs/voting-program/src/instructions/cast_vote.rs:39-48 | either behaviour adds one vote per chosen candidate on success and fails only with `InvalidCandidateId` |
| Tallying.AsWrittenNeedsEveryCandidate | programs/voting-program/src/instructions/cast_vote.rs:20-48 | with distinct candidate ids and a duplicate-free ballot no longer than the list, the loop as written succeeds iff the ballot's ids are exactly the proposal's ids |
| Tallying.SingleChoiceBallot | programs/voting-program/src/instructions/cast_vote.rs:41-48 | on John, Barry, Grok, a ballot for John alone fails as written and gives John one vote once corrected |
| VoteCasting.ValidateBallot | programs/voting-program/src/instructions/cast_vote.rs:12-37 | first-failure-wins: closed iff outside the inclusive window; then empty ballot, then more ids than candidates, then duplicates; success iff all pass; only voting errors appear |
| VoteCasting.VoteRecord | programs/voting-program/src/instructions/cast_vote.rs:28-52 | the vote account holds the proposal and voter, and the chosen ids once each, strictly ascending, each with count 0; its bump is 0 as written and the found bump once corrected |
| VoteCasting.CastVoteHandler | programs/voting-program/src/instructions/cast_vote.rs:7-55 | a failed check is the error returned, and a failure other than `InvalidCandidateId` is the first failed check; a success changes only the counters, by one per chosen candidate, and writes `VoteRecord`; as written it succeeds iff the checks pass and the ballot names every candidate; corrected, iff the checks pass and every chosen id is a candidate |
| VoteCasting.AsWrittenVoteNeedsWholeSet | programs/voting-program/src/instructions/cast_vote.rs:12-48 | on a well-formed proposal a vote as written succeeds iff voting is open and the ballot names every candidate exactly once |
| Ledger.CreateProposal | programs/voting-program/src/instructions/create_proposal.rs:59-73 | a taken address fails with `AccountAlreadyInUse` before validation; otherwise it fails with validation's error or adds exactly the handler's record, leaving every other account as it was |
| Ledger.CastVote | programs/voting-program/src/instructions/cast_vote.rs:57-76 | a missing proposal fails with `AccountNotInitialized`; an existing vote account fails with `AccountAlreadyInUse`; a success adds the vote record and changes only the counters of the voted proposal, by one per chosen candidate |
| Ledger.CreateProposalKeepsValid | programs/voting-program/src/instructions/create_proposal.rs:24-54 | creation keeps the store invariant: every proposal well-formed at its own key, every vote on an existing proposal, every counter equal to its number of backing vote accounts |
| Ledger.CastVoteKeepsValid | programs/voting-program/src/instructions/cast_vote.rs:39-52 | voting keeps the same invariant, in both behaviours |
| Ledger.AcceptedBallotNamesCandidates | programs/voting-program/src/instructions/cast_vote.rs:41-48 | an accepted ballot names only candidates of the proposal |
| Ledger.CreationIsExactlyOnce | programs/voting-program/src/instructions/create_proposal.rs:64-70 | after a creation, any second creation with the same proposer and title fails and changes nothing |
| Ledger.VotingIsExactlyOnce | programs/voting-program/src/instructions/cast_vote.rs:61-67 | after a vote, the same voter's second vote on that proposal fails with `AccountAlreadyInUse` whatever it carries and whatever the counters hold, and changes nothing |
| Ledger.ClosedProposalRejectsVotes | programs/voting-program/src/instructions/cast_vote.rs:12-14 | before opening or after finishing, a vote fails with `ProposalClosed` whatever the ballot holds |
| Ledger.CreateProposalExtends | programs/voting-program/src/instructions/create_proposal.rs:64-70 | creation removes and alters nothing already stored |
| Ledger.CastVoteExtends | programs/voting-program/src/instructions/cast_vote.rs:39-48 | voting removes nothing, never alters a vote account, and changes proposals only by raising counters |
| Ledger.StepKeepsValid | programs/voting-program/src/instructions/cast_vote.rs:39-52 | one instruction of either kind keeps the invariant and only extends the store |
| Ledger.RunKeepsValid | programs/voting-program/src/instructions/cast_vote.rs:39-52 | any sequence of instructions keeps the invariant, so counters always equal the number of vote accounts naming them, and the store only grows |
| ProposalList.InsertByVotes | frontend/src/components/voting-program/proposal-list.tsx:35 | inserting into a descending list keeps it descending, adds exactly that candidate, and puts it first among the candidates with its count |
| ProposalList.SortByVotes | frontend/src/components/voting-program/proposal-list.tsx:24-36 | an empty list sorts to empty; otherwise a permutation, counts non-increasing, ties in input order |
| ProposalList.StableOrderIsUnique | frontend/src/components/voting-program/proposal-list.tsx:35 | two descending lists with the same candidates in the same order within each count are equal |
| ProposalList.SortIsTheStableOrder | frontend/src/components/voting-program/proposal-list.tsx:30-35 | any descending, tie-preserving ordering of the candidates is the displayed one |
| ProposalList.WinnerIsStrictLeader | frontend/src/components/voting-program/proposal-list.tsx:102 | a row is crowned iff it is row 0, there are at least two candidates and one has votes and strictly more than every other; that candidate is row 0 |
| ProposalList.HasVotesIsImplied | frontend/src/components/voting-program/proposal-list.tsx:70 | the `hasVotes` conjunct never decides: a first count above the second is positive |
| ProposalList.SingleCandidateNeverWins | frontend/src/components/voting-program/proposal-list.tsx:102 | a list of one is never crowned, since the missing second entry makes the comparison false |
| ProposalList.Rows | frontend/src/components/voting-program/proposal-list.tsx:101-103 | one row per candidate, in sorted order, crowned as `isWinner` says |
| ProposalList.RowsRankAndCrown | frontend/src/components/voting-program/proposal-list.tsx:101-103 | ranks are index + 1, better ranks never have fewer votes, and only row 0 can be crowned |
| ProposalList.VotesLabel | frontend/src/components/voting-program/proposal-list.tsx:147 | the label is "vote" exactly for one vote, and "votes" for every other count |
| ProposalList.BadgeAgainstWindow | frontend/src/components/voting-program/proposal-list.tsx:71 | on one clock, Active while the program refuses iff before the opening second; Ended while the program accepts iff in the finishing second |
| CastVoteForm.Without | frontend/src/components/voting-program/cast-vote-form.tsx:26 | the filter drops every occurrence of the id and keeps every other id as often as before |
| CastVoteForm.WithoutConcat | frontend/src/components/voting-program/cast-vote-form.tsx:26 | the filter distributes over concatenation, so survivors keep their relative order |
| CastVoteForm.Toggle | frontend/src/components/voting-program/cast-vote-form.tsx:23-31 | a chosen id is removed and the others kept; an unchosen one is appended at the end |
| CastVoteForm.ToggleRemovesPosition | frontend/src/components/voting-program/cast-vote-form.tsx:25-26 | in a repeat-free selection, unchoosing removes exactly that position |
| CastVoteForm.ToggleKeepsDistinct | frontend/src/components/voting-program/cast-vote-form.tsx:23-31 | toggling keeps a selection repeat-free |
| CastVoteForm.ToggleTwiceRestores | frontend/src/components/voting-program/cast-vote-form.tsx:23-31 | toggling an unchosen id twice gives the selection back |
| CastVoteForm.ToggleTwiceKeepsElems | frontend/src/components/voting-program/cast-vote-form.tsx:23-31 | two toggles of one id keep the set of chosen ids; for an unchosen id they keep the selection itself |
| CastVoteForm.BoxClickAsWritten | frontend/src/components/voting-program/cast-vote-form.tsx:109-120 | one click on the checkbox runs both the box's `onChange` and the row's `onClick`, each a functional toggle of the same id, so their order does not matter: the clicked id is chosen afterwards iff it was before, and the set of chosen ids never changes |
| CastVoteForm.BoxClickMovesChosenToEnd | frontend/src/components/voting-program/cast-vote-form.tsx:109-120 | as written, a box click on a chosen id of a repeat-free selection moves it to the end |
| CastVoteForm.BoxClick | frontend/src/components/voting-program/cast-vote-form.tsx:23-31 | corrected: a box click flips the clicked id and leaves every other id as it was |
| CastVoteForm.Clicks | frontend/src/components/voting-program/cast-vote-form.tsx:108-113 | any sequence of row clicks (one toggle each) yields a repeat-free selection of clicked ids |
| CastVoteForm.GuardMatchesButton | frontend/src/components/voting-program/cast-vote-form.tsx:34 | with a wallet, submit goes on iff the button is enabled; without account or signer it never does |
| CastVoteForm.Control | frontend/src/components/voting-program/cast-vote-form.tsx:79-92 | "Voting Ended" iff the finish time has passed locally; "Connect Wallet" iff still active without account or signer; the ballot otherwise |
| CastVoteForm.ClickedBallotFits | frontend/src/components/voting-program/cast-vote-form.tsx:108-113 | a selection clicked from a proposal's rows names only its candidates, each once, and is no longer than its candidate list |
| CastVoteForm.FormBallotPassesChecks | frontend/src/components/voting-program/cast-vote-form.tsx:23-34 | a ballot clicked together from the proposal's ids and let through by the guard fails no count or duplicate check; corrected, it is accepted iff voting is open; as written, it can fail only as closed or `InvalidCandidateId` |
| CreateProposalForm.AddCandidate | frontend/src/components/voting-program/create-proposal-form.tsx:29-37 | a blank trimmed input changes nothing, not even the box; otherwise earlier entries stay, the trimmed value is appended and the box is cleared |
| CreateProposalForm.AddCandidateKeepsNoBlank | frontend/src/components/voting-program/create-proposal-form.tsx:30-35 | the candidate list never receives an empty id |
| CreateProposalForm.SameNameTwiceIsRejected | frontend/src/components/voting-program/create-proposal-form.tsx:32-35 | adding the same name twice lists it twice, and the program then returns `DuplicateCandidates` |
| CreateProposalForm.Reset | frontend/src/components/voting-program/create-proposal-form.tsx:67-72 | after a submit whose transaction call returns, title, description and list are empty, the date is the default, the candidate box is untouched |
| CreateProposalForm.ResetFormIsRejected | frontend/src/components/voting-program/create-proposal-form.tsx:39-72 | with a wallet the submit guard, which checks no field, lets a reset form through, and the program refuses it with `NotEnoughCandidates` |
| CreateProposalForm.FinishSeconds | frontend/src/components/voting-program/create-proposal-form.tsx:45-47 | the finish date in seconds is the milliseconds rounded down |
| CreateProposalForm.FinishSecondsOfWholeSeconds | frontend/src/components/voting-program/create-proposal-form.tsx:45-47 | rounding recovers the whole second from any of its milliseconds |
| Scenarios.TestTextFits | tests/voting-program.ts:19-20 | the test's title (26 bytes) and description (34 bytes) are within the bounds |
| Scenarios.CreateTestProposal | tests/voting-program.ts:22-51 | the test fixes its opening second `t` at load time; on an empty ledger the creation stores exactly what the test checks (John, Barry, Grok in order with zero votes) iff the cluster clock has not passed `t` when the instruction runs, and fails with `InvalidProposalTime` otherwise |
| Scenarios.SingleChoiceOnTestProposal | programs/voting-program/src/instructions/cast_vote.rs:41-48 | on the test's proposal a ballot for John alone fails with `InvalidCandidateId` as written and counts once corrected |
| Scenarios.FullBallotOnTestProposal | programs/voting-program/src/instructions/cast_vote.rs:39-52 | a ballot naming all three, out of order, is accepted: each count 1, record Barry, Grok, John with count 0 and bump 0 |
| Scenarios.FullBallotRecord | programs/voting-program/src/instructions/cast_vote.rs:50-52 | whatever bump is found for the vote address, the record written as the code stands has bump 0 |
| Scenarios.LateBallotOnTestProposal | programs/voting-program/src/instructions/cast_vote.rs:12-14 | one second after the finish time every ballot fails with `ProposalClosed` |

Predicates without a contract of their own are covered by the lemmas that name them:

- `VoteCasting.IsOpen` (`cast_vote.rs:12`) by `VoteCasting.ValidateBallot` and `Ledger.ClosedProposalRejectsVotes`;
- `ProposalList.HasVotes` and `ProposalList.IsWinner` (`proposal-list.tsx:70`, `:102`) by `ProposalList.WinnerIsStrictLeader` and `ProposalList.HasVotesIsImplied`;
- `ProposalList.IsProposalActive` (`proposal-list.tsx:71`, `cast-vote-form.tsx:16`) by `ProposalList.BadgeAgainstWindow` and `CastVoteForm.Control`;
- `CastVoteForm.SubmitProceeds` and `CastVoteForm.SubmitDisabled` (`cast-vote-form.tsx:34`, `:96`) by `CastVoteForm.GuardMatchesButton`;
- `CreateProposalForm.SubmitProceeds` (`create-proposal-form.tsx:41`) by `CreateProposalForm.ResetFormIsRejected`.

## Left out

- Ledger.CastVote: when the proposal exists and the voter has no vote account on it, requires every counter of the proposal to be below `u64::MAX`, even for ballots that fail a check before the loop. Whether `vote_count += 1` wraps or panics depends on the build's overflow-checks setting, which is not part of this model.
- Account space and serialization are not modelled. Anchor sizes an account once, from all the `max_len` bounds together. A candidate id over 50 bytes passes every check; the instruction fails at serialization only if the whole record outgrows that space (a long id beside a short title and description fits). The model accepts every such input, for the proposal and the vote account alike.
- Seed-length limits of address derivation are not modelled. The runtime limits each seed to 32 bytes, and the title is a seed, so any title over 32 bytes fails address derivation in the account checks, before the handler runs. The model treats any title as a key. `TitleTooLong`, and the title half of `Errors.ErrorOrigins`, are therefore reachable only in the model: the titles of 101 and more bytes in `ProposalCreation.TitleBoundCountsBytes` never reach the handler on chain.
- The Solana runtime beyond two rules is not modelled: "`init` fails on a taken address" and "an error discards writes". Rent, payer, signer and owner checks and the bump search are out. The bump is an input.
- `frontend/src/lib/pda.ts` is not part of this model. It derives the proposal address from a SHA-256 hash of the title, whereas the program's seeds use the raw title bytes (`create_proposal.rs:68`). The forms import their derivations from `@/lib/solana/pda` (`create-proposal-form.tsx:9`, `cast-vote-form.tsx:8`), which is a different module and not part of this model, so whether the forms' addresses match the program's is not established.
- The dispatcher `lib.rs` is not modelled; its arity mismatch is described above.
- RPC, transaction building and submission are not modelled: the vote-account lookup in `handleSubmit` (`cast-vote-form.tsx:39-48`), `processTransaction`, and the generated client. Only the pure guards are.
- `Number(bigint)` conversions and millisecond floats are not modelled. Counts and times are exact integers.
- `trim` is a parameter of `CreateProposalForm.AddCandidate`. JavaScript's whitespace rules are not modelled.
- The default finish date (`now + 10 days` as an ISO string) is an input; date parsing and formatting are not modelled.
- React state, rendering, styling and the modal are not modelled.

## Findings

| source | as written | input that shows it | evidently intended | confidence | as-written member | corrected member |
|---|---|---|---|---|---|---|
| programs/voting-program/src/instructions/cast_vote.rs:41-48 | the loop returns `InvalidCandidateId` for every proposal candidate that was not chosen, so only a ballot naming all candidates succeeds | candidates John, Barry, Grok; ballot `["John"]` | reject a chosen id that names no candidate; count chosen candidates and leave the others unchanged, so any non-empty subset is a valid ballot | not executed | Tallying.TallyAsWritten | Tallying.TallyIntended |
| programs/voting-program/src/instructions/cast_vote.rs:50-52 | `Vote.bump` is never assigned, so the freshly zeroed account keeps bump 0 | a vote whose address bump is, say, 254 | store the bump found for the vote address, as `create_proposal` does for the proposal | not executed | Scenarios.FullBallotRecord | VoteCasting.VoteRecord |
| frontend/src/components/voting-program/cast-vote-form.tsx:109-120 | one click on a checkbox runs both its `onChange` and the row's `onClick`; each queues the same functional toggle of that id, so, in whichever order they run, a box click never changes which ids are chosen (a chosen id only moves to the end) | an empty selection and a click on John's checkbox: John stays unchosen | one toggle per click, for instance by stopping the click's propagation at the checkbox | not executed | CastVoteForm.BoxClickAsWritten | CastVoteForm.BoxClick |
