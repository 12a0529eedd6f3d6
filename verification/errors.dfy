/** The program's error enum and the numbering Anchor's `#[error_code]` gives it. */
module Errors {
  import opened Wrappers
  import Text

  /** `VotingError`, variants in declaration order. */
  datatype VotingError =
    | TitleTooLong
    | DescriptionTooLong
    | TooManyCandidates
    | NotEnoughCandidates
    | CandidateIdTooLong
    | InvalidProposalTime
    | NotEnoughCandidateVotes
    | TooManyCandidateVotes
    | DuplicateCandidates
    | InvalidCandidateId
    | ProposalClosed

  /** Anchor numbers custom errors from this offset, in declaration order. */
  const ERROR_CODE_OFFSET: nat := 6000

  const VARIANT_COUNT: nat := 11

  /** Every variant, in declaration order. */
  const AllErrors: seq<VotingError> := [
    TitleTooLong, DescriptionTooLong, TooManyCandidates, NotEnoughCandidates,
    CandidateIdTooLong, InvalidProposalTime, NotEnoughCandidateVotes,
    TooManyCandidateVotes, DuplicateCandidates, InvalidCandidateId, ProposalClosed
  ]

  /** The numeric error code a client sees for `e`. */
  function Code(e: VotingError): (c: nat)
    ensures ERROR_CODE_OFFSET <= c < ERROR_CODE_OFFSET + VARIANT_COUNT
    ensures AllErrors[c - ERROR_CODE_OFFSET] == e
  {
    match e
    case TitleTooLong => 6000
    case DescriptionTooLong => 6001
    case TooManyCandidates => 6002
    case NotEnoughCandidates => 6003
    case CandidateIdTooLong => 6004
    case InvalidProposalTime => 6005
    case NotEnoughCandidateVotes => 6006
    case TooManyCandidateVotes => 6007
    case DuplicateCandidates => 6008
    case InvalidCandidateId => 6009
    case ProposalClosed => 6010
  }

  /** Decodes an error code back to its variant. */
  function FromCode(c: int): (r: Option<VotingError>)
    ensures r.Some? <==> ERROR_CODE_OFFSET <= c < ERROR_CODE_OFFSET + VARIANT_COUNT
  {
    if ERROR_CODE_OFFSET <= c < ERROR_CODE_OFFSET + VARIANT_COUNT
    then Some(AllErrors[c - ERROR_CODE_OFFSET])
    else None
  }

  /** The eleven variants are pairwise distinct, and codes identify them both ways. */
  lemma CodeRoundTrip(e: VotingError, c: int)
    ensures FromCode(Code(e)) == Some(e)
    ensures FromCode(c).Some? ==> Code(FromCode(c).value) == c
    ensures |AllErrors| == VARIANT_COUNT && Text.Distinct(AllErrors)
  {
  }

  /** Errors `create_proposal` can return. */
  predicate FromCreation(e: VotingError) {
    e in {TitleTooLong, DescriptionTooLong, NotEnoughCandidates, TooManyCandidates,
          DuplicateCandidates, InvalidProposalTime}
  }

  /** Errors `cast_vote` can return (after renaming its two undeclared variants). */
  predicate FromVoting(e: VotingError) {
    e in {ProposalClosed, NotEnoughCandidateVotes, TooManyCandidateVotes,
          DuplicateCandidates, InvalidCandidateId}
  }

  /**
   * Who raises what: `DuplicateCandidates` is the one variant both instructions
   * share, and `CandidateIdTooLong` is declared but raised by neither.
   */
  lemma ErrorOrigins(e: VotingError)
    ensures FromCreation(e) && FromVoting(e) <==> e == DuplicateCandidates
    ensures !FromCreation(e) && !FromVoting(e) <==> e == CandidateIdTooLong
  {
  }
}
