/**
 * The proposal form: adding a candidate from the input box, the reset after
 * submitting, and the conversion of the chosen finish date to seconds.
 * Whitespace trimming is a parameter.
 */
module CreateProposalForm {
  import opened Wrappers
  import opened Text
  import opened Errors
  import opened States
  import opened ProposalCreation

  /** The form fields; the finish date is the `datetime-local` text. */
  datatype FormData = FormData(title: string, description: string, candidateIds: seq<string>, proposalFinishedFrom: string)

  /** The form fields together with the separate candidate input box. */
  datatype Form = Form(data: FormData, candidateInput: string)

  /**
   * `addCandidate`: a trimmed input that is empty changes nothing, not even
   * the input box; otherwise the trimmed value is appended to the list and
   * the box is cleared. No check for an id already in the list.
   */
  function AddCandidate(f: Form, trim: string -> string): (r: Form)
    ensures trim(f.candidateInput) == "" ==> r == f
    ensures trim(f.candidateInput) != "" ==>
      && r.candidateInput == ""
      && |r.data.candidateIds| == |f.data.candidateIds| + 1
      && r.data.candidateIds[..|f.data.candidateIds|] == f.data.candidateIds
      && r.data.candidateIds[|f.data.candidateIds|..] == [trim(f.candidateInput)]
      && r.data == f.data.(candidateIds := r.data.candidateIds)
  {
    var v := trim(f.candidateInput);
    if v == "" then f
    else Form(f.data.(candidateIds := f.data.candidateIds + [v]), "")
  }

  /** No entry of the candidate list is empty. */
  predicate NoBlankIds(ids: seq<string>) {
    forall i :: 0 <= i < |ids| ==> ids[i] != ""
  }

  /** Adding candidates never puts an empty id into the list. */
  lemma AddCandidateKeepsNoBlank(f: Form, trim: string -> string)
    requires NoBlankIds(f.data.candidateIds)
    ensures NoBlankIds(AddCandidate(f, trim).data.candidateIds)
  {
    var r := AddCandidate(f, trim);
    if trim(f.candidateInput) != "" {
      assert r.data.candidateIds == f.data.candidateIds + [trim(f.candidateInput)];
    }
  }

  /**
   * Typing the same name twice lists it twice, and the program then rejects
   * the proposal with `DuplicateCandidates` (given title and description
   * that fit), whatever the time arguments.
   */
  lemma SameNameTwiceIsRejected(
    f: Form, typed: string, trim: string -> string, openFrom: i64, finishedFrom: i64, now: i64)
    requires f.data.candidateIds == [] && trim(typed) != ""
    requires TextFits(f.data.title, f.data.description)
    ensures var once := AddCandidate(f.(candidateInput := typed), trim);
      var twice := AddCandidate(once.(candidateInput := typed), trim);
      && twice.data.candidateIds == [trim(typed), trim(typed)]
      && Validate(twice.data.title, twice.data.description, twice.data.candidateIds, openFrom, finishedFrom, now)
         == Some(DuplicateCandidates)
  {
    var once := AddCandidate(f.(candidateInput := typed), trim);
    var twice := AddCandidate(once.(candidateInput := typed), trim);
    assert once.data.candidateIds == [trim(typed)];
    assert twice.data.candidateIds == [trim(typed), trim(typed)];
    assert twice.data.candidateIds[0] == twice.data.candidateIds[1];
  }

  /** Once the transaction call of a submit returns, title, description and list are emptied and the date is set back; the input box is left as it was. */
  function Reset(f: Form, defaultDateTime: string): (r: Form)
    ensures r.data.candidateIds == [] && r.data.title == "" && r.data.description == ""
    ensures r.data.proposalFinishedFrom == defaultDateTime
    ensures r.candidateInput == f.candidateInput
  {
    Form(FormData("", "", [], defaultDateTime), f.candidateInput)
  }

  /** `handleSubmit` goes on with an account and a signer; the fields are not checked. */
  predicate SubmitProceeds(hasAccount: bool, hasSigner: bool) {
    hasAccount && hasSigner
  }

  /**
   * A reset form sent as it stands gets past the submit guard, which looks
   * at no field, passes the text checks, and fails on the candidate count.
   */
  lemma ResetFormIsRejected(f: Form, defaultDateTime: string, openFrom: i64, finishedFrom: i64, now: i64)
    ensures SubmitProceeds(true, true)
    ensures var d := Reset(f, defaultDateTime).data;
      Validate(d.title, d.description, d.candidateIds, openFrom, finishedFrom, now) == Some(NotEnoughCandidates)
  {
    var d := Reset(f, defaultDateTime).data;
    assert Utf8Len(d.title) == 0 && Utf8Len(d.description) == 0;
  }

  /** `Math.floor(ms / 1000)`: the finish date in whole seconds, rounded down. */
  function FinishSeconds(ms: int): (sec: int)
    ensures sec * 1000 <= ms < sec * 1000 + 1000
  {
    ms / 1000
  }

  /** Rounding down loses the milliseconds only: whole seconds come back unchanged. */
  lemma FinishSecondsOfWholeSeconds(sec: int, extra: int)
    requires 0 <= extra < 1000
    ensures FinishSeconds(sec * 1000 + extra) == sec
  {
  }
}
