/**
 * The tally loop of `cast_vote`, as the code has it and as its error name and
 * the "select multiple candidates" ballot evidently intend it.
 */
module Tallying {
  import opened Wrappers
  import opened Text
  import opened Errors
  import opened States

  /**
   * Which behaviour of the vote instruction to model: the code as written, or
   * the corrected rules (subset ballots accepted, vote bump recorded).
   */
  datatype Variant = AsWritten | Intended

  /**
   * `updated` is `cands` with exactly one more vote on each candidate whose id
   * is in `chosen`: ids and order unchanged, every other counter unchanged.
   */
  predicate Incremented(cands: seq<Candidate>, chosen: set<string>, updated: seq<Candidate>) {
    && |updated| == |cands|
    && forall i :: 0 <= i < |cands| ==>
         && updated[i].id == cands[i].id
         && updated[i].vote_count == cands[i].vote_count + (if cands[i].id in chosen then 1 else 0)
  }

  /** An increment keeps the ids and their order, and lowers no counter. */
  lemma IncrementedKeepsIds(cands: seq<Candidate>, chosen: set<string>, updated: seq<Candidate>)
    requires Incremented(cands, chosen, updated)
    ensures Ids(updated) == Ids(cands)
    ensures forall i :: 0 <= i < |cands| ==> cands[i].vote_count <= updated[i].vote_count
  {
  }

  /**
   * The loop as written: it walks the proposal's candidates, adds a vote to
   * one whose id was chosen, and stops with `InvalidCandidateId` at the first
   * candidate that was not chosen.
   */
  function TallyAsWritten(cands: seq<Candidate>, chosen: set<string>): (r: Result<seq<Candidate>, VotingError>)
    requires CountersBelowMax(cands)
    ensures r.Ok? <==> forall i :: 0 <= i < |cands| ==> cands[i].id in chosen
    ensures r.Ok? ==> Incremented(cands, chosen, r.value)
    ensures r.Err? ==> r.error == InvalidCandidateId
  {
    if |cands| == 0 then Ok([])
    else if cands[0].id !in chosen then Err(InvalidCandidateId)
    else
      match TallyAsWritten(cands[1..], chosen)
      case Err(e) => Err(e)
      case Ok(rest) => Ok([Candidate(cands[0].id, cands[0].vote_count + 1)] + rest)
  }

  /**
   * The loop as intended: a chosen id that names no candidate is rejected;
   * otherwise each chosen candidate gets one more vote and the rest keep theirs.
   */
  function TallyIntended(cands: seq<Candidate>, chosen: set<string>): (r: Result<seq<Candidate>, VotingError>)
    requires CountersBelowMax(cands)
    ensures r.Ok? <==> chosen <= Elems(Ids(cands))
    ensures r.Ok? ==> Incremented(cands, chosen, r.value)
    ensures r.Err? ==> r.error == InvalidCandidateId
  {
    if !(chosen <= Elems(Ids(cands))) then Err(InvalidCandidateId)
    else
      Ok(seq(|cands|, i requires 0 <= i < |cands| =>
        Candidate(cands[i].id, cands[i].vote_count + (if cands[i].id in chosen then 1 else 0))))
  }

  function Tally(variant: Variant, cands: seq<Candidate>, chosen: set<string>): (r: Result<seq<Candidate>, VotingError>)
    requires CountersBelowMax(cands)
    ensures r.Ok? ==> Incremented(cands, chosen, r.value)
    ensures r.Err? ==> r.error == InvalidCandidateId
  {
    match variant
    case AsWritten => TallyAsWritten(cands, chosen)
    case Intended => TallyIntended(cands, chosen)
  }

  /**
   * Finding: with distinct candidate ids and a duplicate-free ballot no longer
   * than the candidate list (both already enforced when the loop runs), the
   * loop as written succeeds exactly when the ballot names every candidate.
   */
  lemma AsWrittenNeedsEveryCandidate(cands: seq<Candidate>, chosenIds: seq<string>)
    requires CountersBelowMax(cands)
    requires Distinct(Ids(cands)) && Distinct(chosenIds) && |chosenIds| <= |cands|
    ensures TallyAsWritten(cands, Elems(chosenIds)).Ok? <==> Elems(chosenIds) == Elems(Ids(cands))
  {
    var chosen := Elems(chosenIds);
    var all := Elems(Ids(cands));
    EveryIdChosen(cands, chosen);
    if all <= chosen {
      DistinctIffSetSize(Ids(cands));
      DistinctIffSetSize(chosenIds);
      SubsetOfEqualSize(all, chosen);
    }
  }

  /** The loop's success test, read as set inclusion. */
  lemma EveryIdChosen(cands: seq<Candidate>, chosen: set<string>)
    ensures (forall i :: 0 <= i < |cands| ==> cands[i].id in chosen) <==> Elems(Ids(cands)) <= chosen
  {
    var ids := Ids(cands);
    if forall i :: 0 <= i < |cands| ==> cands[i].id in chosen {
      forall x | x in Elems(ids) ensures x in chosen {
        var i :| 0 <= i < |ids| && ids[i] == x;
      }
    }
    if Elems(ids) <= chosen {
      forall i | 0 <= i < |cands| ensures cands[i].id in chosen {
        assert ids[i] in Elems(ids);
      }
    }
  }

  /** Finding, concretely: a ballot naming one of three candidates. */
  lemma SingleChoiceBallot()
    ensures TallyAsWritten(
      [Candidate("John", 0), Candidate("Barry", 0), Candidate("Grok", 0)], {"John"})
      == Err(InvalidCandidateId)
    ensures TallyIntended(
      [Candidate("John", 0), Candidate("Barry", 0), Candidate("Grok", 0)], {"John"})
      == Ok([Candidate("John", 1), Candidate("Barry", 0), Candidate("Grok", 0)])
  {
    var cands := [Candidate("John", 0), Candidate("Barry", 0), Candidate("Grok", 0)];
    assert "Barry" != "John" by { assert "Barry"[0] != "John"[0]; }
    assert "Grok" != "John" by { assert "Grok"[0] != "John"[0]; }
    assert "John" in Elems(Ids(cands)) by { assert Ids(cands)[0] == "John"; }
    var r := TallyIntended(cands, {"John"});
    assert r.Ok? && Incremented(cands, {"John"}, r.value);
    assert r.value[0] == Candidate("John", 1);
    assert r.value[1] == Candidate("Barry", 0);
    assert r.value[2] == Candidate("Grok", 0);
    assert r.value == [Candidate("John", 1), Candidate("Barry", 0), Candidate("Grok", 0)];
  }
}
