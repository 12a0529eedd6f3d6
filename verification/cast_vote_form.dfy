/**
 * The vote form: the checkbox toggle over the chosen ids, the submit guard,
 * and which control the card shows.
 */
module CastVoteForm {
  import opened Wrappers
  import opened Text
  import opened Errors
  import opened States
  import opened Tallying
  import opened VoteCasting
  import opened ProposalList

  /** `filter(x => x !== id)`: every occurrence of `id` dropped, the rest in order. */
  function Without(sel: seq<string>, id: string): (r: seq<string>)
    ensures forall x :: x in r <==> x in sel && x != id
    ensures forall x :: x != id ==> multiset(r)[x] == multiset(sel)[x]
    ensures |r| <= |sel|
  {
    if |sel| == 0 then []
    else
      assert sel == [sel[0]] + sel[1..];
      if sel[0] == id then Without(sel[1..], id) else [sel[0]] + Without(sel[1..], id)
  }

  /** Filtering distributes over concatenation, so the survivors keep their relative order. */
  lemma {:induction false} WithoutConcat(a: seq<string>, b: seq<string>, id: string)
    ensures Without(a + b, id) == Without(a, id) + Without(b, id)
  {
    if |a| > 0 {
      assert (a + b)[0] == a[0];
      assert (a + b)[1..] == a[1..] + b;
      WithoutConcat(a[1..], b, id);
      if a[0] != id {
        assert Without(a + b, id) == [a[0]] + Without(a[1..] + b, id);
        assert Without(a, id) == [a[0]] + Without(a[1..], id);
        assert [a[0]] + (Without(a[1..], id) + Without(b, id)) == ([a[0]] + Without(a[1..], id)) + Without(b, id);
      }
    } else {
      assert a + b == b;
    }
  }

  /** Filtering out an id that does not occur changes nothing. */
  lemma {:induction false} WithoutAbsent(sel: seq<string>, id: string)
    requires id !in sel
    ensures Without(sel, id) == sel
  {
    if |sel| > 0 {
      WithoutAbsent(sel[1..], id);
    }
  }

  /** `handleCandidateToggle`: a chosen id is unchosen, an unchosen one is appended. */
  function Toggle(sel: seq<string>, id: string): (r: seq<string>)
    ensures id in sel ==> id !in r && forall x :: x != id ==> multiset(r)[x] == multiset(sel)[x]
    ensures id !in sel ==> r == sel + [id]
    ensures Elems(r) <= Elems(sel) + {id}
  {
    if id in sel then Without(sel, id) else sel + [id]
  }

  /**
   * In a duplicate-free selection, unchoosing the id at position `k` removes
   * exactly that position and leaves the others in order.
   */
  lemma ToggleRemovesPosition(sel: seq<string>, k: nat)
    requires Distinct(sel) && k < |sel|
    ensures Toggle(sel, sel[k]) == sel[..k] + sel[k + 1..]
  {
    var id := sel[k];
    assert sel == sel[..k] + [id] + sel[k + 1..];
    assert id !in sel[..k];
    assert id !in sel[k + 1..];
    WithoutConcat(sel[..k] + [id], sel[k + 1..], id);
    WithoutConcat(sel[..k], [id], id);
    WithoutAbsent(sel[..k], id);
    WithoutAbsent(sel[k + 1..], id);
    assert Without([id], id) == [];
  }

  /** Dropping one position of a repeat-free list leaves it repeat-free. */
  lemma DistinctDropOne(sel: seq<string>, k: nat)
    requires Distinct(sel) && k < |sel|
    ensures Distinct(sel[..k] + sel[k + 1..])
  {
    var r := sel[..k] + sel[k + 1..];
    assert forall i :: 0 <= i < k ==> r[i] == sel[i];
    assert forall i :: k <= i < |r| ==> r[i] == sel[i + 1];
  }

  /** Toggling keeps a selection free of repeats. */
  lemma ToggleKeepsDistinct(sel: seq<string>, id: string)
    requires Distinct(sel)
    ensures Distinct(Toggle(sel, id))
  {
    if id in sel {
      var k :| 0 <= k < |sel| && sel[k] == id;
      ToggleRemovesPosition(sel, k);
      DistinctDropOne(sel, k);
    }
  }

  /** Toggling an unchosen id twice gives back the selection. */
  lemma ToggleTwiceRestores(sel: seq<string>, id: string)
    requires id !in sel
    ensures Toggle(Toggle(sel, id), id) == sel
  {
    WithoutConcat(sel, [id], id);
    WithoutAbsent(sel, id);
    assert Without([id], id) == [];
  }

  /**
   * Toggling the same id twice keeps the set of chosen ids: an unchosen id
   * leaves the selection as it was, a chosen one comes back at the end.
   */
  lemma ToggleTwiceKeepsElems(sel: seq<string>, id: string)
    ensures Elems(Toggle(Toggle(sel, id), id)) == Elems(sel)
    ensures id !in sel ==> Toggle(Toggle(sel, id), id) == sel
  {
    if id !in sel {
      ToggleTwiceRestores(sel, id);
    } else {
      var w := Toggle(sel, id);
      assert Toggle(w, id) == w + [id];
      forall x | x in Elems(sel) ensures x in Elems(w + [id]) {
        if x != id {
          assert x in w;
          var j :| 0 <= j < |w| && w[j] == x;
          assert (w + [id])[j] == x;
        } else {
          assert (w + [id])[|w|] == id;
        }
      }
      forall x | x in Elems(w + [id]) ensures x in Elems(sel) {
        var j :| 0 <= j < |w + [id]| && (w + [id])[j] == x;
        if j < |w| {
          assert w[j] == x;
          assert x in w;
        }
      }
    }
  }

  /**
   * A click on the checkbox itself, as written: the one click runs both the
   * box's `onChange` and the row's `onClick`, each a functional toggle of the
   * same id, so their order does not matter. The set of chosen ids never
   * changes.
   */
  function BoxClickAsWritten(sel: seq<string>, id: string): (r: seq<string>)
    ensures Elems(r) == Elems(sel)
    ensures id in r <==> id in sel
    ensures id !in sel ==> r == sel
  {
    ToggleTwiceKeepsElems(sel, id);
    Toggle(Toggle(sel, id), id)
  }

  /** As written, a box click on a chosen id of a repeat-free selection moves it to the end. */
  lemma BoxClickMovesChosenToEnd(sel: seq<string>, k: nat)
    requires Distinct(sel) && k < |sel|
    ensures BoxClickAsWritten(sel, sel[k]) == sel[..k] + sel[k + 1..] + [sel[k]]
  {
    ToggleRemovesPosition(sel, k);
    var w := sel[..k] + sel[k + 1..];
    assert sel[k] !in Toggle(sel, sel[k]);
    assert Toggle(w, sel[k]) == w + [sel[k]];
  }

  /**
   * A box click with the bubbling stopped: one toggle, so the clicked id
   * flips and every other id stays as it was.
   */
  function BoxClick(sel: seq<string>, id: string): (r: seq<string>)
    ensures id in r <==> id !in sel
    ensures forall x :: x != id ==> (x in r <==> x in sel)
  {
    Toggle(sel, id)
  }

  /**
   * The selection reached by clicking the given ids in turn, from an empty
   * form: one toggle per click, as a click on a row's text gives (or a box
   * click with the bubbling stopped).
   */
  function Clicks(ids: seq<string>): (sel: seq<string>)
    ensures Distinct(sel)
    ensures Elems(sel) <= Elems(ids)
  {
    if |ids| == 0 then []
    else
      var before := Clicks(ids[..|ids| - 1]);
      var last := ids[|ids| - 1];
      ToggleKeepsDistinct(before, last);
      assert Elems(ids[..|ids| - 1]) <= Elems(ids) by {
        forall x | x in Elems(ids[..|ids| - 1]) ensures x in Elems(ids) {
          var i :| 0 <= i < |ids| - 1 && ids[..|ids| - 1][i] == x;
          assert ids[i] == x;
        }
      }
      assert last in Elems(ids);
      Toggle(before, last)
  }

  /** `handleSubmit` goes on only with an account, a signer and at least one chosen id. */
  predicate SubmitProceeds(hasAccount: bool, hasSigner: bool, sel: seq<string>) {
    hasAccount && hasSigner && |sel| != 0
  }

  /** The modal's submit button is disabled exactly when nothing is chosen. */
  predicate SubmitDisabled(sel: seq<string>) {
    |sel| == 0
  }

  /** With a wallet connected, submit goes on exactly when the button is enabled. */
  lemma GuardMatchesButton(sel: seq<string>)
    ensures SubmitProceeds(true, true, sel) <==> !SubmitDisabled(sel)
    ensures !SubmitProceeds(false, true, sel) && !SubmitProceeds(true, false, sel)
  {
  }

  /** What the card's vote area shows. */
  datatype VoteControl = VotingEnded | ConnectWallet | BallotModal

  /**
   * A disabled "Voting Ended" button once the finishing second has passed on
   * the local clock, else a disabled "Connect Wallet" button without account
   * or signer, else the ballot.
   */
  function Control(hasAccount: bool, hasSigner: bool, finishedFrom: i64, nowMs: int): (c: VoteControl)
    ensures c == VotingEnded <==> !IsProposalActive(finishedFrom, nowMs)
    ensures c == ConnectWallet <==> IsProposalActive(finishedFrom, nowMs) && !(hasAccount && hasSigner)
    ensures c == BallotModal <==> IsProposalActive(finishedFrom, nowMs) && hasAccount && hasSigner
  {
    if !hasAccount || !hasSigner || !IsProposalActive(finishedFrom, nowMs) then
      if !IsProposalActive(finishedFrom, nowMs) then VotingEnded else ConnectWallet
    else BallotModal
  }

  /** A repeat-free selection of a proposal's ids is no longer than its candidate list. */
  lemma SelectionFits(p: Proposal, sel: seq<string>)
    requires Distinct(sel) && Elems(sel) <= Elems(Ids(p.candidates))
    ensures |sel| <= |p.candidates|
  {
    DistinctIffSetSize(sel);
    DistinctIffSetSize(Ids(p.candidates));
    SubsetSize(Elems(sel), Elems(Ids(p.candidates)));
  }

  /** A selection clicked together from a proposal's ids names only its candidates, each once, and fits. */
  lemma ClickedBallotFits(p: Proposal, ids: seq<string>)
    requires forall i :: 0 <= i < |ids| ==> ids[i] in Ids(p.candidates)
    ensures Distinct(Clicks(ids)) && Elems(Clicks(ids)) <= Elems(Ids(p.candidates))
    ensures |Clicks(ids)| <= |p.candidates|
  {
    assert Elems(ids) <= Elems(Ids(p.candidates)) by {
      forall x | x in Elems(ids) ensures x in Elems(Ids(p.candidates)) {
        var i :| 0 <= i < |ids| && ids[i] == x;
      }
    }
    SelectionFits(p, Clicks(ids));
  }

  /**
   * A ballot built by clicking the proposal's own checkboxes and let through
   * by the submit guard never fails the count or duplicate checks: the
   * program refuses it only as closed, or, as written, for not naming every
   * candidate; the corrected rules accept it whenever voting is open.
   */
  lemma FormBallotPassesChecks(p: Proposal, proposal: ProposalKey, voter: Pubkey, bump: u8, ids: seq<string>, now: i64)
    requires CountersBelowMax(p.candidates)
    requires forall i :: 0 <= i < |ids| ==> ids[i] in Ids(p.candidates)
    requires SubmitProceeds(true, true, Clicks(ids))
    ensures ValidateBallot(p, Clicks(ids), now) == (if IsOpen(p, now) then None else Some(ProposalClosed))
    ensures CastVoteHandler(Intended, p, proposal, voter, bump, Clicks(ids), now).Ok? <==> IsOpen(p, now)
    ensures var r := CastVoteHandler(AsWritten, p, proposal, voter, bump, Clicks(ids), now);
      r.Err? ==> r.error in {ProposalClosed, InvalidCandidateId}
  {
    var sel := Clicks(ids);
    ClickedBallotFits(p, ids);
    assert BallotSizeFits(p, sel);
  }
}
