/**
 * The end-to-end test of the repository replayed on the ledger: the proposal
 * it creates and ballots cast on it. Title and description are parameters
 * that fit the bounds; `TestTextFits` shows the test's own strings do.
 */
module Scenarios {
  import opened Wrappers
  import opened Text
  import opened Errors
  import opened States
  import opened Tallying
  import opened ProposalCreation
  import opened VoteCasting
  import opened Ledger

  const TITLE: string := "Presidential election 2024"
  const DESCRIPTION: string := "Vote for your favorite candidates!"
  const CANDIDATES: seq<string> := ["John", "Barry", "Grok"]
  const DAY: int := 86400

  /**
   * The test's title is ASCII, so its byte length is its character count.
   * The string is passed in rather than named in the body, which keeps the
   * solver from unfolding the byte length over the literal eagerly.
   */
  lemma AsciiTitle(s: string)
    requires s == TITLE
    ensures Utf8Len(s) == 26
  {
    AsciiByteLength(s);
  }

  /** Likewise for the test's description. */
  lemma AsciiDescription(s: string)
    requires s == DESCRIPTION
    ensures Utf8Len(s) == 34
  {
    AsciiByteLength(s);
  }

  /** The test's title and description are within the length bounds. */
  lemma TestTextFits()
    ensures TextFits(TITLE, DESCRIPTION)
  {
    AsciiTitle(TITLE);
    AsciiDescription(DESCRIPTION);
  }

  /** The test's candidate names are pairwise different. */
  lemma DistinctNames()
    ensures Distinct(CANDIDATES)
  {
    assert "John"[0] != "Barry"[0] && "John"[0] != "Grok"[0] && "Barry"[0] != "Grok"[0];
  }

  /** The test's closing time and one second past it are still `i64` values. */
  predicate RoomForADay(now: i64) {
    now + DAY + 1 < 0x8000_0000_0000_0000
  }

  /** The proposal account the test expects after creation: open now, for one day, no votes. */
  function TestProposal(bob: Pubkey, bump: u8, title: string, description: string, now: i64): Proposal
    requires RoomForADay(now)
  {
    Proposal(title, description, [Candidate("John", 0), Candidate("Barry", 0), Candidate("Grok", 0)],
             now, now + DAY, bob, bump)
  }

  /**
   * The test computes its opening second `t` when it loads, before the
   * airdrop it waits for, and the cluster's clock `now` is read only when the
   * instruction runs. On an empty ledger the creation stores exactly
   * `TestProposal` when that clock has not passed `t`, and fails with
   * `InvalidProposalTime` once it has.
   */
  lemma CreateTestProposal(bob: Pubkey, bump: u8, title: string, description: string, t: i64, now: i64)
    requires TextFits(title, description) && RoomForADay(t)
    ensures now <= t ==>
      CreateProposal(EmptyStore, bob, bump, title, description, CANDIDATES, t, t + DAY, now)
      == Ok(Store(map[ProposalKey(bob, title) := TestProposal(bob, bump, title, description, t)], map[]))
    ensures t < now ==>
      CreateProposal(EmptyStore, bob, bump, title, description, CANDIDATES, t, t + DAY, now)
      == Err(Program(InvalidProposalTime))
  {
    DistinctNames();
    var r := CreateProposal(EmptyStore, bob, bump, title, description, CANDIDATES, t, t + DAY, now);
    if now <= t {
      assert r.Ok?;
      var p := r.value.proposals[ProposalKey(bob, title)];
      assert Ids(p.candidates) == CANDIDATES;
      assert p.candidates == [Candidate("John", 0), Candidate("Barry", 0), Candidate("Grok", 0)];
    }
  }

  /**
   * Voting for "John" alone: the code as written fails with
   * `InvalidCandidateId` at "Barry"; the corrected loop counts the ballot.
   */
  lemma SingleChoiceOnTestProposal(bob: Pubkey, alice: Pubkey, bump: u8, title: string, description: string, now: i64)
    requires RoomForADay(now)
    ensures var s := Store(map[ProposalKey(bob, title) := TestProposal(bob, bump, title, description, now)], map[]);
      && CastVote(AsWritten, s, alice, ProposalKey(bob, title), bump, ["John"], now) == Err(Program(InvalidCandidateId))
      && CastVote(Intended, s, alice, ProposalKey(bob, title), bump, ["John"], now).Ok?
      && CastVote(Intended, s, alice, ProposalKey(bob, title), bump, ["John"], now).value.proposals[ProposalKey(bob, title)].candidates
         == [Candidate("John", 1), Candidate("Barry", 0), Candidate("Grok", 0)]
  {
    var key := ProposalKey(bob, title);
    var p := TestProposal(bob, bump, title, description, now);
    var s := Store(map[key := p], map[]);
    assert ValidateBallot(p, ["John"], now) == None;
    assert Elems(["John"]) == {"John"};
    SingleChoiceBallot();
    assert CastVoteHandler(AsWritten, p, key, alice, bump, ["John"], now) == Err(InvalidCandidateId);
    assert Elems(["John"]) <= Elems(Ids(p.candidates)) by {
      assert Ids(p.candidates)[0] == "John";
    }
    var q := CastVote(Intended, s, alice, key, bump, ["John"], now).value.proposals[key].candidates;
    assert Incremented(p.candidates, {"John"}, q);
    assert "Barry" != "John" by { assert "Barry"[0] != "John"[0]; }
    assert "Grok" != "John" by { assert "Grok"[0] != "John"[0]; }
    assert q[0] == Candidate("John", 1);
    assert q[1] == Candidate("Barry", 0);
    assert q[2] == Candidate("Grok", 0);
    assert q == [Candidate("John", 1), Candidate("Barry", 0), Candidate("Grok", 0)];
  }

  /** The reordered ballot names the same set as the candidate list. */
  lemma SameNames(ids: seq<string>)
    requires ids == ["John", "Barry", "Grok"]
    ensures Elems(["Grok", "John", "Barry"]) == Elems(ids)
  {
    var a := ["Grok", "John", "Barry"];
    assert a[0] == ids[2] && a[1] == ids[0] && a[2] == ids[1];
    forall x | x in Elems(a) ensures x in Elems(ids) {
      var i :| 0 <= i < 3 && a[i] == x;
    }
    forall x | x in Elems(ids) ensures x in Elems(a) {
      var i :| 0 <= i < 3 && ids[i] == x;
    }
  }

  /** A ballot naming all three candidates is accepted by the code as written. */
  lemma FullBallotAccepted(bob: Pubkey, alice: Pubkey, bump: u8, title: string, description: string, now: i64)
    requires TextFits(title, description) && RoomForADay(now)
    ensures CastVoteHandler(AsWritten, TestProposal(bob, bump, title, description, now), ProposalKey(bob, title),
      alice, bump, ["Grok", "John", "Barry"], now).Ok?
  {
    var p := TestProposal(bob, bump, title, description, now);
    var all := ["Grok", "John", "Barry"];
    DistinctNames();
    assert Ids(p.candidates) == CANDIDATES;
    SameNames(Ids(p.candidates));
    assert Distinct(all) by { DistinctReordered(); }
    AsWrittenVoteNeedsWholeSet(p, ProposalKey(bob, title), alice, bump, all, now);
  }

  /** The reordered ballot has no repeated name. */
  lemma DistinctReordered()
    ensures Distinct(["Grok", "John", "Barry"])
  {
    assert "John"[0] != "Barry"[0] && "John"[0] != "Grok"[0] && "Barry"[0] != "Grok"[0];
  }

  /** The vote record of the full ballot lists the ids in key order, bump 0. */
  lemma FullBallotRecord(alice: Pubkey, key: ProposalKey, bump: u8)
    ensures Distinct(["Grok", "John", "Barry"])
    ensures VoteRecord(AsWritten, key, alice, bump, ["Grok", "John", "Barry"])
      == Vote(key, alice, [Candidate("Barry", 0), Candidate("Grok", 0), Candidate("John", 0)], 0)
  {
    DistinctReordered();
    var v := VoteRecord(AsWritten, key, alice, bump, ["Grok", "John", "Barry"]);
    BallotOrder(v.candidates);
  }

  /** The full ballot adds one to every candidate. */
  lemma FullBallotCounts(cands: seq<Candidate>, updated: seq<Candidate>)
    requires cands == [Candidate("John", 0), Candidate("Barry", 0), Candidate("Grok", 0)]
    requires Incremented(cands, Elems(["Grok", "John", "Barry"]), updated)
    ensures updated == [Candidate("John", 1), Candidate("Barry", 1), Candidate("Grok", 1)]
  {
    var all := ["Grok", "John", "Barry"];
    assert "John" in Elems(all) && "Barry" in Elems(all) && "Grok" in Elems(all) by {
      assert all[0] == "Grok" && all[1] == "John" && all[2] == "Barry";
    }
    assert updated[0] == Candidate("John", 1);
    assert updated[1] == Candidate("Barry", 1);
    assert updated[2] == Candidate("Grok", 1);
  }

  /**
   * A ballot naming every candidate, out of order, is accepted as written:
   * each count becomes 1, and the vote record lists the ids in key order
   * with bump 0.
   */
  lemma FullBallotOnTestProposal(bob: Pubkey, alice: Pubkey, bump: u8, title: string, description: string, now: i64)
    requires TextFits(title, description) && RoomForADay(now)
    ensures var s := Store(map[ProposalKey(bob, title) := TestProposal(bob, bump, title, description, now)], map[]);
      var r := CastVote(AsWritten, s, alice, ProposalKey(bob, title), bump, ["Grok", "John", "Barry"], now);
      && r.Ok?
      && r.value.proposals[ProposalKey(bob, title)].candidates
         == [Candidate("John", 1), Candidate("Barry", 1), Candidate("Grok", 1)]
      && r.value.votes[VoteKey(alice, ProposalKey(bob, title))]
         == Vote(ProposalKey(bob, title), alice, [Candidate("Barry", 0), Candidate("Grok", 0), Candidate("John", 0)], 0)
  {
    var key := ProposalKey(bob, title);
    var p := TestProposal(bob, bump, title, description, now);
    var s := Store(map[key := p], map[]);
    var all := ["Grok", "John", "Barry"];
    FullBallotAccepted(bob, alice, bump, title, description, now);
    FullBallotRecord(alice, key, bump);
    var r := CastVote(AsWritten, s, alice, key, bump, all, now);
    FullBallotCounts(p.candidates, r.value.proposals[key].candidates);
  }

  /** One second after the finishing time, every ballot fails with `ProposalClosed`. */
  lemma LateBallotOnTestProposal(bob: Pubkey, alice: Pubkey, bump: u8, title: string, description: string, now: i64, ids: seq<string>)
    requires RoomForADay(now)
    ensures var s := Store(map[ProposalKey(bob, title) := TestProposal(bob, bump, title, description, now)], map[]);
      CastVote(AsWritten, s, alice, ProposalKey(bob, title), bump, ids, now + DAY + 1) == Err(Program(ProposalClosed))
  {
  }

  /** Three ascending ids that are Grok, John and Barry in some order are Barry, Grok, John. */
  lemma BallotOrder(cs: seq<Candidate>)
    requires |cs| == 3 && StrictlyAscending(Ids(cs))
    requires Elems(Ids(cs)) == Elems(["Grok", "John", "Barry"])
    requires forall i :: 0 <= i < |cs| ==> cs[i].vote_count == 0
    ensures cs == [Candidate("Barry", 0), Candidate("Grok", 0), Candidate("John", 0)]
  {
    var ids := Ids(cs);
    var a := ["Grok", "John", "Barry"];
    assert ids[0] in Elems(a) && ids[1] in Elems(a) && ids[2] in Elems(a);
    assert Less(ids[0], ids[1]) && Less(ids[1], ids[2]);
    assert Less("Barry", "Grok") by { assert "Barry"[0] < "Grok"[0]; }
    assert Less("Grok", "John") by { assert "Grok"[0] < "John"[0]; }
    LessTransitive(ids[0], ids[1], ids[2]);
    LessAsymmetric("Barry", "Grok");
    LessAsymmetric("Grok", "John");
    LessTransitive("Barry", "Grok", "John");
    LessAsymmetric("Barry", "John");
    LessIrreflexive(ids[0]);
    LessIrreflexive(ids[1]);
    LessIrreflexive(ids[2]);
    assert ids[0] == "Barry";
    assert ids[2] == "John";
    assert ids[1] == "Grok";
  }
}
