/**
 * The proposal list's display logic: candidates ranked by vote count, the
 * crowned leader, the ranks, and the Active/Ended badge. Counts are taken
 * as exact integers.
 */
module ProposalList {
  import opened States
  import opened VoteCasting

  /** Vote counts never increase along `s`. */
  predicate ByVotesDescending(s: seq<Candidate>) {
    forall i, j :: 0 <= i < j < |s| ==> s[j].vote_count <= s[i].vote_count
  }

  /** The candidates of `s` that have exactly `n` votes, in their order in `s`. */
  function WithCount(s: seq<Candidate>, n: int): seq<Candidate> {
    if |s| == 0 then []
    else (if s[0].vote_count == n then [s[0]] else []) + WithCount(s[1..], n)
  }

  /** Unfolding `WithCount` once at the front. */
  lemma WithCountCons(x: Candidate, s: seq<Candidate>, n: int)
    ensures WithCount([x] + s, n) == (if x.vote_count == n then [x] else []) + WithCount(s, n)
  {
    assert ([x] + s)[1..] == s;
  }

  /** A candidate with at least the first count of a descending list can head it. */
  lemma ConsDescending(x: Candidate, s: seq<Candidate>)
    requires ByVotesDescending(s)
    requires |s| > 0 ==> s[0].vote_count <= x.vote_count
    ensures ByVotesDescending([x] + s)
  {
    var r := [x] + s;
    forall i, j | 0 <= i < j < |r| ensures r[j].vote_count <= r[i].vote_count {
      if i == 0 {
        assert r[j] == s[j - 1];
        assert s[j - 1].vote_count <= s[0].vote_count;
      }
    }
  }

  /** `r` is `s` with `x` placed among the candidates of its count, ahead of them. */
  ghost predicate InsertedByVotes(x: Candidate, s: seq<Candidate>, r: seq<Candidate>) {
    && ByVotesDescending(r)
    && multiset(r) == multiset(s) + multiset{x}
    && |r| == |s| + 1
    && forall n :: WithCount(r, n) == (if x.vote_count == n then [x] else []) + WithCount(s, n)
  }

  /** Putting `x` in front is an insertion when `x` has at least the first count. */
  lemma InsertAtFront(x: Candidate, s: seq<Candidate>)
    requires ByVotesDescending(s)
    requires |s| > 0 ==> s[0].vote_count <= x.vote_count
    ensures InsertedByVotes(x, s, [x] + s)
  {
    ConsDescending(x, s);
    forall n ensures WithCount([x] + s, n) == (if x.vote_count == n then [x] else []) + WithCount(s, n) {
      WithCountCons(x, s, n);
    }
  }

  /** Keeping a head with more votes than `x` in front of an insertion into the tail is an insertion. */
  lemma InsertBehindHead(x: Candidate, s: seq<Candidate>, rest: seq<Candidate>)
    requires ByVotesDescending(s) && |s| > 0 && x.vote_count < s[0].vote_count
    requires InsertedByVotes(x, s[1..], rest)
    ensures InsertedByVotes(x, s, [s[0]] + rest)
  {
    assert s == [s[0]] + s[1..];
    assert rest[0] in multiset(s[1..]) + multiset{x};
    assert rest[0] == x || rest[0] in s[1..];
    ConsDescending(s[0], rest);
    forall n ensures WithCount([s[0]] + rest, n) == (if x.vote_count == n then [x] else []) + WithCount(s, n) {
      WithCountCons(s[0], rest, n);
      WithCountCons(s[0], s[1..], n);
    }
  }

  /**
   * Places `x` into a descending list in front of the first candidate that
   * has no more votes than `x`, so ties keep `x` ahead of the later ones.
   */
  function InsertByVotes(x: Candidate, s: seq<Candidate>): (r: seq<Candidate>)
    requires ByVotesDescending(s)
    ensures InsertedByVotes(x, s, r)
  {
    if |s| == 0 || s[0].vote_count <= x.vote_count then
      InsertAtFront(x, s);
      [x] + s
    else
      var rest := InsertByVotes(x, s[1..]);
      InsertBehindHead(x, s, rest);
      [s[0]] + rest
  }

  /**
   * `getSortedCandidates`: an empty list stays empty; otherwise the
   * candidates ordered by vote count, highest first. The comparator
   * `b - a` with a stable sort keeps tied candidates in their on-chain order.
   */
  function SortByVotes(cs: seq<Candidate>): (r: seq<Candidate>)
    ensures |cs| == 0 ==> r == []
    ensures |r| == |cs|
    ensures multiset(r) == multiset(cs)
    ensures ByVotesDescending(r)
    ensures forall n :: WithCount(r, n) == WithCount(cs, n)
  {
    if |cs| == 0 then []
    else
      assert cs == [cs[0]] + cs[1..];
      assert forall n :: WithCount(cs, n) == (if cs[0].vote_count == n then [cs[0]] else []) + WithCount(cs[1..], n) by {
        forall n { WithCountCons(cs[0], cs[1..], n); }
      }
      InsertByVotes(cs[0], SortByVotes(cs[1..]))
  }

  /** The first candidate of a list holds one of the highest counts, and it heads the candidates with that count. */
  lemma HeadHasTopCount(s: seq<Candidate>)
    requires |s| > 0 && ByVotesDescending(s)
    ensures forall c :: c in s ==> c.vote_count <= s[0].vote_count
    ensures WithCount(s, s[0].vote_count) == [s[0]] + WithCount(s[1..], s[0].vote_count)
  {
    forall c | c in s ensures c.vote_count <= s[0].vote_count {
      var i :| 0 <= i < |s| && s[i] == c;
    }
  }

  lemma {:induction false} InWithCount(s: seq<Candidate>, n: int, c: Candidate)
    ensures c in WithCount(s, n) <==> c in s && c.vote_count == n
  {
    if |s| > 0 {
      InWithCount(s[1..], n, c);
      assert s == [s[0]] + s[1..];
    }
  }

  /**
   * A descending list is determined by its per-count sublists: two
   * descending lists that agree on every count's candidates, in order,
   * are equal. So `SortByVotes` is the one stable descending ordering.
   */
  lemma {:induction false} StableOrderIsUnique(a: seq<Candidate>, b: seq<Candidate>)
    requires ByVotesDescending(a) && ByVotesDescending(b)
    requires forall n :: WithCount(a, n) == WithCount(b, n)
    ensures a == b
  {
    if |a| > 0 {
      InWithCount(a, a[0].vote_count, a[0]);
    }
    if |b| > 0 {
      InWithCount(b, b[0].vote_count, b[0]);
    }
    if |a| > 0 && |b| > 0 {
      HeadHasTopCount(a);
      HeadHasTopCount(b);
      InWithCount(a, a[0].vote_count, a[0]);
      InWithCount(b, a[0].vote_count, a[0]);
      InWithCount(b, b[0].vote_count, b[0]);
      InWithCount(a, b[0].vote_count, b[0]);
      assert a[0].vote_count == b[0].vote_count;
      assert a[0] == WithCount(a, a[0].vote_count)[0] == WithCount(b, b[0].vote_count)[0] == b[0];
      assert a == [a[0]] + a[1..] && b == [b[0]] + b[1..];
      forall n ensures WithCount(a[1..], n) == WithCount(b[1..], n) {
        WithCountCons(a[0], a[1..], n);
        WithCountCons(b[0], b[1..], n);
        var front := if a[0].vote_count == n then [a[0]] else [];
        assert WithCount(a, n) == WithCount(b, n);
        assert WithCount(a[1..], n) == (front + WithCount(a[1..], n))[|front|..];
        assert WithCount(b[1..], n) == (front + WithCount(b[1..], n))[|front|..];
      }
      assert ByVotesDescending(a[1..]) && ByVotesDescending(b[1..]);
      StableOrderIsUnique(a[1..], b[1..]);
      assert a == [a[0]] + a[1..] && b == [b[0]] + b[1..];
    }
  }

  /** Any stable descending ordering of the candidates is exactly the displayed one. */
  lemma SortIsTheStableOrder(cs: seq<Candidate>, r: seq<Candidate>)
    requires ByVotesDescending(r) && forall n :: WithCount(r, n) == WithCount(cs, n)
    ensures r == SortByVotes(cs)
  {
    StableOrderIsUnique(r, SortByVotes(cs));
  }

  /** `hasVotes`: some candidate has at least one vote. */
  predicate HasVotes(s: seq<Candidate>) {
    exists i :: 0 <= i < |s| && s[i].vote_count > 0
  }

  /**
   * `isWinner` for the row at `i` of the sorted list: the first row, when
   * some vote was cast and the second row has fewer votes. With a single
   * candidate there is no second row and the comparison is false.
   */
  predicate IsWinner(s: seq<Candidate>, i: int) {
    i == 0 && HasVotes(s) && |s| > 1 && s[1].vote_count < s[0].vote_count
  }

  /** `c` is among `cs`, has a vote, and every other entry has strictly fewer votes. */
  predicate StrictLeader(cs: seq<Candidate>, c: Candidate) {
    && c in multiset(cs)
    && c.vote_count > 0
    && forall d :: d in multiset(cs) - multiset{c} ==> d.vote_count < c.vote_count
  }

  /** In a descending list, a strict leader can only be the first entry. */
  lemma LeaderIsHead(s: seq<Candidate>, c: Candidate)
    requires ByVotesDescending(s) && StrictLeader(s, c)
    ensures |s| > 0 && c == s[0]
  {
    HeadHasTopCount(s);
  }

  /** The first entry of a descending list of two or more leads strictly iff the second has fewer votes. */
  lemma HeadLeadsIffSecondBehind(s: seq<Candidate>)
    requires ByVotesDescending(s) && |s| >= 2
    ensures StrictLeader(s, s[0]) <==> s[1].vote_count < s[0].vote_count
  {
    assert s == [s[0]] + s[1..];
    assert multiset(s) - multiset{s[0]} == multiset(s[1..]);
    assert s[1] in multiset(s[1..]) by { assert s[1..][0] == s[1]; }
    if s[1].vote_count < s[0].vote_count {
      forall d | d in multiset(s[1..]) ensures d.vote_count < s[0].vote_count {
        var k :| 0 <= k < |s[1..]| && s[1..][k] == d;
        assert s[k + 1].vote_count <= s[1].vote_count;
      }
    }
  }

  /**
   * The crown goes to row 0 exactly when the list has at least two
   * candidates and one of them strictly leads; that leader is row 0. A tie
   * at the top, a list of one, or a list without votes shows no winner.
   */
  lemma WinnerIsStrictLeader(cs: seq<Candidate>, i: int)
    ensures var s := SortByVotes(cs);
      IsWinner(s, i) <==> i == 0 && |cs| >= 2 && exists c :: StrictLeader(cs, c)
    ensures var s := SortByVotes(cs);
      forall c :: StrictLeader(cs, c) ==> c == s[0]
  {
    var s := SortByVotes(cs);
    assert forall c :: StrictLeader(cs, c) <==> StrictLeader(s, c);
    forall c | StrictLeader(cs, c) ensures c == s[0] {
      LeaderIsHead(s, c);
    }
    if |s| >= 2 {
      HeadLeadsIffSecondBehind(s);
      if exists c :: StrictLeader(cs, c) {
        var c :| StrictLeader(cs, c);
        LeaderIsHead(s, c);
      }
      if s[1].vote_count < s[0].vote_count {
        HasVotesIsImplied(s);
      }
    }
  }

  /** The `hasVotes` test adds nothing: a strictly larger first count is positive. */
  lemma HasVotesIsImplied(s: seq<Candidate>)
    requires |s| > 1 && s[1].vote_count < s[0].vote_count
    ensures HasVotes(s)
  {
    assert s[0].vote_count > 0;
  }

  /** A single candidate is never crowned, whatever its count. */
  lemma SingleCandidateNeverWins(c: Candidate)
    ensures !IsWinner(SortByVotes([c]), 0)
  {
    assert |SortByVotes([c])| == 1;
  }

  /** One displayed row: its rank, the candidate, whether it is crowned. */
  datatype Row = Row(rank: nat, candidate: Candidate, winner: bool)

  /** The rows rendered for a proposal's candidates. */
  function Rows(cs: seq<Candidate>): (rows: seq<Row>)
    ensures var s := SortByVotes(cs);
      && |rows| == |cs|
      && (forall i :: 0 <= i < |rows| ==> rows[i].candidate == s[i] && rows[i].winner == IsWinner(s, i))
  {
    var s := SortByVotes(cs);
    seq(|s|, i requires 0 <= i < |s| => Row(i + 1, s[i], IsWinner(s, i)))
  }

  /**
   * Ranks run 1, 2, ..., one per row, better ranks never have fewer votes,
   * and at most one row, the first, is crowned.
   */
  lemma RowsRankAndCrown(cs: seq<Candidate>)
    ensures var rows := Rows(cs);
      && (forall i :: 0 <= i < |rows| ==> rows[i].rank == i + 1)
      && (forall i, j :: 0 <= i < j < |rows| ==> rows[j].candidate.vote_count <= rows[i].candidate.vote_count)
      && (forall i :: 0 <= i < |rows| && rows[i].winner ==> i == 0)
  {
  }

  /** The vote-count label is singular exactly for one vote. */
  function VotesLabel(n: u64): (word: string)
    ensures word == "vote" <==> n == 1
    ensures n != 1 ==> word == "votes"
  {
    if n == 1 then "vote" else "votes"
  }

  /**
   * `isProposalActive`: the finishing second, read as milliseconds, is still
   * ahead of the local clock. Only the end of the window is consulted.
   */
  predicate IsProposalActive(finishedFrom: i64, nowMs: int) {
    finishedFrom * 1000 > nowMs
  }

  /**
   * Against the program's window, on one clock (`now` the second holding
   * `nowMs`): the badge says Active and the program refuses votes exactly
   * before the opening second; it says Ended while the program still
   * accepts them exactly during the finishing second.
   */
  lemma BadgeAgainstWindow(p: Proposal, now: i64, nowMs: int)
    requires now * 1000 <= nowMs < now * 1000 + 1000
    ensures IsProposalActive(p.proposal_finished_from, nowMs) && !IsOpen(p, now)
      <==> now < p.proposal_open_from && now < p.proposal_finished_from
    ensures !IsProposalActive(p.proposal_finished_from, nowMs) && IsOpen(p, now)
      <==> p.proposal_open_from <= now == p.proposal_finished_from
  {
  }
}
