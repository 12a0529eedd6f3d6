/**
 * Text facts the program relies on: Rust's `String::len` (UTF-8 byte length),
 * the order of `String` keys in a `BTreeSet`/`BTreeMap`, and the distinctness
 * test that compares the size of such a collection with the input length.
 */
module Text {

  /** Bytes used by one Unicode scalar value in UTF-8. */
  function Utf8Width(c: char): (w: nat)
    ensures 1 <= w <= 4
    ensures w == 1 <==> (c as int) < 0x80
  {
    if (c as int) < 0x80 then 1
    else if (c as int) < 0x800 then 2
    else if (c as int) < 0x1_0000 then 3
    else 4
  }

  /** `String::len`: the length in bytes of the UTF-8 encoding of `s`. */
  function Utf8Len(s: string): (n: nat)
    ensures |s| <= n <= 4 * |s|
    ensures n == 0 <==> |s| == 0
  {
    if |s| == 0 then 0 else Utf8Width(s[0]) + Utf8Len(s[1..])
  }

  predicate IsAscii(s: string) {
    forall i :: 0 <= i < |s| ==> (s[i] as int) < 0x80
  }

  /** For ASCII text the byte length is the number of characters. */
  lemma {:induction false} AsciiByteLength(s: string)
    requires IsAscii(s)
    ensures Utf8Len(s) == |s|
  {
    if |s| > 0 {
      assert IsAscii(s[1..]) by {
        forall i | 0 <= i < |s[1..]| ensures (s[1..][i] as int) < 0x80 {
          assert s[1..][i] == s[i + 1];
        }
      }
      AsciiByteLength(s[1..]);
    }
  }

  /**
   * `Ord for String`: byte-wise lexicographic order of the UTF-8 encodings.
   * UTF-8 preserves the order of code points, so the order is computed on
   * characters: a proper prefix comes first, otherwise the first differing
   * character decides.
   */
  predicate Less(a: string, b: string)
    decreases |a|
  {
    if |a| == 0 then |b| > 0
    else if |b| == 0 then false
    else if a[0] != b[0] then a[0] < b[0]
    else Less(a[1..], b[1..])
  }

  predicate LessOrEqual(a: string, b: string) {
    a == b || Less(a, b)
  }

  lemma {:induction false} LessIrreflexive(a: string)
    ensures !Less(a, a)
  {
    if |a| > 0 {
      LessIrreflexive(a[1..]);
    }
  }

  lemma {:induction false} LessTransitive(a: string, b: string, c: string)
    requires Less(a, b) && Less(b, c)
    ensures Less(a, c)
    decreases |a|
  {
    if |a| > 0 && a[0] == b[0] && b[0] == c[0] {
      LessTransitive(a[1..], b[1..], c[1..]);
    }
  }

  lemma {:induction false} LessTotal(a: string, b: string)
    ensures a == b || Less(a, b) || Less(b, a)
    decreases |a|
  {
    if |a| > 0 && |b| > 0 && a[0] == b[0] {
      LessTotal(a[1..], b[1..]);
      if a[1..] == b[1..] {
        assert a == [a[0]] + a[1..] && b == [b[0]] + b[1..];
      }
    }
  }

  lemma {:induction false} LessAsymmetric(a: string, b: string)
    requires Less(a, b)
    ensures !Less(b, a)
  {
    if Less(b, a) {
      LessTransitive(a, b, a);
      LessIrreflexive(a);
    }
  }

  /** Every pair of positions holds different values. */
  predicate Distinct<T(==)>(s: seq<T>) {
    forall i, j :: 0 <= i < j < |s| ==> s[i] != s[j]
  }

  /** The values of `s` as a set: what collecting `s` into a `BTreeSet` (or the keys of a `BTreeMap`) keeps. */
  function Elems<T>(s: seq<T>): set<T> {
    set x | x in s
  }

  lemma {:induction false} ElemsCons<T>(s: seq<T>)
    requires |s| > 0
    ensures Elems(s) == {s[0]} + Elems(s[1..])
  {
    forall x | x in Elems(s) ensures x in {s[0]} + Elems(s[1..]) {
      var i :| 0 <= i < |s| && s[i] == x;
      if i > 0 {
        assert s[1..][i - 1] == x;
      }
    }
  }

  /**
   * The duplicate test of the program: collecting a list into an ordered
   * set keeps its length exactly when no value occurs twice.
   */
  lemma {:induction false} DistinctIffSetSize<T>(s: seq<T>)
    ensures |Elems(s)| <= |s|
    ensures Distinct(s) <==> |Elems(s)| == |s|
  {
    if |s| > 0 {
      var rest := s[1..];
      ElemsCons(s);
      DistinctIffSetSize(rest);
      if s[0] in rest {
        assert Elems(s) == Elems(rest);
        var k :| 0 <= k < |rest| && rest[k] == s[0];
        assert s[0] == s[k + 1];
        assert !Distinct(s);
      } else {
        assert s[0] !in Elems(rest);
        assert |Elems(s)| == 1 + |Elems(rest)|;
        if Distinct(s) {
          assert Distinct(rest) by {
            forall i, j | 0 <= i < j < |rest| ensures rest[i] != rest[j] {
              assert rest[i] == s[i + 1] && rest[j] == s[j + 1];
            }
          }
        }
        if Distinct(rest) {
          forall i, j | 0 <= i < j < |s| ensures s[i] != s[j] {
            if i == 0 {
              assert s[j] == rest[j - 1];
            } else {
              assert s[i] == rest[i - 1] && s[j] == rest[j - 1];
            }
          }
        }
      }
    }
  }

  /** A set contained in another and at least as large is the same set. */
  lemma SubsetOfEqualSize<T>(a: set<T>, b: set<T>)
    requires a <= b && |b| <= |a|
    ensures a == b
  {
    if a != b {
      var x :| x in b && x !in a;
      SubsetSize(a, b - {x});
    }
  }

  lemma {:induction false} SubsetSize<T>(a: set<T>, b: set<T>)
    requires a <= b
    ensures |a| <= |b|
    decreases a
  {
    if a != {} {
      var x :| x in a;
      SubsetSize(a - {x}, b - {x});
    }
  }

  /** Non-decreasing in the `String` order. */
  predicate Ascending(s: seq<string>) {
    forall i, j :: 0 <= i < j < |s| ==> LessOrEqual(s[i], s[j])
  }

  /** Strictly increasing in the `String` order. */
  predicate StrictlyAscending(s: seq<string>) {
    forall i, j :: 0 <= i < j < |s| ==> Less(s[i], s[j])
  }

  /** Places `x` before the first element it does not exceed. */
  function Insert(x: string, s: seq<string>): (r: seq<string>)
    requires Ascending(s)
    ensures multiset(r) == multiset(s) + multiset{x}
    ensures Ascending(r)
  {
    if |s| == 0 then [x]
    else if LessOrEqual(x, s[0]) then
      InsertFrontAscending(x, s);
      [x] + s
    else
      LessTotal(x, s[0]);
      var tail := Insert(x, s[1..]);
      InsertBehindAscending(x, s, tail);
      assert s == [s[0]] + s[1..];
      assert multiset([s[0]] + tail) == multiset{s[0]} + multiset(tail);
      [s[0]] + tail
  }

  lemma InsertFrontAscending(x: string, s: seq<string>)
    requires Ascending(s) && |s| > 0 && LessOrEqual(x, s[0])
    ensures Ascending([x] + s)
  {
    var r := [x] + s;
    forall i, j | 0 <= i < j < |r| ensures LessOrEqual(r[i], r[j]) {
      if i == 0 && j > 1 {
        assert LessOrEqual(s[0], s[j - 1]);
        if x != s[0] && s[0] != s[j - 1] {
          LessTransitive(x, s[0], s[j - 1]);
        }
      }
    }
  }

  lemma InsertBehindAscending(x: string, s: seq<string>, tail: seq<string>)
    requires Ascending(s) && |s| > 0 && Less(s[0], x)
    requires Ascending(tail)
    requires multiset(tail) == multiset(s[1..]) + multiset{x}
    ensures Ascending([s[0]] + tail)
  {
    var r := [s[0]] + tail;
    forall i, j | 0 <= i < j < |r| ensures LessOrEqual(r[i], r[j]) {
      if i == 0 {
        var y := tail[j - 1];
        assert y in multiset(tail);
        if y != x {
          assert y in multiset(s[1..]);
          var k :| 0 <= k < |s[1..]| && s[1..][k] == y;
          assert s[k + 1] == y;
        }
      } else {
        assert r[i] == tail[i - 1] && r[j] == tail[j - 1];
      }
    }
  }

  /** The iteration order of a `BTreeMap` built from `s`, when `s` has no duplicates. */
  function SortStrings(s: seq<string>): (r: seq<string>)
    ensures multiset(r) == multiset(s)
    ensures Ascending(r)
  {
    if |s| == 0 then []
    else
      assert s == [s[0]] + s[1..];
      Insert(s[0], SortStrings(s[1..]))
  }

  /** Two lists with the same multiset have the same elements and the same length. */
  lemma MultisetElems<T>(a: seq<T>, b: seq<T>)
    requires multiset(a) == multiset(b)
    ensures Elems(a) == Elems(b) && |a| == |b|
  {
    assert |multiset(a)| == |multiset(b)|;
    forall x | x in Elems(a) ensures x in Elems(b) {
      assert x in multiset(a);
    }
    forall x | x in Elems(b) ensures x in Elems(a) {
      assert x in multiset(b);
    }
  }

  /**
   * Sorting distinct keys yields a strictly increasing list of the same keys:
   * this is what `BTreeMap::into_values` produces for a duplicate-free input.
   */
  lemma {:induction false} SortDistinct(s: seq<string>)
    requires Distinct(s)
    ensures Elems(SortStrings(s)) == Elems(s)
    ensures |SortStrings(s)| == |s|
    ensures StrictlyAscending(SortStrings(s))
  {
    var r := SortStrings(s);
    MultisetElems(r, s);
    DistinctIffSetSize(s);
    DistinctIffSetSize(r);
    forall i, j | 0 <= i < j < |r| ensures Less(r[i], r[j]) {
      assert r[i] != r[j];
    }
  }
}
