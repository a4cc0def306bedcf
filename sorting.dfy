/**
 * `sorted()` of a dictionary's keys: integers in ascending order, strings
 * in code-point lexicographic order, each without repetition.
 */
module Sorting {

  // ---------------------------------------------------------------------
  // Integers

  /** Strictly ascending, hence without repetition. */
  predicate Ascending(r: seq<int>) {
    forall i, j :: 0 <= i < j < |r| ==> r[i] < r[j]
  }

  /** Adds `x` to an ascending sequence, keeping it ascending. */
  function InsertInt(x: int, r: seq<int>): (q: seq<int>)
    requires Ascending(r)
    ensures Ascending(q)
    ensures forall y :: y in q <==> y == x || y in r
  {
    if r == [] then [x]
    else if x == r[0] then r
    else if x < r[0] then [x] + r
    else
      var rest := InsertInt(x, r[1..]);
      assert forall y :: y in r[1..] ==> r[0] < y;
      assert forall j :: 0 <= j < |rest| ==> r[0] < rest[j] by {
        forall j | 0 <= j < |rest| ensures r[0] < rest[j] {
          assert rest[j] in rest;
        }
      }
      [r[0]] + rest
  }

  /**
   * `sorted(keys)` for the integer keys of a dictionary filled from `xs`:
   * every key once, ascending.
   */
  function SortedInts(xs: seq<int>): (r: seq<int>)
    ensures Ascending(r)
    ensures forall x :: x in r <==> x in xs
  {
    if xs == [] then []
    else
      var r := InsertInt(xs[|xs| - 1], SortedInts(xs[..|xs| - 1]));
      assert forall x :: x in xs <==> x == xs[|xs| - 1] || x in xs[..|xs| - 1] by {
        assert xs == xs[..|xs| - 1] + [xs[|xs| - 1]];
      }
      r
  }

  /** The first of the sorted keys is the smallest, the last the largest. */
  lemma SortedIntsEnds(xs: seq<int>)
    requires xs != []
    ensures var r := SortedInts(xs);
      |r| > 0 && forall x :: x in xs ==> r[0] <= x <= r[|r| - 1]
  {
    var r := SortedInts(xs);
    assert xs[0] in r;
    forall x | x in xs ensures r[0] <= x <= r[|r| - 1] {
      assert x in r;
      var i :| 0 <= i < |r| && r[i] == x;
      assert i == 0 || r[0] < r[i];
      assert i == |r| - 1 || r[i] < r[|r| - 1];
    }
  }

  /** The smallest element of a non-empty sequence: `min(values)`. */
  function SeqMin(xs: seq<int>): (m: int)
    requires xs != []
    ensures m in xs && forall i :: 0 <= i < |xs| ==> m <= xs[i]
  {
    if |xs| == 1 then xs[0]
    else
      var m := SeqMin(xs[1..]);
      assert forall i :: 1 <= i < |xs| ==> xs[i] == xs[1..][i - 1];
      if xs[0] <= m then xs[0] else m
  }

  /** The largest element of a non-empty sequence: `max(values)`. */
  function SeqMax(xs: seq<int>): (m: int)
    requires xs != []
    ensures m in xs && forall i :: 0 <= i < |xs| ==> xs[i] <= m
  {
    if |xs| == 1 then xs[0]
    else
      var m := SeqMax(xs[1..]);
      assert forall i :: 1 <= i < |xs| ==> xs[i] == xs[1..][i - 1];
      if m <= xs[0] then xs[0] else m
  }

  // ---------------------------------------------------------------------
  // Strings

  /** Python's `a < b` on strings: code points compared left to right, a proper prefix first. */
  predicate StrLess(a: string, b: string)
    decreases |a|
  {
    b != [] && (a == [] || a[0] < b[0] || (a[0] == b[0] && StrLess(a[1..], b[1..])))
  }

  lemma {:induction false} StrLessIrreflexive(a: string)
    ensures !StrLess(a, a)
    decreases |a|
  {
    if a != [] {
      StrLessIrreflexive(a[1..]);
    }
  }

  lemma {:induction false} StrLessTransitive(a: string, b: string, c: string)
    requires StrLess(a, b) && StrLess(b, c)
    ensures StrLess(a, c)
    decreases |a|
  {
    if a != [] && a[0] == b[0] && b[0] == c[0] {
      StrLessTransitive(a[1..], b[1..], c[1..]);
    }
  }

  /** Two different strings are ordered one way or the other. */
  lemma {:induction false} StrLessTotal(a: string, b: string)
    requires a != b
    ensures StrLess(a, b) || StrLess(b, a)
    decreases |a|
  {
    if a != [] && b != [] && a[0] == b[0] {
      assert a == [a[0]] + a[1..] && b == [b[0]] + b[1..];
      StrLessTotal(a[1..], b[1..]);
    }
  }

  lemma StrLessAsymmetric(a: string, b: string)
    requires StrLess(a, b)
    ensures !StrLess(b, a)
  {
    if StrLess(b, a) {
      StrLessTransitive(a, b, a);
      StrLessIrreflexive(a);
    }
  }

  /** `m` comes before every other element of `s`. */
  predicate LeastOf(m: string, s: set<string>) {
    m in s && forall x :: x in s && x != m ==> StrLess(m, x)
  }

  lemma StrMinExists(s: set<string>)
    requires s != {}
    ensures exists m :: LeastOf(m, s)
    decreases |s|
  {
    var y :| y in s;
    if s == {y} {
      assert LeastOf(y, s);
    } else {
      StrMinExists(s - {y});
      var m :| LeastOf(m, s - {y});
      if StrLess(y, m) {
        forall x | x in s && x != y ensures StrLess(y, x) {
          if x != m { StrLessTransitive(y, m, x); }
        }
        assert LeastOf(y, s);
      } else {
        StrLessTotal(y, m);
        assert LeastOf(m, s);
      }
    }
  }

  lemma LeastUnique(m1: string, m2: string, s: set<string>)
    requires LeastOf(m1, s) && LeastOf(m2, s)
    ensures m1 == m2
  {
    if m1 != m2 {
      StrLessAsymmetric(m1, m2);
    }
  }

  /** The first of a non-empty set of strings. */
  function StrMin(s: set<string>): (m: string)
    requires s != {}
    ensures LeastOf(m, s)
  {
    StrMinExists(s);
    assert forall m1, m2 :: LeastOf(m1, s) && LeastOf(m2, s) ==> m1 == m2 by {
      forall m1, m2 | LeastOf(m1, s) && LeastOf(m2, s) ensures m1 == m2 {
        LeastUnique(m1, m2, s);
      }
    }
    var m :| LeastOf(m, s);
    m
  }

  /** `sorted(keys)` for string keys. */
  function SortedStrings(s: set<string>): (r: seq<string>)
    ensures forall x :: x in r <==> x in s
    ensures forall i, j :: 0 <= i < j < |r| ==> StrLess(r[i], r[j])
    decreases |s|
  {
    if s == {} then []
    else
      var m := StrMin(s);
      var rest := SortedStrings(s - {m});
      assert forall j :: 0 <= j < |rest| ==> StrLess(m, rest[j]) by {
        forall j | 0 <= j < |rest| ensures StrLess(m, rest[j]) {
          assert rest[j] in s - {m};
        }
      }
      [m] + rest
  }

  /** Sorted keys never repeat. */
  lemma SortedStringsDistinct(s: set<string>, r: seq<string>)
    requires r == SortedStrings(s)
    ensures forall i, j :: 0 <= i < j < |r| ==> r[i] != r[j]
  {
    forall i, j | 0 <= i < j < |r| ensures r[i] != r[j] {
      if r[i] == r[j] { StrLessIrreflexive(r[i]); }
    }
  }
}
