/** Sequence helpers for the list manipulations of the killer engine. */
module Seqs {

  /** `a` can be obtained from `b` by deleting elements, order kept. */
  ghost predicate IsSubsequence<T>(a: seq<T>, b: seq<T>)
    decreases |b|
  {
    |a| == 0 ||
    (|b| > 0 && ((a[0] == b[0] && IsSubsequence(a[1..], b[1..])) || IsSubsequence(a, b[1..])))
  }

  lemma {:induction false} SubsequenceReflexive<T>(s: seq<T>)
    ensures IsSubsequence(s, s)
    decreases |s|
  {
    if |s| > 0 {
      SubsequenceReflexive(s[1..]);
    }
  }

  lemma {:induction false} SubsequenceTransitive<T>(a: seq<T>, b: seq<T>, c: seq<T>)
    requires IsSubsequence(a, b) && IsSubsequence(b, c)
    ensures IsSubsequence(a, c)
    decreases |c|
  {
    if |a| == 0 {
    } else if |b| > 0 && a[0] == b[0] && IsSubsequence(a[1..], b[1..]) {
      if b[0] == c[0] && IsSubsequence(b[1..], c[1..]) {
        SubsequenceTransitive(a[1..], b[1..], c[1..]);
      } else {
        SubsequenceTransitive(a, b, c[1..]);
      }
    } else {
      if b[0] == c[0] && IsSubsequence(b[1..], c[1..]) {
        SubsequenceTransitive(a, b[1..], c[1..]);
      } else {
        SubsequenceTransitive(a, b, c[1..]);
      }
    }
  }

  /** The elements of `s` that `keep` accepts, in their original order
      (Python's loop that appends the accepted elements to a fresh list). */
  function Filter<T(!new)>(s: seq<T>, keep: T -> bool): (r: seq<T>)
    ensures IsSubsequence(r, s)
    ensures forall x :: x in r <==> x in s && keep(x)
    ensures forall x :: multiset(r)[x] == if keep(x) then multiset(s)[x] else 0
  {
    if |s| == 0 then []
    else
      var rest := Filter(s[1..], keep);
      assert s == [s[0]] + s[1..];
      if keep(s[0]) then [s[0]] + rest else rest
  }

  /** Filtering a second time with the same test removes nothing more. */
  lemma {:induction false} FilterIdempotent<T(!new)>(s: seq<T>, keep: T -> bool)
    ensures Filter(Filter(s, keep), keep) == Filter(s, keep)
    decreases |s|
  {
    if |s| > 0 {
      FilterIdempotent(s[1..], keep);
      if keep(s[0]) {
        var f := Filter(s, keep);
        assert f[0] == s[0] && f[1..] == Filter(s[1..], keep);
      }
    }
  }

  /** Two filters can be applied in either order. */
  lemma {:induction false} FilterCommute<T(!new)>(s: seq<T>, p: T -> bool, q: T -> bool)
    ensures Filter(Filter(s, p), q) == Filter(Filter(s, q), p)
    decreases |s|
  {
    if |s| > 0 {
      FilterCommute(s[1..], p, q);
      FilterCons(s, p);
      FilterCons(s, q);
      if p(s[0]) {
        FilterCons(Filter(s, p), q);
      }
      if q(s[0]) {
        FilterCons(Filter(s, q), p);
      }
    }
  }

  /** One step of Filter on a non-empty sequence. */
  lemma FilterCons<T(!new)>(s: seq<T>, keep: T -> bool)
    requires |s| > 0
    ensures Filter(s, keep) == (if keep(s[0]) then [s[0]] else []) + Filter(s[1..], keep)
  {
  }

  /** Filtering with a test every element passes changes nothing. */
  lemma {:induction false} FilterKeepsAll<T(!new)>(s: seq<T>, keep: T -> bool)
    requires forall x :: x in s ==> keep(x)
    ensures Filter(s, keep) == s
    decreases |s|
  {
    if |s| > 0 {
      FilterKeepsAll(s[1..], keep);
      FilterCons(s, keep);
      assert s == [s[0]] + s[1..];
    }
  }

  ghost predicate Distinct<T>(s: seq<T>) {
    forall i, j :: 0 <= i < j < |s| ==> s[i] != s[j]
  }

  function Sum(s: seq<int>): int {
    if |s| == 0 then 0 else s[0] + Sum(s[1..])
  }

  lemma {:induction false} SumAppend(s: seq<int>, d: int)
    ensures Sum(s + [d]) == Sum(s) + d
    decreases |s|
  {
    if |s| == 0 {
      assert s + [d] == [d];
    } else {
      assert (s + [d])[1..] == s[1..] + [d];
      SumAppend(s[1..], d);
    }
  }

  /** Position of the first occurrence of `v` in `s`. */
  function IndexOf<T(==)>(s: seq<T>, v: T): (i: nat)
    requires v in s
    ensures i < |s| && s[i] == v && v !in s[..i]
  {
    if s[0] == v then 0
    else
      var j := IndexOf(s[1..], v);
      assert s[..j + 1] == [s[0]] + s[1..][..j];
      j + 1
  }

  /** Python's `list.remove(v)`: drops the first occurrence of `v`. */
  function RemoveFirst<T(==)>(s: seq<T>, v: T): (r: seq<T>)
    requires v in s
    ensures |r| == |s| - 1
    ensures multiset(r) == multiset(s) - multiset{v}
  {
    var i := IndexOf(s, v);
    assert s == s[..i] + [v] + s[i + 1..];
    s[..i] + s[i + 1..]
  }

  /** How many times `x` occurs in `s`. */
  function Occurrences<T(==)>(s: seq<T>, x: T): nat {
    if |s| == 0 then 0 else (if s[0] == x then 1 else 0) + Occurrences(s[1..], x)
  }

  lemma {:induction false} OccurrencesAppend<T>(a: seq<T>, b: seq<T>, x: T)
    ensures Occurrences(a + b, x) == Occurrences(a, x) + Occurrences(b, x)
    decreases |a|
  {
    if |a| == 0 {
      assert a + b == b;
    } else {
      assert (a + b)[1..] == a[1..] + b;
      OccurrencesAppend(a[1..], b, x);
    }
  }

  lemma {:induction false} OccurrencesIsMultiplicity<T>(s: seq<T>, x: T)
    ensures Occurrences(s, x) == multiset(s)[x]
    decreases |s|
  {
    if |s| > 0 {
      OccurrencesIsMultiplicity(s[1..], x);
      assert s == [s[0]] + s[1..];
    }
  }
}
