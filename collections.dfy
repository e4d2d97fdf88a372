/**
 * Sequence helpers that stand for the JavaScript array idioms of the viewer:
 * `Array.prototype.filter`, and `[...new Set(xs)]`, which keeps the first
 * occurrence of every value in first-seen order.
 */
module Collections {

  /** No value occurs twice. */
  ghost predicate NoDup<T>(s: seq<T>)
  {
    forall i, j :: 0 <= i < j < |s| ==> s[i] != s[j]
  }

  /** Concatenation is associative. */
  lemma AppendAssoc<T>(a: seq<T>, b: seq<T>, c: seq<T>)
    ensures a + (b + c) == (a + b) + c
  {
  }

  /** `s.filter(p)`: the elements satisfying `p`, in their original order. */
  function Filter<T(!new)>(s: seq<T>, p: T -> bool): (r: seq<T>)
    ensures |r| <= |s|
  {
    if s == [] then []
    else (if p(s[0]) then [s[0]] else []) + Filter(s[1..], p)
  }

  /** `Filter` keeps exactly the elements that satisfy the test. */
  lemma {:induction false} FilterMembers<T(!new)>(s: seq<T>, p: T -> bool)
    ensures forall x :: x in Filter(s, p) <==> x in s && p(x)
  {
    if s != [] {
      FilterMembers(s[1..], p);
      assert s == [s[0]] + s[1..];
    }
  }

  /** Filtering distributes over concatenation: the kept elements stay in input order. */
  lemma {:induction false} FilterConcat<T(!new)>(a: seq<T>, b: seq<T>, p: T -> bool)
    ensures Filter(a + b, p) == Filter(a, p) + Filter(b, p)
  {
    if a != [] {
      assert (a + b)[0] == a[0];
      assert (a + b)[1..] == a[1..] + b;
      FilterConcat(a[1..], b, p);
      var head := if p(a[0]) then [a[0]] else [];
      assert Filter(a + b, p) == head + Filter(a[1..] + b, p);
      assert Filter(a, p) == head + Filter(a[1..], p);
    } else {
      assert a + b == b;
    }
  }

  /** Each element is kept exactly as often as it occurs, or dropped entirely. */
  lemma {:induction false} FilterCount<T(!new)>(s: seq<T>, p: T -> bool, x: T)
    ensures multiset(Filter(s, p))[x] == if p(x) then multiset(s)[x] else 0
  {
    if s != [] {
      var head := if p(s[0]) then [s[0]] else [];
      FilterCount(s[1..], p, x);
      assert s == [s[0]] + s[1..];
      assert Filter(s, p) == head + Filter(s[1..], p);
      assert multiset(Filter(s, p)) == multiset(head) + multiset(Filter(s[1..], p));
      assert multiset(s) == multiset([s[0]]) + multiset(s[1..]);
    }
  }

  /** Two successive filters are one filter on the conjunction. */
  lemma {:induction false} FilterTwice<T(!new)>(s: seq<T>, p: T -> bool, q: T -> bool, both: T -> bool)
    requires forall x :: both(x) == (p(x) && q(x))
    ensures Filter(Filter(s, p), q) == Filter(s, both)
  {
    if s != [] {
      FilterTwice(s[1..], p, q, both);
      var fp := Filter(s, p);
      if p(s[0]) {
        assert fp == [s[0]] + Filter(s[1..], p);
        assert fp[0] == s[0] && fp[1..] == Filter(s[1..], p);
        assert Filter(fp, q) == (if q(s[0]) then [s[0]] else []) + Filter(fp[1..], q);
      } else {
        assert fp == Filter(s[1..], p);
      }
    }
  }

  /** The position of the first occurrence of `x` in `s`. */
  function FirstIndex<T(==)>(s: seq<T>, x: T): (i: nat)
    requires x in s
    ensures i < |s| && s[i] == x && x !in s[..i]
  {
    if s[0] == x then 0
    else
      var i := 1 + FirstIndex(s[1..], x);
      assert s[..i] == [s[0]] + s[1..][..i - 1];
      i
  }

  /** A position holding `x` with no `x` before it is the first index. */
  lemma FirstIndexUnique<T>(s: seq<T>, x: T, i: nat)
    requires i < |s| && s[i] == x && x !in s[..i]
    ensures FirstIndex(s, x) == i
  {
  }

  /** Appending to a sequence does not move the first occurrence of a value already there. */
  lemma FirstIndexPrefix<T>(s: seq<T>, k: nat, x: T)
    requires k <= |s| && x in s[..k]
    ensures FirstIndex(s, x) == FirstIndex(s[..k], x)
  {
    var f := FirstIndex(s[..k], x);
    assert s[..k][..f] == s[..f];
    FirstIndexUnique(s, x, f);
  }

  /** `[...new Set(s)]`: the distinct values of `s`, each at its first occurrence. */
  function Distinct<T(==)>(s: seq<T>): (d: seq<T>)
    ensures |d| <= |s|
  {
    if s == [] then []
    else
      var d := Distinct(s[..|s| - 1]);
      var x := s[|s| - 1];
      if x in d then d else d + [x]
  }

  /** The distinct values are those of `s`, each listed once. */
  lemma {:induction false} DistinctMembers<T(!new)>(s: seq<T>)
    ensures NoDup(Distinct(s))
    ensures forall x :: x in Distinct(s) <==> x in s
  {
    if s != [] {
      var p := s[..|s| - 1];
      DistinctMembers(p);
      assert s == p + [s[|s| - 1]];
    }
  }

  /**
   * The distinct values are listed in the order in which they first appear:
   * position `i` comes before position `j` exactly when the value at `i` occurs
   * first in `s` before the value at `j` does.
   */
  lemma {:induction false} DistinctFirstSeenOrder<T(!new)>(s: seq<T>, i: nat, j: nat)
    requires i < |Distinct(s)| && j < |Distinct(s)|
    ensures Distinct(s)[i] in s && Distinct(s)[j] in s
    ensures i < j <==> FirstIndex(s, Distinct(s)[i]) < FirstIndex(s, Distinct(s)[j])
  {
    var d := Distinct(s);
    var n := |s|;
    var p := s[..n - 1];
    var x := s[n - 1];
    var dp := Distinct(p);
    DistinctMembers(s);
    DistinctMembers(p);
    assert s == p + [x];
    forall y | y in dp
      ensures FirstIndex(s, y) == FirstIndex(p, y) < n - 1
    {
      FirstIndexPrefix(s, n - 1, y);
    }
    if x !in dp {
      assert x !in s[..n - 1];
      FirstIndexUnique(s, x, n - 1);
    }
    if i < |dp| && j < |dp| {
      DistinctFirstSeenOrder(p, i, j);
      assert d[i] == dp[i] && d[j] == dp[j];
    } else if i != j {
      assert d[i] != d[j];
    }
  }

  /**
   * `xs` lists values of `s`, ordered by where each first occurs in `s`
   * (so no value is listed twice).
   */
  ghost predicate InFirstSeenOrder<T>(xs: seq<T>, s: seq<T>)
  {
    && (forall x :: x in xs ==> x in s)
    && (forall i, j :: 0 <= i < j < |xs| ==> FirstIndex(s, xs[i]) < FirstIndex(s, xs[j]))
  }

  /** `[...new Set(s)]` lists every value of `s` once, in first-seen order. */
  lemma DistinctInFirstSeenOrder<T(!new)>(s: seq<T>)
    ensures InFirstSeenOrder(Distinct(s), s)
  {
    DistinctMembers(s);
    forall i, j | 0 <= i < j < |Distinct(s)|
      ensures FirstIndex(s, Distinct(s)[i]) < FirstIndex(s, Distinct(s)[j])
    {
      DistinctFirstSeenOrder(s, i, j);
    }
  }

  /** Dropping elements keeps the others in first-seen order. */
  lemma {:induction false} FilterInFirstSeenOrder<T(!new)>(xs: seq<T>, s: seq<T>, p: T -> bool)
    requires InFirstSeenOrder(xs, s)
    ensures InFirstSeenOrder(Filter(xs, p), s)
  {
    if xs != [] {
      var rest := xs[1..];
      assert InFirstSeenOrder(rest, s) by {
        forall i, j | 0 <= i < j < |rest|
          ensures FirstIndex(s, rest[i]) < FirstIndex(s, rest[j])
        {
          assert rest[i] == xs[i + 1] && rest[j] == xs[j + 1];
        }
      }
      FilterInFirstSeenOrder(rest, s, p);
      var r := Filter(xs, p);
      var r' := Filter(rest, p);
      if p(xs[0]) {
        assert r == [xs[0]] + r';
        forall i, j | 0 <= i < j < |r|
          ensures FirstIndex(s, r[i]) < FirstIndex(s, r[j])
        {
          if i == 0 {
            FilterMembers(rest, p);
            assert r[j] in rest;
            var k :| 0 <= k < |rest| && rest[k] == r[j];
            assert xs[k + 1] == r[j];
          } else {
            assert r[i] == r'[i - 1] && r[j] == r'[j - 1];
          }
        }
      } else {
        assert r == r';
      }
    }
  }

  /** In a sequence without repetitions every value occurs at most once. */
  lemma {:induction false} NoDupCount<T>(s: seq<T>, x: T)
    requires NoDup(s)
    ensures multiset(s)[x] <= 1
  {
    if s != [] {
      assert s == [s[0]] + s[1..];
      NoDupCount(s[1..], x);
      if s[0] == x {
        assert x !in s[1..];
      }
    }
  }

  /** A permutation of a sequence without repetitions has none either. */
  lemma NoDupPermutation<T>(a: seq<T>, b: seq<T>)
    requires multiset(a) == multiset(b) && NoDup(b)
    ensures NoDup(a)
  {
    forall i, j | 0 <= i < j < |a|
      ensures a[i] != a[j]
    {
      var x := a[i];
      assert a == a[..j] + a[j..];
      assert x in multiset(a[..j]) by {
        assert a[..j][i] == x;
      }
      assert a[j] in multiset(a[j..]) by {
        assert a[j..][0] == a[j];
      }
      NoDupCount(b, x);
    }
  }

  /** A filter that keeps everything returns its input. */
  lemma {:induction false} FilterKeepsAll<T(!new)>(s: seq<T>, p: T -> bool)
    requires forall x :: p(x)
    ensures Filter(s, p) == s
  {
    if s != [] {
      FilterKeepsAll(s[1..], p);
    }
  }

  /** Filters with the same test give the same result. */
  lemma {:induction false} FilterSameTest<T(!new)>(s: seq<T>, p: T -> bool, q: T -> bool)
    requires forall x :: p(x) == q(x)
    ensures Filter(s, p) == Filter(s, q)
  {
    if s != [] {
      FilterSameTest(s[1..], p, q);
    }
  }

  /** Appending a value adds it to the distinct values unless it is already there. */
  lemma DistinctSnoc<T(!new)>(s: seq<T>, x: T)
    ensures Distinct(s + [x]) == if x in Distinct(s) then Distinct(s) else Distinct(s) + [x]
  {
    assert (s + [x])[..|s|] == s;
  }
}
