/**
 * `Array.prototype.sort` with a comparator. ECMA-262 (since the 2019 edition)
 * requires the sort to be stable, and for a consistent comparator the stable
 * sorted permutation is unique; `SortBy` is that permutation, written as an
 * insertion sort, and `SortInPlace` computes it in place on an array.
 *
 * A comparator `cmp` is represented by `le(a, b) == (cmp(a, b) <= 0)`:
 * `a` may stay before `b`.
 */
module StableSort {
  import opened Collections

  /** `le` is total and transitive: a consistent comparator. */
  ghost predicate IsTotalPreorder<T(!new)>(le: (T, T) -> bool)
  {
    && (forall a, b :: le(a, b) || le(b, a))
    && (forall a, b, c :: le(a, b) && le(b, c) ==> le(a, c))
  }

  /** Every element may stay before every later one. */
  ghost predicate SortedBy<T>(s: seq<T>, le: (T, T) -> bool)
  {
    forall i, j :: 0 <= i < j < |s| ==> le(s[i], s[j])
  }

  /** The test "compares equal to `y`" (the comparator returns 0 both ways). */
  function EquivalentTo<T>(le: (T, T) -> bool, y: T): T -> bool
  {
    x => le(x, y) && le(y, x)
  }

  /** The elements of `s` that compare equal to `y`, in their order in `s`. */
  function TiesWith<T(!new)>(s: seq<T>, le: (T, T) -> bool, y: T): seq<T>
  {
    Filter(s, EquivalentTo(le, y))
  }

  /** Inserts `x` after the last element of `t` that may stay before it. */
  function Insert<T>(x: T, t: seq<T>, le: (T, T) -> bool): (r: seq<T>)
    ensures |r| == |t| + 1
  {
    if t == [] then [x]
    else
      var last := t[|t| - 1];
      if le(last, x) then t + [x]
      else Insert(x, t[..|t| - 1], le) + [last]
  }

  /** The stable sort of `s` under `le`. */
  function SortBy<T>(s: seq<T>, le: (T, T) -> bool): (r: seq<T>)
    ensures |r| == |s|
  {
    if s == [] then []
    else Insert(s[|s| - 1], SortBy(s[..|s| - 1], le), le)
  }

  /** Inserting adds exactly `x` to the elements. */
  lemma {:induction false} InsertPermutes<T>(x: T, t: seq<T>, le: (T, T) -> bool)
    ensures multiset(Insert(x, t, le)) == multiset(t) + multiset{x}
  {
    if t != [] {
      var last := t[|t| - 1];
      var front := t[..|t| - 1];
      assert t == front + [last];
      if !le(last, x) {
        InsertPermutes(x, front, le);
      }
    }
  }

  /** The stable sort is a permutation of its input. */
  lemma {:induction false} SortByPermutes<T>(s: seq<T>, le: (T, T) -> bool)
    ensures multiset(SortBy(s, le)) == multiset(s)
  {
    if s != [] {
      var front := s[..|s| - 1];
      SortByPermutes(front, le);
      InsertPermutes(s[|s| - 1], SortBy(front, le), le);
      assert s == front + [s[|s| - 1]];
    }
  }

  /** Appending an element that every element may stay before keeps a sequence sorted. */
  lemma SortedSnoc<T>(r: seq<T>, y: T, le: (T, T) -> bool)
    requires SortedBy(r, le)
    requires forall e :: e in r ==> le(e, y)
    ensures SortedBy(r + [y], le)
  {
    var s := r + [y];
    forall i, j | 0 <= i < j < |s|
      ensures le(s[i], s[j])
    {
      assert s[i] == r[i];
      if j == |r| {
        assert r[i] in r;
      } else {
        assert s[j] == r[j];
      }
    }
  }

  /** Inserting into a sorted sequence keeps it sorted. */
  lemma {:induction false} InsertSorted<T(!new)>(x: T, t: seq<T>, le: (T, T) -> bool)
    requires IsTotalPreorder(le)
    requires SortedBy(t, le)
    ensures SortedBy(Insert(x, t, le), le)
  {
    if t != [] {
      var last := t[|t| - 1];
      var front := t[..|t| - 1];
      if le(last, x) {
        forall e | e in t
          ensures le(e, x)
        {
          var k :| 0 <= k < |t| && t[k] == e;
          if k < |t| - 1 {
            assert le(e, last);
          }
        }
        SortedSnoc(t, x, le);
      } else {
        assert SortedBy(front, le);
        InsertSorted(x, front, le);
        var r := Insert(x, front, le);
        InsertPermutes(x, front, le);
        forall e | e in r
          ensures le(e, last)
        {
          assert e in multiset(r);
          if e != x {
            assert e in multiset(front);
            var k :| 0 <= k < |front| && front[k] == e;
            assert t[k] == e;
          }
        }
        SortedSnoc(r, last, le);
      }
    }
  }

  /** The stable sort is sorted. */
  lemma {:induction false} SortBySorted<T(!new)>(s: seq<T>, le: (T, T) -> bool)
    requires IsTotalPreorder(le)
    ensures SortedBy(SortBy(s, le), le)
  {
    if s != [] {
      SortBySorted(s[..|s| - 1], le);
      InsertSorted(s[|s| - 1], SortBy(s[..|s| - 1], le), le);
    }
  }

  /** Inserting `x` places it after every element that ties with it. */
  lemma {:induction false} InsertTies<T(!new)>(x: T, t: seq<T>, le: (T, T) -> bool, y: T)
    requires IsTotalPreorder(le)
    ensures TiesWith(Insert(x, t, le), le, y) == TiesWith(t, le, y) + TiesWith([x], le, y)
  {
    var eq := EquivalentTo(le, y);
    if t == [] {
      assert Insert(x, t, le) == [] + [x];
    } else {
      var last := t[|t| - 1];
      var front := t[..|t| - 1];
      assert t == front + [last];
      FilterConcat(front, [last], eq);
      if le(last, x) {
        assert Insert(x, t, le) == t + [x];
        FilterConcat(t, [x], eq);
      } else {
        assert Insert(x, t, le) == Insert(x, front, le) + [last];
        InsertTies(x, front, le, y);
        FilterConcat(Insert(x, front, le), [last], eq);
        var fx := Filter([x], eq);
        var fl := Filter([last], eq);
        if eq(x) && eq(last) {
          assert false;
        }
        assert fx == [] || fl == [];
        assert fx + fl == fl + fx;
      }
    }
  }

  /**
   * Stability: the elements that compare equal to any `y` appear in the
   * sorted sequence in exactly the order they had in the input.
   */
  lemma {:induction false} SortByStable<T(!new)>(s: seq<T>, le: (T, T) -> bool, y: T)
    requires IsTotalPreorder(le)
    ensures TiesWith(SortBy(s, le), le, y) == TiesWith(s, le, y)
  {
    if s != [] {
      var front := s[..|s| - 1];
      var last := s[|s| - 1];
      SortByStable(front, le, y);
      InsertTies(last, SortBy(front, le), le, y);
      assert s == front + [last];
      FilterConcat(front, [last], EquivalentTo(le, y));
    }
  }

  /**
   * When `x` may stay after everything before position `j` and must come
   * before everything from `j` on, `Insert` puts it at position `j`.
   */
  lemma {:induction false} InsertAt<T>(x: T, t: seq<T>, j: nat, le: (T, T) -> bool)
    requires j <= |t|
    requires j == 0 || le(t[j - 1], x)
    requires forall k :: j <= k < |t| ==> !le(t[k], x)
    ensures Insert(x, t, le) == t[..j] + [x] + t[j..]
  {
    if j == |t| {
      assert t[..j] + [x] + t[j..] == t + [x];
    } else {
      var front := t[..|t| - 1];
      var last := t[|t| - 1];
      assert Insert(x, t, le) == Insert(x, front, le) + [last] by {
        assert !le(last, x);
      }
      InsertAt(x, front, j, le);
      assert t[..j] + [x] + t[j..] == front[..j] + [x] + front[j..] + [last] by {
        assert t == front + [last];
      }
    }
  }

  /**
   * One step of the insertion sort: shifts the elements of `a[..i]` that must
   * come after `a[i]` one place to the right and drops `a[i]` into the gap.
   */
  method InsertInPlace<T>(a: array<T>, i: nat, le: (T, T) -> bool)
    requires i < a.Length
    modifies a
    ensures a[..i + 1] == Insert(old(a[i]), old(a[..i]), le)
    ensures a[i + 1..] == old(a[i + 1..])
  {
    ghost var sorted := a[..i];
    var x := a[i];
    var j := i;
    while j > 0 && !le(a[j - 1], x)
      invariant 0 <= j <= i
      invariant forall k :: 0 <= k < j ==> a[k] == sorted[k]
      invariant forall k :: j < k <= i ==> a[k] == sorted[k - 1]
      invariant forall k :: j <= k < i ==> !le(sorted[k], x)
      invariant a[i + 1..] == old(a[i + 1..])
    {
      a[j] := a[j - 1];
      j := j - 1;
    }
    a[j] := x;
    InsertAt(x, sorted, j, le);
    assert a[..i + 1] == sorted[..j] + [x] + sorted[j..];
  }

  /** Sorts `a` in place; the result is the stable sort of its old contents. */
  method SortInPlace<T>(a: array<T>, le: (T, T) -> bool)
    modifies a
    ensures a[..] == SortBy(old(a[..]), le)
  {
    ghost var s0 := a[..];
    for i := 0 to a.Length
      invariant a[..i] == SortBy(s0[..i], le)
      invariant a[i..] == s0[i..]
    {
      assert a[i] == s0[i] && a[i + 1..] == s0[i + 1..];
      InsertInPlace(a, i, le);
      assert s0[..i + 1][..i] == s0[..i];
    }
    assert a[..] == a[..a.Length];
    assert s0 == s0[..a.Length];
  }
}
