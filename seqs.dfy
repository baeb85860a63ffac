/**
 * Sequence helpers shared by the calendar engine: `Array.prototype.filter`
 * and the stable `Array.prototype.sort` driven by a comparator.
 */
module Seqs {

  /** The elements of `s` that satisfy `p`, in their original order. */
  function Filter<T(!new)>(s: seq<T>, p: T -> bool): (r: seq<T>)
    ensures |r| <= |s|
    ensures forall x :: x in r <==> x in s && p(x)
  {
    if s == [] then [] else (if p(s[0]) then [s[0]] else []) + Filter(s[1..], p)
  }

  lemma {:induction false} FilterAppend<T(!new)>(a: seq<T>, b: seq<T>, p: T -> bool)
    ensures Filter(a + b, p) == Filter(a, p) + Filter(b, p)
  {
    if a == [] {
      assert a + b == b;
    } else {
      assert (a + b)[1..] == a[1..] + b;
      FilterAppend(a[1..], b, p);
    }
  }

  lemma FilterCons<T(!new)>(x: T, s: seq<T>, p: T -> bool)
    ensures Filter([x] + s, p) == (if p(x) then [x] else []) + Filter(s, p)
  {
    assert ([x] + s)[1..] == s;
  }

  /** A comparator-induced "comes no later than" that is total and transitive. */
  ghost predicate TotalPreorder<T(!new)>(le: (T, T) -> bool) {
    && (forall a, b :: le(a, b) || le(b, a))
    && (forall a, b, c :: le(a, b) && le(b, c) ==> le(a, c))
  }

  predicate SortedBy<T>(s: seq<T>, le: (T, T) -> bool) {
    forall i, j :: 0 <= i < j < |s| ==> le(s[i], s[j])
  }

  /** Inserts `x` before the first element it does not come after. */
  function InsertBy<T>(x: T, s: seq<T>, le: (T, T) -> bool): (r: seq<T>)
    ensures multiset(r) == multiset(s) + multiset{x}
  {
    if s == [] || le(x, s[0]) then [x] + s
    else
      assert s == [s[0]] + s[1..];
      [s[0]] + InsertBy(x, s[1..], le)
  }

  /**
   * A stable sort: elements the comparator ties keep their input order,
   * as `Array.prototype.sort` guarantees.
   */
  function SortBy<T>(s: seq<T>, le: (T, T) -> bool): (r: seq<T>)
    ensures multiset(r) == multiset(s)
  {
    if s == [] then []
    else
      assert s == [s[0]] + s[1..];
      InsertBy(s[0], SortBy(s[1..], le), le)
  }

  lemma {:induction false} InsertBySorted<T(!new)>(x: T, s: seq<T>, le: (T, T) -> bool)
    requires TotalPreorder(le) && SortedBy(s, le)
    ensures SortedBy(InsertBy(x, s, le), le)
  {
    if s == [] || le(x, s[0]) {
      var r := [x] + s;
      forall i, j | 0 <= i < j < |r| ensures le(r[i], r[j]) {
        if i > 0 {
          assert r[i] == s[i - 1] && r[j] == s[j - 1];
        } else if j > 1 {
          assert le(s[0], s[j - 1]);
        }
      }
    } else {
      InsertBySorted(x, s[1..], le);
      var t := InsertBy(x, s[1..], le);
      var r := [s[0]] + t;
      assert le(s[0], x);
      assert forall k :: 0 <= k < |s[1..]| ==> le(s[0], s[1..][k]) by {
        forall k | 0 <= k < |s[1..]| ensures le(s[0], s[1..][k]) {
          assert s[1..][k] == s[k + 1];
        }
      }
      InsertByLowerBound(s[0], x, s[1..], le);
      forall i, j | 0 <= i < j < |r| ensures le(r[i], r[j]) {
        if i > 0 {
          assert r[i] == t[i - 1] && r[j] == t[j - 1];
        } else {
          assert r[j] == t[j - 1];
        }
      }
    }
  }

  /** Whatever comes no later than `x` and every element of `s` comes no later than their merge. */
  lemma {:induction false} InsertByLowerBound<T>(y: T, x: T, s: seq<T>, le: (T, T) -> bool)
    requires le(y, x)
    requires forall k :: 0 <= k < |s| ==> le(y, s[k])
    ensures forall k :: 0 <= k < |InsertBy(x, s, le)| ==> le(y, InsertBy(x, s, le)[k])
  {
    if s != [] && !le(x, s[0]) {
      InsertByLowerBound(y, x, s[1..], le);
      var t := InsertBy(x, s[1..], le);
      assert InsertBy(x, s, le) == [s[0]] + t;
      forall k | 0 < k < |InsertBy(x, s, le)| ensures le(y, InsertBy(x, s, le)[k]) {
        assert InsertBy(x, s, le)[k] == t[k - 1];
      }
    } else {
      forall k | 0 < k < |InsertBy(x, s, le)| ensures le(y, InsertBy(x, s, le)[k]) {
        assert InsertBy(x, s, le)[k] == s[k - 1];
      }
    }
  }

  lemma {:induction false} SortBySorted<T(!new)>(s: seq<T>, le: (T, T) -> bool)
    requires TotalPreorder(le)
    ensures SortedBy(SortBy(s, le), le)
  {
    if s != [] {
      SortBySorted(s[1..], le);
      InsertBySorted(s[0], SortBy(s[1..], le), le);
    }
  }

  lemma {:induction false} InsertByFilter<T(!new)>(x: T, t: seq<T>, le: (T, T) -> bool, p: T -> bool)
    requires forall a, b :: p(a) && p(b) ==> le(a, b)
    ensures Filter(InsertBy(x, t, le), p) == (if p(x) then [x] else []) + Filter(t, p)
  {
    if t == [] || le(x, t[0]) {
      FilterCons(x, t, p);
    } else {
      InsertByFilter(x, t[1..], le, p);
      InsertByFilterStep(x, t, le, p);
    }
  }

  /** Inserting past an element the new one does not tie with leaves the selection's order. */
  lemma InsertByFilterStep<T(!new)>(x: T, t: seq<T>, le: (T, T) -> bool, p: T -> bool)
    requires t != [] && !le(x, t[0]) && !(p(x) && p(t[0]))
    requires Filter(InsertBy(x, t[1..], le), p) == (if p(x) then [x] else []) + Filter(t[1..], p)
    ensures Filter(InsertBy(x, t, le), p) == (if p(x) then [x] else []) + Filter(t, p)
  {
    var r := InsertBy(x, t[1..], le);
    var a, xs, rest := if p(t[0]) then [t[0]] else [], if p(x) then [x] else [], Filter(t[1..], p);
    calc {
      Filter(InsertBy(x, t, le), p);
      { assert InsertBy(x, t, le) == [t[0]] + r; }
      Filter([t[0]] + r, p);
      { FilterCons(t[0], r, p); }
      a + (xs + rest);
      { UntiedSwap(a, xs, rest); }
      xs + (a + rest);
      xs + Filter(t, p);
    }
  }

  lemma UntiedSwap<T>(a: seq<T>, b: seq<T>, rest: seq<T>)
    requires a == [] || b == []
    ensures a + (b + rest) == b + (a + rest)
  {
  }

  /**
   * Stability: the sort keeps the relative order of any group of elements
   * that the comparator ranks as mutually tied.
   */
  lemma {:induction false} SortByStable<T(!new)>(s: seq<T>, le: (T, T) -> bool, p: T -> bool)
    requires forall a, b :: p(a) && p(b) ==> le(a, b)
    ensures Filter(SortBy(s, le), p) == Filter(s, p)
  {
    if s != [] {
      SortByStable(s[1..], le, p);
      InsertByFilter(s[0], SortBy(s[1..], le), le, p);
    }
  }

  /** Any selection from a sorted sequence is sorted. */
  lemma {:induction false} FilterSorted<T(!new)>(s: seq<T>, le: (T, T) -> bool, p: T -> bool)
    requires SortedBy(s, le)
    ensures SortedBy(Filter(s, p), le)
  {
    if s != [] {
      FilterSorted(s[1..], le, p);
      var t := Filter(s[1..], p);
      if p(s[0]) {
        var r := [s[0]] + t;
        forall i, j | 0 <= i < j < |r| ensures le(r[i], r[j]) {
          assert r[j] == t[j - 1] && r[j] in s[1..];
          if i > 0 {
            assert r[i] == t[i - 1];
          } else {
            var k :| 0 <= k < |s[1..]| && s[1..][k] == r[j];
            assert s[k + 1] == r[j];
          }
        }
      }
    }
  }

  /** No element occurs twice. */
  predicate Distinct<T(==)>(s: seq<T>) {
    forall i, j :: 0 <= i < j < |s| ==> s[i] != s[j]
  }

  lemma {:induction false} DistinctCount<T>(s: seq<T>, x: T)
    requires Distinct(s)
    ensures multiset(s)[x] <= 1
  {
    if s != [] {
      assert s == [s[0]] + s[1..];
      assert Distinct(s[1..]);
      DistinctCount(s[1..], x);
      if s[0] == x {
        assert x !in s[1..];
      }
    }
  }

  lemma RepeatCount<T>(s: seq<T>, i: int, j: int)
    requires 0 <= i < j < |s| && s[i] == s[j]
    ensures multiset(s)[s[i]] >= 2
  {
    assert s == s[..i] + [s[i]] + s[i + 1..j] + [s[j]] + s[j + 1..];
  }

  /** A rearrangement of a sequence without repeats has none either. */
  lemma DistinctPermutation<T>(s: seq<T>, t: seq<T>)
    requires Distinct(s) && multiset(s) == multiset(t)
    ensures Distinct(t)
  {
    forall i, j | 0 <= i < j < |t| ensures t[i] != t[j] {
      if t[i] == t[j] {
        RepeatCount(t, i, j);
        DistinctCount(s, t[i]);
      }
    }
  }

  /** A filter nothing passes is empty. */
  lemma FilterNone<T(!new)>(s: seq<T>, p: T -> bool)
    requires forall x :: x in s ==> !p(x)
    ensures Filter(s, p) == []
  {
  }

  /**
   * Under an antisymmetric order there is only one sorted arrangement of a
   * set of distinct elements.
   */
  lemma {:induction false} SortedUnique<T(!new)>(a: seq<T>, b: seq<T>, le: (T, T) -> bool)
    requires forall x, y :: le(x, y) && le(y, x) ==> x == y
    requires SortedBy(a, le) && SortedBy(b, le) && Distinct(a) && Distinct(b)
    requires forall x :: x in a <==> x in b
    ensures a == b
  {
    if a != [] {
      assert a[0] in a;
    }
    if b != [] {
      assert b[0] in b;
    }
    if a != [] {
      HeadIsLeast(a, b[0], le);
      HeadIsLeast(b, a[0], le);
      assert a[0] == b[0];
      forall x ensures x in a[1..] <==> x in b[1..] {
        TailMembers(a, x);
        TailMembers(b, x);
      }
      SortedUnique(a[1..], b[1..], le);
      assert a == [a[0]] + a[1..] && b == [b[0]] + b[1..];
    }
  }

  /** The head of a sorted sequence comes no later than any of its elements. */
  lemma HeadIsLeast<T>(s: seq<T>, x: T, le: (T, T) -> bool)
    requires SortedBy(s, le) && x in s
    ensures s[0] == x || le(s[0], x)
  {
    var i :| 0 <= i < |s| && s[i] == x;
    if i > 0 {
      assert le(s[0], s[i]);
    }
  }

  /** Without repeats, the tail holds every element but the head. */
  lemma TailMembers<T>(s: seq<T>, x: T)
    requires s != [] && Distinct(s)
    ensures x in s[1..] <==> x in s && x != s[0]
  {
    if x in s[1..] {
      var k :| 0 <= k < |s[1..]| && s[1..][k] == x;
      assert s[k + 1] == x;
    }
    if x in s && x != s[0] {
      var k :| 0 <= k < |s| && s[k] == x;
      assert s[1..][k - 1] == x;
    }
  }
}
