/**
 The period axis of the animation:
 `Array.from(new Set(periods)).sort((a, b) => a - b)`.
 The `Set` keeps the first occurrence of each period (`Seqs.Distinct`); the
 numeric comparator sorts ascending. The sort is modelled by an insertion
 sort; `SortedSetIsUnique` shows that any algorithm sorting correctly yields
 the same sequence, because the input has no duplicates.
 */
module Periods {
  import opened Seqs

  /** Inserts `x` into an ascending sequence, before the first element not
      smaller than it. */
  function Insert(x: int, s: seq<int>): (r: seq<int>)
    requires Ascending(s)
    ensures Ascending(r)
    ensures multiset(r) == multiset(s) + multiset{x}
    ensures |r| == |s| + 1
    ensures r[0] == if |s| == 0 || x <= s[0] then x else s[0]
    decreases |s|
  {
    if |s| == 0 then [x]
    else if x <= s[0] then [x] + s
    else
      assert Ascending(s[1..]);
      var t := Insert(x, s[1..]);
      assert s == [s[0]] + s[1..];
      assert forall j :: 0 <= j < |t| ==> s[0] <= t[j] by {
        assert s[0] <= t[0];
      }
      [s[0]] + t
  }

  /** `array.sort((a, b) => a - b)` on integers. */
  function SortAscending(s: seq<int>): (r: seq<int>)
    ensures Ascending(r)
    ensures multiset(r) == multiset(s)
    decreases |s|
  {
    if |s| == 0 then []
    else
      assert s == [s[0]] + s[1..];
      Insert(s[0], SortAscending(s[1..]))
  }

  /** A duplicate-free sequence counts every element at most once. */
  lemma {:induction false} NoDuplicatesCountsOnce(s: seq<int>, x: int)
    requires NoDuplicates(s)
    ensures multiset(s)[x] <= 1
    decreases |s|
  {
    if |s| > 0 {
      assert s == [s[0]] + s[1..];
      NoDuplicatesCountsOnce(s[1..], x);
      if x == s[0] {
        assert x !in s[1..];
      }
    }
  }

  /** Two equal elements at distinct positions are counted twice. */
  lemma RepeatCountsTwice(s: seq<int>, i: nat, j: nat)
    requires i < j < |s| && s[i] == s[j]
    ensures multiset(s)[s[i]] >= 2
  {
    assert s == s[..i] + [s[i]] + s[i + 1..j] + [s[j]] + s[j + 1..];
  }

  /** The ordered period axis built from the `periods` column. */
  function UniquePeriods(periods: seq<int>): (r: seq<int>)
    ensures StrictlyAscending(r)
    ensures forall x :: x in r <==> x in periods
  {
    var d := Distinct(periods);
    var r := SortAscending(d);
    assert forall x :: x in r <==> x in multiset(d);
    forall i, j | 0 <= i < j < |r|
      ensures r[i] < r[j]
    {
      if r[i] == r[j] {
        RepeatCountsTwice(r, i, j);
        NoDuplicatesCountsOnce(d, r[i]);
        assert false;
      }
    }
    r
  }

  lemma FirstIsMember(s: seq<int>)
    requires |s| > 0
    ensures s[0] in s
  {
  }

  /** A strictly ascending sequence is determined by its elements: any other
      strictly ascending sequence with the same elements is equal to it. */
  lemma {:induction false} SortedSetIsUnique(a: seq<int>, b: seq<int>)
    requires StrictlyAscending(a) && StrictlyAscending(b)
    requires forall x :: x in a <==> x in b
    ensures a == b
    decreases |a|
  {
    if |a| == 0 {
      if |b| > 0 {
        FirstIsMember(b);
      }
    } else {
      assert a[0] in b && b[0] in a;
      assert a[0] == b[0];
      forall x
        ensures x in a[1..] <==> x in b[1..]
      {
        assert x in a[1..] <==> x in a && x != a[0];
        assert x in b[1..] <==> x in b && x != b[0];
      }
      SortedSetIsUnique(a[1..], b[1..]);
      assert a == [a[0]] + a[1..] && b == [b[0]] + b[1..];
    }
  }

  /** The period axis is the one strictly ascending enumeration of the
      distinct periods of the table. */
  lemma UniquePeriodsIsSortedSetOfPeriods(periods: seq<int>, axis: seq<int>)
    requires StrictlyAscending(axis)
    requires forall x :: x in axis <==> x in periods
    ensures UniquePeriods(periods) == axis
  {
    SortedSetIsUnique(UniquePeriods(periods), axis);
  }
}
