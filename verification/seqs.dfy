/**
 Generic sequence vocabulary shared by the data-preparation steps of the
 treemap visual: an option type, duplicate-freedom and ordering predicates,
 a left-fold sum with an accessor (the shape of `d3.sum(iterable, accessor)`),
 and `Distinct`, which keeps the first occurrence of every element in
 encounter order (the iteration order of a JavaScript `Set` or `Map` built by
 inserting the elements one after the other).
 */
module Seqs {

  datatype Option<T> = None | Some(value: T)

  /** No element occurs twice. */
  predicate NoDuplicates<T(==)>(s: seq<T>) {
    forall i, j :: 0 <= i < j < |s| ==> s[i] != s[j]
  }

  /** Non-decreasing order. */
  predicate Ascending(s: seq<int>) {
    forall i, j :: 0 <= i < j < |s| ==> s[i] <= s[j]
  }

  /** Strictly increasing order. */
  predicate StrictlyAscending(s: seq<int>) {
    forall i, j :: 0 <= i < j < |s| ==> s[i] < s[j]
  }

  /** `s.map(f)`: the image of every element, position by position. */
  function Project<A, B>(s: seq<A>, f: A -> B): (r: seq<B>)
    ensures |r| == |s|
    ensures forall i :: 0 <= i < |s| ==> r[i] == f(s[i])
  {
    seq(|s|, i requires 0 <= i < |s| => f(s[i]))
  }

  /** Left fold `0 + f(s[0]) + f(s[1]) + ...`, as `d3.sum(s, f)` computes it
      for finite numeric accessor results. */
  function Sum<T>(s: seq<T>, f: T -> int): int
    decreases |s|
  {
    if |s| == 0 then 0 else Sum(s[..|s| - 1], f) + f(s[|s| - 1])
  }

  lemma {:induction false} SumAppend<T>(s: seq<T>, t: seq<T>, f: T -> int)
    ensures Sum(s + t, f) == Sum(s, f) + Sum(t, f)
    decreases |t|
  {
    if |t| == 0 {
      assert s + t == s;
    } else {
      SumAppend(s, t[..|t| - 1], f);
      assert (s + t)[..|s + t| - 1] == s + t[..|t| - 1];
    }
  }

  lemma SumSingleton<T>(x: T, f: T -> int)
    ensures Sum([x], f) == f(x)
  {
    assert [x][..0] == [];
  }

  /** Replacing one element changes the sum by exactly the difference. */
  lemma SumUpdate<T>(s: seq<T>, k: nat, x: T, f: T -> int)
    requires k < |s|
    ensures Sum(s[k := x], f) == Sum(s, f) - f(s[k]) + f(x)
  {
    assert s == s[..k] + [s[k]] + s[k + 1..];
    assert s[k := x] == s[..k] + [x] + s[k + 1..];
    SumAppend(s[..k] + [s[k]], s[k + 1..], f);
    SumAppend(s[..k], [s[k]], f);
    SumAppend(s[..k] + [x], s[k + 1..], f);
    SumAppend(s[..k], [x], f);
    assert [s[k]][..0] == [] && [x][..0] == [];
  }

  /** With a non-negative accessor the sum dominates every single term and is
      itself non-negative. */
  lemma {:induction false} SumDominatesTerms<T>(s: seq<T>, f: T -> int)
    requires forall i :: 0 <= i < |s| ==> f(s[i]) >= 0
    ensures Sum(s, f) >= 0
    ensures forall i :: 0 <= i < |s| ==> f(s[i]) <= Sum(s, f)
    decreases |s|
  {
    if |s| > 0 {
      SumDominatesTerms(s[..|s| - 1], f);
      assert forall i :: 0 <= i < |s| - 1 ==> s[..|s| - 1][i] == s[i];
    }
  }

  /** Keeps the first occurrence of every element, in encounter order: the
      contents of a `Set` (or the key order of a `Map`) into which the
      elements of `s` are inserted one after the other. */
  function Distinct<T(==,!new)>(s: seq<T>): (r: seq<T>)
    ensures NoDuplicates(r)
    ensures forall x :: x in r <==> x in s
    ensures |r| <= |s|
    decreases |s|
  {
    if |s| == 0 then []
    else
      var d := Distinct(s[..|s| - 1]);
      assert s == s[..|s| - 1] + [s[|s| - 1]];
      if s[|s| - 1] in d then d else d + [s[|s| - 1]]
  }

  /** Appending one element extends `Distinct` by it, unless it was seen. */
  lemma DistinctSnoc<T(!new)>(s: seq<T>, x: T)
    ensures Distinct(s + [x]) == if x in Distinct(s) then Distinct(s) else Distinct(s) + [x]
  {
    assert (s + [x])[..|s + [x]| - 1] == s;
  }

  /** `r` lists elements in order of first occurrence in `s`: whenever `r[i]`
      precedes `r[j]`, `r[i]` has already been seen before any occurrence of
      `r[j]` in `s`. */
  ghost predicate InFirstOccurrenceOrder<T>(s: seq<T>, r: seq<T>) {
    forall i, j, k :: 0 <= i < j < |r| && 0 <= k < |s| && s[k] == r[j] ==> r[i] in s[..k]
  }

  lemma {:induction false} DistinctKeepsFirstOccurrenceOrder<T(!new)>(s: seq<T>)
    ensures InFirstOccurrenceOrder(s, Distinct(s))
    decreases |s|
  {
    if |s| > 0 {
      var p := s[..|s| - 1];
      var y := s[|s| - 1];
      var d := Distinct(p);
      DistinctKeepsFirstOccurrenceOrder(p);
      var r := Distinct(s);
      forall i, j, k | 0 <= i < j < |r| && 0 <= k < |s| && s[k] == r[j]
        ensures r[i] in s[..k]
      {
        if k < |s| - 1 {
          assert p[k] == s[k];
          if j < |d| {
            assert r[i] == d[i] && r[j] == d[j];
            assert 0 <= i < j < |d| && 0 <= k < |p| && p[k] == d[j];
            assert d[i] in p[..k];
            assert p[..k] == s[..k];
          } else {
            // r[j] would be the newly appended y, which never occurs in p
            assert false;
          }
        } else if j < |d| {
          assert r[j] in p;
          assert r[i] == d[i] && r[j] == d[j];
          var k0 :| 0 <= k0 < |p| && p[k0] == d[j];
          assert 0 <= i < j < |d| && 0 <= k0 < |p| && p[k0] == d[j];
          assert d[i] in p[..k0];
          assert p[..k0] <= s[..k];
        } else {
          assert r[i] in d;
          assert s[..k] == p;
        }
      }
    }
  }
}
