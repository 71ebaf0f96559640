/**
 The per-leaf percentage label of `createTreemap`,
 `d.data.value / totalValue * 100`, and the frame of leaves one call of
 `createTreemap` draws: one leaf per entry of `groupedData`, carrying the
 entry's key, its value and its share of `totalValue`. Exact real arithmetic
 stands in for the double-precision division; a zero `totalValue` yields the
 special values JavaScript division produces.
 */
module Shares {
  import opened Seqs
  import opened Table
  import opened Grouping

  /** The outcome of `value / totalValue * 100`. */
  datatype Share = Finite(percent: real) | PosInfinity | NegInfinity | NaN

  /** One drawn node. `Leaf` is the node of one `groupedData` entry: its
      category label, its value text and its percentage label. When
      `groupedData` is empty the hierarchy root has no children and is itself
      the only leaf; it carries no key and no value, and its percentage label
      is `undefined / 0 * 100`. */
  datatype Leaf = Leaf(key: string, value: int, share: Share) | Root(share: Share)

  function Percentage(value: int, total: int): (s: Share)
    ensures s.Finite? <==> total != 0
    ensures s.Finite? ==> s.percent * (total as real) == (value as real) * 100.0
    ensures total > 0 && 0 <= value <= total ==> s.Finite? && 0.0 <= s.percent <= 100.0
    ensures total == 0 ==> (s == NaN <==> value == 0)
  {
    if total != 0 then Finite(value as real / total as real * 100.0)
    else if value > 0 then PosInfinity
    else if value < 0 then NegInfinity
    else NaN
  }

  /** The leaves of the hierarchy, in the order of `groupedData`. */
  function Leaves(gs: seq<Group>, total: int): seq<Leaf>
  {
    seq(|gs|, i requires 0 <= i < |gs| => Leaf(gs[i].key, gs[i].value, Percentage(gs[i].value, total)))
  }

  /** The category text of a node; the bare root shows none. */
  function LeafKey(l: Leaf): string { if l.Leaf? then l.key else "" }

  /** The keys of a frame's leaves, in order. */
  function LeafKeys(ls: seq<Leaf>): seq<string> { Project(ls, LeafKey) }

  /** What one `createTreemap(data)` call draws: a leaf per distinct
      category of `data`, in order of first occurrence, showing the sum of the
      category's values and that sum's share of the total. Empty data leaves
      only the bare root, labelled `NaN`. */
  function CreateTreemap(data: seq<Datum>): (frame: seq<Leaf>)
    ensures |data| == 0 ==> |frame| == 1 && frame[0] == Root(NaN)
    ensures |data| > 0 ==> forall k :: 0 <= k < |frame| ==> frame[k].Leaf?
    ensures |data| > 0 ==> LeafKeys(frame) == Distinct(Categories(data))
    ensures |data| > 0 ==> NoDuplicates(LeafKeys(frame))
    ensures |data| > 0 ==> forall c :: c in LeafKeys(frame) <==> c in Categories(data)
    ensures forall k :: 0 <= k < |frame| && frame[k].Leaf? ==>
      frame[k].value == Sum(OfCategory(data, frame[k].key), DatumValue)
      && frame[k].share == Percentage(frame[k].value, Sum(data, DatumValue))
  {
    var gs := GroupSum(data);
    GroupSumKeys(data);
    GroupSumValues(data);
    TotalValueConserves(data);
    // `groupedData` is empty exactly when `data` is.
    if |data| == 0 then
      [Root(NaN)]
    else
      var frame := Leaves(gs, TotalValue(gs));
      assert LeafKeys(frame) == GroupKeys(gs);
      frame
  }

  /** The sum of the percentage labels of a frame with a non-zero total. */
  function PercentSum(ls: seq<Leaf>): real
    requires forall i :: 0 <= i < |ls| ==> ls[i].share.Finite?
    decreases |ls|
  {
    if |ls| == 0 then 0.0
    else PercentSum(ls[..|ls| - 1]) + ls[|ls| - 1].share.percent
  }

  lemma ScaledQuotientAdds(a: real, v: real, t: real)
    requires t != 0.0
    ensures a / t * 100.0 + v / t * 100.0 == (a + v) / t * 100.0
  {
  }

  lemma WholeIsHundred(t: real)
    requires t != 0.0
    ensures t / t * 100.0 == 100.0
  {
  }

  lemma {:induction false} LeavesPercentSum(gs: seq<Group>, total: int)
    requires total != 0
    ensures forall i :: 0 <= i < |gs| ==> Leaves(gs, total)[i].share.Finite?
    ensures PercentSum(Leaves(gs, total)) == (Sum(gs, GroupValue) as real) / (total as real) * 100.0
    decreases |gs|
  {
    if |gs| > 0 {
      var p := gs[..|gs| - 1];
      LeavesPercentSum(p, total);
      assert Leaves(gs, total)[..|gs| - 1] == Leaves(p, total);
      ScaledQuotientAdds(Sum(p, GroupValue) as real, gs[|gs| - 1].value as real, total as real);
    }
  }

  /** With non-negative values and a positive total every label is a finite
      percentage in [0, 100], and the labels of a frame add up to 100. */
  lemma SharesSumToHundred(gs: seq<Group>)
    requires forall i :: 0 <= i < |gs| ==> gs[i].value >= 0
    requires TotalValue(gs) > 0
    ensures var ls := Leaves(gs, TotalValue(gs));
      && (forall i :: 0 <= i < |ls| ==> ls[i].share.Finite? && 0.0 <= ls[i].share.percent <= 100.0)
      && PercentSum(ls) == 100.0
  {
    SumDominatesTerms(gs, GroupValue);
    LeavesPercentSum(gs, TotalValue(gs));
    WholeIsHundred(TotalValue(gs) as real);
  }

  /** The same for a whole `createTreemap(data)` call on non-negative data
      with a positive sum. */
  lemma TreemapSharesSumToHundred(data: seq<Datum>)
    requires forall i :: 0 <= i < |data| ==> data[i].value >= 0
    requires Sum(data, DatumValue) > 0
    ensures var frame := CreateTreemap(data);
      && (forall i :: 0 <= i < |frame| ==> frame[i].share.Finite? && 0.0 <= frame[i].share.percent <= 100.0)
      && PercentSum(frame) == 100.0
  {
    var gs := GroupSum(data);
    TotalValueConserves(data);
    GroupByMembers(data);
    forall k | 0 <= k < |gs|
      ensures gs[k].value >= 0
    {
      var b := GroupBy(data)[k];
      assert b.members == OfCategory(data, b.key);
      OfCategoryFromData(data, b.key);
      forall i | 0 <= i < |b.members|
        ensures DatumValue(b.members[i]) >= 0
      {
        assert b.members[i] in data;
        var j :| 0 <= j < |data| && data[j] == b.members[i];
      }
      SumDominatesTerms(b.members, DatumValue);
    }
    SharesSumToHundred(gs);
  }

  /** A single record draws a single leaf holding the whole total. */
  lemma SingleRecordFrame(d: Datum)
    ensures CreateTreemap([d]) == [Leaf(d.category, d.value, Percentage(d.value, d.value))]
  {
    assert [d][..0] == [];
    assert GroupBy([d]) == [Bucket(d.category, [d])];
    SumSingleton(d, DatumValue);
    var gs := GroupSum([d]);
    assert gs == [Group(d.category, d.value)];
    SumSingleton(Group(d.category, d.value), GroupValue);
  }

  /** Records of two different categories draw two leaves, in record order,
      each with its share of the pair's sum. */
  lemma TwoCategoryFrame(a: string, u: int, b: string, v: int)
    requires a != b
    ensures CreateTreemap([Datum(a, u), Datum(b, v)])
      == [Leaf(a, u, Percentage(u, u + v)), Leaf(b, v, Percentage(v, u + v))]
  {
    var data := [Datum(a, u), Datum(b, v)];
    var da, db := Datum(a, u), Datum(b, v);
    assert data[..1] == [da] && [da][..0] == [];
    assert GroupBy([da]) == [Bucket(a, [da])];
    var one := [Bucket(a, [da])];
    assert one[1..] == [];
    assert FindKey(one, b) == None;
    var bs := GroupBy(data);
    assert bs == [Bucket(a, [da]), Bucket(b, [db])];
    SumSingleton(da, DatumValue);
    SumSingleton(db, DatumValue);
    var gs := GroupSum(data);
    assert gs == [Group(a, u), Group(b, v)];
    assert gs == [Group(a, u)] + [Group(b, v)];
    SumAppend([Group(a, u)], [Group(b, v)], GroupValue);
    SumSingleton(Group(a, u), GroupValue);
    SumSingleton(Group(b, v), GroupValue);
    assert TotalValue(gs) == u + v;
  }

  /** Two categories of equal positive value each get 50%. */
  lemma EqualPairSplitsEvenly(a: string, b: string, v: int)
    requires a != b && v > 0
    ensures CreateTreemap([Datum(a, v), Datum(b, v)])
      == [Leaf(a, v, Finite(50.0)), Leaf(b, v, Finite(50.0))]
  {
    TwoCategoryFrame(a, v, b, v);
    assert (v as real) / ((v + v) as real) * 100.0 == 50.0;
  }
}
