/**
 The aggregation at the start of `createTreemap`:
 `Array.from(d3.group(data, d => d.category), ([key, value]) =>
    ({ key, value: d3.sum(value, d => d.value) }))`
 followed by `totalValue = d3.sum(groupedData, d => d.value)`.
 `d3.group` builds a `Map` from each category to the array of its records;
 a `Map` iterates its keys in insertion order, so the groups come out in the
 order in which their categories are first seen.
 */
module Grouping {
  import opened Seqs
  import opened Table

  /** One entry of the `Map` that `d3.group` builds. */
  datatype Bucket = Bucket(key: string, members: seq<Datum>)

  /** One `{ key, value }` object of `groupedData`. */
  datatype Group = Group(key: string, value: int)

  function DatumValue(d: Datum): int { d.value }

  function GroupValue(g: Group): int { g.value }

  function BucketTotal(b: Bucket): int { Sum(b.members, DatumValue) }

  function DatumCategory(d: Datum): string { d.category }

  function BucketKey(b: Bucket): string { b.key }

  function GroupKey(g: Group): string { g.key }

  /** The category of every record, in order. */
  function Categories(data: seq<Datum>): seq<string> { Project(data, DatumCategory) }

  /** The keys of the map, in iteration order. */
  function Keys(bs: seq<Bucket>): seq<string> { Project(bs, BucketKey) }

  /** The keys of `groupedData`, in order. */
  function GroupKeys(gs: seq<Group>): seq<string> { Project(gs, GroupKey) }

  /** The position of the bucket for `key`, if the map already has one. */
  function FindKey(bs: seq<Bucket>, key: string): (r: Option<nat>)
    ensures r.Some? ==> r.value < |bs| && bs[r.value].key == key
    ensures r.None? <==> key !in Keys(bs)
    decreases |bs|
  {
    if |bs| == 0 then None
    else if bs[0].key == key then Some(0)
    else
      match FindKey(bs[1..], key)
      case Some(k) => Some(k + 1)
      case None =>
        assert Keys(bs) == [bs[0].key] + Keys(bs[1..]);
        None
  }

  /** `d3.group(data, d => d.category)`: each record is appended to the
      bucket of its category, and a category seen for the first time opens a
      new bucket at the end. */
  function GroupBy(data: seq<Datum>): seq<Bucket>
    decreases |data|
  {
    if |data| == 0 then []
    else
      var bs := GroupBy(data[..|data| - 1]);
      var d := data[|data| - 1];
      match FindKey(bs, d.category)
      case Some(k) => bs[k := Bucket(bs[k].key, bs[k].members + [d])]
      case None => bs + [Bucket(d.category, [d])]
  }

  /** Reference definition: the records of category `c`, in order. */
  function OfCategory(data: seq<Datum>, c: string): seq<Datum>
    decreases |data|
  {
    if |data| == 0 then []
    else
      var r := OfCategory(data[..|data| - 1], c);
      if data[|data| - 1].category == c then r + [data[|data| - 1]] else r
  }

  /** `Array.from(map, ([key, value]) => ({ key, value: d3.sum(value, d => d.value) }))` */
  function Summarize(bs: seq<Bucket>): seq<Group>
  {
    seq(|bs|, i requires 0 <= i < |bs| => Group(bs[i].key, BucketTotal(bs[i])))
  }

  /** `groupedData` */
  function GroupSum(data: seq<Datum>): seq<Group>
  {
    Summarize(GroupBy(data))
  }

  /** `totalValue = d3.sum(groupedData, d => d.value)` */
  function TotalValue(gs: seq<Group>): int
  {
    Sum(gs, GroupValue)
  }

  lemma {:induction false} OfCategoryAbsent(data: seq<Datum>, c: string)
    requires c !in Categories(data)
    ensures OfCategory(data, c) == []
    decreases |data|
  {
    if |data| > 0 {
      var p := data[..|data| - 1];
      assert forall i :: 0 <= i < |p| ==> Categories(p)[i] == Categories(data)[i];
      OfCategoryAbsent(p, c);
    }
  }

  /** The reference selection is sound: it holds only records of the data
      that belong to category `c`. */
  lemma {:induction false} OfCategoryFromData(data: seq<Datum>, c: string)
    ensures forall i :: 0 <= i < |OfCategory(data, c)| ==>
      OfCategory(data, c)[i] in data && OfCategory(data, c)[i].category == c
    decreases |data|
  {
    if |data| > 0 {
      var p := data[..|data| - 1];
      OfCategoryFromData(p, c);
      assert forall x :: x in p ==> x in data;
    }
  }

  /** The categories of one record more. */
  lemma CategoriesSnoc(p: seq<Datum>, d: Datum)
    ensures Categories(p + [d]) == Categories(p) + [d.category]
  {
  }

  /** Replacing a bucket by one with the same key leaves the keys alone. */
  lemma KeysUpdate(bs: seq<Bucket>, k: nat, b: Bucket)
    requires k < |bs| && b.key == bs[k].key
    ensures Keys(bs[k := b]) == Keys(bs)
  {
  }

  /** A new bucket at the end adds its key at the end. */
  lemma KeysSnoc(bs: seq<Bucket>, b: Bucket)
    ensures Keys(bs + [b]) == Keys(bs) + [b.key]
  {
  }

  /** One record more: the keys grow exactly as `Distinct` does. */
  lemma GroupByKeysStep(p: seq<Datum>, d: Datum)
    requires Keys(GroupBy(p)) == Distinct(Categories(p))
    ensures Keys(GroupBy(p + [d])) == Distinct(Categories(p + [d]))
  {
    var data := p + [d];
    var bs := GroupBy(p);
    var ds := Distinct(Categories(p));
    assert Distinct(Categories(data)) == if d.category in ds then ds else ds + [d.category] by {
      CategoriesSnoc(p, d);
      DistinctSnoc(Categories(p), d.category);
    }
    match FindKey(bs, d.category)
    case Some(k) =>
      var b := Bucket(bs[k].key, bs[k].members + [d]);
      assert GroupBy(data) == bs[k := b] by {
        assert data[..|data| - 1] == p && data[|data| - 1] == d;
      }
      assert Keys(bs[k := b]) == Keys(bs) by {
        KeysUpdate(bs, k, b);
      }
      assert d.category in ds by {
        assert Keys(bs)[k] == d.category;
      }
    case None =>
      var b := Bucket(d.category, [d]);
      assert GroupBy(data) == bs + [b] by {
        assert data[..|data| - 1] == p && data[|data| - 1] == d;
      }
      assert Keys(bs + [b]) == Keys(bs) + [d.category] by {
        KeysSnoc(bs, b);
      }
  }

  /** The buckets are keyed by the distinct categories, in order of first
      occurrence. */
  lemma {:induction false} GroupByKeys(data: seq<Datum>)
    ensures Keys(GroupBy(data)) == Distinct(Categories(data))
    decreases |data|
  {
    if |data| > 0 {
      var p := data[..|data| - 1];
      GroupByKeys(p);
      assert data == p + [data[|data| - 1]];
      GroupByKeysStep(p, data[|data| - 1]);
    }
  }

  /** Each bucket holds exactly the records of its category, in order. */
  lemma {:induction false} GroupByMembers(data: seq<Datum>)
    ensures forall k :: 0 <= k < |GroupBy(data)| ==>
      GroupBy(data)[k].members == OfCategory(data, GroupBy(data)[k].key)
    decreases |data|
  {
    if |data| > 0 {
      var p := data[..|data| - 1];
      var d := data[|data| - 1];
      GroupByMembers(p);
      GroupByKeys(p);
      var bs := GroupBy(p);
      var ks := Keys(bs);
      assert NoDuplicates(ks);
      var bs2 := GroupBy(data);
      match FindKey(bs, d.category)
      case Some(k0) =>
        forall k | 0 <= k < |bs2|
          ensures bs2[k].members == OfCategory(data, bs2[k].key)
        {
          if k != k0 {
            assert ks[k] != ks[k0];
          }
        }
      case None =>
        assert Categories(data)[..|data| - 1] == Categories(p);
        OfCategoryAbsent(p, d.category);
        forall k | 0 <= k < |bs2|
          ensures bs2[k].members == OfCategory(data, bs2[k].key)
        {
          if k < |bs| {
            assert ks[k] in ks;
          }
        }
    }
  }

  /** The keys of `groupedData` are the distinct categories of the data:
      pairwise different, in order of first occurrence, and each category of
      the data is one of them. */
  lemma GroupSumKeys(data: seq<Datum>)
    ensures GroupKeys(GroupSum(data)) == Distinct(Categories(data))
    ensures InFirstOccurrenceOrder(Categories(data), GroupKeys(GroupSum(data)))
  {
    GroupByKeys(data);
    DistinctKeepsFirstOccurrenceOrder(Categories(data));
    assert GroupKeys(GroupSum(data)) == Keys(GroupBy(data));
  }

  /** Each entry of `groupedData` carries the sum of the values of its
      category's records. */
  lemma GroupSumValues(data: seq<Datum>)
    ensures forall k :: 0 <= k < |GroupSum(data)| ==>
      GroupSum(data)[k].value == Sum(OfCategory(data, GroupSum(data)[k].key), DatumValue)
  {
    GroupByMembers(data);
  }

  lemma {:induction false} SummarizeKeepsTotal(bs: seq<Bucket>)
    ensures TotalValue(Summarize(bs)) == Sum(bs, BucketTotal)
    decreases |bs|
  {
    if |bs| > 0 {
      SummarizeKeepsTotal(bs[..|bs| - 1]);
      assert Summarize(bs)[..|bs| - 1] == Summarize(bs[..|bs| - 1]);
    }
  }

  lemma BucketTotalAppend(b: Bucket, d: Datum)
    ensures BucketTotal(Bucket(b.key, b.members + [d])) == BucketTotal(b) + d.value
  {
    assert (b.members + [d])[..|b.members|] == b.members;
  }

  lemma {:induction false} GroupByKeepsTotal(data: seq<Datum>)
    ensures Sum(GroupBy(data), BucketTotal) == Sum(data, DatumValue)
    decreases |data|
  {
    if |data| > 0 {
      var p := data[..|data| - 1];
      var d := data[|data| - 1];
      GroupByKeepsTotal(p);
      assert Sum(data, DatumValue) == Sum(p, DatumValue) + d.value;
      var bs := GroupBy(p);
      match FindKey(bs, d.category)
      case Some(k) =>
        var b := Bucket(bs[k].key, bs[k].members + [d]);
        assert GroupBy(data) == bs[k := b];
        SumUpdate(bs, k, b, BucketTotal);
        BucketTotalAppend(bs[k], d);
      case None =>
        var b := Bucket(d.category, [d]);
        assert GroupBy(data) == bs + [b];
        SumAppend(bs, [b], BucketTotal);
        BucketTotalAppend(Bucket(d.category, []), d);
        assert [b][..0] == [];
    }
  }

  /** Conservation: `totalValue` equals the sum of all the records' values. */
  lemma TotalValueConserves(data: seq<Datum>)
    ensures TotalValue(GroupSum(data)) == Sum(data, DatumValue)
  {
    SummarizeKeepsTotal(GroupBy(data));
    GroupByKeepsTotal(data);
  }
}
