/**
 `filteredData(period)`: the `{ category, value }` records of the rows whose
 period is exactly `period`. The source maps every index of `names` to a
 record or to `undefined`, then drops the `undefined` entries.
 */
module Filter {
  import opened Seqs
  import opened Table

  /** `names.map((category, i) => periods[i] === period
        ? { category, value: values[i] } : undefined)` */
  function Tagged(c: Columns, p: int): seq<Option<Datum>>
    requires c.Aligned()
  {
    seq(|c.names|, i requires 0 <= i < |c.names| =>
      if c.periods[i] == p then Some(Datum(c.names[i], c.values[i])) else None)
  }

  /** `.filter(d => d !== undefined)` */
  function Defined<T>(s: seq<Option<T>>): seq<T>
    decreases |s|
  {
    if |s| == 0 then []
    else
      var d := Defined(s[..|s| - 1]);
      match s[|s| - 1]
      case Some(v) => d + [v]
      case None => d
  }

  function FilteredData(c: Columns, p: int): seq<Datum>
    requires c.Aligned()
  {
    Defined(Tagged(c, p))
  }

  /** The indices of the period column holding `p`, in increasing order. */
  function MatchingIndices(periods: seq<int>, p: int): (idx: seq<nat>)
    ensures forall k :: 0 <= k < |idx| ==> idx[k] < |periods| && periods[idx[k]] == p
    ensures forall i :: 0 <= i < |periods| && periods[i] == p ==> i in idx
    ensures forall k, l :: 0 <= k < l < |idx| ==> idx[k] < idx[l]
    decreases |periods|
  {
    if |periods| == 0 then []
    else
      var m := MatchingIndices(periods[..|periods| - 1], p);
      if periods[|periods| - 1] == p then m + [|periods| - 1] else m
  }

  /** `r` lists, in order, the records of the rows at indices `idx`. */
  ghost predicate Selects(c: Columns, idx: seq<nat>, r: seq<Datum>)
    requires c.Aligned()
  {
    && |r| == |idx|
    && forall k :: 0 <= k < |r| ==> idx[k] < |c.names| && r[k] == Datum(c.names[idx[k]], c.values[idx[k]])
  }

  /** The filter yields exactly the records of the rows whose period is `p`,
      in table order: one record per matching index and nothing else. */
  lemma {:induction false} FilteredDataSelectsMatchingRows(c: Columns, p: int)
    requires c.Aligned()
    ensures Selects(c, MatchingIndices(c.periods, p), FilteredData(c, p))
    decreases |c.names|
  {
    if |c.names| > 0 {
      var n := |c.names|;
      var c' := c.Take(n - 1);
      FilteredDataSelectsMatchingRows(c', p);
      var t := Tagged(c, p);
      assert t[..n - 1] == Tagged(c', p);
      assert c.periods[..n - 1] == c'.periods;
      var idx' := MatchingIndices(c'.periods, p);
      var r' := FilteredData(c', p);
      assert Defined(t[..n - 1]) == r';
      assert Selects(c, idx', r') by {
        forall k | 0 <= k < |r'|
          ensures idx'[k] < |c.names| && r'[k] == Datum(c.names[idx'[k]], c.values[idx'[k]])
        {
          assert c'.names[idx'[k]] == c.names[idx'[k]] && c'.values[idx'[k]] == c.values[idx'[k]];
        }
      }
      if c.periods[n - 1] == p {
        assert MatchingIndices(c.periods, p) == idx' + [n - 1];
        assert FilteredData(c, p) == r' + [Datum(c.names[n - 1], c.values[n - 1])];
      } else {
        assert MatchingIndices(c.periods, p) == idx';
        assert FilteredData(c, p) == r';
      }
    }
  }

  /** Stated on the rows themselves: record `k` of `filteredData(p)` is the
      category and value of row `idx[k]`, every such row has period `p`, the
      indices increase, and every row with period `p` is among them. */
  lemma FilterKeepsExactlyTheRowsOfPeriod(rows: seq<Row>, p: int)
    ensures var c := Split(rows);
      var idx := MatchingIndices(c.periods, p);
      var r := FilteredData(c, p);
      && |r| == |idx|
      && (forall k :: 0 <= k < |r| ==>
            idx[k] < |rows| && rows[idx[k]].period == p
            && r[k] == Datum(rows[idx[k]].category, rows[idx[k]].value))
      && (forall k, l :: 0 <= k < l < |idx| ==> idx[k] < idx[l])
      && (forall i :: 0 <= i < |rows| && rows[i].period == p ==> i in idx)
  {
    var c := Split(rows);
    FilteredDataSelectsMatchingRows(c, p);
    forall i | 0 <= i < |rows|
      ensures c.periods[i] == rows[i].period
    {
      assert RowAt(c, i, rows[i]);
    }
  }

  /** A period yields a non-empty filter exactly when some row carries it. */
  lemma FilteredDataNonEmptyIff(c: Columns, p: int)
    requires c.Aligned()
    ensures |FilteredData(c, p)| > 0 <==> p in c.periods
  {
    FilteredDataSelectsMatchingRows(c, p);
    var idx := MatchingIndices(c.periods, p);
    if p in c.periods {
      var i :| 0 <= i < |c.periods| && c.periods[i] == p;
      assert i in idx;
    }
    if |idx| > 0 {
      assert c.periods[idx[0]] == p;
    }
  }
}
