/**
 One `update` call of the visual, end to end: split the rows into columns,
 build the ordered period axis, and let `animatePeriods` draw one treemap
 frame per period, in axis order. A frame is what `createTreemap` draws for
 `filteredData(period)`.
 */
module Visual {
  import opened Seqs
  import opened Table
  import opened Periods
  import opened Filter
  import opened Grouping
  import opened Shares
  import opened Scheduler

  /** `createTreemap(filteredData(period))` for each render of the chain. */
  function Draw(c: Columns, renders: seq<Rendered>): seq<seq<Leaf>>
    requires c.Aligned()
  {
    seq(|renders|, k requires 0 <= k < |renders| => CreateTreemap(FilteredData(c, renders[k].period)))
  }

  /** The frames one `update(rows)` call draws, in the order it draws them. */
  function Update(rows: seq<Row>): seq<seq<Leaf>>
  {
    var c := Split(rows);
    Draw(c, Run(Start(UniquePeriods(c.periods))))
  }

  /** Some row of the table carries period `p`. */
  ghost predicate HasPeriod(rows: seq<Row>, p: int) {
    exists i :: 0 <= i < |rows| && rows[i].period == p
  }

  /** The period axis, stated on the rows: strictly ascending, and holding a
      period exactly when some row carries it. */
  lemma AxisOfRows(rows: seq<Row>)
    ensures var axis := UniquePeriods(Split(rows).periods);
      && StrictlyAscending(axis)
      && forall p :: p in axis <==> HasPeriod(rows, p)
  {
    var c := Split(rows);
    forall p
      ensures p in c.periods <==> HasPeriod(rows, p)
    {
      if p in c.periods {
        var i :| 0 <= i < |c.periods| && c.periods[i] == p;
        assert RowAt(c, i, rows[i]);
      }
      if HasPeriod(rows, p) {
        var i :| 0 <= i < |rows| && rows[i].period == p;
        assert RowAt(c, i, rows[i]);
      }
    }
  }

  /** A period no row carries filters to nothing: no groups, a zero total,
      and a frame holding only the bare root, labelled `NaN`. */
  lemma EmptyPeriodHasNoGroups(c: Columns, p: int)
    requires c.Aligned()
    requires p !in c.periods
    ensures GroupSum(FilteredData(c, p)) == []
    ensures TotalValue(GroupSum(FilteredData(c, p))) == 0
    ensures CreateTreemap(FilteredData(c, p)) == [Root(NaN)]
  {
    FilteredDataNonEmptyIff(c, p);
  }

  /** `update` draws one frame per distinct period, in ascending period
      order; frame `k` is the treemap of the rows of the `k`-th period, and
      every node of a frame is a group leaf, never the bare root, because
      every period on the axis comes from a row. */
  lemma UpdateDrawsEachPeriodOnce(rows: seq<Row>)
    ensures var c := Split(rows);
      var axis := UniquePeriods(c.periods);
      var frames := Update(rows);
      && |frames| == |axis|
      && forall k :: 0 <= k < |frames| ==>
           && frames[k] == CreateTreemap(FilteredData(c, axis[k]))
           && |frames[k]| > 0
           && forall i :: 0 <= i < |frames[k]| ==> frames[k][i].Leaf?
  {
    var c := Split(rows);
    var axis := UniquePeriods(c.periods);
    AnimateVisitsEachPeriodOnce(axis);
    forall k | 0 <= k < |axis|
      ensures var frame := CreateTreemap(FilteredData(c, axis[k]));
        |frame| > 0 && forall i :: 0 <= i < |frame| ==> frame[i].Leaf?
    {
      var data := FilteredData(c, axis[k]);
      FilteredDataNonEmptyIff(c, axis[k]);
      assert Categories(data)[0] in Categories(data);
      var frame := CreateTreemap(data);
      assert Categories(data)[0] in LeafKeys(frame);
    }
  }

  /** The frame of a period whose rows have non-negative values with a
      positive sum: finite labels in [0, 100] adding up to 100. */
  lemma PeriodFrameSharesSumToHundred(rows: seq<Row>, p: int)
    requires forall i :: 0 <= i < |rows| && rows[i].period == p ==> rows[i].value >= 0
    requires Sum(FilteredData(Split(rows), p), DatumValue) > 0
    ensures var frame := CreateTreemap(FilteredData(Split(rows), p));
      && (forall i :: 0 <= i < |frame| ==> frame[i].share.Finite? && 0.0 <= frame[i].share.percent <= 100.0)
      && PercentSum(frame) == 100.0
  {
    var data := FilteredData(Split(rows), p);
    FilterKeepsExactlyTheRowsOfPeriod(rows, p);
    assert forall k :: 0 <= k < |data| ==> data[k].value >= 0;
    TreemapSharesSumToHundred(data);
  }

  /** When every value is non-negative and every period's values have a
      positive sum, every frame `update` draws labels each leaf with a finite
      percentage in [0, 100], and a frame's labels add up to 100. */
  lemma UpdateSharesSumToHundred(rows: seq<Row>)
    requires forall i :: 0 <= i < |rows| ==> rows[i].value >= 0
    requires forall i :: 0 <= i < |rows| ==> Sum(FilteredData(Split(rows), rows[i].period), DatumValue) > 0
    ensures forall k :: 0 <= k < |Update(rows)| ==>
        && (forall i :: 0 <= i < |Update(rows)[k]| ==>
              Update(rows)[k][i].share.Finite? && 0.0 <= Update(rows)[k][i].share.percent <= 100.0)
        && PercentSum(Update(rows)[k]) == 100.0
  {
    var c := Split(rows);
    var axis := UniquePeriods(c.periods);
    UpdateDrawsEachPeriodOnce(rows);
    forall k | 0 <= k < |axis|
      ensures var frame := CreateTreemap(FilteredData(c, axis[k]));
        && (forall i :: 0 <= i < |frame| ==> frame[i].share.Finite? && 0.0 <= frame[i].share.percent <= 100.0)
        && PercentSum(frame) == 100.0
    {
      assert axis[k] in axis;
      var i :| 0 <= i < |c.periods| && c.periods[i] == axis[k];
      assert RowAt(c, i, rows[i]);
      PeriodFrameSharesSumToHundred(rows, axis[k]);
    }
  }

  /** The columns and filters of the three-row example below. */
  lemma ExampleFilters(rows: seq<Row>)
    requires rows == [Row("X", 10, 1), Row("Y", 5, 1), Row("X", 20, 2)]
    ensures Split(rows).periods == [1, 1, 2]
    ensures FilteredData(Split(rows), 1) == [Datum("X", 10), Datum("Y", 5)]
    ensures FilteredData(Split(rows), 2) == [Datum("X", 20)]
  {
    var c := Split(rows);
    assert RowAt(c, 0, rows[0]) && RowAt(c, 1, rows[1]) && RowAt(c, 2, rows[2]);
    assert c == Columns(["X", "Y", "X"], [10, 5, 20], [1, 1, 2]);
    var t1 := Tagged(c, 1);
    assert t1 == [Some(Datum("X", 10)), Some(Datum("Y", 5)), None];
    assert t1[..2] == [Some(Datum("X", 10)), Some(Datum("Y", 5))];
    assert t1[..2][..1] == [Some(Datum("X", 10))] && t1[..2][..1][..0] == [];
    assert Defined(t1[..2][..1]) == [Datum("X", 10)];
    assert Defined(t1[..2]) == [Datum("X", 10), Datum("Y", 5)];
    assert Defined(t1) == Defined(t1[..2]);
    var t2 := Tagged(c, 2);
    assert t2 == [None, None, Some(Datum("X", 20))];
    assert t2[..2] == [None, None];
    assert t2[..2][..1] == [None] && t2[..2][..1][..0] == [];
    assert Defined(t2[..2][..1]) == [];
    assert Defined(t2[..2]) == [];
    assert Defined(t2) == [Datum("X", 20)];
  }

  /** The frames of the two periods of the three-row example. */
  lemma ExampleFrames(rows: seq<Row>)
    requires rows == [Row("X", 10, 1), Row("Y", 5, 1), Row("X", 20, 2)]
    ensures CreateTreemap(FilteredData(Split(rows), 1))
      == [Leaf("X", 10, Percentage(10, 15)), Leaf("Y", 5, Percentage(5, 15))]
    ensures CreateTreemap(FilteredData(Split(rows), 2)) == [Leaf("X", 20, Percentage(20, 20))]
  {
    ExampleFilters(rows);
    TwoCategoryFrame("X", 10, "Y", 5);
    SingleRecordFrame(Datum("X", 20));
  }

  /** A table with two periods draws exactly their two frames, in order. */
  lemma TwoPeriodUpdate(rows: seq<Row>, p1: int, p2: int)
    requires UniquePeriods(Split(rows).periods) == [p1, p2]
    ensures Update(rows) == [CreateTreemap(FilteredData(Split(rows), p1)), CreateTreemap(FilteredData(Split(rows), p2))]
  {
    UpdateDrawsEachPeriodOnce(rows);
    var frames := Update(rows);
    assert frames == [frames[0], frames[1]];
  }

  /** The period axis of the three-row example. */
  lemma ExampleAxis(rows: seq<Row>)
    requires rows == [Row("X", 10, 1), Row("Y", 5, 1), Row("X", 20, 2)]
    ensures UniquePeriods(Split(rows).periods) == [1, 2]
  {
    ExampleFilters(rows);
    UniquePeriodsIsSortedSetOfPeriods(Split(rows).periods, [1, 2]);
  }

  /** Rows (X, 10, 1), (Y, 5, 1), (X, 20, 2): the axis is [1, 2]; the first
      frame shows X = 10 and Y = 5, the second shows X = 20 alone. */
  lemma TwoPeriodExample(rows: seq<Row>)
    requires rows == [Row("X", 10, 1), Row("Y", 5, 1), Row("X", 20, 2)]
    ensures Update(rows)
      == [[Leaf("X", 10, Percentage(10, 15)), Leaf("Y", 5, Percentage(5, 15))],
          [Leaf("X", 20, Percentage(20, 20))]]
  {
    ExampleAxis(rows);
    TwoPeriodUpdate(rows, 1, 2);
    ExampleFrames(rows);
  }
}
