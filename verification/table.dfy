/**
 The input table of the visual and its column view. Each row of the host's
 data table is a `(category, value, period)` tuple; `update` copies the three
 fields into three parallel arrays `names`, `values` and `periods`, one push
 per row, and every later step reads those arrays rather than the rows.
 */
module Table {

  /** One row of the data table: `row[0]`, `row[1]`, `row[2]`. */
  datatype Row = Row(category: string, value: int, period: int)

  /** The `{ category, value }` record that the period filter produces. */
  datatype Datum = Datum(category: string, value: int)

  /** The three parallel arrays built from the rows. */
  datatype Columns = Columns(names: seq<string>, values: seq<int>, periods: seq<int>) {

    predicate Aligned() {
      |names| == |values| == |periods|
    }

    /** The columns of the first `n` rows. */
    function Take(n: nat): (c: Columns)
      requires Aligned() && n <= |names|
      ensures c.Aligned() && |c.names| == n
    {
      Columns(names[..n], values[..n], periods[..n])
    }
  }

  /** Row `i` of the table, seen through the columns. */
  predicate RowAt(c: Columns, i: nat, row: Row)
    requires c.Aligned() && i < |c.names|
  {
    c.names[i] == row.category && c.values[i] == row.value && c.periods[i] == row.period
  }

  /** `rows.forEach(row => { names.push(row[0]); values.push(row[1]);
      periods.push(row[2]); })`: the columns after the last row's pushes are
      those after the earlier rows' pushes, extended by one element each. */
  function Split(rows: seq<Row>): (c: Columns)
    ensures c.Aligned() && |c.names| == |rows|
    ensures forall i :: 0 <= i < |rows| ==> RowAt(c, i, rows[i])
    decreases |rows|
  {
    if |rows| == 0 then Columns([], [], [])
    else
      var c := Split(rows[..|rows| - 1]);
      var row := rows[|rows| - 1];
      Columns(c.names + [row.category], c.values + [row.value], c.periods + [row.period])
  }
}
