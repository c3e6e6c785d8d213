/**
 The wide table as read and its reshape into one record per (place, period)
 (app.py:43-55). Cells are kept as text; their numeric reading comes later.
 */
module Reshape {

  /** A table: column names and rows of cells. */
  datatype Table = Table(header: seq<string>, rows: seq<seq<string>>)

  /** At least one column (the place names), and every row as wide as the header. */
  predicate WellFormed(t: Table)
  {
    |t.header| >= 1 && forall i :: 0 <= i < |t.rows| ==> |t.rows[i]| == |t.header|
  }

  /** One melted record: place name (first column), period column name, cell text. */
  datatype Record = Record(place: string, period: string, cell: string)

  predicate ColumnsIn(t: Table, cols: seq<nat>)
  {
    forall c :: 0 <= c < |cols| ==> cols[c] < |t.header|
  }

  /** The record that row `i` contributes for column `j`. */
  function Cell(t: Table, i: nat, j: nat): Record
    requires WellFormed(t) && i < |t.rows| && j < |t.header|
  {
    Record(t.rows[i][0], t.header[j], t.rows[i][j])
  }

  /** The block of records that one value column contributes, in row order. */
  function MeltColumn(t: Table, j: nat): (r: seq<Record>)
    requires WellFormed(t) && j < |t.header|
    ensures |r| == |t.rows|
    ensures forall i :: 0 <= i < |r| ==> r[i] == Cell(t, i, j)
  {
    seq(|t.rows|, i requires 0 <= i < |t.rows| => Cell(t, i, j))
  }

  /**
   `melt` with the first column as identifier and `cols` as value columns:
   one block per value column, in column order, each block in row order.
   */
  function Melt(t: Table, cols: seq<nat>): (r: seq<Record>)
    requires WellFormed(t) && ColumnsIn(t, cols)
    ensures |r| == |cols| * |t.rows|
  {
    if |cols| == 0 then []
    else
      var rest := Melt(t, cols[1..]);
      assert |rest| == (|cols| - 1) * |t.rows|;
      MeltColumn(t, cols[0]) + rest
  }

  /** Every cell of every value column appears in the melt, at position `c * n + i`. */
  lemma {:induction false} MeltCovers(t: Table, cols: seq<nat>, c: nat, i: nat)
    requires WellFormed(t) && ColumnsIn(t, cols)
    requires c < |cols| && i < |t.rows|
    ensures c * |t.rows| + i < |Melt(t, cols)|
    ensures Melt(t, cols)[c * |t.rows| + i] == Cell(t, i, cols[c])
  {
    var n := |t.rows|;
    assert c * n + i < (c + 1) * n <= |cols| * n;
    if c > 0 {
      MeltCovers(t, cols[1..], c - 1, i);
      assert c * n + i == n + ((c - 1) * n + i);
    }
  }

  /**
   Conversely, every record of the melt is the cell of some row `i` under
   some value column `cols[c]`, found at position `c * n + i`.
   */
  lemma {:induction false} MeltFrom(t: Table, cols: seq<nat>, k: nat) returns (c: nat, i: nat)
    requires WellFormed(t) && ColumnsIn(t, cols)
    requires k < |Melt(t, cols)|
    ensures c < |cols| && i < |t.rows| && k == c * |t.rows| + i
    ensures Melt(t, cols)[k] == Cell(t, i, cols[c])
  {
    var n := |t.rows|;
    if k < n {
      c, i := 0, k;
    } else {
      var c', i' := MeltFrom(t, cols[1..], k - n);
      c, i := c' + 1, i';
      assert k == (c' + 1) * n + i;
    }
  }
}
