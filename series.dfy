/** Data frames reduced to what the importers do with them: a time index (minutes
    since 1970-01-01T00:00) and, per row, one cell per value column. */
module Series {
  import opened Wrappers

  /** A numeric cell; `None` stands for pandas' NaN (a missing value). */
  type Cell = Option<real>

  datatype Row = Row(time: int, cells: seq<Cell>)

  /** A frame with string column names besides its time column. */
  datatype Table = Table(columns: seq<string>, rows: seq<Row>)

  /** A pandas column label: a string, or the integer position pandas assigns to the
      columns of a frame built from a bare array. */
  datatype Label = Name(s: string) | Position(p: int)

  /** A frame whose column labels may be integers. */
  datatype LabelledTable = LabelledTable(labels: seq<Label>, rows: seq<Row>)

  /** Every row has exactly `n` cells. */
  predicate HasWidth(rows: seq<Row>, n: nat) {
    forall i :: 0 <= i < |rows| ==> |rows[i].cells| == n
  }

  predicate WellFormed(t: Table) {
    HasWidth(t.rows, |t.columns|)
  }

  function Times(rows: seq<Row>): seq<int> {
    seq(|rows|, i requires 0 <= i < |rows| => rows[i].time)
  }
}
