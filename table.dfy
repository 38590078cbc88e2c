/**
 * A data frame as the preprocessing sees it: an ordered list of column
 * names and a sequence of rows, each row mapping every column name to a
 * cell. Overwriting or adding a column changes the frame in place.
 */
module Table {
  import opened Common

  /** Milliseconds in one day. */
  const DAY_MS: int := 86400000

  /** A time of day, in milliseconds since midnight. */
  type TimeOfDay = t: int | 0 <= t < DAY_MS

  /** One cell of a frame; `Null` is pandas' missing value (NaN / NaT). */
  datatype Cell =
    | Null
    | Text(s: string)
    | Num(x: real)
    | Date(day: int)                 // a calendar date, days since the epoch
    | Clock(t: TimeOfDay)            // a time of day
    | Stamp(ms: int)                 // a naive date and time, wall-clock milliseconds
    | Local(wall: int, offset: int)  // a date and time localized to a zone: wall clock and UTC offset
    | Instant(ms: int)               // an instant in UTC, milliseconds since the epoch

  type Row = map<string, Cell>

  function ColumnSet(columns: seq<string>): set<string>
  {
    set c | c in columns
  }

  /** Every row has exactly the frame's columns. */
  predicate WellFormed(columns: seq<string>, rows: seq<Row>)
  {
    forall r :: r in rows ==> r.Keys == ColumnSet(columns)
  }

  /** The column list after assigning `name`: unchanged if present, else appended. */
  function AddColumn(columns: seq<string>, name: string): seq<string>
  {
    if name in columns then columns else columns + [name]
  }

  /** Every row with its `name` cell replaced by the matching entry of `values`. */
  function Assign(rows: seq<Row>, name: string, values: seq<Cell>): (r: seq<Row>)
    requires |values| == |rows|
    ensures |r| == |rows|
  {
    seq(|rows|, i requires 0 <= i < |rows| => rows[i][name := values[i]])
  }

  /** The cell of `row` in column `name`; missing when the row lacks the column. */
  function Get(row: Row, name: string): Cell
  {
    if name in row then row[name] else Null
  }

  /** The `name` column of `rows` with `f` applied to every cell (Series.apply and friends). */
  function Mapped(rows: seq<Row>, name: string, f: Cell -> Cell): (values: seq<Cell>)
    ensures |values| == |rows|
  {
    seq(|rows|, i requires 0 <= i < |rows| => f(Get(rows[i], name)))
  }

  /** The `name` column of `rows` as it stands (`frame[name]`). */
  function Column(rows: seq<Row>, name: string): (values: seq<Cell>)
    ensures |values| == |rows|
    ensures forall i :: 0 <= i < |rows| ==> values[i] == Get(rows[i], name)
  {
    seq(|rows|, i requires 0 <= i < |rows| => Get(rows[i], name))
  }

  /** `frame[name] = f(frame[name])` on the rows of a frame. */
  function MapColumn(rows: seq<Row>, name: string, f: Cell -> Cell): (r: seq<Row>)
    ensures |r| == |rows|
  {
    Assign(rows, name, Mapped(rows, name, f))
  }

  /** Rows with no missing value in any of the `subset` columns (DataFrame.dropna). */
  function DropNa(rows: seq<Row>, subset: seq<string>): (r: seq<Row>)
    ensures |r| <= |rows|
    ensures forall row :: row in r ==> row in rows && NotNa(row, subset)
    ensures forall row :: row in rows && NotNa(row, subset) ==> row in r
  {
    Filter(rows, Complete(subset))
  }

  /** The drop-na test as a value, so that every use denotes the same predicate. */
  function Complete(subset: seq<string>): Row -> bool
  {
    row => NotNa(row, subset)
  }

  /** The rows `dropna` removes, as a value. */
  function Incomplete(subset: seq<string>): Row -> bool
  {
    row => !NotNa(row, subset)
  }

  /** A row has a value in a column exactly when its cell there is not missing. */
  lemma NotNaByCells(row: Row, subset: seq<string>)
    ensures NotNa(row, subset) <==> forall c :: c in subset ==> Get(row, c) != Null
  {
  }

  predicate NotNa(row: Row, subset: seq<string>)
  {
    forall c :: c in subset ==> c in row && row[c] != Null
  }

  class Frame {
    var columns: seq<string>
    var rows: seq<Row>

    predicate Valid()
      reads this
    {
      WellFormed(columns, rows)
    }

    constructor (columns: seq<string>, rows: seq<Row>)
      requires WellFormed(columns, rows)
      ensures Valid()
      ensures this.columns == columns && this.rows == rows
    {
      this.columns := columns;
      this.rows := rows;
    }

    /** `frame[name] = values`: overwrite the column, or add it at the end. */
    method SetColumn(name: string, values: seq<Cell>)
      requires Valid() && |values| == |rows|
      modifies this
      ensures Valid()
      ensures columns == AddColumn(old(columns), name)
      ensures rows == Assign(old(rows), name, values)
    {
      var newRows := Assign(rows, name, values);
      assert forall k :: 0 <= k < |rows| ==> newRows[k].Keys == rows[k].Keys + {name};
      columns := AddColumn(columns, name);
      rows := newRows;
    }
  }
}
