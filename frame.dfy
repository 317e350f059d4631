/** The analyzer's one piece of state, a pandas DataFrame, as a header of
    column names and a sequence of rows of cells, one cell per column. */
module Frame {
  import opened Calendar
  import opened Seqs

  datatype Option<T> = None | Some(value: T)

  /** A cell: missing, text, a number, or a parsed timestamp at day
      granularity. `Missing` is what `dropna`, `fillna` and `errors="coerce"`
      treat as absent; rendered as text it is NaN's "nan". */
  datatype Cell = Missing | Text(s: string) | Number(x: real) | Timestamp(date: Date)

  type Row = seq<Cell>

  datatype Table = Table(columns: seq<string>, rows: seq<Row>)

  /** The exceptions the analyzer lets escape: a column that is not there
      (`KeyError`), `admissions_over_time`'s explicit `ValueError`, an operation
      applied to cells of the wrong kind (`TypeError`), and the cast of a
      non-finite age bin to `int`. */
  datatype Error =
    | KeyError(column: string)
    | ValueError(message: string)
    | TypeError(column: string)
    | IntCastError

  datatype Result<T> = Ok(value: T) | Err(error: Error)

  /** Every row has one cell per column, as in any DataFrame. */
  predicate WellFormed(t: Table) {
    forall k :: 0 <= k < |t.rows| ==> |t.rows[k]| == |t.columns|
  }

  /** `row[name]`: the cell under the first column with that name. */
  function Get(columns: seq<string>, row: Row, name: string): Cell
    requires |row| == |columns| && name in columns
  {
    row[IndexOf(columns, name)]
  }

  /** `df[name]`: the column's cells, top to bottom. */
  function Column(t: Table, name: string): (cells: seq<Cell>)
    requires WellFormed(t) && name in t.columns
    ensures |cells| == |t.rows|
    ensures forall k :: 0 <= k < |t.rows| ==> cells[k] == Get(t.columns, t.rows[k], name)
  {
    seq(|t.rows|, k requires 0 <= k < |t.rows| => Get(t.columns, t.rows[k], name))
  }

  /** The cells of `cells` that are not missing, in order (`dropna`). */
  function Present(cells: seq<Cell>): (r: seq<Cell>)
    ensures forall c :: c in r ==> c in cells && c != Missing
    ensures forall c :: c in cells && c != Missing ==> c in r
  {
    if cells == [] then []
    else
      var last := cells[|cells| - 1];
      var init := cells[..|cells| - 1];
      assert cells == init + [last];
      Present(init) + (if last == Missing then [] else [last])
  }

  /** `dropna` keeps every present value as often as it occurs. */
  lemma {:induction false} PresentCount(cells: seq<Cell>, x: Cell)
    ensures Count(Present(cells), x) == if x == Missing then 0 else Count(cells, x)
  {
    if cells != [] {
      var last := cells[|cells| - 1];
      var init := cells[..|cells| - 1];
      PresentCount(init, x);
      assert Count(cells, x) == Count(init, x) + (if last == x then 1 else 0);
      if last != Missing {
        assert Present(cells) == Present(init) + [last];
        CountAppend(Present(init), last, x);
      } else {
        assert Present(cells) == Present(init);
      }
    }
  }

  /** `dropna` drops exactly the missing cells. */
  lemma {:induction false} PresentLength(cells: seq<Cell>)
    ensures |Present(cells)| + Count(cells, Missing) == |cells|
  {
    if cells != [] {
      var last := cells[|cells| - 1];
      var init := cells[..|cells| - 1];
      PresentLength(init);
      CountAppend(init, last, Missing);
      assert cells == init + [last];
    }
  }
}
