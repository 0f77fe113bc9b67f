/**
 * The DataFrame read from the spreadsheet and the two changes `get_json_items`
 * makes to it before it is serialised: a 1-based row index, and the
 * replacement of the zero-currency placeholder in the `Discounts` column.
 */
module Frame {
  import opened Wrappers
  import opened Values

  /** A DataFrame: its column labels, its row index and its rows. */
  datatype DataFrame = DataFrame(columns: seq<string>, index: seq<int>, rows: seq<Row>)

  /** Every row has exactly the frame's columns, and the index has one entry per row. */
  predicate WellFormed(df: DataFrame)
  {
    |df.index| == |df.rows| &&
    forall i :: 0 <= i < |df.rows| ==> df.rows[i].Keys == (set c | c in df.columns)
  }

  const Discounts: string := "Discounts"

  /** The text the spreadsheet shows for a zero currency amount. */
  const Placeholder: string := " $-   "

  /** What the placeholder is replaced by. */
  const Zero: string := "0.0"

  /**
   * The row numbering of app.py:21: the frame's index is replaced by a list built
   * from the number of rows, so every row gets the index 1, 2, ..., n in row order, so the index is strictly
   * increasing and no two rows share it; nothing else changes.
   */
  method AssignRowIndex(df: DataFrame) returns (r: DataFrame)
    requires WellFormed(df)
    ensures WellFormed(r)
    ensures r.columns == df.columns && r.rows == df.rows
    ensures |r.index| == |df.rows|
    ensures forall i :: 0 <= i < |r.index| ==> r.index[i] == i + 1
    ensures forall i, j :: 0 <= i < j < |r.index| ==> r.index[i] < r.index[j]
  {
    var index: seq<int> := [];
    var i := 1;
    while i <= |df.rows|
      invariant 1 <= i <= |df.rows| + 1
      invariant |index| == i - 1
      invariant forall k :: 0 <= k < |index| ==> index[k] == k + 1
    {
      index := index + [i];
      i := i + 1;
    }
    r := df.(index := index);
  }

  function ReplaceInRow(row: Row): Row
  {
    if Discounts in row && row[Discounts] == StrCell(Placeholder) then row[Discounts := StrCell(Zero)]
    else row
  }

  /**
   * The placeholder replacement of app.py:24, on the Discounts column only:
   * a KeyError when there is no Discounts column; otherwise exactly the Discounts
   * cells equal to the placeholder become "0.0", and every other cell, column and
   * the index stay as they were.
   */
  function ReplaceDiscounts(df: DataFrame): (r: Result<DataFrame, PyError>)
    requires WellFormed(df)
    ensures r.Success? ==> WellFormed(r.value)
    ensures r.Failure? <==> Discounts !in df.columns
    ensures r.Failure? ==> r.error == KeyError(Discounts)
    ensures r.Success? ==>
      r.value.columns == df.columns && r.value.index == df.index && |r.value.rows| == |df.rows|
    ensures r.Success? ==> forall i :: 0 <= i < |df.rows| ==> r.value.rows[i].Keys == df.rows[i].Keys
    ensures r.Success? ==> forall i, c :: 0 <= i < |df.rows| && c in df.rows[i] ==>
      r.value.rows[i][c] ==
        (if c == Discounts && df.rows[i][c] == StrCell(Placeholder) then StrCell(Zero) else df.rows[i][c])
  {
    if Discounts !in df.columns then Failure(KeyError(Discounts))
    else Success(df.(rows := seq(|df.rows|, i requires 0 <= i < |df.rows| => ReplaceInRow(df.rows[i]))))
  }

  /** After the replacement no Discounts cell is the placeholder any more, so a second
      replacement changes nothing. */
  lemma ReplaceDiscountsIdempotent(df: DataFrame)
    requires WellFormed(df) && ReplaceDiscounts(df).Success?
    ensures forall i :: 0 <= i < |df.rows| && Discounts in ReplaceDiscounts(df).value.rows[i] ==>
      ReplaceDiscounts(df).value.rows[i][Discounts] != StrCell(Placeholder)
    ensures ReplaceDiscounts(ReplaceDiscounts(df).value) == ReplaceDiscounts(df)
  {
    var once := ReplaceDiscounts(df).value;
    var twice := ReplaceDiscounts(once).value;
    assert Zero != Placeholder;
    forall i | 0 <= i < |df.rows|
      ensures twice.rows[i] == once.rows[i]
    {
      assert ReplaceInRow(once.rows[i]) == once.rows[i];
    }
    assert twice.rows == once.rows;
    assert twice == once;
  }
}
