/** The narrative-evolution view: its column normalisation, the choice of
    the plotted column and the actor-type row filter. */
module TimeTrends {
  import opened Seqs
  import opened Tables

  /** The legacy month label is renamed to "month", but only when the table
      has no "month" column yet; otherwise nothing changes. */
  function NormaliseMonth(t: Table): (r: Table)
    ensures r.rows == t.rows && |r.columns| == |t.columns|
    ensures "created_month" in t.columns && "month" !in t.columns ==>
      "month" in r.columns && "created_month" !in r.columns &&
      forall i :: 0 <= i < |t.columns| ==>
        r.columns[i] == if t.columns[i] == "created_month" then "month" else t.columns[i]
    ensures "created_month" !in t.columns || "month" in t.columns ==> r == t
    ensures t.Valid() ==> r.Valid()
  {
    if "created_month" in t.columns && "month" !in t.columns then RenameColumn(t, "created_month", "month") else t
  }

  /** Normalising a second time changes nothing. */
  lemma NormaliseMonthIdempotent(t: Table)
    ensures NormaliseMonth(NormaliseMonth(t)) == NormaliseMonth(t)
  {
  }

  /** Normalisation changes no cell: every column other than the two month
      labels reads as before, and a renamed "month" reads what
      "created_month" held. */
  lemma NormaliseMonthKeepsCells(t: Table, row: Row)
    ensures forall c :: c != "month" && c != "created_month" ==>
      Cell(NormaliseMonth(t).columns, row, c) == Cell(t.columns, row, c)
    ensures "month" !in t.columns ==>
      Cell(NormaliseMonth(t).columns, row, "month") == Cell(t.columns, row, "created_month")
  {
    RenameKeepsCells(t, "created_month", "month", row);
    if "created_month" !in t.columns && "month" !in t.columns {
      assert IndexOf(t.columns, "created_month") == |t.columns| == IndexOf(t.columns, "month");
    }
  }

  /** The plotted column: "percent" for the Percent metric when the table
      has that column, "count" in every other case. */
  function YColumn(columns: seq<string>, yField: string): (ycol: string)
    ensures ycol == "percent" <==> yField == "Percent" && "percent" in columns
    ensures ycol != "percent" ==> ycol == "count"
  {
    if yField == "Percent" && "percent" in columns then "percent" else "count"
  }

  /** `filter_df(df, y_field)`: the month-normalised table and its plotted
      column. The rows and cells are untouched, the Count metric always
      plots "count", and Percent falls back to "count" without a "percent"
      column. */
  function FilterDf(t: Table, yField: string): (r: (Table, string))
    ensures r.0.rows == t.rows
    ensures r.0 == NormaliseMonth(t)
    ensures r.1 == "percent" <==> yField == "Percent" && "percent" in t.columns
    ensures r.1 == "percent" || r.1 == "count"
    ensures yField == "Count" ==> r.1 == "count"
  {
    var df := NormaliseMonth(t);
    assert "percent" in df.columns <==> "percent" in t.columns by {
      if "created_month" in t.columns && "month" !in t.columns {
        RenameKeepsIndex(t.columns, "created_month", "month", "percent");
      }
    }
    (df, YColumn(df.columns, yField))
  }

  /** Applying `filter_df` to its own result gives the same table and the
      same plotted column. */
  lemma {:induction false} FilterDfIdempotent(t: Table, yField: string)
    ensures FilterDf(FilterDf(t, yField).0, yField) == FilterDf(t, yField)
  {
    NormaliseMonthIdempotent(t);
  }
}
