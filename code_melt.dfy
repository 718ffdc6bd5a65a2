/** The theme and framing country charts: the coded columns, those whose
    labels start with a prefix such as "T-" or "F-", melted into long rows. */
module CodeMelt {
  import opened Seqs
  import opened Text
  import opened Tables

  /** The labels that start with `prefix`, in column order. */
  function MatchedColumns(columns: seq<string>, prefix: string): (r: seq<string>)
    ensures IsSubsequence(r, columns)
    ensures forall c :: c in r <==> c in columns && StartsWith(c, prefix)
    ensures forall c :: multiset(r)[c] == if StartsWith(c, prefix) then multiset(columns)[c] else 0
  {
    Filter(columns, c => StartsWith(c, prefix))
  }

  /** `prefix[:-1]`: the prefix without its last character; empty for an
      empty prefix. */
  function VarName(prefix: string): (r: string)
    ensures prefix == [] ==> r == []
    ensures prefix != [] ==> r + [prefix[|prefix| - 1]] == prefix
  {
    if prefix == [] then [] else prefix[..|prefix| - 1]
  }

  /** The theme chart's variable column is "T", the framing chart's "F". */
  lemma ChartVarNames()
    ensures VarName("T-") == "T" && VarName("F-") == "F"
  {
  }

  /** `melt_code_columns(df, id_vars, prefix)`: one long row per (matched
      column, input row) pair under the identifier columns, the variable
      column named after the prefix and "value". Every variable cell names a
      column of the input that starts with the prefix, so no other column
      reaches the output. */
  function MeltCodeColumns(t: Table, idVars: seq<string>, prefix: string): (r: Table)
    requires forall c :: c in idVars ==> c in t.columns
    ensures r.columns == idVars + [VarName(prefix), "value"]
    ensures r.Valid()
    ensures |r.rows| == |MatchedColumns(t.columns, prefix)| * |t.rows|
    ensures forall row: Row :: row in r.rows ==>
      row[|idVars|].Str? && row[|idVars|].s in t.columns && StartsWith(row[|idVars|].s, prefix)
  {
    Melt(t, idVars, MatchedColumns(t.columns, prefix), VarName(prefix), "value")
  }

  /** Row `j * n + i` of the long table (`n` input rows) carries input row
      `i`'s identifier cells, the `j`-th matched column's name and row `i`'s
      cell under that column. */
  lemma MeltCodeColumnsAt(t: Table, idVars: seq<string>, prefix: string, j: int, i: int)
    requires forall c :: c in idVars ==> c in t.columns
    requires 0 <= j < |MatchedColumns(t.columns, prefix)| && 0 <= i < |t.rows|
    ensures 0 <= j * |t.rows| + i < |MeltCodeColumns(t, idVars, prefix).rows|
    ensures var row := MeltCodeColumns(t, idVars, prefix).rows[j * |t.rows| + i];
      var name := MatchedColumns(t.columns, prefix)[j];
      && (forall k :: 0 <= k < |idVars| ==> row[k] == Cell(t.columns, t.rows[i], idVars[k]))
      && row[|idVars|] == Str(name)
      && row[|idVars| + 1] == Cell(t.columns, t.rows[i], name)
  {
    MeltAt(t, idVars, MatchedColumns(t.columns, prefix), VarName(prefix), "value", j, i);
  }
}
