/** The code-distribution view: the actor-type filter, the grouping of code
    rows with their counts summed, the plotted column and the top narrative
    promoters. */
module CodeDistribution {
  import opened Wrappers
  import opened Seqs
  import opened Text
  import opened Tables
  import TimeTrends
  import Leaderboard

  /** One row of the grouped table: a code and the sum of its counts. */
  datatype Group = Group(code: string, count: int)

  /** What a cell adds to a sum of counts: its integer, or nothing for a
      missing value (the sum skips NaN). */
  function CountOf(v: Value): int {
    if v.Int? then v.i else 0
  }

  /** The row has a code: its code cell is a string. */
  function HasCode(columns: seq<string>, codeCol: string): Row -> bool {
    row => Cell(columns, row, codeCol).Str?
  }

  /** A coded row's code with the count it adds to its group. */
  function PairOf(columns: seq<string>, row: Row, codeCol: string): (string, int)
    requires Cell(columns, row, codeCol).Str?
  {
    (Cell(columns, row, codeCol).s, CountOf(Cell(columns, row, "count")))
  }

  /** The (code, count) pair of every row whose code cell is a string, in
      row order; a row without a code belongs to no group. */
  function Coded(columns: seq<string>, rows: seq<Row>, codeCol: string): (r: seq<(string, int)>)
    ensures |r| <= |rows|
    ensures forall code :: (exists p :: p in r && p.0 == code) <==>
      exists row :: row in rows && Cell(columns, row, codeCol) == Str(code)
  {
    if rows == [] then []
    else
      var head := Cell(columns, rows[0], codeCol);
      var rest := Coded(columns, rows[1..], codeCol);
      assert forall row :: row in rows <==> row == rows[0] || row in rows[1..];
      if head.Str? then [PairOf(columns, rows[0], codeCol)] + rest else rest
  }

  /** The pairs correspond one to one, in order, to the coded rows: the
      k-th pair carries the code and the count of the k-th row that has a
      code. */
  lemma {:induction false} CodedPairsRows(columns: seq<string>, rows: seq<Row>, codeCol: string)
    ensures |Coded(columns, rows, codeCol)| == |Filter(rows, HasCode(columns, codeCol))|
    ensures forall k :: 0 <= k < |Coded(columns, rows, codeCol)| ==>
      Cell(columns, Filter(rows, HasCode(columns, codeCol))[k], codeCol).Str? &&
      Coded(columns, rows, codeCol)[k] == PairOf(columns, Filter(rows, HasCode(columns, codeCol))[k], codeCol)
  {
    if rows != [] {
      var keep := HasCode(columns, codeCol);
      CodedPairsRows(columns, rows[1..], codeCol);
      var pairs := Coded(columns, rows, codeCol);
      var rest := Coded(columns, rows[1..], codeCol);
      var coded := Filter(rows, keep);
      var tail := Filter(rows[1..], keep);
      if keep(rows[0]) {
        assert coded == [rows[0]] + tail;
        assert pairs == [PairOf(columns, rows[0], codeCol)] + rest;
        forall k | 0 <= k < |pairs|
          ensures Cell(columns, coded[k], codeCol).Str? && pairs[k] == PairOf(columns, coded[k], codeCol)
        {
          if k > 0 {
            assert pairs[k] == rest[k - 1] && coded[k] == tail[k - 1];
          }
        }
      } else {
        assert coded == tail;
        assert pairs == rest;
      }
    }
  }

  /** The codes of the pairs, in order. */
  function CodesOf<V(!new)>(pairs: seq<(string, V)>): (r: seq<string>)
    ensures forall code :: code in r <==> exists p :: p in pairs && p.0 == code
  {
    if pairs == [] then []
    else
      assert forall p :: p in pairs <==> p == pairs[0] || p in pairs[1..];
      [pairs[0].0] + CodesOf(pairs[1..])
  }

  /** The sum of the counts paired with `code`. */
  function SumFor(pairs: seq<(string, int)>, code: string): int {
    if pairs == [] then 0
    else (if pairs[0].0 == code then pairs[0].1 else 0) + SumFor(pairs[1..], code)
  }

  /** The sum of every count. */
  function Total(pairs: seq<(string, int)>): int {
    if pairs == [] then 0 else pairs[0].1 + Total(pairs[1..])
  }

  /** One group per key, each with its summed count. */
  function MakeGroups(keys: seq<string>, pairs: seq<(string, int)>): (r: seq<Group>)
    ensures |r| == |keys|
    ensures forall k :: 0 <= k < |r| ==> r[k].code == keys[k] && r[k].count == SumFor(pairs, keys[k])
  {
    if keys == [] then [] else [Group(keys[0], SumFor(pairs, keys[0]))] + MakeGroups(keys[1..], pairs)
  }

  function GroupCodes(groups: seq<Group>): seq<string> {
    seq(|groups|, k requires 0 <= k < |groups| => groups[k].code)
  }

  /** `df.groupby(code_col).agg(count=("count", "sum"))`: one group per
      distinct code among the rows, in ascending code order, each carrying
      the sum of its rows' counts. */
  function GroupBy(t: Table, codeCol: string): (r: seq<Group>)
    requires codeCol in t.columns && "count" in t.columns
    ensures StrictlySorted(GroupCodes(r))
    ensures forall code :: code in GroupCodes(r) <==>
      exists row :: row in t.rows && Cell(t.columns, row, codeCol) == Str(code)
    ensures forall g :: g in r ==> g.count == SumFor(Coded(t.columns, t.rows, codeCol), g.code)
  {
    var pairs := Coded(t.columns, t.rows, codeCol);
    var keys := SortedDistinct(CodesOf(pairs));
    var r := MakeGroups(keys, pairs);
    assert GroupCodes(r) == keys;
    r
  }

  /** rq1's `filter_df`: the actor-type selection followed by the grouping.
      The groups are the codes of the selected rows; each group's count is
      the sum over the selected rows with its code, and together the groups
      hold the counts of all selected coded rows. */
  function FilterDf(t: Table, actorType: string, codeCol: string): (r: seq<Group>)
    requires actorType != "All" ==> "actor_type" in t.columns
    requires codeCol in t.columns && "count" in t.columns && "percent" in t.columns
    ensures StrictlySorted(GroupCodes(r))
    ensures forall code :: code in GroupCodes(r) <==>
      exists row :: row in t.rows && Cell(t.columns, row, codeCol) == Str(code) &&
        (actorType == "All" || Cell(t.columns, row, "actor_type") == Str(actorType))
    ensures forall g :: g in r ==>
      g.count == SumFor(Coded(t.columns, SelectEqual(t, "actor_type", actorType).rows, codeCol), g.code)
    ensures GroupTotal(r) == Total(Coded(t.columns, SelectEqual(t, "actor_type", actorType).rows, codeCol))
  {
    var df := SelectEqual(t, "actor_type", actorType);
    GroupByConservesCount(df, codeCol);
    GroupBy(df, codeCol)
  }

  // ----- conservation of counts -----

  function GroupTotal(groups: seq<Group>): int {
    if groups == [] then 0 else groups[0].count + GroupTotal(groups[1..])
  }

  /** What a single pair contributes across all keys. */
  function Spread(keys: seq<string>, p: (string, int)): int {
    if keys == [] then 0 else (if keys[0] == p.0 then p.1 else 0) + Spread(keys[1..], p)
  }

  lemma {:induction false} SpreadAbsent(keys: seq<string>, p: (string, int))
    requires p.0 !in keys
    ensures Spread(keys, p) == 0
  {
    if keys != [] {
      SpreadAbsent(keys[1..], p);
    }
  }

  lemma {:induction false} SpreadOnce(keys: seq<string>, p: (string, int))
    requires NoDuplicates(keys) && p.0 in keys
    ensures Spread(keys, p) == p.1
  {
    if keys[0] == p.0 {
      assert p.0 !in keys[1..] by {
        forall k | 1 <= k < |keys| ensures keys[k] != p.0 {
          assert keys[0] != keys[k];
        }
      }
      SpreadAbsent(keys[1..], p);
    } else {
      SpreadOnce(keys[1..], p);
    }
  }

  /** Adding one pair in front adds its spread to every group total. */
  lemma {:induction false} GroupTotalCons(keys: seq<string>, p: (string, int), pairs: seq<(string, int)>)
    ensures GroupTotal(MakeGroups(keys, [p] + pairs)) == Spread(keys, p) + GroupTotal(MakeGroups(keys, pairs))
  {
    if keys != [] {
      GroupTotalCons(keys[1..], p, pairs);
      assert ([p] + pairs)[1..] == pairs;
    }
  }

  lemma {:induction false} GroupTotalEmpty(keys: seq<string>)
    ensures GroupTotal(MakeGroups(keys, [])) == 0
  {
    if keys != [] {
      GroupTotalEmpty(keys[1..]);
    }
  }

  /** Grouping over distinct keys that cover every code loses no count and
      counts none twice. */
  lemma {:induction false} GroupTotalConserved(keys: seq<string>, pairs: seq<(string, int)>)
    requires NoDuplicates(keys)
    requires forall p :: p in pairs ==> p.0 in keys
    ensures GroupTotal(MakeGroups(keys, pairs)) == Total(pairs)
  {
    if pairs == [] {
      GroupTotalEmpty(keys);
    } else {
      assert pairs == [pairs[0]] + pairs[1..];
      GroupTotalConserved(keys, pairs[1..]);
      GroupTotalCons(keys, pairs[0], pairs[1..]);
      SpreadOnce(keys, pairs[0]);
    }
  }

  /** The grouped counts add up to the counts of all coded rows. */
  lemma GroupByConservesCount(t: Table, codeCol: string)
    requires codeCol in t.columns && "count" in t.columns
    ensures GroupTotal(GroupBy(t, codeCol)) == Total(Coded(t.columns, t.rows, codeCol))
  {
    var pairs := Coded(t.columns, t.rows, codeCol);
    var keys := SortedDistinct(CodesOf(pairs));
    assert NoDuplicates(keys) by {
      forall i, j | 0 <= i < j < |keys| ensures keys[i] != keys[j] {
        StrictlySortedNoDuplicates(keys, i, j);
      }
    }
    GroupTotalConserved(keys, pairs);
  }

  // ----- plotted column and top promoters -----

  /** The plotted column: "count" for the Count metric, "percent" for any
      other choice. */
  function RankColumn(metric: string): (ycol: string)
    ensures ycol == "count" <==> metric == "Count"
    ensures ycol != "count" ==> ycol == "percent"
  {
    if metric == "Count" then "count" else "percent"
  }

  /** For the two offered metrics this rule and the time view's rule choose
      the same column whenever the table has a "percent" column. */
  lemma RankColumnMatchesTimeView(columns: seq<string>, metric: string)
    requires metric == "Count" || metric == "Percent"
    requires "percent" in columns
    ensures RankColumn(metric) == TimeTrends.YColumn(columns, metric)
  {
  }

  /** `df.sort_values(by="tweet_count", ascending=False).head(top_n)`: at
      most `n` rows, a prefix of the ranking, in non-increasing tweet count,
      each ranking at or above every row left out. */
  function TopN(t: Table, n: nat): (r: Table)
    requires "tweet_count" in t.columns
    ensures r.columns == t.columns
    ensures |r.rows| == if n < |t.rows| then n else |t.rows|
    ensures r.rows == SortByDescending(t, "tweet_count").rows[..|r.rows|]
    ensures Descending(r.rows, IndexOf(t.columns, "tweet_count"))
    ensures multiset(r.rows) <= multiset(t.rows)
    ensures forall i, j :: 0 <= i < |r.rows| <= j < |t.rows| ==>
      RanksBefore(KeyAt(r.rows[i], IndexOf(t.columns, "tweet_count")),
                  KeyAt(SortByDescending(t, "tweet_count").rows[j], IndexOf(t.columns, "tweet_count")))
    ensures t.Valid() ==> r.Valid()
  {
    var sorted := SortByDescending(t, "tweet_count");
    var r := Head(sorted, n);
    DescendingPrefix(sorted.rows, |r.rows|, IndexOf(t.columns, "tweet_count"));
    r
  }

  // ----- top narrative shapers -----

  /** The distribution cell is an object with an entry for `code`. */
  predicate HasKey(v: Value, code: string) {
    v.Dict? && exists e :: e in v.entries && e.0 == code
  }

  /** The column labels of `narrative_distribution.apply(pd.Series)`: the
      keys of every object cell among the rows. A cell that is not an object
      expands under positional labels only, which no narrative code equals,
      so those are not listed. */
  function ExpandedLabels(columns: seq<string>, rows: seq<Row>): (labels: seq<string>)
    ensures forall code :: code in labels <==>
      exists row :: row in rows && HasKey(Cell(columns, row, "narrative_distribution"), code)
  {
    if rows == [] then []
    else
      var v := Cell(columns, rows[0], "narrative_distribution");
      assert forall row :: row in rows <==> row == rows[0] || row in rows[1..];
      (if v.Dict? then CodesOf(v.entries) else []) + ExpandedLabels(columns, rows[1..])
  }

  /** No author the actor filter keeps has `code` in their distribution. */
  predicate CodeAbsent(t: Table, actorType: string, code: string) {
    forall row :: row in t.rows && Leaderboard.ActorOk(t.columns, row, actorType) ==>
      !HasKey(Cell(t.columns, row, "narrative_distribution"), code)
  }

  /** The actor-type filter keeps exactly the rows of the chosen type. */
  lemma SelectedAuthors(t: Table, actorType: string)
    requires actorType != "All" ==> "actor_type" in t.columns
    ensures forall row :: row in SelectEqual(t, "actor_type", actorType).rows <==>
      row in t.rows && Leaderboard.ActorOk(t.columns, row, actorType)
  {
    var df := SelectEqual(t, "actor_type", actorType);
    forall row
      ensures row in df.rows <==> row in t.rows && Leaderboard.ActorOk(t.columns, row, actorType)
    {
      assert row in df.rows <==> row in multiset(df.rows);
      assert row in t.rows <==> row in multiset(t.rows);
    }
  }

  /** The expanded table has a column for `code` exactly when some kept
      author's distribution holds it. */
  lemma {:induction false} CodeLabelled(t: Table, actorType: string, code: string)
    requires actorType != "All" ==> "actor_type" in t.columns
    ensures code in ExpandedLabels(t.columns, SelectEqual(t, "actor_type", actorType).rows) <==>
      !CodeAbsent(t, actorType, code)
  {
    SelectedAuthors(t, actorType);
  }

  /** The top narrative shapers: the actor-type filter, the expansion of the
      narrative distributions and the ranking by tweet count. The lookup
      `narr_df[col]` raises a KeyError for a code that no kept author's
      distribution holds, and so also when the filter keeps no author at
      all: then there is no chart. Otherwise the chart shows the top `n`
      kept authors by tweet count. */
  function NarrativeShapers(t: Table, actorType: string, n: nat): (r: Option<Table>)
    requires actorType != "All" ==> "actor_type" in t.columns
    requires "narrative_distribution" in t.columns && "tweet_count" in t.columns
    ensures r.None? <==>
      CodeAbsent(t, actorType, "N-1") || CodeAbsent(t, actorType, "N-2") || CodeAbsent(t, actorType, "N-3")
    ensures r.Some? ==> r.value == TopN(SelectEqual(t, "actor_type", actorType), n)
    ensures r.Some? ==> forall row :: row in r.value.rows ==>
      row in t.rows && Leaderboard.ActorOk(t.columns, row, actorType)
    ensures r.Some? && n > 0 ==> r.value.rows != []
  {
    var df := SelectEqual(t, "actor_type", actorType);
    var labels := ExpandedLabels(t.columns, df.rows);
    CodeLabelled(t, actorType, "N-1");
    CodeLabelled(t, actorType, "N-2");
    CodeLabelled(t, actorType, "N-3");
    if "N-1" in labels && "N-2" in labels && "N-3" in labels then
      var top := TopN(df, n);
      SelectedAuthors(t, actorType);
      assert forall row :: row in top.rows ==> row in df.rows by {
        assert forall row :: row in top.rows ==> row in multiset(df.rows);
      }
      Some(top)
    else None
  }
}
