/** The engagement-dynamics view: the metric choice, the plotted column's
    fallback rules and the axis labels. */
module Engagement {
  import opened Wrappers
  import opened Text
  import opened Tables
  import TimeTrends

  /** The metric selector's choices, in display order. */
  const MetricOptions: seq<string> := ["total_engagement", "likeCount", "retweetCount", "replyCount", "quoteCount"]

  /** The selector's label for a metric; a name outside the five has none
      (the label table would raise a KeyError). */
  function DisplayName(metric: string): (r: Option<string>)
    ensures r.Some? <==> metric in MetricOptions
  {
    if metric == "total_engagement" then Some("Total Engagement")
    else if metric == "likeCount" then Some("Likes")
    else if metric == "retweetCount" then Some("Retweets")
    else if metric == "replyCount" then Some("Replies")
    else if metric == "quoteCount" then Some("Quotes")
    else None
  }

  /** The actor and time charts: the selected metric, unless it is not the
      total and the table lacks it, when the total is plotted instead. */
  function ChooseMetricColumn(columns: seq<string>, metric: string): (y: string)
    ensures y == metric || y == "total_engagement"
    ensures metric in columns ==> y == metric
    ensures metric !in columns ==> y == "total_engagement"
  {
    if metric != "total_engagement" && metric !in columns then "total_engagement" else metric
  }

  /** The theme and framing charts: the selected metric when the table has
      it, the total otherwise. */
  function ChooseMetricColumnIfPresent(columns: seq<string>, metric: string): (y: string)
    ensures y == metric || y == "total_engagement"
    ensures metric in columns ==> y == metric
    ensures metric !in columns ==> y == "total_engagement"
  {
    if metric !in columns then "total_engagement" else metric
  }

  /** The two fallback rules, though written differently, choose the same
      column for every table and metric. */
  lemma FallbackRulesAgree(columns: seq<string>, metric: string)
    ensures ChooseMetricColumn(columns, metric) == ChooseMetricColumnIfPresent(columns, metric)
  {
  }

  /** When the table has a "total_engagement" column the plotted column is
      always one the table has. */
  lemma ChosenColumnExists(columns: seq<string>, metric: string)
    requires "total_engagement" in columns
    ensures ChooseMetricColumn(columns, metric) in columns
  {
  }

  /** The time chart: the month-normalised table and the column it plots. */
  function TimeChart(t: Table, metric: string): (r: (Table, string))
    ensures r.0 == TimeTrends.NormaliseMonth(t)
    ensures r.1 == metric || r.1 == "total_engagement"
    ensures metric in r.0.columns ==> r.1 == metric
    ensures metric !in r.0.columns ==> r.1 == "total_engagement"
  {
    var df := TimeTrends.NormaliseMonth(t);
    var y := ChooseMetricColumn(df.columns, metric);
    (df, y)
  }

  /** `metric.replace("Count", "")`: the axis label of the plotted metric. */
  function MetricLabel(metric: string): (text: string)
    ensures !Contains(metric, "Count") ==> text == metric
  {
    ReplaceAbsent(metric, "Count", "");
    ReplaceAll(metric, "Count", "")
  }

  /** A metric named by a stem and the "Count" suffix is labelled by the
      stem, provided the stem holds no capital C: "likeCount", "retweetCount",
      "replyCount" and "quoteCount" are labelled "like", "retweet", "reply"
      and "quote". */
  lemma {:induction false} CountSuffixDropped(stem: string)
    requires 'C' !in stem
    ensures MetricLabel(stem + "Count") == stem
  {
    ReplaceAfterStem(stem, "Count", "Count", "");
    ReplaceAtFront("Count", "", "");
    assert stem + "" == stem;
  }

  /** The total keeps its name as its label. */
  lemma TotalEngagementLabel()
    ensures MetricLabel("total_engagement") == "total_engagement"
  {
    ReplaceAfterStem("total_engagement", "", "Count", "");
    assert "total_engagement" + "" == "total_engagement";
  }
}
