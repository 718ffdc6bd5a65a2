# Epistemic fragmentation dashboard: the record-processing core in Dafny

The dashboard presents a study of how Members of the European Parliament
and US administration accounts talked about the war in Ukraine. It reads
precomputed JSON tables and draws charts. Between loading and drawing, its
views do a small amount of table processing, and that is what this project
models and proves:

- **Narrative shapers** (`rq4.py`): the leaderboard pipeline. It does the
  following:
  - renames the loader's `author.userName` column;
  - normalises the list columns;
  - builds the sidebar option lists;
  - applies the actor-type, country, administration, political-group and
    search filters;
  - ranks the rows by total engagement;
  - flattens each row's narrative distribution into three columns;
  - melts the selected authors' narrative, theme and framing data into long
    tables.
- **Contexts** (`rq5.py`): melts the columns whose labels start with a code
  prefix.
- **Narrative evolution** (`rq2.py`): renames `created_month` to `month`
  and picks the plotted column with a fallback.
- **Engagement dynamics** (`rq3.py`): the metric choice, the two fallback
  rules for the plotted column, and the axis label with "Count" removed.
- **Code distribution** (`rq1.py`): the actor-type filter, grouping by code
  with summed counts, the plotted column, and the top narrative promoters
  by tweet count, including when expanding their distributions fails.
- **Before/after script** (`tmp.py`): the loop that splits records at
  September 2024 and accumulates total and N-3 engagement per period, and
  the derived shares.
- **Language comparison** (`language_comparison.py`): the user choices, the
  lookup of the first row of the chosen user, and the two loops that build
  the English and native-language records.

A table is modelled positionally, as pandas holds it (`Tables.Table`):
- an ordered list of column labels;
- rows with one cell per label.

A cell (`Tables.Value`) is one of:
- a string;
- an integer;
- a real;
- a list of strings;
- an object of numbers, kept in key order as Python dicts are;
- a missing value.

A label is looked up at its first position, and a missing label reads as a
missing value. Sequence tools shared by all views live in the following
modules:
- `Seqs`: order-keeping filter, first occurrence, first-appearance
  de-duplication;
- `Text`: `startswith`, substring test, `lower`, `strip`, `replace`, and
  code-point order with `sorted(set(...))`.

Where the source raises because the loaded data lacks a column it names (a
`KeyError`), the model requires that column. The only other precondition of
this kind is on `Leaderboard.ActorTypeOptions`: it requires string actor
types, because sorting mixed values raises a `TypeError`. The two ranking
sorts do not require numbers; they rank a non-number like a missing value.
`Leaderboard.FilterLeaderboard` requires the three list columns to hold
lists in every row (`Leaderboard.ListsNormalised`). The source always
normalises them first, at rq4.py:29-30, and `NormaliseListFields` ensures
exactly that fact.
The source itself handles an "All" selection, an empty search and an empty
author selection, and the model gives those cases explicitly. For some
inputs the source crashes and the model returns `None` instead:
- an active list filter (country, administration or political group) that
  meets a leaderboard the earlier filters already emptied: pandas reads
  the empty mask as a list of column labels and keeps no columns, so the
  next column access raises a `KeyError` (rq4.py:58, 61, 65 or the sort at
  rq4.py:70);
- the top narrative shapers, when a narrative code (N-1, N-2 or N-3) is a
  key of no distribution among the authors the actor-type filter keeps:
  `narr_df[col]` raises a `KeyError` at rq1.py:82. This includes an actor
  type with no authors at all, since expanding an empty column gives an
  empty result without any code column;
- a user without a row: `.iloc[0]` raises an `IndexError` at
  language_comparison.py:34;
- a distribution that is not an object: `.items()` raises at
  language_comparison.py:38 and 40;
- a zero denominator: a `ZeroDivisionError` at tmp.py:51-55;
- a missing display column: a `KeyError` at rq4.py:91.

The code follows a mixed style:
- The filter chain (`Leaderboard.FilterLeaderboard`) is a method that
  rebinds its table stage by stage.
- The per-row narrative flattening is a method with a loop over the three
  codes, driven by a loop over the rows.
- The list-field normalisation is a loop over the three list columns.
- The accumulator and the record builder are loops.
- Everything that is a single pandas expression is a function.

## Model

| member | source | states |
|---|---|---|
| Tables.DictGet | rq4.py:84-86 | `dist.get(k, 0.0)`: the value of an entry with key k when there is one, the default when there is none |
| Tables.RenameColumn | rq4.py:8-9 | every label `from` becomes `to` and no other label changes; the rows are untouched; `from` is gone and `to` present afterwards; validity is kept |
| Tables.RenameKeepsCells | rq2.py:25-26 | a rename changes no cell: other columns read as before, and the new label reads what the old one held when it was absent |
| Tables.Where | rq4.py:55 | a boolean mask keeps the rows that satisfy it, in order, each as often as before, and no others |
| Tables.SelectEqual | rq2.py:44-45 | an "All" selection is the identity; otherwise exactly the rows whose cell equals the selection remain, in order and with their multiplicity |
| Tables.Head | rq1.py:85 | `head(n)` is the first min(n, rows) rows |
| Tables.MeltedRow | rq4.py:115-120 | a long row holds the identifier cells, the melted column's name and the row's cell under it |
| Tables.Melt | rq4.py:115-120 | the output columns are the identifiers then the variable and value columns; there are (melted columns × rows) rows; every variable cell names a melted column |
| Tables.MeltAt | rq4.py:115-120 | row j·n+i of the melt is input row i melted on column j (pandas' column-major order) |
| Tables.SortDescending | rq4.py:70 | the result is a permutation of the rows in non-increasing key order, missing keys last |
| Tables.SortByDescending | rq4.py:70 | `sort_values(c, ascending=False)` keeps the columns and the multiset of rows and orders them by column c, highest first |
| Seqs.Filter | rq5.py:14 | a list comprehension with a condition keeps exactly the elements that pass, in order, each as often as before |
| Seqs.Unique | language_comparison.py:31 | `unique()` holds every value once, only values that occur, in order of first appearance |
| Text.Trim | rq4.py:46 | `strip()` is the input with the whitespace removed from both ends and nowhere else: a slice that neither starts nor ends with whitespace, with only whitespace outside it; it is empty exactly when the input is all whitespace |
| Text.Lower | rq4.py:46 | `lower()` keeps the length, turns each capital into its small letter (code point + 32) and keeps every other character |
| Text.ReplaceAll | rq3.py:52 | `str.replace`: a replacement no longer than the pattern never lengthens the string, one of equal length keeps its length, and an empty one only deletes characters, keeping the order of the rest |
| Text.ReplaceAbsent | rq3.py:52 | for any non-empty pattern, `replace` leaves a string without the pattern unchanged |
| Text.ReplaceAfterStem | rq3.py:52 | characters that cannot start the pattern are copied unchanged |
| Text.LexLessTransitive | rq4.py:34 | Python's string order is transitive |
| Text.LexLessTotal | rq4.py:34 | Python's string order relates any two different strings |
| Text.SortedDistinct | rq4.py:34 | `sorted(set(xs))` is strictly ascending and holds exactly the values of xs |
| Text.StrictlySortedUnique | rq4.py:34 | a strictly ascending list is determined by its elements, so the option lists are unique |
| Leaderboard.LoadWithRename | rq4.py:6-10 | when "author.userName" is present it becomes "userName" and every other label and every row is unchanged; otherwise the table is returned as loaded |
| Leaderboard.AsList | rq4.py:30 | the normalising lambda always gives a list: a list stays, anything else becomes [] |
| Leaderboard.NormaliseColumn | rq4.py:30 | one list column: each cell keeps a list and becomes [] otherwise; every other cell is unchanged |
| Leaderboard.NormaliseListFields | rq4.py:29-30 | after the loop, administration, politicalGroup and country hold a list in every row, a list that was there is kept, and no other cell changed |
| Leaderboard.StringCells | rq4.py:34 | the column's strings are exactly the strings found in its cells |
| Leaderboard.ListItems | rq4.py:37 | the flattened items are exactly those found in some row's list |
| Leaderboard.ActorTypeOptions | rq4.py:34 | "All" followed by the distinct actor types in ascending order, each one present in some row |
| Leaderboard.ListOptions | rq4.py:37-44 | "All" followed by the distinct list items of the column in ascending order, each one in some row's list |
| Leaderboard.SearchTerm | rq4.py:46 | the search term is the typed text stripped of its surrounding whitespace, with each character lower-cased; it has no capitals, and it is empty exactly when the typed text is all whitespace |
| Leaderboard.ListFilter | rq4.py:54-61 | "All" is the identity; on a table with no rows an active filter leaves no columns (pandas takes the empty object-typed mask for column labels); otherwise the columns stay and exactly the rows whose list holds the selection remain, in order and with their multiplicity |
| Leaderboard.ApplyListFilter | rq4.py:54-61 | one list filter of the chain passes on exactly the leaderboard rows that reach the next filter, and keeps the columns unless this or an earlier active list filter met an emptied table |
| Leaderboard.SearchFilter | rq4.py:63-67 | an empty term is the identity; otherwise exactly the rows whose userName is a string and whose lower-cased userName or name contains the term remain, in order (a non-string userName gives NaN on the left of `|`, which stays NaN and drops the row) |
| Leaderboard.FilterLeaderboard | rq4.py:49-70 | on list columns normalised as at rq4.py:29-30: no leaderboard (the `KeyError`) exactly when an active list filter meets a table the earlier filters emptied; otherwise the columns are kept and the result holds exactly the rows that every active filter accepts, each as often as in the leaderboard and none added, ranked by total_engagement with the highest first |
| Leaderboard.NarrativeDist | rq4.py:84 | `row.get("narrative_distribution", {})`: the row's object, or the empty distribution when the row has none |
| Leaderboard.Assign | rq4.py:86 | `row[name] = v` sets the cell under name (appending it when absent) and leaves every other cell as it was |
| Leaderboard.FlattenStep | rq4.py:85-86 | one iteration of the loop over the codes sets that code's column and keeps the earlier codes and all other cells |
| Leaderboard.FlattenNarrativeDist | rq4.py:83-87 | narrative_N-1..3 hold the distribution's value for the code or 0.0 when it is missing; every other cell is unchanged |
| Leaderboard.FlattenRows | rq4.py:83-89 | the flattening applied to every row: one flattened row per leaderboard row, in order, under the extended labels |
| Leaderboard.FlattenLeaderboard | rq4.py:89 | `apply(..., axis=1)` as pandas runs it: an empty table comes back unchanged, without the narrative columns; otherwise one flattened row per row, in order, under the extended labels |
| Leaderboard.DisplayTable | rq4.py:75-91 | the shown table holds the six leaderboard columns then the three narrative columns, with each row's cells under them; there is none exactly when one of the columns is missing |
| Leaderboard.FlattenedColumnsDisplayable | rq4.py:75-91 | flattened labels contain every shown column once the six leaderboard columns are present |
| Leaderboard.EmptyLeaderboardNotDisplayed | rq4.py:89-91 | as written, an emptied leaderboard without narrative columns cannot be shown |
| Leaderboard.FlattenedLeaderboardDisplayed | rq4.py:75-91 | once flattened under the extended labels, any leaderboard (an empty one included) can be shown, with one shown row per row |
| Leaderboard.AddLabelsContains | rq4.py:86 | flattening only adds labels: the old labels stay and the three narrative columns are present |
| Leaderboard.NarrativeColumnsDistinct | rq4.py:79-80 | the three flattened columns are "narrative_" followed by each code and are distinct |
| Leaderboard.SelectAuthors | rq4.py:105-106 | `isin(authors)` keeps exactly the rows whose userName is one of the selected authors, each as often as it occurs, in order |
| Leaderboard.CleanNarrative | rq4.py:122 | removing "narrative_" only deletes characters from a label, leaves a label without the prefix unchanged, and leaves a missing value missing |
| Leaderboard.CleanNarrativeColumn | rq4.py:122 | stripping "narrative_" from each flattened column name gives its code |
| Leaderboard.CleanNarrativeLabel | rq4.py:122 | a melted narrative label is N-1, N-2 or N-3 once its prefix is stripped |
| Leaderboard.StripNarrativePrefix | rq4.py:122 | every label narrative_N-k becomes N-k; the user and percentage cells and the row count are unchanged |
| Leaderboard.NarrativeLong | rq4.py:110-122 | the narrative long table has columns userName, Narrative and Percentage, three rows per selected author row, each labelled N-1, N-2 or N-3 |
| Leaderboard.CodeLong | rq4.py:137-158 | there is no chart exactly when the selected authors have no row; otherwise the melt over every non-userName column has (columns − 1) × rows rows |
| Leaderboard.SelectedAuthorCharts | rq4.py:100-106 | nothing is drawn exactly when no author is selected; the narrative chart has three rows per selected row; the theme and framing charts are missing exactly when their selections are empty |
| CodeMelt.MatchedColumns | rq5.py:14 | exactly the columns starting with the prefix, in column order, none repeated or invented |
| CodeMelt.VarName | rq5.py:15 | `prefix[:-1]` is the prefix without its last character |
| CodeMelt.ChartVarNames | rq5.py:45-60 | the theme charts use variable "T" and the framing charts "F" |
| CodeMelt.MeltCodeColumns | rq5.py:12-16 | the output columns are the ids, the variable and "value"; there are (matched columns × rows) rows; each variable cell names an input column that starts with the prefix, so no other column reaches the output |
| CodeMelt.MeltCodeColumnsAt | rq5.py:15 | each long row carries its source row's id cells, one matched column's name and that row's cell for it |
| TimeTrends.NormaliseMonth | rq2.py:25-26 | created_month becomes month only when month is absent, and the rows are never touched; otherwise nothing changes |
| TimeTrends.NormaliseMonthIdempotent | rq2.py:25-26 | normalising twice equals normalising once |
| TimeTrends.NormaliseMonthKeepsCells | rq2.py:25-26 | no cell changes; the new month column reads the old created_month cells |
| TimeTrends.YColumn | rq2.py:29 | the column is "percent" exactly when Percent is chosen and the table has it, and "count" otherwise |
| TimeTrends.FilterDf | rq2.py:24-30 | the rows are unchanged; Count always plots "count"; Percent falls back to "count" when there is no percent column |
| TimeTrends.FilterDfIdempotent | rq2.py:24-30 | applying `filter_df` to its own result changes neither the table nor the column |
| Engagement.DisplayName | rq3.py:23-30 | exactly the five metric options have a display label |
| Engagement.ChooseMetricColumn | rq3.py:40-44 | the plotted column is the metric when the table has it and total_engagement otherwise, never anything else |
| Engagement.ChooseMetricColumnIfPresent | rq3.py:125-128 | the theme and framing rule: the metric if present, total_engagement otherwise |
| Engagement.FallbackRulesAgree | rq3.py:144-147 | the two differently written fallback rules choose the same column for every table |
| Engagement.ChosenColumnExists | rq3.py:66-69 | when the table has total_engagement, the chosen column always exists |
| Engagement.TimeChart | rq3.py:63-69 | the time chart's table is month-normalised and its column is chosen from the normalised labels |
| Engagement.MetricLabel | rq3.py:52 | a metric without "Count" is its own axis label |
| Engagement.CountSuffixDropped | rq3.py:77 | likeCount, retweetCount, replyCount and quoteCount are labelled by their stems |
| Engagement.TotalEngagementLabel | rq3.py:52 | "total_engagement" keeps its name as its label |
| CodeDistribution.Coded | rq1.py:37-38 | the coded pairs come from exactly the rows that have a code |
| CodeDistribution.CodedPairsRows | rq1.py:37-38 | there is one pair per row with a code, in row order, and the k-th pair carries the k-th such row's code and count |
| CodeDistribution.MakeGroups | rq1.py:37-40 | each group's count is the sum of its pairs' counts |
| CodeDistribution.GroupBy | rq1.py:37-40 | one group per distinct code, in ascending order, each with the sum of its rows' counts |
| CodeDistribution.FilterDf | rq1.py:34-40 | the groups are exactly the codes of the rows that pass the actor-type filter, ascending and without repeats; each group's count is the sum over the selected rows with its code; together the groups hold the counts of all selected coded rows |
| CodeDistribution.GroupTotalConserved | rq1.py:38 | grouping over distinct keys that cover every code neither loses nor double-counts any count |
| CodeDistribution.GroupByConservesCount | rq1.py:37-38 | the grouped counts add up to the counts of all coded rows |
| CodeDistribution.RankColumn | rq1.py:45 | the column is "count" exactly for the Count metric and "percent" otherwise |
| CodeDistribution.RankColumnMatchesTimeView | rq1.py:45 | for the two offered metrics this rule agrees with the time view's rule when a percent column exists |
| CodeDistribution.TopN | rq1.py:85 | min(n, rows) rows that form a prefix of the ranking by tweet_count, non-increasing, a sub-multiset of the input, each ranking at or above every row left out |
| CodeDistribution.ExpandedLabels | rq1.py:80 | the expanded distributions have a column for a code exactly when some row's distribution is an object holding that key |
| CodeDistribution.SelectedAuthors | rq1.py:76-77 | the actor-type filter keeps exactly the rows of the chosen type |
| CodeDistribution.CodeLabelled | rq1.py:76-82 | a code has a column after the filter and the expansion exactly when some kept author's distribution holds it |
| CodeDistribution.NarrativeShapers | rq1.py:74-85 | no chart (the `KeyError` at rq1.py:82) exactly when one of N-1, N-2, N-3 is a key of no kept author's distribution, which includes an actor type without authors; otherwise the top n kept authors by tweet_count, each a leaderboard row of the chosen type, and at least one when n > 0 |
| PeriodSplit.PeriodOf | tmp.py:45 | a record is "before" exactly when its month is strictly earlier than 2024-09, so 2024-09 itself is "after" |
| PeriodSplit.BeforeIsEarlier | tmp.py:45 | the "before" period is closed under going back in time |
| PeriodSplit.Accumulate | tmp.py:33-48 | both periods start at zero; after the loop each period holds the sum of its records' engagement and of its N-3 records' engagement |
| PeriodSplit.PeriodsPartitionTotal | tmp.py:40-46 | before.all + after.all is the total engagement of all records |
| PeriodSplit.N3WithinTotal | tmp.py:46-48 | with non-negative engagement, 0 <= n3 <= all in each period |
| PeriodSplit.ComputeShares | tmp.py:51-55 | the shares exist exactly when both totals and the earlier N-3 total are non-zero, and then they satisfy share × all = n3 and diff × before = (after − before) × 100 |
| LanguageComparison.UserNames | language_comparison.py:31 | the userName column, one cell per row |
| LanguageComparison.UserOptions | language_comparison.py:31 | the user choices have no duplicates, are exactly the userName values, and appear in order of first appearance |
| LanguageComparison.SelectUserRow | language_comparison.py:34 | the first row whose userName is the chosen user, or none when no row matches |
| LanguageComparison.OfferedUserHasRow | language_comparison.py:31-34 | every offered user other than a missing value has a row |
| LanguageComparison.BuildRecords | language_comparison.py:37-41 | one record per English entry in key order, then one per native entry, with the right labels and values |
| LanguageComparison.RecordsSplitByLanguage | language_comparison.py:37-41 | the records labelled English are exactly the English distribution, and those labelled Native exactly the native one |
| LanguageComparison.CompareUser | language_comparison.py:34-43 | no chart when the user has no row or the row's distributions are not objects; otherwise the records are the English distribution's entries labelled "English", in key order, followed by the native distribution's entries labelled "Native"; they number |en| + |native| and split back into the two distributions |

## Findings

| source | as written | input that shows it | evidently intended | confidence | as-written member | corrected member |
|---|---|---|---|---|---|---|
| rq4.py:89-91 | `df.apply(flatten_narrative_dist, axis=1)` on a leaderboard that the filters emptied never applies the function to a row. pandas returns the table unchanged, so the narrative columns are missing, and the column selection at line 91 raises a `KeyError` | a search term that matches no userName or name, while every active list filter still sees at least one author (otherwise the page fails earlier, at a list filter) | the page shows an empty leaderboard ("0 authors") under the display columns | medium, not executed (follows from pandas' handling of `apply` on an empty frame) | Leaderboard.FlattenLeaderboard, Leaderboard.EmptyLeaderboardNotDisplayed | Leaderboard.FlattenRows, Leaderboard.FlattenedLeaderboardDisplayed |

## Left out

- Streamlit widgets, the page layout, and the view dispatch in `app.py` are
  not modelled. The sidebar choices become parameters.
- Plotly chart construction is not modelled. A chart's table and columns are
  modelled; the figure, its styling and its labels dictionaries are not.
- JSON loading and path building are I/O. The loaded tables and records are
  parameters.
- `datetime.strptime` is not modelled. A month is a (year, month) pair,
  compared lexicographically.
- The percent mean at rq1.py:39 and the estimated narrative counts at
  rq1.py:79-83 are floating-point column arithmetic and are not modelled.
- CodeDistribution.FilterDf: returns the groups with their summed counts
  but without the averaged "percent" column, because that mean is floating
  point.
- CodeDistribution.NarrativeShapers: the chart rows are the kept
  authors' leaderboard rows, without the three estimated columns
  concatenated at rq1.py:83 (floating-point arithmetic). The model still
  decides when those columns cannot be built, which is the `KeyError` at
  rq1.py:82. The sort at rq1.py:85 orders by tweet_count alone, so the
  missing columns change neither the order nor the selection.
- CodeDistribution.GroupBy: only string codes form groups, and a count that
  is not an integer adds 0 (pandas skips NaN in a sum). Float counts are
  not modelled.
- PeriodSplit.ComputeShares: exact real division replaces floating point.
  The printed percentages and their rounding are not modelled.
- PeriodSplit.Record: engagement is an integer, as in the data files.
- Leaderboard.SearchFilter: `str.contains` treats the term as a regular
  expression by default. The model uses plain substring search, which is
  what the search box evidently means; a term such as "a.b" or "(" differs.
  A row whose userName is not a string never matches, even when its name
  does, because pandas' `|` keeps a NaN on its left; a name that is not a
  string only stops the name from matching.
- Text.Lower, Text.Trim: only the ASCII letters are lower-cased, and only
  the ASCII whitespace characters are stripped. Python's Unicode case
  mapping and whitespace set are not modelled.
- Text.ReplaceAll: requires a non-empty pattern. The source only replaces
  the constants "Count" and "narrative_".
- Engagement.MetricLabel: its own contract covers names without "Count".
  The five offered names are covered by CountSuffixDropped and
  TotalEngagementLabel. A name with several or overlapping "Count"
  occurrences is not characterised beyond the definition.
- Tables.SortByDescending: pandas' default sort is not stable, so no order
  among rows with equal total engagement or tweet count is stated.
- Leaderboard.ActorTypeOptions: requires every actor type to be a string.
  Sorting mixed values raises a `TypeError` in the source.
- A column missing from the loaded data is a precondition, because pandas
  raises a `KeyError`. A column that a filter or an expansion leaves out is
  modelled as a `None` result, as listed above.
  Duplicate column labels resolve to the first match.
- Leaderboard.FlattenNarrativeDist: requires the narrative distribution,
  when present, to be an object. A missing value there would make `.get`
  raise.
- The multiselect's offered authors at rq4.py:95-98 are widget input. The
  selected authors are a parameter.
- Tables.NumKey: a string or list under total_engagement or tweet_count is
  ranked like a missing value, last. pandas' `sort_values` raises a
  `TypeError` when a column mixes strings and numbers. The data files hold
  numbers there.
- Tables.DictGet: returns the value of the first entry with the key. A JSON
  object with a repeated key loads in Python with its last value. The
  model takes loaded objects to have distinct keys and does not enforce
  it.
- The commented-out directory printer at tmp.py:1-20 is dead code.
