/** The narrative-shapers view: the author leaderboard, its sidebar filters,
    the flattened narrative distribution and the long tables drawn for the
    selected authors. */
module Leaderboard {
  import opened Wrappers
  import opened Seqs
  import opened Text
  import opened Tables

  /** The columns that hold lists of strings. */
  const ListFields: seq<string> := ["administration", "politicalGroup", "country"]

  const NarrativeCodes: seq<string> := ["N-1", "N-2", "N-3"]

  /** "narrative_" followed by a narrative code. */
  const NarrativeColumns: seq<string> := ["narrative_N-1", "narrative_N-2", "narrative_N-3"]

  // ----- loading -----

  /** The loader's rename: a column "author.userName" becomes "userName";
      every other label and every row stay as they were. */
  function LoadWithRename(t: Table): (r: Table)
    ensures r.rows == t.rows && |r.columns| == |t.columns|
    ensures "author.userName" in t.columns ==>
      "userName" in r.columns && "author.userName" !in r.columns &&
      forall i :: 0 <= i < |t.columns| ==>
        r.columns[i] == if t.columns[i] == "author.userName" then "userName" else t.columns[i]
    ensures "author.userName" !in t.columns ==> r == t
  {
    if "author.userName" in t.columns then RenameColumn(t, "author.userName", "userName") else t
  }

  // ----- list fields -----

  /** The normalising lambda: a list stays, anything else becomes []. */
  function AsList(v: Value): (r: Value)
    ensures r.List?
    ensures v.List? ==> r == v
    ensures !v.List? ==> r.items == []
  {
    if v.List? then v else List([])
  }

  /** `df[col] = df[col].apply(AsList)`. */
  function NormaliseColumn(t: Table, col: string): (r: Table)
    requires t.Valid() && col in t.columns
    ensures r.columns == t.columns && |r.rows| == |t.rows| && r.Valid()
    ensures forall i, c :: 0 <= i < |t.rows| ==>
      Cell(r.columns, r.rows[i], c) == if c == col then AsList(Cell(t.columns, t.rows[i], c)) else Cell(t.columns, t.rows[i], c)
  {
    var k := IndexOf(t.columns, col);
    var rows := seq(|t.rows|, i requires 0 <= i < |t.rows| => t.rows[i][k := AsList(t.rows[i][k])]);
    forall i | 0 <= i < |t.rows|
      ensures forall c :: Cell(t.columns, rows[i], c) == if c == col then AsList(Cell(t.columns, t.rows[i], c)) else Cell(t.columns, t.rows[i], c)
    {
      assert t.rows[i] in t.rows;
      CellAfterUpdate(t.columns, t.rows[i], col, AsList(t.rows[i][k]));
    }
    Table(t.columns, rows)
  }

  /** What a list-field cell holds once the first `k` list fields are normalised. */
  ghost predicate NormalisedUpTo(t: Table, r: Table, k: nat)
    requires k <= |ListFields|
  {
    r.columns == t.columns && |r.rows| == |t.rows| && r.Valid() &&
    forall i, c :: 0 <= i < |r.rows| ==>
      Cell(r.columns, r.rows[i], c) == if c in ListFields[..k] then AsList(Cell(t.columns, t.rows[i], c)) else Cell(t.columns, t.rows[i], c)
  }

  /** One iteration of the loop keeps its state description. */
  lemma NormaliseStep(t: Table, r: Table, k: nat)
    requires k < |ListFields| && NormalisedUpTo(t, r, k)
    requires forall c :: c in ListFields ==> c in t.columns
    ensures NormalisedUpTo(t, NormaliseColumn(r, ListFields[k]), k + 1)
  {
    var r' := NormaliseColumn(r, ListFields[k]);
    assert ListFields[..k + 1] == ListFields[..k] + [ListFields[k]];
    forall i, c | 0 <= i < |r'.rows|
      ensures Cell(r'.columns, r'.rows[i], c) == if c in ListFields[..k + 1] then AsList(Cell(t.columns, t.rows[i], c)) else Cell(t.columns, t.rows[i], c)
    {
      assert Cell(r.columns, r.rows[i], c) == if c in ListFields[..k] then AsList(Cell(t.columns, t.rows[i], c)) else Cell(t.columns, t.rows[i], c);
    }
  }

  /** The loop over "administration", "politicalGroup" and "country": after
      it each of them holds a list in every row, a list that was there is
      kept, anything else became the empty list, and no other cell changed. */
  method NormaliseListFields(t: Table) returns (r: Table)
    requires t.Valid()
    requires forall c :: c in ListFields ==> c in t.columns
    ensures r.columns == t.columns && |r.rows| == |t.rows| && r.Valid()
    ensures forall i, c :: 0 <= i < |r.rows| ==>
      Cell(r.columns, r.rows[i], c) == if c in ListFields then AsList(Cell(t.columns, t.rows[i], c)) else Cell(t.columns, t.rows[i], c)
    ensures ListsNormalised(r)
  {
    r := t;
    for k := 0 to |ListFields|
      invariant NormalisedUpTo(t, r, k)
    {
      NormaliseStep(t, r, k);
      r := NormaliseColumn(r, ListFields[k]);
    }
    NormalisedAll(t, r);
  }

  /** After the last iteration every list field holds a list. */
  lemma NormalisedAll(t: Table, r: Table)
    requires NormalisedUpTo(t, r, |ListFields|)
    ensures forall i, c :: 0 <= i < |r.rows| ==>
      Cell(r.columns, r.rows[i], c) == if c in ListFields then AsList(Cell(t.columns, t.rows[i], c)) else Cell(t.columns, t.rows[i], c)
    ensures forall i, c :: 0 <= i < |r.rows| && c in ListFields ==> Cell(r.columns, r.rows[i], c).List?
  {
    assert ListFields[..|ListFields|] == ListFields;
    forall i, c | 0 <= i < |r.rows| && c in ListFields
      ensures Cell(r.columns, r.rows[i], c).List?
    {
      assert Cell(r.columns, r.rows[i], c) == AsList(Cell(t.columns, t.rows[i], c));
    }
  }

  // ----- option lists -----

  /** The strings found in a string column, row by row. */
  function StringCells(t: Table, col: string): (r: seq<string>)
    requires forall row :: row in t.rows ==> Cell(t.columns, row, col).Str?
    ensures forall v :: v in r <==> exists row :: row in t.rows && Cell(t.columns, row, col) == Str(v)
    decreases |t.rows|
  {
    if t.rows == [] then []
    else
      var rest := StringCells(Table(t.columns, t.rows[1..]), col);
      assert forall row :: row in t.rows <==> row == t.rows[0] || row in t.rows[1..];
      [Cell(t.columns, t.rows[0], col).s] + rest
  }

  /** The strings found in the lists of a list column, flattened row by row. */
  function ListItems(t: Table, col: string): (r: seq<string>)
    requires forall row :: row in t.rows ==> Cell(t.columns, row, col).List?
    ensures forall v :: v in r <==> exists row :: row in t.rows && v in Cell(t.columns, row, col).items
    decreases |t.rows|
  {
    if t.rows == [] then []
    else
      var rest := ListItems(Table(t.columns, t.rows[1..]), col);
      assert forall row :: row in t.rows <==> row == t.rows[0] || row in t.rows[1..];
      Cell(t.columns, t.rows[0], col).items + rest
  }

  /** The actor-type choices: "All", then the distinct actor types in
      ascending order. */
  function ActorTypeOptions(t: Table): (r: seq<string>)
    requires "actor_type" in t.columns
    requires forall row :: row in t.rows ==> Cell(t.columns, row, "actor_type").Str?
    ensures |r| >= 1 && r[0] == "All"
    ensures StrictlySorted(r[1..])
    ensures forall v :: v in r[1..] <==> exists row :: row in t.rows && Cell(t.columns, row, "actor_type") == Str(v)
  {
    ["All"] + SortedDistinct(StringCells(t, "actor_type"))
  }

  /** The country, administration and political-group choices: "All", then
      the distinct values found in the column's lists, in ascending order. */
  function ListOptions(t: Table, col: string): (r: seq<string>)
    requires col in t.columns
    requires forall row :: row in t.rows ==> Cell(t.columns, row, col).List?
    ensures |r| >= 1 && r[0] == "All"
    ensures StrictlySorted(r[1..])
    ensures forall v :: v in r[1..] <==> exists row :: row in t.rows && v in Cell(t.columns, row, col).items
  {
    ["All"] + SortedDistinct(ListItems(t, col))
  }

  // ----- filters -----

  /** The search box's text, stripped and lower-cased: the typed text
      without its surrounding whitespace, each capital replaced by its small
      letter. An all-whitespace entry gives the empty term. */
  function SearchTerm(raw: string): (term: string)
    ensures exists stripped ::
      && Stripped(raw, stripped)
      && |term| == |stripped|
      && forall i :: 0 <= i < |term| ==> term[i] == LowerChar(stripped[i])
    ensures forall i :: 0 <= i < |term| ==> !IsUpper(term[i])
    ensures term == [] <==> forall k :: 0 <= k < |raw| ==> IsSpace(raw[k])
  {
    var stripped := Trim(raw);
    Lower(stripped)
  }

  datatype Selection = Selection(
    actorType: string,
    country: string,
    administration: string,
    politicalGroup: string,
    search: string)

  /** `selected in cell` on a list cell. */
  predicate ListHas(v: Value, selected: string) {
    v.List? && selected in v.items
  }

  /** `cell.lower()` contains the term; a non-string cell never matches. */
  predicate TextMatches(v: Value, term: string) {
    v.Str? && Contains(Lower(v.s), term)
  }

  /** `userName.str.lower().str.contains(term) | name.str.lower().str.contains(term)`.
      A cell that is not a string gives NaN. pandas fills a NaN with False
      only in the right operand of `|`; `NaN | True` stays NaN and is
      dropped. So a row whose userName is not a string never matches, even
      when its name does. */
  predicate MatchesSearch(columns: seq<string>, row: Row, term: string) {
    var userName := Cell(columns, row, "userName");
    TextMatches(userName, term) || (userName.Str? && TextMatches(Cell(columns, row, "name"), term))
  }

  /** The actor-type filter lets the row through. */
  predicate ActorOk(columns: seq<string>, row: Row, actorType: string) {
    actorType == "All" || Cell(columns, row, "actor_type") == Str(actorType)
  }

  /** A list filter lets the row through. */
  predicate ListOk(columns: seq<string>, row: Row, col: string, selected: string) {
    selected == "All" || ListHas(Cell(columns, row, col), selected)
  }

  /** The search filter lets the row through. */
  predicate SearchOk(columns: seq<string>, row: Row, term: string) {
    term == [] || MatchesSearch(columns, row, term)
  }

  /** A row survives the sidebar filters: each filter set to "All" (or an
      empty search) lets it through, every other one must match. */
  predicate Keeps(columns: seq<string>, row: Row, sel: Selection) {
    && ActorOk(columns, row, sel.actorType)
    && ListOk(columns, row, "country", sel.country)
    && ListOk(columns, row, "administration", sel.administration)
    && ListOk(columns, row, "politicalGroup", sel.politicalGroup)
    && SearchOk(columns, row, SearchTerm(sel.search))
  }

  /** The list filter at position `k` (0 country, 1 administration,
      2 political group): its column and its selection. */
  function ListStage(sel: Selection, k: nat): (string, string)
    requires k < 3
  {
    if k == 0 then ("country", sel.country)
    else if k == 1 then ("administration", sel.administration)
    else ("politicalGroup", sel.politicalGroup)
  }

  /** The row passes the actor filter and the first `k` list filters. */
  predicate PassesBefore(columns: seq<string>, row: Row, sel: Selection, k: nat) {
    && ActorOk(columns, row, sel.actorType)
    && (k > 0 ==> ListOk(columns, row, "country", sel.country))
    && (k > 1 ==> ListOk(columns, row, "administration", sel.administration))
    && (k > 2 ==> ListOk(columns, row, "politicalGroup", sel.politicalGroup))
  }

  /** No row of the leaderboard reaches list filter `k`. */
  predicate NoneReach(t: Table, sel: Selection, k: nat) {
    forall i :: 0 <= i < |t.rows| ==> !PassesBefore(t.columns, t.rows[i], sel, k)
  }

  /** `s` holds exactly the leaderboard's rows that reach list filter `k`
      (for `k` = 3, that pass all three), each as often as the leaderboard
      does. */
  ghost predicate Reaching(t: Table, sel: Selection, k: nat, s: Table) {
    forall row :: multiset(s.rows)[row] == if PassesBefore(t.columns, row, sel, k) then multiset(t.rows)[row] else 0
  }

  /** One of the first `k` list filters is active and meets a table the
      filters before it have already emptied, so it selects no columns (see
      ListFilter). */
  predicate ListFilterMeetsEmptyBefore(t: Table, sel: Selection, k: nat) {
    || (k > 0 && sel.country != "All" && NoneReach(t, sel, 0))
    || (k > 1 && sel.administration != "All" && NoneReach(t, sel, 1))
    || (k > 2 && sel.politicalGroup != "All" && NoneReach(t, sel, 2))
  }

  /** Some active list filter meets an emptied table. */
  predicate ListFilterMeetsEmpty(t: Table, sel: Selection) {
    ListFilterMeetsEmptyBefore(t, sel, 3)
  }

  /** `df[df[col].apply(lambda l: selected in l)]`, skipped for "All". On a
      table with no rows, `apply` gives an empty mask of the list column's
      object type, which pandas does not take for a boolean mask but for a
      list of column labels: the result has no rows and no columns. */
  function ListFilter(t: Table, col: string, selected: string): (r: Table)
    requires selected != "All" ==> col in t.columns
    ensures selected == "All" ==> r == t
    ensures selected != "All" && t.rows == [] ==> r == Table([], [])
    ensures selected == "All" || t.rows != [] ==> r.columns == t.columns
    ensures IsSubsequence(r.rows, t.rows)
    ensures forall row ::
      multiset(r.rows)[row] == if ListOk(t.columns, row, col, selected) then multiset(t.rows)[row] else 0
    ensures t.Valid() ==> r.Valid()
  {
    if selected == "All" then
      SubsequenceReflexive(t.rows);
      t
    else if t.rows == [] then
      SubsequenceReflexive(t.rows);
      Table([], [])
    else
      Where(t, row => ListHas(Cell(t.columns, row, col), selected))
  }

  /** The search filter, skipped for an empty term. */
  function SearchFilter(t: Table, term: string): (r: Table)
    requires term != [] ==> "userName" in t.columns && "name" in t.columns
    ensures term == [] ==> r == t
    ensures r.columns == t.columns
    ensures IsSubsequence(r.rows, t.rows)
    ensures forall row ::
      multiset(r.rows)[row] == if SearchOk(t.columns, row, term) then multiset(t.rows)[row] else 0
    ensures t.Valid() ==> r.Valid()
  {
    if term == [] then
      SubsequenceReflexive(t.rows);
      t
    else
      Where(t, row => MatchesSearch(t.columns, row, term))
  }

  /** The list columns hold lists in every row, as the normalisation at
      rq4.py:29-30 leaves them. */
  predicate ListsNormalised(t: Table) {
    forall i, c :: 0 <= i < |t.rows| && c in ListFields ==> Cell(t.columns, t.rows[i], c).List?
  }

  /** The filter chain and the ranking. When an active list filter meets a
      table the earlier filters emptied, every column is gone and the next
      column access raises a KeyError (rq4.py:58, 61, 65, or the sort at
      rq4.py:70): there is no leaderboard. Otherwise the result holds exactly
      the rows every active filter accepts, each as often as in the
      leaderboard, ranked by total engagement, highest first. */
  method FilterLeaderboard(t: Table, sel: Selection) returns (r: Option<Table>)
    requires t.Valid() && "total_engagement" in t.columns
    requires sel.actorType != "All" ==> "actor_type" in t.columns
    requires sel.country != "All" ==> "country" in t.columns
    requires sel.administration != "All" ==> "administration" in t.columns
    requires sel.politicalGroup != "All" ==> "politicalGroup" in t.columns
    requires ListsNormalised(t)
    requires SearchTerm(sel.search) != [] ==> "userName" in t.columns && "name" in t.columns
    ensures r.None? <==> ListFilterMeetsEmpty(t, sel)
    ensures r.Some? ==> r.value.columns == t.columns && r.value.Valid()
    ensures r.Some? ==> forall row ::
      multiset(r.value.rows)[row] == if Keeps(t.columns, row, sel) then multiset(t.rows)[row] else 0
    ensures r.Some? ==> Descending(r.value.rows, IndexOf(t.columns, "total_engagement"))
  {
    var term := SearchTerm(sel.search);
    var byActor := SelectEqual(t, "actor_type", sel.actorType);
    ActorStage(t, sel, byActor);
    var byCountry := ApplyListFilter(t, sel, 0, byActor);
    if sel.administration != "All" && "administration" !in byCountry.columns {
      return None;
    }
    var byAdministration := ApplyListFilter(t, sel, 1, byCountry);
    if sel.politicalGroup != "All" && "politicalGroup" !in byAdministration.columns {
      return None;
    }
    var byGroup := ApplyListFilter(t, sel, 2, byAdministration);
    if term != [] && ("userName" !in byGroup.columns || "name" !in byGroup.columns) {
      assert byGroup.columns == [];
      return None;
    }
    var filtered := SearchFilter(byGroup, term);
    if "total_engagement" !in filtered.columns {
      assert byGroup.columns == [];
      return None;
    }
    assert byGroup.columns != [];
    SearchStage(t, sel, byGroup, filtered);
    r := Some(SortByDescending(filtered, "total_engagement"));
  }

  /** The search filter, applied to the rows that passed all three list
      filters, leaves exactly the rows every filter keeps. */
  lemma SearchStage(t: Table, sel: Selection, byGroup: Table, filtered: Table)
    requires Reaching(t, sel, 3, byGroup)
    requires byGroup.columns == t.columns
    requires SearchTerm(sel.search) != [] ==> "userName" in t.columns && "name" in t.columns
    requires filtered == SearchFilter(byGroup, SearchTerm(sel.search))
    ensures forall row ::
      multiset(filtered.rows)[row] == if Keeps(t.columns, row, sel) then multiset(t.rows)[row] else 0
  {
  }

  /** List filter `k` as the chain applies it (rq4.py:54-61): given the rows
      and columns that reach it, it passes on the rows that reach the next
      filter, and it keeps the leaderboard's columns unless one of the
      filters up to it met an emptied table. */
  method ApplyListFilter(t: Table, sel: Selection, k: nat, prev: Table) returns (next: Table)
    requires k < 3
    requires Reaching(t, sel, k, prev)
    requires prev.columns == if ListFilterMeetsEmptyBefore(t, sel, k) then [] else t.columns
    requires ListStage(sel, k).1 != "All" ==> ListStage(sel, k).0 in prev.columns
    ensures next == ListFilter(prev, ListStage(sel, k).0, ListStage(sel, k).1)
    ensures Reaching(t, sel, k + 1, next)
    ensures next.columns == if ListFilterMeetsEmptyBefore(t, sel, k + 1) then [] else t.columns
  {
    next := ListFilter(prev, ListStage(sel, k).0, ListStage(sel, k).1);
    ReachEmpty(t, prev, sel, k);
    ListFilterStage(t, prev, sel, k, next);
  }

  /** The actor filter lets through exactly the rows that reach the first
      list filter. */
  lemma ActorStage(t: Table, sel: Selection, byActor: Table)
    requires sel.actorType != "All" ==> "actor_type" in t.columns
    requires byActor == SelectEqual(t, "actor_type", sel.actorType)
    ensures Reaching(t, sel, 0, byActor)
  {
  }

  /** List filter `k` turns the rows that reach it into the rows that reach
      the next one, whether or not an earlier filter dropped the columns. */
  lemma ListFilterStage(t: Table, prev: Table, sel: Selection, k: nat, next: Table)
    requires k < 3
    requires forall row ::
      multiset(prev.rows)[row] == if PassesBefore(t.columns, row, sel, k) then multiset(t.rows)[row] else 0
    requires ListStage(sel, k).1 != "All" ==> prev.columns == t.columns && ListStage(sel, k).0 in t.columns
    requires next == ListFilter(prev, ListStage(sel, k).0, ListStage(sel, k).1)
    ensures forall row ::
      multiset(next.rows)[row] == if PassesBefore(t.columns, row, sel, k + 1) then multiset(t.rows)[row] else 0
  {
    var (col, selected) := ListStage(sel, k);
    forall row
      ensures multiset(next.rows)[row] == if PassesBefore(t.columns, row, sel, k + 1) then multiset(t.rows)[row] else 0
    {
      assert ListOk(prev.columns, row, col, selected) == ListOk(t.columns, row, col, selected);
      assert PassesBefore(t.columns, row, sel, k + 1) == (PassesBefore(t.columns, row, sel, k) && ListOk(t.columns, row, col, selected));
    }
  }

  /** The rows that reach list filter `k` are none exactly when no row of
      the leaderboard passes the filters before it. */
  lemma ReachEmpty(t: Table, s: Table, sel: Selection, k: nat)
    requires forall row ::
      multiset(s.rows)[row] == if PassesBefore(t.columns, row, sel, k) then multiset(t.rows)[row] else 0
    ensures s.rows == [] <==> NoneReach(t, sel, k)
  {
    NoneKept(s.rows, t.rows, row => PassesBefore(t.columns, row, sel, k));
  }

  // ----- narrative distribution -----

  /** `row.get("narrative_distribution", {})`: the row's distribution, or the
      empty one when the row has no such cell. */
  function NarrativeDist(labels: seq<string>, values: Row): (dist: seq<(string, real)>)
    ensures !Cell(labels, values, "narrative_distribution").Dict? ==> dist == []
    ensures Cell(labels, values, "narrative_distribution").Dict? ==> dist == Cell(labels, values, "narrative_distribution").entries
  {
    var v := Cell(labels, values, "narrative_distribution");
    if v.Dict? then v.entries else []
  }

  /** The labels of a row after `row[name] = ...`. */
  function AddLabel(labels: seq<string>, name: string): seq<string> {
    if name in labels then labels else labels + [name]
  }

  /** `row[name] = v` on a pandas Series: every cell labelled `name` takes
      `v`, or a cell is appended when the label is absent. */
  function Assign(labels: seq<string>, values: Row, name: string, v: Value): (r: (seq<string>, Row))
    requires |values| == |labels|
    ensures r.0 == AddLabel(labels, name) && |r.1| == |r.0|
    ensures forall i :: 0 <= i < |labels| ==> r.1[i] == if labels[i] == name then v else values[i]
    ensures forall c :: Cell(r.0, r.1, c) == if c == name then v else Cell(labels, values, c)
  {
    var vals := seq(|labels|, i requires 0 <= i < |labels| => if labels[i] == name then v else values[i]);
    var r := if name in labels then (labels, vals) else (labels + [name], vals + [v]);
    forall c ensures Cell(r.0, r.1, c) == if c == name then v else Cell(labels, values, c) {
      IndexOfAppend(labels, name, c);
    }
    r
  }

  /** The labels of a row after assigning `names` in order. */
  function AddLabels(labels: seq<string>, names: seq<string>): seq<string> {
    if names == [] then labels else AddLabel(AddLabels(labels, names[..|names| - 1]), names[|names| - 1])
  }

  /** The labels every flattened row ends with. */
  function FlattenedLabels(labels: seq<string>): seq<string> {
    AddLabels(labels, NarrativeColumns)
  }

  lemma NarrativeColumnsDistinct()
    ensures NoDuplicates(NarrativeColumns)
    ensures forall j :: 0 <= j < 3 ==> NarrativeColumns[j] == "narrative_" + NarrativeCodes[j]
  {
    assert NarrativeColumns[0][12] == '1' && NarrativeColumns[1][12] == '2' && NarrativeColumns[2][12] == '3';
  }

  /** The state of the per-row loop after its first `j` codes: those codes'
      columns hold the distribution's values and every other cell is as it
      was. */
  ghost predicate FlattenedUpTo(labels: seq<string>, values: Row, labels': seq<string>, values': Row, j: nat)
    requires j <= 3
  {
    && |values'| == |labels'|
    && labels' == AddLabels(labels, NarrativeColumns[..j])
    && (forall m :: 0 <= m < j ==>
         Cell(labels', values', NarrativeColumns[m]) == Real(DictGet(NarrativeDist(labels, values), NarrativeCodes[m], 0.0)))
    && (forall c :: c !in NarrativeColumns[..j] ==> Cell(labels', values', c) == Cell(labels, values, c))
  }

  /** One iteration of the per-row loop keeps its state description. */
  lemma FlattenStep(labels: seq<string>, values: Row, labels': seq<string>, values': Row, j: nat)
    requires j < 3 && FlattenedUpTo(labels, values, labels', values', j)
    ensures var r := Assign(labels', values', NarrativeColumns[j], Real(DictGet(NarrativeDist(labels, values), NarrativeCodes[j], 0.0)));
      FlattenedUpTo(labels, values, r.0, r.1, j + 1)
  {
    NarrativeColumnsDistinct();
    var dist := NarrativeDist(labels, values);
    var name := NarrativeColumns[j];
    var r := Assign(labels', values', name, Real(DictGet(dist, NarrativeCodes[j], 0.0)));
    assert r.0 == AddLabels(labels, NarrativeColumns[..j + 1]) by {
      assert NarrativeColumns[..j + 1][..j] == NarrativeColumns[..j];
    }
    forall m | 0 <= m < j + 1
      ensures Cell(r.0, r.1, NarrativeColumns[m]) == Real(DictGet(dist, NarrativeCodes[m], 0.0))
    {
      if m < j {
        assert NarrativeColumns[m] != name;
      }
    }
    forall c | c !in NarrativeColumns[..j + 1]
      ensures Cell(r.0, r.1, c) == Cell(labels, values, c)
    {
      assert NarrativeColumns[..j + 1] == NarrativeColumns[..j] + [name];
    }
  }

  /** The per-row flattening: for each narrative code, the cell
      "narrative_<code>" takes the distribution's value for the code, or 0.0
      when the code is missing; every other cell keeps its value. */
  method FlattenNarrativeDist(labels: seq<string>, values: Row) returns (labels': seq<string>, values': Row)
    requires |values| == |labels|
    requires "narrative_distribution" in labels ==> Cell(labels, values, "narrative_distribution").Dict?
    ensures labels' == FlattenedLabels(labels) && |values'| == |labels'|
    ensures forall j :: 0 <= j < 3 ==>
      Cell(labels', values', NarrativeColumns[j]) == Real(DictGet(NarrativeDist(labels, values), NarrativeCodes[j], 0.0))
    ensures forall c :: c !in NarrativeColumns ==> Cell(labels', values', c) == Cell(labels, values, c)
  {
    var dist := NarrativeDist(labels, values);
    labels', values' := labels, values;
    for j := 0 to 3
      invariant FlattenedUpTo(labels, values, labels', values', j)
    {
      FlattenStep(labels, values, labels', values', j);
      var r := Assign(labels', values', NarrativeColumns[j], Real(DictGet(dist, NarrativeCodes[j], 0.0)));
      labels', values' := r.0, r.1;
    }
    assert NarrativeColumns[..3] == NarrativeColumns;
  }

  /** `out` is the flattening of the row (`labels`, `values`): one cell per
      flattened label, the narrative cells taken from the distribution and
      every other cell as before. */
  ghost predicate FlattensTo(labels: seq<string>, values: Row, out: Row) {
    && |out| == |FlattenedLabels(labels)|
    && (forall j :: 0 <= j < 3 ==>
         Cell(FlattenedLabels(labels), out, NarrativeColumns[j]) == Real(DictGet(NarrativeDist(labels, values), NarrativeCodes[j], 0.0)))
    && (forall c :: c !in NarrativeColumns ==> Cell(FlattenedLabels(labels), out, c) == Cell(labels, values, c))
  }

  /** The flattening applied to every row: one flattened row per row, in
      order, under the extended labels. */
  method FlattenRows(t: Table) returns (r: Table)
    requires t.Valid()
    requires forall row :: row in t.rows ==>
      "narrative_distribution" in t.columns ==> Cell(t.columns, row, "narrative_distribution").Dict?
    ensures r.columns == FlattenedLabels(t.columns) && |r.rows| == |t.rows| && r.Valid()
    ensures forall i :: 0 <= i < |t.rows| ==> FlattensTo(t.columns, t.rows[i], r.rows[i])
  {
    var rows: seq<Row> := [];
    for i := 0 to |t.rows|
      invariant |rows| == i
      invariant forall k :: 0 <= k < i ==> FlattensTo(t.columns, t.rows[k], rows[k])
    {
      assert t.rows[i] in t.rows;
      var labels', values' := FlattenNarrativeDist(t.columns, t.rows[i]);
      rows := rows + [values'];
    }
    r := Table(FlattenedLabels(t.columns), rows);
    assert forall row :: row in rows ==> |row| == |r.columns| by {
      forall row | row in rows ensures |row| == |r.columns| {
        var k :| 0 <= k < |rows| && rows[k] == row;
      }
    }
  }

  /** `df.apply(flatten_narrative_dist, axis=1)` over the filtered leaderboard
      as pandas runs it: one flattened row per row, in order, but for a
      table without rows the function is never applied to a row and the
      table comes back as it was, without the narrative columns. */
  method FlattenLeaderboard(t: Table) returns (r: Table)
    requires t.Valid()
    requires forall row :: row in t.rows ==>
      "narrative_distribution" in t.columns ==> Cell(t.columns, row, "narrative_distribution").Dict?
    ensures t.rows == [] ==> r == t
    ensures t.rows != [] ==> r.columns == FlattenedLabels(t.columns) && |r.rows| == |t.rows| && r.Valid()
    ensures t.rows != [] ==> forall i :: 0 <= i < |t.rows| ==> FlattensTo(t.columns, t.rows[i], r.rows[i])
  {
    if t.rows == [] {
      return t;
    }
    r := FlattenRows(t);
  }

  // ----- the displayed leaderboard -----

  /** The leaderboard's own columns shown in the table. */
  const BaseDisplayColumns: seq<string> := ["userName", "name", "actor_type", "followers", "tweet_count", "total_engagement"]

  /** The columns shown: the leaderboard's own, then the three narrative
      columns. */
  const DisplayColumns: seq<string> := BaseDisplayColumns + NarrativeColumns

  predicate BaseDisplayPresent(columns: seq<string>) {
    forall c :: c in BaseDisplayColumns ==> c in columns
  }

  /** `df[DisplayColumns]`: the shown columns of every row, or nothing when
      one of them is missing (pandas raises a `KeyError`). */
  function DisplayTable(t: Table): (r: Option<Table>)
    ensures r.None? <==> exists c :: c in DisplayColumns && c !in t.columns
    ensures r.Some? ==> r.value.columns == DisplayColumns && r.value.Valid() && |r.value.rows| == |t.rows|
    ensures r.Some? ==> forall i, k :: 0 <= i < |t.rows| && 0 <= k < |DisplayColumns| ==>
      r.value.rows[i][k] == Cell(t.columns, t.rows[i], DisplayColumns[k])
  {
    if exists c :: c in DisplayColumns && c !in t.columns then None
    else
      var rows := seq(|t.rows|, i requires 0 <= i < |t.rows| =>
        seq(|DisplayColumns|, k requires 0 <= k < |DisplayColumns| => Cell(t.columns, t.rows[i], DisplayColumns[k])));
      assert forall row :: row in rows ==> |row| == |DisplayColumns|;
      Some(Table(DisplayColumns, rows))
  }

  /** Flattened labels hold every shown column once the leaderboard's own
      ones are there. */
  lemma FlattenedColumnsDisplayable(columns: seq<string>)
    requires BaseDisplayPresent(columns)
    ensures forall c :: c in DisplayColumns ==> c in FlattenedLabels(columns)
  {
    AddLabelsContains(columns, NarrativeColumns);
  }

  /** As written, a leaderboard that the filters empty cannot be shown: the
      flattening leaves it without the narrative columns, so the column
      selection fails. */
  lemma EmptyLeaderboardNotDisplayed(t: Table)
    requires t.rows == [] && "narrative_N-1" !in t.columns
    ensures DisplayTable(t).None?
  {
    assert "narrative_N-1" in DisplayColumns;
  }

  /** With the flattening applied to every table, whatever its rows, the
      filtered leaderboard can always be shown, an empty one included. */
  lemma FlattenedLeaderboardDisplayed(columns: seq<string>, rows: seq<Row>)
    requires BaseDisplayPresent(columns)
    requires forall row :: row in rows ==> |row| == |FlattenedLabels(columns)|
    ensures DisplayTable(Table(FlattenedLabels(columns), rows)).Some?
    ensures |DisplayTable(Table(FlattenedLabels(columns), rows)).value.rows| == |rows|
  {
    FlattenedColumnsDisplayable(columns);
  }

  /** Assigning columns only adds labels: the old ones stay and every
      assigned name is present afterwards. */
  lemma {:induction false} AddLabelsContains(labels: seq<string>, names: seq<string>)
    ensures forall c :: c in AddLabels(labels, names) <==> c in labels || c in names
  {
    if names != [] {
      var init := names[..|names| - 1];
      AddLabelsContains(labels, init);
      assert names == init + [names[|names| - 1]];
    }
  }

  // ----- long tables for the selected authors -----

  /** The row's user is one of the selected authors. */
  predicate Authored(columns: seq<string>, row: Row, authors: seq<string>) {
    Cell(columns, row, "userName").Str? && Cell(columns, row, "userName").s in authors
  }

  /** `df[df["userName"].isin(authors)]`: every row of a selected author,
      as often as it occurs, in order, and no other row. */
  function SelectAuthors(t: Table, authors: seq<string>): (r: Table)
    requires "userName" in t.columns
    ensures r.columns == t.columns && IsSubsequence(r.rows, t.rows)
    ensures forall row :: multiset(r.rows)[row] == if Authored(t.columns, row, authors) then multiset(t.rows)[row] else 0
    ensures forall row :: row in r.rows <==> row in t.rows && Authored(t.columns, row, authors)
    ensures t.Valid() ==> r.Valid()
  {
    Where(t, row => Authored(t.columns, row, authors))
  }

  /** The "Narrative" label after `.str.replace("narrative_", "")`: a string
      loses its occurrences of the prefix and nothing else, one without the
      prefix is unchanged, and a missing value stays missing. */
  function CleanNarrative(v: Value): (r: Value)
    ensures r.Str? <==> v.Str?
    ensures !v.Str? ==> r == v
    ensures v.Str? ==> IsSubsequence(r.s, v.s)
    ensures v.Str? && !Contains(v.s, "narrative_") ==> r == v
  {
    if v.Str? then
      if !Contains(v.s, "narrative_") then
        ReplaceAbsent(v.s, "narrative_", "");
        Str(ReplaceAll(v.s, "narrative_", ""))
      else
        Str(ReplaceAll(v.s, "narrative_", ""))
    else v
  }

  /** Stripping the prefix from a flattened column's name gives its code. */
  lemma CleanNarrativeColumn(j: int)
    requires 0 <= j < 3
    ensures CleanNarrative(Str(NarrativeColumns[j])) == Str(NarrativeCodes[j])
  {
    assert NarrativeColumns[j] == "narrative_" + NarrativeCodes[j];
    ReplaceAtFront("narrative_", NarrativeCodes[j], "");
    ReplaceAbsent(NarrativeCodes[j], "narrative_", "");
  }

  /** One melted label after the prefix is stripped. */
  lemma CleanNarrativeLabel(v: Value)
    requires v.Str? && v.s in NarrativeColumns
    ensures CleanNarrative(v) in [Str("N-1"), Str("N-2"), Str("N-3")]
    ensures forall j :: 0 <= j < 3 && v == Str(NarrativeColumns[j]) ==> CleanNarrative(v) == Str(NarrativeCodes[j])
  {
    forall j | 0 <= j < 3 && v == Str(NarrativeColumns[j])
      ensures CleanNarrative(v) == Str(NarrativeCodes[j])
    {
      CleanNarrativeColumn(j);
    }
    var j :| 0 <= j < 3 && v.s == NarrativeColumns[j];
    assert v == Str(NarrativeColumns[j]);
    assert Str(NarrativeCodes[j]) in [Str("N-1"), Str("N-2"), Str("N-3")];
  }

  /** One melted narrative row with its label cleaned. */
  function CleanRow(row: Row): (c: Row)
    requires |row| == 3 && row[1].Str? && row[1].s in NarrativeColumns
    ensures |c| == 3 && c[0] == row[0] && c[2] == row[2]
    ensures c[1] in [Str("N-1"), Str("N-2"), Str("N-3")]
    ensures forall j :: 0 <= j < 3 && row[1] == Str(NarrativeColumns[j]) ==> c[1] == Str(NarrativeCodes[j])
  {
    CleanNarrativeLabel(row[1]);
    row[1 := CleanNarrative(row[1])]
  }

  /** `long["Narrative"].str.replace("narrative_", "")` on the melted
      narrative table: every label "narrative_N-k" becomes "N-k" and no other
      cell changes. */
  function StripNarrativePrefix(long: Table): (r: Table)
    requires long.columns == ["userName", "Narrative", "Percentage"] && long.Valid()
    requires forall row: Row :: row in long.rows ==> row[1].Str? && row[1].s in NarrativeColumns
    ensures r.columns == long.columns && |r.rows| == |long.rows| && r.Valid()
    ensures forall k :: 0 <= k < |r.rows| ==> r.rows[k][0] == long.rows[k][0] && r.rows[k][2] == long.rows[k][2]
    ensures forall k, j :: 0 <= k < |r.rows| && 0 <= j < 3 && long.rows[k][1] == Str(NarrativeColumns[j]) ==>
      r.rows[k][1] == Str(NarrativeCodes[j])
    ensures forall row: Row :: row in r.rows ==> row[1] in [Str("N-1"), Str("N-2"), Str("N-3")]
  {
    var rows := seq(|long.rows|, k requires 0 <= k < |long.rows| => CleanRow(long.rows[k]));
    forall k | 0 <= k < |rows|
      ensures |rows[k]| == |long.rows[k]| == 3 && rows[k][0] == long.rows[k][0] && rows[k][2] == long.rows[k][2]
      ensures rows[k][1] in [Str("N-1"), Str("N-2"), Str("N-3")]
      ensures forall j :: 0 <= j < 3 && long.rows[k][1] == Str(NarrativeColumns[j]) ==> rows[k][1] == Str(NarrativeCodes[j])
    {
      assert long.rows[k] in long.rows;
    }
    assert forall row: Row :: row in rows ==> |row| == 3 && row[1] in [Str("N-1"), Str("N-2"), Str("N-3")] by {
      forall row: Row | row in rows ensures |row| == 3 && row[1] in [Str("N-1"), Str("N-2"), Str("N-3")] {
        var k :| 0 <= k < |rows| && rows[k] == row;
      }
    }
    Table(long.columns, rows)
  }

  /** The narrative chart's long table: the selected authors' three narrative
      columns melted into (userName, Narrative, Percentage) rows, three per
      selected author row, each labelled N-1, N-2 or N-3. */
  function NarrativeLong(t: Table, authors: seq<string>): (r: Table)
    requires t.Valid() && "userName" in t.columns
    requires forall c :: c in NarrativeColumns ==> c in t.columns
    ensures r.columns == ["userName", "Narrative", "Percentage"] && r.Valid()
    ensures |r.rows| == 3 * |SelectAuthors(t, authors).rows|
    ensures forall row: Row :: row in r.rows ==> row[1] in [Str("N-1"), Str("N-2"), Str("N-3")]
  {
    var selected := SelectAuthors(t, authors);
    StripNarrativePrefix(Melt(selected, ["userName"], NarrativeColumns, "Narrative", "Percentage"))
  }

  /** The theme and framing charts: the selected authors' rows melted over
      every column but "userName" into (userName, code, value) rows, or
      nothing (an informational message instead) when no author row is
      selected. */
  function CodeLong(t: Table, authors: seq<string>): (r: Option<Table>)
    requires t.Valid() && "userName" in t.columns
    ensures r.None? <==> SelectAuthors(t, authors).rows == []
    ensures r.Some? ==> r.value.columns == ["userName", "code", "value"] && r.value.Valid()
    ensures r.Some? ==> |r.value.rows| == |Filter(t.columns, c => c != "userName")| * |SelectAuthors(t, authors).rows|
  {
    var selected := SelectAuthors(t, authors);
    if selected.rows == [] then None
    else Some(Melt(selected, ["userName"], Filter(t.columns, c => c != "userName"), "code", "value"))
  }

  /** The detail charts drawn for the selected authors. */
  datatype AuthorCharts = AuthorCharts(narrative: Table, theme: Option<Table>, framing: Option<Table>)

  /** The detail section: nothing at all (an informational message) while no
      author is selected; otherwise the narrative chart and, for the theme
      and framing tables, a chart unless the selected authors have no row
      there. */
  function SelectedAuthorCharts(filtered: Table, themeDist: Table, framingDist: Table, authors: seq<string>): (r: Option<AuthorCharts>)
    requires filtered.Valid() && "userName" in filtered.columns
    requires forall c :: c in NarrativeColumns ==> c in filtered.columns
    requires themeDist.Valid() && "userName" in themeDist.columns
    requires framingDist.Valid() && "userName" in framingDist.columns
    ensures r.None? <==> authors == []
    ensures r.Some? ==> |r.value.narrative.rows| == 3 * |SelectAuthors(filtered, authors).rows|
    ensures r.Some? ==> (r.value.theme.None? <==> SelectAuthors(themeDist, authors).rows == [])
    ensures r.Some? ==> (r.value.framing.None? <==> SelectAuthors(framingDist, authors).rows == [])
  {
    if authors == [] then None
    else Some(AuthorCharts(NarrativeLong(filtered, authors), CodeLong(themeDist, authors), CodeLong(framingDist, authors)))
  }
}
