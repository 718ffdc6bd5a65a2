/** The language-comparison view: the choice of a member, the lookup of that
    member's row and the records comparing the English and native-language
    narrative distributions. */
module LanguageComparison {
  import opened Wrappers
  import opened Seqs
  import opened Tables

  /** The "userName" cells, row by row. */
  function UserNames(t: Table): (r: seq<Value>)
    ensures |r| == |t.rows|
    ensures forall k :: 0 <= k < |r| ==> r[k] == Cell(t.columns, t.rows[k], "userName")
  {
    seq(|t.rows|, k requires 0 <= k < |t.rows| => Cell(t.columns, t.rows[k], "userName"))
  }

  /** `comp_df["userName"].unique()`: every user once, in order of first
      appearance. */
  function UserOptions(t: Table): (r: seq<Value>)
    requires "userName" in t.columns
    ensures NoDuplicates(r)
    ensures forall u :: u in r <==> exists k :: 0 <= k < |t.rows| && Cell(t.columns, t.rows[k], "userName") == u
    ensures forall i, j :: 0 <= i < j < |r| ==> IndexOf(UserNames(t), r[i]) < IndexOf(UserNames(t), r[j])
  {
    var names := UserNames(t);
    assert forall u :: u in names <==> exists k :: 0 <= k < |t.rows| && Cell(t.columns, t.rows[k], "userName") == u by {
      forall u ensures u in names ==> exists k :: 0 <= k < |t.rows| && Cell(t.columns, t.rows[k], "userName") == u {
        if u in names {
          var k :| 0 <= k < |names| && names[k] == u;
        }
      }
    }
    Unique(names)
  }

  /** A row's user equals the chosen one; a missing value (NaN) equals
      nothing, itself included. */
  predicate IsUser(columns: seq<string>, row: Row, user: Value) {
    user != Null && Cell(columns, row, "userName") == user
  }

  /** `comp_df[comp_df["userName"] == user].iloc[0]`: the first row of the
      chosen user, or nothing when no row matches (`iloc[0]` would raise an
      IndexError). */
  function SelectUserRow(t: Table, user: Value): (r: Option<nat>)
    ensures r.Some? ==> r.value < |t.rows| && IsUser(t.columns, t.rows[r.value], user)
    ensures r.Some? ==> forall k :: 0 <= k < r.value ==> !IsUser(t.columns, t.rows[k], user)
    ensures r.None? <==> forall k :: 0 <= k < |t.rows| ==> !IsUser(t.columns, t.rows[k], user)
  {
    FirstFrom(t, user, 0)
  }

  function FirstFrom(t: Table, user: Value, from: nat): (r: Option<nat>)
    requires from <= |t.rows|
    ensures r.Some? ==> from <= r.value < |t.rows| && IsUser(t.columns, t.rows[r.value], user)
    ensures r.Some? ==> forall k :: from <= k < r.value ==> !IsUser(t.columns, t.rows[k], user)
    ensures r.None? <==> forall k :: from <= k < |t.rows| ==> !IsUser(t.columns, t.rows[k], user)
    decreases |t.rows| - from
  {
    if from == |t.rows| then None
    else if IsUser(t.columns, t.rows[from], user) then Some(from)
    else FirstFrom(t, user, from + 1)
  }

  /** Every user the selector offers, other than a missing value, has a row. */
  lemma OfferedUserHasRow(t: Table, user: Value)
    requires "userName" in t.columns
    requires user in UserOptions(t) && user != Null
    ensures SelectUserRow(t, user).Some?
  {
    var k :| 0 <= k < |t.rows| && Cell(t.columns, t.rows[k], "userName") == user;
    assert IsUser(t.columns, t.rows[k], user);
  }

  /** One bar of the comparison chart. */
  datatype NarrativeRecord = NarrativeRecord(narrative: string, percent: real, language: string)

  /** The two loops: one record per entry of the English distribution, in
      key order and labelled "English", then one per entry of the
      native-language distribution, labelled "Native". */
  method BuildRecords(en: seq<(string, real)>, native: seq<(string, real)>) returns (records: seq<NarrativeRecord>)
    ensures |records| == |en| + |native|
    ensures forall k :: 0 <= k < |en| ==> records[k] == NarrativeRecord(en[k].0, en[k].1, "English")
    ensures forall k :: 0 <= k < |native| ==> records[|en| + k] == NarrativeRecord(native[k].0, native[k].1, "Native")
  {
    records := [];
    for k := 0 to |en|
      invariant |records| == k
      invariant forall m :: 0 <= m < k ==> records[m] == NarrativeRecord(en[m].0, en[m].1, "English")
    {
      records := records + [NarrativeRecord(en[k].0, en[k].1, "English")];
    }
    for k := 0 to |native|
      invariant |records| == |en| + k
      invariant forall m :: 0 <= m < |en| ==> records[m] == NarrativeRecord(en[m].0, en[m].1, "English")
      invariant forall m :: 0 <= m < k ==> records[|en| + m] == NarrativeRecord(native[m].0, native[m].1, "Native")
    {
      records := records + [NarrativeRecord(native[k].0, native[k].1, "Native")];
    }
  }

  /** The records of one language, in order. */
  function OfLanguage(records: seq<NarrativeRecord>, language: string): seq<(string, real)> {
    if records == [] then []
    else
      var head := if records[0].language == language then [(records[0].narrative, records[0].percent)] else [];
      head + OfLanguage(records[1..], language)
  }

  function Labelled(dist: seq<(string, real)>, language: string): (r: seq<NarrativeRecord>)
    ensures |r| == |dist|
    ensures forall k :: 0 <= k < |r| ==> r[k] == NarrativeRecord(dist[k].0, dist[k].1, language)
  {
    seq(|dist|, k requires 0 <= k < |dist| => NarrativeRecord(dist[k].0, dist[k].1, language))
  }

  lemma {:induction false} OfLanguageAppend(a: seq<NarrativeRecord>, b: seq<NarrativeRecord>, language: string)
    ensures OfLanguage(a + b, language) == OfLanguage(a, language) + OfLanguage(b, language)
  {
    if a == [] {
      assert a + b == b;
    } else {
      assert (a + b)[1..] == a[1..] + b;
      OfLanguageAppend(a[1..], b, language);
    }
  }

  lemma {:induction false} OfLanguageLabelled(dist: seq<(string, real)>, tag: string, language: string)
    ensures OfLanguage(Labelled(dist, tag), language) == if tag == language then dist else []
  {
    if dist != [] {
      assert Labelled(dist, tag)[1..] == Labelled(dist[1..], tag);
      OfLanguageLabelled(dist[1..], tag, language);
    }
  }

  /** The records lose nothing: those labelled "English" are exactly the
      English distribution and those labelled "Native" exactly the
      native-language one, each in its key order. */
  lemma RecordsSplitByLanguage(en: seq<(string, real)>, native: seq<(string, real)>, records: seq<NarrativeRecord>)
    requires |records| == |en| + |native|
    requires forall k :: 0 <= k < |en| ==> records[k] == NarrativeRecord(en[k].0, en[k].1, "English")
    requires forall k :: 0 <= k < |native| ==> records[|en| + k] == NarrativeRecord(native[k].0, native[k].1, "Native")
    ensures OfLanguage(records, "English") == en
    ensures OfLanguage(records, "Native") == native
  {
    var english := Labelled(en, "English");
    var nativeRecords := Labelled(native, "Native");
    RecordsAreLabelled(en, native, records);
    assert OfLanguage(records, "English") == en by {
      OfLanguageAppend(english, nativeRecords, "English");
      OfLanguageLabelled(en, "English", "English");
      OfLanguageLabelled(native, "Native", "English");
    }
    assert OfLanguage(records, "Native") == native by {
      OfLanguageAppend(english, nativeRecords, "Native");
      OfLanguageLabelled(en, "English", "Native");
      OfLanguageLabelled(native, "Native", "Native");
    }
  }

  /** The records the two loops build are the two labelled distributions,
      one after the other. */
  lemma RecordsAreLabelled(en: seq<(string, real)>, native: seq<(string, real)>, records: seq<NarrativeRecord>)
    requires |records| == |en| + |native|
    requires forall k :: 0 <= k < |en| ==> records[k] == NarrativeRecord(en[k].0, en[k].1, "English")
    requires forall k :: 0 <= k < |native| ==> records[|en| + k] == NarrativeRecord(native[k].0, native[k].1, "Native")
    ensures records == Labelled(en, "English") + Labelled(native, "Native")
  {
    var both := Labelled(en, "English") + Labelled(native, "Native");
    forall k | 0 <= k < |records|
      ensures records[k] == both[k]
    {
      if k >= |en| {
        assert records[|en| + (k - |en|)] == both[k];
      }
    }
  }

  /** The chart data for a chosen user: nothing when the user has no row or
      the row's distributions are not both objects (the lookup or `.items()`
      would raise), otherwise the records built from the first matching
      row's two distributions. */
  method CompareUser(t: Table, user: Value) returns (r: Option<seq<NarrativeRecord>>)
    ensures r.None? <==>
      || SelectUserRow(t, user).None?
      || !Cell(t.columns, t.rows[SelectUserRow(t, user).value], "narrative_dist_en").Dict?
      || !Cell(t.columns, t.rows[SelectUserRow(t, user).value], "narrative_dist_native").Dict?
    ensures r.Some? ==>
      var row := t.rows[SelectUserRow(t, user).value];
      OfLanguage(r.value, "English") == Cell(t.columns, row, "narrative_dist_en").entries &&
      OfLanguage(r.value, "Native") == Cell(t.columns, row, "narrative_dist_native").entries &&
      |r.value| == |Cell(t.columns, row, "narrative_dist_en").entries| + |Cell(t.columns, row, "narrative_dist_native").entries|
    ensures r.Some? ==>
      var row := t.rows[SelectUserRow(t, user).value];
      r.value == Labelled(Cell(t.columns, row, "narrative_dist_en").entries, "English") +
                 Labelled(Cell(t.columns, row, "narrative_dist_native").entries, "Native")
  {
    var found := SelectUserRow(t, user);
    if found.None? {
      return None;
    }
    var row := t.rows[found.value];
    var en := Cell(t.columns, row, "narrative_dist_en");
    var native := Cell(t.columns, row, "narrative_dist_native");
    if !en.Dict? || !native.Dict? {
      return None;
    }
    var records := BuildRecords(en.entries, native.entries);
    RecordsSplitByLanguage(en.entries, native.entries, records);
    RecordsAreLabelled(en.entries, native.entries, records);
    return Some(records);
  }
}
