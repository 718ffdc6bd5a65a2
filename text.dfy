/** The Python string operations the dashboard relies on: `startswith`,
    `in`, `lower`, `strip`, `replace`, and `sorted` over a set of strings. */
module Text {
  import opened Seqs

  /** `s.startswith(p)`. */
  predicate StartsWith(s: string, p: string) {
    |p| <= |s| && s[..|p|] == p
  }

  /** `t` occurs in `s` starting at position `i`. */
  predicate OccursAt(s: string, t: string, i: int) {
    0 <= i && i + |t| <= |s| && s[i..i + |t|] == t
  }

  /** `t in s` on strings. */
  predicate Contains(s: string, t: string) {
    exists i | 0 <= i <= |s| - |t| :: OccursAt(s, t, i)
  }

  // ----- case folding -----

  predicate IsUpper(c: char) {
    'A' <= c <= 'Z'
  }

  function LowerChar(c: char): (d: char)
    ensures !IsUpper(d)
    ensures IsUpper(c) ==> d as int == c as int + 32
    ensures !IsUpper(c) ==> d == c
  {
    if IsUpper(c) then (c as int + 32) as char else c
  }

  /** `s.lower()`, restricted to the ASCII letters. */
  function Lower(s: string): (r: string)
    ensures |r| == |s|
    ensures forall i :: 0 <= i < |r| ==> !IsUpper(r[i])
    ensures forall i :: 0 <= i < |s| && IsUpper(s[i]) ==> r[i] as int == s[i] as int + 32
    ensures forall i :: 0 <= i < |s| && !IsUpper(s[i]) ==> r[i] == s[i]
  {
    seq(|s|, i requires 0 <= i < |s| => LowerChar(s[i]))
  }

  // ----- whitespace stripping -----

  /** The ASCII characters for which Python's `str.isspace` holds. */
  predicate IsSpace(c: char) {
    c == ' ' || (9 <= c as int <= 13) || (28 <= c as int <= 31)
  }

  /** `s.lstrip()`: `s` without its leading whitespace. */
  function TrimStart(s: string): (r: string)
    ensures |r| <= |s| && r == s[|s| - |r|..]
    ensures forall k :: 0 <= k < |s| - |r| ==> IsSpace(s[k])
    ensures r == [] || !IsSpace(r[0])
  {
    if s != [] && IsSpace(s[0]) then TrimStart(s[1..]) else s
  }

  /** `s.rstrip()`: `s` without its trailing whitespace. */
  function TrimEnd(s: string): (r: string)
    ensures |r| <= |s| && r == s[..|r|]
    ensures forall k :: |r| <= k < |s| ==> IsSpace(s[k])
    ensures r == [] || !IsSpace(r[|r| - 1])
  {
    if s != [] && IsSpace(s[|s| - 1]) then TrimEnd(s[..|s| - 1]) else s
  }

  /** `r` is `s` with the whitespace at both ends removed and nothing else:
      a slice of `s` that neither starts nor ends with whitespace, outside
      of which `s` holds only whitespace. */
  predicate Stripped(s: string, r: string) {
    && (r == [] || (!IsSpace(r[0]) && !IsSpace(r[|r| - 1])))
    && exists i, j :: 0 <= i <= j <= |s| && r == s[i..j] &&
         forall k :: 0 <= k < |s| && (k < i || j <= k) ==> IsSpace(s[k])
  }

  /** A slice between two whitespace-only ends that neither starts nor ends
      with whitespace is `s` stripped. */
  lemma StrippedSlice(s: string, i: int, j: int)
    requires 0 <= i <= j <= |s|
    requires forall k :: 0 <= k < |s| && (k < i || j <= k) ==> IsSpace(s[k])
    requires i == j || (!IsSpace(s[i]) && !IsSpace(s[j - 1]))
    ensures Stripped(s, s[i..j])
  {
  }

  /** Cutting whitespace off the front of `s` (leaving `t`) and then off
      the back of `t` (leaving `r`, which then neither starts nor ends with
      whitespace) strips `s`. */
  lemma StrippedByCuts(s: string, t: string, r: string)
    requires |t| <= |s| && t == s[|s| - |t|..]
    requires forall k :: 0 <= k < |s| - |t| ==> IsSpace(s[k])
    requires |r| <= |t| && r == t[..|r|]
    requires forall k :: |r| <= k < |t| ==> IsSpace(t[k])
    requires r == [] || (!IsSpace(r[0]) && !IsSpace(r[|r| - 1]))
    ensures Stripped(s, r)
  {
    var i := |s| - |t|;
    assert r == s[i..i + |r|];
    forall k | 0 <= k < |s| && (k < i || i + |r| <= k) ensures IsSpace(s[k]) {
      if k >= i {
        assert s[k] == t[k - i];
      }
    }
    assert r != [] ==> r[0] == s[i] && r[|r| - 1] == s[i + |r| - 1];
    StrippedSlice(s, i, i + |r|);
  }

  /** Stripping the leading and then the trailing whitespace strips both
      ends. */
  lemma TrimBothEnds(s: string)
    ensures Stripped(s, TrimEnd(TrimStart(s)))
  {
    var t := TrimStart(s);
    var r := TrimEnd(t);
    assert r == [] || !IsSpace(r[0]) by {
      if r != [] {
        assert r[0] == t[0];
      }
    }
    StrippedByCuts(s, t, r);
  }

  /** `s.strip()`. */
  function Trim(s: string): (r: string)
    ensures Stripped(s, r)
    ensures (forall k :: 0 <= k < |s| ==> IsSpace(s[k])) <==> r == []
  {
    TrimBothEnds(s);
    var t := TrimStart(s);
    assert TrimEnd(t) == [] ==> t == [];
    TrimEnd(t)
  }

  // ----- replacement -----

  /** `s.replace(pat, rep)`: every non-overlapping occurrence of `pat`,
      scanning left to right, replaced by `rep`. A replacement no longer
      than the pattern never lengthens the string, one of the same length
      keeps it, and an empty one only deletes characters, keeping the order
      of the rest. */
  function ReplaceAll(s: string, pat: string, rep: string): (r: string)
    requires pat != []
    ensures |rep| <= |pat| ==> |r| <= |s|
    ensures |rep| == |pat| ==> |r| == |s|
    ensures rep == [] ==> IsSubsequence(r, s)
    decreases |s|
  {
    if |s| < |pat| then
      SubsequenceReflexive(s);
      s
    else if s[..|pat|] == pat then
      var rest := ReplaceAll(s[|pat|..], pat, rep);
      if rep == [] then
        assert rep + rest == rest;
        SubsequenceOfSuffix(rest, s, |pat|);
        rep + rest
      else
        rep + rest
    else
      var rest := ReplaceAll(s[1..], pat, rep);
      assert ([s[0]] + rest)[1..] == rest;
      [s[0]] + rest
  }

  /** A string in which `pat` does not occur comes back unchanged. */
  lemma {:induction false} ReplaceAbsent(s: string, pat: string, rep: string)
    requires pat != []
    ensures !Contains(s, pat) ==> ReplaceAll(s, pat, rep) == s
    decreases |s|
  {
    if !Contains(s, pat) && |s| >= |pat| {
      assert !OccursAt(s, pat, 0);
      assert !Contains(s[1..], pat) by {
        forall i | OccursAt(s[1..], pat, i) ensures OccursAt(s, pat, i + 1) {
          assert s[1..][i..i + |pat|] == s[i + 1..i + 1 + |pat|];
        }
      }
      ReplaceAbsent(s[1..], pat, rep);
    }
  }

  /** An occurrence of `pat` at the front is replaced, the rest is scanned on. */
  lemma ReplaceAtFront(pat: string, rest: string, rep: string)
    requires pat != []
    ensures ReplaceAll(pat + rest, pat, rep) == rep + ReplaceAll(rest, pat, rep)
  {
    assert (pat + rest)[..|pat|] == pat;
    assert (pat + rest)[|pat|..] == rest;
  }

  /** A first character that cannot start `pat` is copied and the scan moves on. */
  lemma ReplaceSkip(c: char, rest: string, pat: string, rep: string)
    requires pat != [] && pat[0] != c
    ensures ReplaceAll([c] + rest, pat, rep) == [c] + ReplaceAll(rest, pat, rep)
  {
    assert ([c] + rest)[1..] == rest;
  }

  /** A stretch in which the first character of `pat` never occurs is
      copied unchanged and the scan resumes after it. */
  lemma {:induction false} ReplaceAfterStem(stem: string, s: string, pat: string, rep: string)
    requires pat != [] && pat[0] !in stem
    ensures ReplaceAll(stem + s, pat, rep) == stem + ReplaceAll(s, pat, rep)
  {
    if stem == [] {
      assert stem + s == s;
    } else {
      ReplaceAfterStem(stem[1..], s, pat, rep);
      assert stem + s == [stem[0]] + (stem[1..] + s);
      ReplaceSkip(stem[0], stem[1..] + s, pat, rep);
      assert stem + ReplaceAll(s, pat, rep) == [stem[0]] + (stem[1..] + ReplaceAll(s, pat, rep));
    }
  }

  // ----- ordering -----

  /** Python's `<` on strings: code-point lexicographic order, a proper
      prefix first. */
  predicate LexLess(a: string, b: string) {
    if a == [] then b != []
    else if b == [] then false
    else if a[0] == b[0] then LexLess(a[1..], b[1..])
    else a[0] < b[0]
  }

  lemma {:induction false} LexLessIrreflexive(a: string)
    ensures !LexLess(a, a)
  {
    if a != [] {
      LexLessIrreflexive(a[1..]);
    }
  }

  lemma {:induction false} LexLessTransitive(a: string, b: string, c: string)
    requires LexLess(a, b) && LexLess(b, c)
    ensures LexLess(a, c)
  {
    if a != [] && a[0] == b[0] && b[0] == c[0] {
      LexLessTransitive(a[1..], b[1..], c[1..]);
    }
  }

  lemma {:induction false} LexLessTotal(a: string, b: string)
    requires a != b
    ensures LexLess(a, b) || LexLess(b, a)
  {
    if a != [] && b != [] && a[0] == b[0] {
      assert a == [a[0]] + a[1..] && b == [b[0]] + b[1..];
      LexLessTotal(a[1..], b[1..]);
    }
  }

  predicate StrictlySorted(s: seq<string>) {
    forall i, j :: 0 <= i < j < |s| ==> LexLess(s[i], s[j])
  }

  /** Inserts `x` into a strictly sorted list unless it is already there. */
  function InsertSorted(x: string, s: seq<string>): (r: seq<string>)
    requires StrictlySorted(s)
    ensures StrictlySorted(r)
    ensures forall y :: y in r <==> y == x || y in s
  {
    if s == [] then [x]
    else if x == s[0] then s
    else if LexLess(x, s[0]) then
      assert forall j :: 0 <= j < |s| ==> LexLess(x, s[j]) by {
        forall j | 0 < j < |s| ensures LexLess(x, s[j]) {
          LexLessTransitive(x, s[0], s[j]);
        }
      }
      [x] + s
    else
      LexLessTotal(x, s[0]);
      var tail := InsertSorted(x, s[1..]);
      assert forall y :: y in tail ==> LexLess(s[0], y);
      [s[0]] + tail
  }

  /** `sorted(set(xs))`: the distinct values of `xs` in ascending order. */
  function SortedDistinct(xs: seq<string>): (r: seq<string>)
    ensures StrictlySorted(r)
    ensures forall y :: y in r <==> y in xs
  {
    if xs == [] then [] else InsertSorted(xs[0], SortedDistinct(xs[1..]))
  }

  lemma StrictlySortedNoDuplicates(s: seq<string>, i: int, j: int)
    requires StrictlySorted(s) && 0 <= i < j < |s|
    ensures s[i] != s[j]
  {
    LexLessIrreflexive(s[i]);
  }

  lemma EmptyIffNoElements(s: seq<string>)
    ensures s == [] <==> forall y :: y !in s
  {
    if s != [] {
      assert s[0] in s;
    }
  }

  /** A strictly sorted list is determined by its elements: two of them
      holding the same strings are equal. */
  lemma {:induction false} StrictlySortedUnique(s: seq<string>, t: seq<string>)
    requires StrictlySorted(s) && StrictlySorted(t)
    requires forall y :: y in s <==> y in t
    ensures s == t
  {
    EmptyIffNoElements(s);
    EmptyIffNoElements(t);
    if s == [] || t == [] {
      return;
    }
    assert s[0] in t && t[0] in s;
    var i :| 0 <= i < |t| && t[i] == s[0];
    var j :| 0 <= j < |s| && s[j] == t[0];
    if i != 0 && j != 0 {
      // each head would have to lie below the other
      LexLessTransitive(s[0], t[0], s[0]);
      LexLessIrreflexive(s[0]);
    }
    assert s[0] == t[0];
    forall y ensures y in s[1..] <==> y in t[1..] {
      if y in s[1..] {
        var k :| 1 <= k < |s| && s[k] == y;
        StrictlySortedNoDuplicates(s, 0, k);
        assert y in s;
        var m :| 0 <= m < |t| && t[m] == y;
        assert m != 0;
      }
      if y in t[1..] {
        var k :| 1 <= k < |t| && t[k] == y;
        StrictlySortedNoDuplicates(t, 0, k);
        assert y in t;
        var m :| 0 <= m < |s| && s[m] == y;
        assert m != 0;
      }
    }
    StrictlySortedUnique(s[1..], t[1..]);
    assert s == [s[0]] + s[1..] && t == [t[0]] + t[1..];
  }
}
