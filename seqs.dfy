/** Generic sequence operations behind the table filters: order-keeping
    selection, first occurrence and first-appearance de-duplication. */
module Seqs {

  /** `sub` is `s` with some elements dropped and the order of the rest kept. */
  predicate IsSubsequence<T(==)>(sub: seq<T>, s: seq<T>)
    decreases |s|
  {
    if sub == [] then true
    else if s == [] then false
    else if sub[0] == s[0] then IsSubsequence(sub[1..], s[1..])
    else IsSubsequence(sub, s[1..])
  }

  lemma {:induction false} SubsequenceOfTail<T>(sub: seq<T>, s: seq<T>)
    requires s != [] && IsSubsequence(sub, s[1..])
    ensures IsSubsequence(sub, s)
    decreases |s|, 0
  {
    if sub != [] && sub[0] == s[0] {
      DropHead(sub, s[1..]);
    }
  }

  lemma {:induction false} DropHead<T>(sub: seq<T>, s: seq<T>)
    requires sub != [] && IsSubsequence(sub, s)
    ensures IsSubsequence(sub[1..], s)
    decreases |s|, 1
  {
    if sub[0] == s[0] {
      SubsequenceOfTail(sub[1..], s);
    } else {
      DropHead(sub, s[1..]);
      SubsequenceOfTail(sub[1..], s);
    }
  }

  lemma {:induction false} SubsequenceReflexive<T>(s: seq<T>)
    ensures IsSubsequence(s, s)
  {
    if s != [] {
      SubsequenceReflexive(s[1..]);
    }
  }

  /** A subsequence of a suffix is a subsequence of the whole. */
  lemma {:induction false} SubsequenceOfSuffix<T>(sub: seq<T>, s: seq<T>, n: nat)
    requires n <= |s| && IsSubsequence(sub, s[n..])
    ensures IsSubsequence(sub, s)
    decreases n
  {
    if n > 0 {
      assert s[1..][n - 1..] == s[n..];
      SubsequenceOfSuffix(sub, s[1..], n - 1);
      SubsequenceOfTail(sub, s);
    }
  }

  /** The elements of `s` that satisfy `keep`, in their original order
      (a boolean mask applied to the rows of a table). */
  function Filter<T(==,!new)>(s: seq<T>, keep: T -> bool): (r: seq<T>)
    ensures IsSubsequence(r, s)
    ensures forall x :: multiset(r)[x] == if keep(x) then multiset(s)[x] else 0
    ensures forall x :: x in r <==> x in s && keep(x)
    ensures |r| <= |s|
  {
    if s == [] then []
    else
      var rest := Filter(s[1..], keep);
      assert s == [s[0]] + s[1..];
      if keep(s[0]) then
        assert ([s[0]] + rest)[1..] == rest;
        [s[0]] + rest
      else
        SubsequenceOfTail(rest, s);
        rest
  }

  /** A sequence holding each element of `s` that passes `keep`, as often
      as `s` does, and nothing else, is empty exactly when nothing passes. */
  lemma NoneKept<T>(r: seq<T>, s: seq<T>, keep: T -> bool)
    requires forall x :: multiset(r)[x] == if keep(x) then multiset(s)[x] else 0
    ensures r == [] <==> forall i :: 0 <= i < |s| ==> !keep(s[i])
  {
    if r != [] {
      assert multiset(r)[r[0]] > 0;
    } else {
      forall i | 0 <= i < |s|
        ensures !keep(s[i])
      {
        assert multiset(s)[s[i]] > 0;
      }
    }
  }

  /** Index of the first occurrence of `x` in `s`, or `|s|` when there is none. */
  function IndexOf<T(==)>(s: seq<T>, x: T): (i: nat)
    ensures i <= |s|
    ensures i < |s| ==> s[i] == x
    ensures forall k :: 0 <= k < i ==> s[k] != x
    ensures i == |s| <==> x !in s
  {
    if s == [] then 0
    else if s[0] == x then 0
    else 1 + IndexOf(s[1..], x)
  }

  lemma {:induction false} IndexOfAppend<T>(p: seq<T>, z: T, y: T)
    ensures y in p ==> IndexOf(p + [z], y) == IndexOf(p, y)
    ensures y !in p && y == z ==> IndexOf(p + [z], y) == |p|
  {
    if p != [] {
      assert (p + [z])[1..] == p[1..] + [z];
      IndexOfAppend(p[1..], z, y);
    }
  }

  predicate NoDuplicates<T(==)>(s: seq<T>) {
    forall i, j :: 0 <= i < j < |s| ==> s[i] != s[j]
  }

  /** The distinct elements of `s` in order of first appearance (pandas'
      `Series.unique`). */
  function Unique<T(==,!new)>(s: seq<T>): (r: seq<T>)
    ensures NoDuplicates(r)
    ensures forall x :: x in r <==> x in s
    ensures forall i, j :: 0 <= i < j < |r| ==> IndexOf(s, r[i]) < IndexOf(s, r[j])
  {
    if s == [] then []
    else
      var p, z := s[..|s| - 1], s[|s| - 1];
      assert s == p + [z];
      var u := Unique(p);
      forall y | y in p
        ensures IndexOf(s, y) == IndexOf(p, y)
      {
        IndexOfAppend(p, z, y);
      }
      if z in u then u
      else
        IndexOfAppend(p, z, z);
        u + [z]
  }
}
