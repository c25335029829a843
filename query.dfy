/** The two document-store queries the controllers use, over a collection
    held in its natural (insertion) order: `findOne(filter)` returns the first
    matching document, `find(filter)` all matching ones, in order. */
module Query {
  import opened Wrappers

  /** Index of the first element satisfying p. */
  function FirstMatch<T>(s: seq<T>, p: T -> bool): (r: Option<nat>)
    ensures r.Some? ==> r.value < |s| && p(s[r.value])
    ensures r.Some? ==> forall j :: 0 <= j < r.value ==> !p(s[j])
    ensures r.None? <==> forall j :: 0 <= j < |s| ==> !p(s[j])
    decreases |s|
  {
    if s == [] then None
    else if p(s[0]) then Some(0)
    else
      match FirstMatch(s[1..], p)
      case None => None
      case Some(k) => Some(k + 1)
  }

  /** `findOne`: a linear scan for the first match. */
  method FindOne<T>(s: seq<T>, p: T -> bool) returns (r: Option<nat>)
    ensures r == FirstMatch(s, p)
  {
    var i := 0;
    while i < |s|
      invariant 0 <= i <= |s|
      invariant forall j :: 0 <= j < i ==> !p(s[j])
    {
      if p(s[i]) {
        FirstMatchUnique(s, p, i);
        return Some(i);
      }
      i := i + 1;
    }
    return None;
  }

  /** The first index is determined by the two properties that define it. */
  lemma FirstMatchUnique<T>(s: seq<T>, p: T -> bool, i: nat)
    requires i < |s| && p(s[i])
    requires forall j :: 0 <= j < i ==> !p(s[j])
    ensures FirstMatch(s, p) == Some(i)
  {
  }

  /** `find`: every match, in collection order. */
  function Filter<T>(s: seq<T>, p: T -> bool): (r: seq<T>)
    ensures |r| <= |s|
    ensures forall x :: x in r ==> x in s && p(x)
    decreases |s|
  {
    if s == [] then []
    else if p(s[0]) then [s[0]] + Filter(s[1..], p)
    else Filter(s[1..], p)
  }

  /** An element of s that satisfies p is kept by Filter. */
  lemma {:induction false} FilterKeeps<T>(s: seq<T>, p: T -> bool, x: T)
    requires x in s && p(x)
    ensures x in Filter(s, p)
    decreases |s|
  {
    if s[0] != x {
      assert x in s[1..];
      FilterKeeps(s[1..], p, x);
    }
  }

  /** Filter keeps everything exactly when every element satisfies p. */
  lemma {:induction false} FilterAll<T>(s: seq<T>, p: T -> bool)
    requires forall j :: 0 <= j < |s| ==> p(s[j])
    ensures Filter(s, p) == s
    decreases |s|
  {
    if s != [] {
      FilterAll(s[1..], p);
    }
  }

  /** r is a subsequence of s: r can be obtained from s by deleting elements. */
  ghost predicate Subsequence<T>(r: seq<T>, s: seq<T>)
    decreases |s|
  {
    r == [] || (s != [] && ((r[0] == s[0] && Subsequence(r[1..], s[1..])) || Subsequence(r, s[1..])))
  }

  /** Filter deletes and never reorders. */
  lemma {:induction false} FilterSubsequence<T>(s: seq<T>, p: T -> bool)
    ensures Subsequence(Filter(s, p), s)
    decreases |s|
  {
    if s != [] {
      FilterSubsequence(s[1..], p);
    }
  }

  /** Without a match, Filter is empty; with no filter at all nothing is lost. */
  lemma {:induction false} FilterEmptyIffNoMatch<T>(s: seq<T>, p: T -> bool)
    ensures Filter(s, p) == [] <==> FirstMatch(s, p).None?
    decreases |s|
  {
    if s != [] && !p(s[0]) {
      FilterEmptyIffNoMatch(s[1..], p);
    }
  }

  /** The elements of s without the one at index i. */
  function RemoveAt<T>(s: seq<T>, i: nat): (r: seq<T>)
    requires i < |s|
    ensures |r| == |s| - 1
    ensures forall j :: 0 <= j < i ==> r[j] == s[j]
    ensures forall j :: i <= j < |r| ==> r[j] == s[j + 1]
  {
    s[..i] + s[i + 1..]
  }
}
