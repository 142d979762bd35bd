/** Searches over lists that the Java code writes as a for-each loop with a
    `break` at the first match. */
module Seqs {
  import opened Wrappers

  /** The index of the first element satisfying `p`, or None if there is none. */
  function FirstIndex<T>(s: seq<T>, p: T -> bool): (r: Option<nat>)
    ensures r.Some? ==> r.value < |s| && p(s[r.value])
    ensures r.Some? ==> forall j :: 0 <= j < r.value ==> !p(s[j])
    ensures r.None? <==> forall j :: 0 <= j < |s| ==> !p(s[j])
  {
    if s == [] then None
    else if p(s[0]) then Some(0)
    else match FirstIndex(s[1..], p)
      case None => None
      case Some(k) => Some(k + 1)
  }

  /** Appending after a match does not move the first match. */
  lemma FirstIndexAppend<T>(a: seq<T>, b: seq<T>, p: T -> bool)
    requires FirstIndex(a, p).Some?
    ensures FirstIndex(a + b, p) == FirstIndex(a, p)
  {
    var i := FirstIndex(a, p).value;
    assert (a + b)[i] == a[i];
    assert forall j :: 0 <= j < i ==> (a + b)[j] == a[j];
  }

  /** Appending to a list without a match: the first match, if any, is in the
      appended part. */
  lemma {:induction false} FirstIndexAfter<T>(a: seq<T>, b: seq<T>, p: T -> bool)
    requires FirstIndex(a, p).None?
    ensures FirstIndex(a + b, p) == match FirstIndex(b, p) case None => None case Some(k) => Some(|a| + k)
  {
    if a == [] {
      assert a + b == b;
    } else {
      assert (a + b)[0] == a[0] && (a + b)[1..] == a[1..] + b;
      FirstIndexAfter(a[1..], b, p);
    }
  }

  /** The elements satisfying `p`, in their original order. */
  function Filter<T>(s: seq<T>, p: T -> bool): (r: seq<T>)
    ensures |r| <= |s|
    ensures forall i :: 0 <= i < |r| ==> r[i] in s && p(r[i])
    ensures forall i :: 0 <= i < |s| && p(s[i]) ==> s[i] in r
  {
    if s == [] then []
    else (if p(s[0]) then [s[0]] else []) + Filter(s[1..], p)
  }

  lemma FilterCons<T>(a: T, s: seq<T>, p: T -> bool)
    ensures Filter([a] + s, p) == (if p(a) then [a] else []) + Filter(s, p)
  {
    assert ([a] + s)[0] == a && ([a] + s)[1..] == s;
  }

  lemma SwapHeads<T>(a: seq<T>, b: seq<T>, rest: seq<T>)
    requires a == [] || b == []
    ensures a + (b + rest) == b + (a + rest)
  {
    if a == [] {
      assert a + (b + rest) == b + rest == b + (a + rest);
    } else {
      assert a + (b + rest) == a + rest == b + (a + rest);
    }
  }

  /** Filtering distributes over concatenation, which is what "keeps the
      original order" means for a filter. */
  lemma {:induction false} FilterAppend<T>(a: seq<T>, b: seq<T>, p: T -> bool)
    ensures Filter(a + b, p) == Filter(a, p) + Filter(b, p)
  {
    if a == [] {
      assert a + b == b;
    } else {
      assert (a + b)[1..] == a[1..] + b;
      FilterAppend(a[1..], b, p);
    }
  }

  /** `stream().map(f)`: `f` applied to every element, in order. */
  function Map<A, B>(s: seq<A>, f: A -> B): (r: seq<B>)
    ensures |r| == |s|
    ensures forall i :: 0 <= i < |s| ==> r[i] == f(s[i])
  {
    if s == [] then [] else [f(s[0])] + Map(s[1..], f)
  }

  /** The position of the first occurrence of `x` in `s`. */
  function Pos<T(==)>(s: seq<T>, x: T): (r: nat)
    requires x in s
    ensures r < |s| && s[r] == x && x !in s[..r]
  {
    if s[0] == x then 0
    else
      assert s == [s[0]] + s[1..];
      var k := Pos(s[1..], x);
      assert s[..k + 1] == [s[0]] + s[1..][..k];
      k + 1
  }

  /** A first occurrence within a prefix is the first occurrence in the whole. */
  lemma PosPrefix<T>(s: seq<T>, m: nat, x: T)
    requires m <= |s| && x in s[..m]
    ensures Pos(s[..m], x) == Pos(s, x)
  {
  }

  /** `r` lists the elements of `s` once each, in order of first occurrence. */
  ghost predicate DistinctOf<T>(s: seq<T>, r: seq<T>) {
    |r| <= |s| &&
    (forall i, j :: 0 <= i < j < |r| ==> r[i] != r[j]) &&
    (forall i :: 0 <= i < |r| ==> r[i] in s) &&
    (forall i :: 0 <= i < |s| ==> s[i] in r) &&
    (forall i, j :: 0 <= i < j < |r| ==> Pos(s, r[i]) < Pos(s, r[j]))
  }

  /** First occurrences within a prefix keep their order in the whole
      sequence, and come before the prefix's end. */
  lemma PosLift<T>(s: seq<T>, n: nat, d: seq<T>)
    requires n <= |s|
    requires forall i :: 0 <= i < |d| ==> d[i] in s[..n]
    ensures forall i :: 0 <= i < |d| ==> d[i] in s && Pos(s, d[i]) == Pos(s[..n], d[i]) < n
  {
    forall i | 0 <= i < |d|
      ensures d[i] in s && Pos(s, d[i]) == Pos(s[..n], d[i]) < n
    {
      PosPrefix(s, n, d[i]);
    }
  }

  /** A last element already listed adds nothing. */
  lemma DistinctKeep<T>(s: seq<T>, d: seq<T>)
    requires s != [] && DistinctOf(s[..|s| - 1], d) && s[|s| - 1] in d
    ensures DistinctOf(s, d)
  {
    var n := |s| - 1;
    PosLift(s, n, d);
    assert s == s[..n] + [s[n]];
    assert forall i :: 0 <= i < n ==> s[..n][i] in d;
  }

  /** A last element not yet listed is listed last. */
  lemma DistinctAdd<T>(s: seq<T>, d: seq<T>)
    requires s != [] && DistinctOf(s[..|s| - 1], d) && s[|s| - 1] !in d
    ensures DistinctOf(s, d + [s[|s| - 1]])
  {
    var n := |s| - 1;
    PosLift(s, n, d);
    assert s == s[..n] + [s[n]];
    assert forall i :: 0 <= i < n ==> s[..n][i] in d;
    assert s[n] !in s[..n];
    assert Pos(s, s[n]) == n;
  }

  /** `stream().distinct()`: each element once, at its first occurrence. */
  function Distinct<T(==)>(s: seq<T>): (r: seq<T>)
    ensures |r| <= |s|
    ensures forall i, j :: 0 <= i < j < |r| ==> r[i] != r[j]
    ensures forall i :: 0 <= i < |r| ==> r[i] in s
    ensures forall i :: 0 <= i < |s| ==> s[i] in r
    ensures forall i, j :: 0 <= i < j < |r| ==> Pos(s, r[i]) < Pos(s, r[j])
  {
    if s == [] then []
    else
      var d := Distinct(s[..|s| - 1]);
      if s[|s| - 1] in d then
        DistinctKeep(s, d);
        d
      else
        DistinctAdd(s, d);
        d + [s[|s| - 1]]
  }
}
