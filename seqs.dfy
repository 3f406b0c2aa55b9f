/** Generic facts about sequences: duplicate-free sequences, subsequences and the
    order-preserving de-duplication that `[...new Set(xs)]` performs. */
module Seqs {

  /** No element occurs twice. */
  predicate NoDup<T(==)>(s: seq<T>) {
    forall i, j :: 0 <= i < j < |s| ==> s[i] != s[j]
  }

  /** `r` is obtained from `s` by deleting elements, keeping the order of the rest. */
  predicate IsSubsequence<T(==)>(r: seq<T>, s: seq<T>)
    decreases |s|
  {
    if r == [] then true
    else if s == [] then false
    else if r[0] == s[0] then IsSubsequence(r[1..], s[1..])
    else IsSubsequence(r, s[1..])
  }

  /** Index of the first occurrence of `x` in `s`. */
  function FirstIndex<T(==)>(s: seq<T>, x: T): (k: nat)
    requires x in s
    ensures k < |s| && s[k] == x
    ensures forall j :: 0 <= j < k ==> s[j] != x
  {
    if s[0] == x then 0 else 1 + FirstIndex(s[1..], x)
  }

  /** The elements of `s` in the order of their first occurrence: what a JavaScript
      `Set` built from `s` yields on iteration. */
  function Dedup<T(==,!new)>(s: seq<T>): (u: seq<T>)
    ensures NoDup(u)
    ensures forall x :: x in u <==> x in s
    ensures |u| <= |s|
    ensures |s| > 0 ==> |u| > 0 && u[0] == s[0]
  {
    if s == [] then []
    else
      var d := Dedup(s[..|s| - 1]);
      var last := s[|s| - 1];
      assert forall x :: x in s <==> x in s[..|s| - 1] || x == last;
      if last in d then d else d + [last]
  }

  /** Dedup keeps the first-seen order: an element that first occurs earlier in `s`
      comes earlier in the de-duplicated sequence. */
  lemma {:induction false} DedupFirstSeenOrder<T(!new)>(s: seq<T>, i: nat, j: nat)
    requires i < j < |Dedup(s)|
    ensures FirstIndex(s, Dedup(s)[i]) < FirstIndex(s, Dedup(s)[j])
  {
    var p := s[..|s| - 1];
    var d := Dedup(p);
    var last := s[|s| - 1];
    var u := Dedup(s);
    FirstIndexOfPrefix(s, p, u[i]);
    if j < |d| {
      assert u[i] == d[i] && u[j] == d[j];
      DedupFirstSeenOrder(p, i, j);
      FirstIndexOfPrefix(s, p, u[j]);
    } else {
      assert u[j] == last && last !in d && last !in p;
      assert FirstIndex(s, last) == |s| - 1;
    }
  }

  lemma FirstIndexOfPrefix<T>(s: seq<T>, p: seq<T>, x: T)
    requires p <= s && x in p
    ensures x in s && FirstIndex(s, x) == FirstIndex(p, x)
  {
    var k := FirstIndex(p, x);
    assert s[k] == x;
  }

  /** De-duplication only deletes elements. */
  lemma {:induction false} DedupIsSubsequence<T(!new)>(s: seq<T>)
    ensures IsSubsequence(Dedup(s), s)
  {
    if s != [] {
      var p := s[..|s| - 1];
      DedupIsSubsequence(p);
      var last := s[|s| - 1];
      if last in Dedup(p) {
        SubsequenceExtend(Dedup(p), p, [last]);
        assert p + [last] == s;
      } else {
        SubsequenceAppend(Dedup(p), p, last);
        assert p + [last] == s;
      }
    }
  }

  lemma {:induction false} SubsequenceExtend<T>(r: seq<T>, s: seq<T>, t: seq<T>)
    requires IsSubsequence(r, s)
    ensures IsSubsequence(r, s + t)
    decreases |s|
  {
    if r != [] {
      assert s != [];
      assert (s + t)[0] == s[0] && (s + t)[1..] == s[1..] + t;
      if r[0] == s[0] {
        SubsequenceExtend(r[1..], s[1..], t);
      } else {
        SubsequenceExtend(r, s[1..], t);
      }
    }
  }

  lemma {:induction false} SubsequenceAppend<T>(r: seq<T>, s: seq<T>, x: T)
    requires IsSubsequence(r, s)
    ensures IsSubsequence(r + [x], s + [x])
    decreases |s|
  {
    if r == [] {
      assert r + [x] == [x];
      SubsequenceOfSingleton(s, x);
    } else {
      assert s != [];
      assert (s + [x])[0] == s[0] && (s + [x])[1..] == s[1..] + [x];
      assert (r + [x])[0] == r[0] && (r + [x])[1..] == r[1..] + [x];
      if r[0] == s[0] {
        SubsequenceAppend(r[1..], s[1..], x);
      } else {
        SubsequenceAppend(r, s[1..], x);
      }
    }
  }

  lemma {:induction false} SubsequenceOfSingleton<T>(s: seq<T>, x: T)
    ensures IsSubsequence([x], s + [x])
    decreases |s|
  {
    if s != [] {
      assert (s + [x])[1..] == s[1..] + [x];
      if s[0] != x {
        SubsequenceOfSingleton(s[1..], x);
      }
    }
  }
}
