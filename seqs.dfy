/**
 * First-occurrence deduplication, shared by the insertion order of a Python
 * dict (a repeated key keeps its first position) and by pandas'
 * `columns.duplicated()` filter (a repeated column name is dropped).
 */
module Seqs {

  predicate Distinct<T(==)>(s: seq<T>) {
    forall i, j :: 0 <= i < j < |s| ==> s[i] != s[j]
  }

  /** Index of the first occurrence of `x` in `s`. */
  function FirstIndex<T(==)>(s: seq<T>, x: T): (k: nat)
    requires x in s
    ensures k < |s| && s[k] == x
    ensures forall j :: 0 <= j < k ==> s[j] != x
  {
    if s[0] == x then 0 else 1 + FirstIndex(s[1..], x)
  }

  /**
   * `s` with every element that already occurred earlier removed, built the way
   * a left-to-right loop builds it: the last element is kept only if it is new.
   */
  function Dedup<T(==)>(s: seq<T>): (r: seq<T>)
    ensures Distinct(r)
    ensures forall i :: 0 <= i < |r| ==> r[i] in s
    ensures forall i :: 0 <= i < |s| ==> s[i] in r
    decreases |s|
  {
    if s == [] then []
    else
      var init := s[..|s| - 1];
      var d := Dedup(init);
      assert forall i :: 0 <= i < |init| ==> init[i] == s[i];
      if s[|s| - 1] in d then d else d + [s[|s| - 1]]
  }

  /** Regrouping a concatenation, stated once so that proofs need not rediscover it. */
  lemma ConcatAssoc<T>(a: seq<T>, b: seq<T>, c: seq<T>)
    ensures a + (b + c) == (a + b) + c
  {
  }

  /** One more element of `s` extends its prefix by that element. */
  lemma PrefixSnoc<T>(s: seq<T>, i: nat)
    requires i < |s|
    ensures s[..i + 1] == s[..i] + [s[i]]
  {
  }

  /** The middle part of a concatenation of three, recovered by slicing. */
  lemma MiddleSlice<T>(a: seq<T>, m: seq<T>, c: seq<T>)
    ensures (a + m + c)[|a|..|a| + |m|] == m
  {
  }

  /** Appending leaves a prefix in place. */
  lemma PrefixKept<T>(d: seq<T>, x: seq<T>, e: T)
    requires |d| >= |x| && d[..|x|] == x
    ensures (d + [e])[..|x|] == x
  {
    assert (d + [e])[..|x|] == d[..|x|];
  }

  /** `Dedup` keeps exactly the elements of `s`. */
  lemma DedupMembers<T>(s: seq<T>, x: T)
    ensures x in Dedup(s) <==> x in s
  {
    var d := Dedup(s);
    if x in s {
      var i :| 0 <= i < |s| && s[i] == x;
    }
    if x in d {
      var i :| 0 <= i < |d| && d[i] == x;
    }
  }

  /** One more element: `Dedup` appends it exactly when it is new. */
  lemma DedupSnoc<T>(s: seq<T>, x: T)
    ensures Dedup(s + [x]) == if x in s then Dedup(s) else Dedup(s) + [x]
  {
    assert (s + [x])[..|s + [x]| - 1] == s;
  }

  lemma {:induction false} FirstIndexOfPrefix<T>(s: seq<T>, t: seq<T>, x: T)
    requires x in s
    ensures x in s + t && FirstIndex(s + t, x) == FirstIndex(s, x)
  {
    if s[0] != x {
      assert (s + t)[1..] == s[1..] + t;
      FirstIndexOfPrefix(s[1..], t, x);
    }
  }

  /** The elements `Dedup` keeps come in the order of their first occurrences. */
  lemma {:induction false} DedupOrder<T>(s: seq<T>, i: nat, j: nat)
    requires i < j < |Dedup(s)|
    ensures Dedup(s)[i] in s && Dedup(s)[j] in s
    ensures FirstIndex(s, Dedup(s)[i]) < FirstIndex(s, Dedup(s)[j])
    decreases |s|
  {
    var init, x := s[..|s| - 1], s[|s| - 1];
    assert s == init + [x];
    DedupSnoc(init, x);
    var d := Dedup(init);
    if j < |d| {
      DedupOrder(init, i, j);
    }
    OrderStep(init, x, d, Dedup(s), i, j);
  }

  /** The step of `DedupOrder`: one more element keeps the order of first occurrences. */
  lemma OrderStep<T>(init: seq<T>, x: T, d: seq<T>, r: seq<T>, i: nat, j: nat)
    requires r == if x in init then d else d + [x]
    requires forall k :: 0 <= k < |d| ==> d[k] in init
    requires i < j < |r|
    requires j < |d| ==> FirstIndex(init, d[i]) < FirstIndex(init, d[j])
    ensures r[i] in init + [x] && r[j] in init + [x]
    ensures FirstIndex(init + [x], r[i]) < FirstIndex(init + [x], r[j])
  {
    assert r[i] == d[i];
    FirstIndexOfPrefix(init, [x], r[i]);
    if j < |d| {
      assert r[j] == d[j];
      FirstIndexOfPrefix(init, [x], r[j]);
    } else {
      assert r[j] == x && x !in init;
      assert FirstIndex(init + [x], x) == |init|;
    }
  }

  /** Deduplicating what is already duplicate-free changes nothing. */
  lemma {:induction false} DedupOfDistinct<T>(s: seq<T>)
    requires Distinct(s)
    ensures Dedup(s) == s
    decreases |s|
  {
    if s != [] {
      var init := s[..|s| - 1];
      assert Distinct(init);
      DedupOfDistinct(init);
      assert s == init + [s[|s| - 1]];
      DedupSnoc(init, s[|s| - 1]);
    }
  }
}
