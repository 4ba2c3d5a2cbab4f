/**
 * Character classes and the string operations the extraction code borrows from
 * Python: `str.strip()`, ASCII case folding, substring search, `str.split("\n")`
 * and `"\n".join(...)`.
 *
 * Characters are restricted to their ASCII meaning: a digit is '0'..'9', and a
 * whitespace character is one of the ASCII characters `str.isspace()` (and the
 * regex class `\s`) accept: tab, line feed, vertical tab, form feed, carriage
 * return, the four separators 0x1C..0x1F, and space.
 */
module Text {
  import opened Seqs

  predicate IsDigit(c: char) { '0' <= c <= '9' }

  predicate IsSpace(c: char) {
    c == ' ' || 9 <= c as int <= 13 || 28 <= c as int <= 31
  }

  predicate AllDigits(s: string) { forall i :: 0 <= i < |s| ==> IsDigit(s[i]) }

  predicate AllSpace(s: string) { forall i :: 0 <= i < |s| ==> IsSpace(s[i]) }

  /** Neither the first nor the last character is whitespace. */
  predicate NoEdgeSpace(s: string) {
    s == [] || (!IsSpace(s[0]) && !IsSpace(s[|s| - 1]))
  }

  // ---------------------------------------------------------------- strip

  /** End of the maximal whitespace run starting at `i`. */
  function SpaceRunEnd(s: string, i: nat): (j: nat)
    requires i <= |s|
    ensures i <= j <= |s| && AllSpace(s[i..j])
    ensures j == |s| || !IsSpace(s[j])
    decreases |s| - i
  {
    if i < |s| && IsSpace(s[i]) then
      var j := SpaceRunEnd(s, i + 1);
      assert s[i..j] == [s[i]] + s[i + 1..j];
      j
    else i
  }

  /** Start of the maximal whitespace run ending just before `j`. */
  function SpaceRunStart(s: string, j: nat): (i: nat)
    requires j <= |s|
    ensures i <= j && AllSpace(s[i..j])
    ensures i == 0 || !IsSpace(s[i - 1])
    decreases j
  {
    if j > 0 && IsSpace(s[j - 1]) then
      var i := SpaceRunStart(s, j - 1);
      assert s[i..j] == s[i..j - 1] + [s[j - 1]];
      i
    else j
  }

  /** A whitespace run is determined by its two ends. */
  lemma {:induction false} SpaceRunEndExact(s: string, i: nat, j: nat)
    requires i <= j <= |s| && AllSpace(s[i..j]) && (j == |s| || !IsSpace(s[j]))
    ensures SpaceRunEnd(s, i) == j
    decreases j - i
  {
    if i < j {
      assert s[i..j][0] == s[i];
      assert s[i + 1..j] == s[i..j][1..];
      SpaceRunEndExact(s, i + 1, j);
    }
  }

  lemma {:induction false} SpaceRunStartExact(s: string, i: nat, j: nat)
    requires i <= j <= |s| && AllSpace(s[i..j]) && (i == 0 || !IsSpace(s[i - 1]))
    ensures SpaceRunStart(s, j) == i
    decreases j - i
  {
    if i < j {
      assert s[i..j][j - 1 - i] == s[j - 1];
      assert s[i..j - 1] == s[i..j][..j - 1 - i];
      SpaceRunStartExact(s, i, j - 1);
    }
  }

  /** `str.lstrip()`: the suffix left after dropping leading whitespace. */
  function StripLeft(s: string): (r: string)
    ensures |r| <= |s| && r == s[|s| - |r|..]
    ensures AllSpace(s[..|s| - |r|])
    ensures r == [] || !IsSpace(r[0])
  {
    s[SpaceRunEnd(s, 0)..]
  }

  /** `str.rstrip()`: the prefix left after dropping trailing whitespace. */
  function StripRight(s: string): (r: string)
    ensures |r| <= |s| && r == s[..|r|]
    ensures AllSpace(s[|r|..])
    ensures r == [] || !IsSpace(r[|r| - 1])
  {
    s[..SpaceRunStart(s, |s|)]
  }

  /** `str.strip()`. */
  function Strip(s: string): (r: string)
    ensures NoEdgeSpace(r)
    ensures r == [] <==> AllSpace(s)
  {
    var l := StripLeft(s);
    var r := StripRight(l);
    assert r != [] ==> !IsSpace(r[0]) by {
      if r != [] { assert r[0] == l[0]; }
    }
    r
  }

  /** The three segments `Strip` cuts a string into. */
  lemma StripShape(s: string)
    ensures exists i, j :: 0 <= i <= j <= |s| && Strip(s) == s[i..j] &&
                           AllSpace(s[..i]) && AllSpace(s[j..])
  {
    var l := StripLeft(s);
    var i := |s| - |l|;
    var r := StripRight(l);
    var j := i + |r|;
    SliceOfSuffix(s, i, |r|);
    assert Strip(s) == s[i..j] && AllSpace(s[..i]) && AllSpace(s[j..]);
  }

  /** Slices of a suffix are slices of the whole string. */
  lemma SliceOfSuffix(s: string, i: nat, k: nat)
    requires i + k <= |s|
    ensures s[i..][..k] == s[i..i + k] && s[i..][k..] == s[i + k..]
  {
  }

  lemma StripLeftOfEdgeless(s: string)
    requires s == [] || !IsSpace(s[0])
    ensures StripLeft(s) == s
  {
    assert s[0..] == s;
  }

  lemma StripRightOfEdgeless(s: string)
    requires s == [] || !IsSpace(s[|s| - 1])
    ensures StripRight(s) == s
  {
    assert s[..|s|] == s;
  }

  /** A string with no whitespace at either edge is its own strip; hence `Strip` is idempotent. */
  lemma StripOfEdgeless(s: string)
    requires NoEdgeSpace(s)
    ensures Strip(s) == s
  {
    StripLeftOfEdgeless(s);
    StripRightOfEdgeless(s);
  }

  lemma StripIdempotent(s: string)
    ensures Strip(Strip(s)) == Strip(s)
  {
    StripOfEdgeless(Strip(s));
  }

  lemma StripLeftSpacePrefix(w: string, b: string)
    requires AllSpace(w)
    ensures StripLeft(w + b) == StripLeft(b)
  {
    var s := w + b;
    var k := SpaceRunEnd(b, 0);
    assert s[..|w| + k] == w + b[..k];
    assert |w| + k < |s| ==> s[|w| + k] == b[k];
    SpaceRunEndExact(s, 0, |w| + k);
    assert s[|w| + k..] == b[k..];
  }

  lemma StripRightSpaceSuffix(b: string, w: string)
    requires AllSpace(w)
    ensures StripRight(b + w) == StripRight(b)
  {
    var s := b + w;
    var k := SpaceRunStart(b, |b|);
    assert s[k..|s|] == b[k..|b|] + w;
    AllSpaceConcat(b[k..|b|], w);
    assert k > 0 ==> s[k - 1] == b[k - 1];
    SpaceRunStartExact(s, k, |s|);
    assert s[..k] == b[..k];
  }

  lemma AllSpaceConcat(x: string, y: string)
    requires AllSpace(x) && AllSpace(y)
    ensures AllSpace(x + y)
  {
  }

  lemma StripLeftOfSpaced(b: string, w: string)
    requires AllSpace(w)
    ensures StripLeft(b + w) == StripLeft(b) + w || (StripLeft(b) == [] && StripLeft(b + w) == [])
  {
    var s := b + w;
    var k := SpaceRunEnd(b, 0);
    assert s[..k] == b[..k];
    if k < |b| {
      assert s[k] == b[k];
      SpaceRunEndExact(s, 0, k);
      assert s[k..] == b[k..] + w;
    } else {
      assert s[..|s|] == b[..k] + w;
      SpaceRunEndExact(s, 0, |s|);
    }
  }

  /** Whitespace added around a string does not change its strip. */
  lemma StripOfPadded(w1: string, b: string, w2: string)
    requires AllSpace(w1) && AllSpace(w2)
    ensures Strip(w1 + b + w2) == Strip(b)
  {
    assert w1 + b + w2 == w1 + (b + w2);
    StripLeftSpacePrefix(w1, b + w2);
    StripLeftOfSpaced(b, w2);
    if StripLeft(b) == [] && StripLeft(b + w2) == [] {
    } else {
      StripRightSpaceSuffix(StripLeft(b), w2);
    }
  }

  /** A strip is a substring, so it keeps a character's absence. */
  lemma StripKeepsAbsence(s: string, c: char)
    requires c !in s
    ensures c !in Strip(s)
  {
    var l := StripLeft(s);
    SliceKeepsAbsence(s, c, |s| - |l|, |s|);
    SliceKeepsAbsence(l, c, 0, |StripRight(l)|);
  }

  lemma SliceKeepsAbsence(s: string, c: char, i: nat, j: nat)
    requires c !in s && i <= j <= |s|
    ensures c !in s[i..j]
  {
    forall k | 0 <= k < j - i ensures s[i..j][k] != c {
      assert s[i..j][k] == s[i + k];
    }
  }

  /** A slice of a prefix is the same slice of the whole string. */
  lemma SliceOfPrefix(s: string, n: nat, i: nat, j: nat)
    requires i <= j <= n <= |s|
    ensures s[..n][i..j] == s[i..j] && s[..n][i..] == s[i..n]
  {
  }

  // ---------------------------------------------------------- case, search

  function LowerChar(c: char): char {
    if 'A' <= c <= 'Z' then (c as int + 32) as char else c
  }

  /** ASCII lower-casing, the model of `re.IGNORECASE` comparisons. */
  function Lower(s: string): (r: string)
    ensures |r| == |s|
    ensures forall i :: 0 <= i < |r| ==> !('A' <= r[i] <= 'Z')
    ensures forall i :: 0 <= i < |s| && 'A' <= s[i] <= 'Z' ==> r[i] == (s[i] as int + 32) as char
    ensures forall i :: 0 <= i < |s| && !('A' <= s[i] <= 'Z') ==> r[i] == s[i]
  {
    seq(|s|, i requires 0 <= i < |s| => LowerChar(s[i]))
  }

  /** `sub` occurs in `s` at position `i`. */
  predicate OccursAt(s: string, sub: string, i: nat) {
    i + |sub| <= |s| && s[i..i + |sub|] == sub
  }

  /** `sub` occurs somewhere in `s` (the empty string occurs everywhere). */
  predicate Contains(s: string, sub: string) {
    exists i: nat :: i <= |s| && OccursAt(s, sub, i)
  }

  // ---------------------------------------------------------- split, join

  /** `s.split(sep)` for a one-character separator: never empty, no part holds `sep`. */
  function Split(s: string, sep: char): (parts: seq<string>)
    ensures |parts| >= 1
    ensures forall i :: 0 <= i < |parts| ==> sep !in parts[i]
    decreases |s|
  {
    if s == [] then [[]]
    else
      var rest := Split(s[1..], sep);
      if s[0] == sep then [[]] + rest else [[s[0]] + rest[0]] + rest[1..]
  }

  /** `sep.join(parts)`. */
  function Join(parts: seq<string>, sep: string): string
    decreases |parts|
  {
    if |parts| == 0 then []
    else if |parts| == 1 then parts[0]
    else parts[0] + sep + Join(parts[1..], sep)
  }

  /** Splitting and re-joining on the same character gives back the text. */
  lemma {:induction false} JoinOfSplit(s: string, sep: char)
    ensures Join(Split(s, sep), [sep]) == s
    decreases |s|
  {
    if s != [] {
      var rest := Split(s[1..], sep);
      JoinOfSplit(s[1..], sep);
      if s[0] == sep {
        assert ([[]] + rest)[1..] == rest;
      } else if |rest| > 1 {
        var parts := [[s[0]] + rest[0]] + rest[1..];
        assert parts[1..] == rest[1..];
        assert Join(rest, [sep]) == rest[0] + [sep] + Join(rest[1..], [sep]);
        assert s == [s[0]] + s[1..];
      } else {
        assert s == [s[0]] + s[1..];
      }
    }
  }

  /** Joining parts free of the separator and splitting again gives back the parts. */
  lemma {:induction false} SplitOfJoin(parts: seq<string>, sep: char)
    requires |parts| >= 1
    requires forall i :: 0 <= i < |parts| ==> sep !in parts[i]
    ensures Split(Join(parts, [sep]), sep) == parts
    decreases |parts|, |parts[0]|
  {
    if |parts| == 1 {
      SplitOfFree(parts[0], sep);
    } else if parts[0] == [] {
      var tail := Join(parts[1..], [sep]);
      assert Join(parts, [sep]) == [sep] + tail;
      assert ([sep] + tail)[1..] == tail;
      SplitOfJoin(parts[1..], sep);
      assert parts == [[]] + parts[1..];
    } else {
      var p0 := parts[0];
      var shorter := [p0[1..]] + parts[1..];
      assert shorter[1..] == parts[1..];
      assert forall i :: 0 <= i < |shorter| ==> sep !in shorter[i] by {
        forall i | 0 <= i < |shorter| ensures sep !in shorter[i] {
          if i == 0 {
            assert sep !in p0;
            assert forall k :: 0 <= k < |p0[1..]| ==> p0[1..][k] == p0[k + 1];
          } else {
            assert shorter[i] == parts[i];
          }
        }
      }
      var j := Join(parts, [sep]);
      assert j == p0 + [sep] + Join(parts[1..], [sep]);
      assert Join(shorter, [sep]) == p0[1..] + [sep] + Join(parts[1..], [sep]);
      assert j[1..] == Join(shorter, [sep]);
      assert j[0] == p0[0] && j[0] != sep;
      SplitOfJoin(shorter, sep);
      var rest := Split(j[1..], sep);
      assert rest == shorter;
      assert [p0[0]] + p0[1..] == p0;
      assert Split(j, sep) == [[p0[0]] + rest[0]] + rest[1..];
      assert parts == [p0] + parts[1..];
    }
  }

  lemma {:induction false} SplitOfFree(s: string, sep: char)
    requires sep !in s
    ensures Split(s, sep) == [s]
    decreases |s|
  {
    if s != [] {
      assert forall k :: 0 <= k < |s[1..]| ==> s[1..][k] == s[k + 1];
      SplitOfFree(s[1..], sep);
      assert [s[0]] + s[1..] == s;
    }
  }

  /** Splitting at one separator splits the two sides independently. */
  lemma {:induction false} SplitConcat(a: string, b: string, sep: char)
    ensures Split(a + [sep] + b, sep) == Split(a, sep) + Split(b, sep)
    decreases |a|
  {
    if a == [] {
      assert a + [sep] + b == [sep] + b;
      SplitCons(sep, b, sep);
    } else {
      var t := a[1..] + [sep] + b;
      assert a + [sep] + b == [a[0]] + t;
      assert a == [a[0]] + a[1..];
      SplitConcat(a[1..], b, sep);
      ConsAfterConcat(a[0], Split(a[1..], sep), Split(b, sep), sep, a[1..], t);
    }
  }

  /** The inductive step of `SplitConcat`: one more character in front. */
  lemma ConsAfterConcat(c: char, ra: seq<string>, rb: seq<string>, sep: char, u: string, t: string)
    requires ra == Split(u, sep) && Split(t, sep) == ra + rb
    ensures Split([c] + t, sep) == Split([c] + u, sep) + rb
  {
    SplitCons(c, t, sep);
    SplitCons(c, u, sep);
    ConsStep(c, sep, ra, rb, Split([c] + t, sep), Split([c] + u, sep));
  }

  /** The list algebra behind `ConsAfterConcat`, with the splits already unfolded. */
  lemma ConsStep(c: char, sep: char, ra: seq<string>, rb: seq<string>, st: seq<string>, su: seq<string>)
    requires |ra| >= 1
    requires st == if c == sep then [[]] + (ra + rb) else [[c] + (ra + rb)[0]] + (ra + rb)[1..]
    requires su == if c == sep then [[]] + ra else [[c] + ra[0]] + ra[1..]
    ensures st == su + rb
  {
    if c != sep {
      var h: seq<string> := [[c] + ra[0]];
      assert (ra + rb)[0] == ra[0];
      assert (ra + rb)[1..] == ra[1..] + rb;
      ConcatAssoc(h, ra[1..], rb);
    } else {
      ConcatAssoc([[]], ra, rb);
    }
  }

  /** `Split` on a string with a known first character. */
  lemma SplitCons(c: char, t: string, sep: char)
    ensures Split([c] + t, sep) ==
      if c == sep then [[]] + Split(t, sep) else [[c] + Split(t, sep)[0]] + Split(t, sep)[1..]
  {
    assert ([c] + t)[0] == c && ([c] + t)[1..] == t;
  }

  // ---------------------------------------------------------- first line

  /** The text up to (not including) the first '\n': what regex `.+` can consume. */
  function FirstLine(s: string): (r: string)
    ensures |r| <= |s| && r == s[..|r|]
    ensures '\n' !in r
    ensures |r| == |s| || s[|r|] == '\n'
    decreases |s|
  {
    if s == [] || s[0] == '\n' then []
    else [s[0]] + FirstLine(s[1..])
  }
}
