/**
 * The targeted strategy (flow2_targeted.py): for every requested field, the
 * first OCR line that mentions the field (ignoring case) gives the field's
 * value, the first number-like run in that line or else the trimmed line;
 * a field no line mentions is "NA".
 */
module Targeted {
  import opened Wrappers
  import opened Text
  import opened Seqs

  /** A character of the class `[\d\.,]`. */
  predicate IsNumberChar(c: char) { IsDigit(c) || c == '.' || c == ',' }

  /** `re.search(re.escape(field), line, re.IGNORECASE)` finds a match. */
  predicate Mentions(line: string, field: string)
    ensures field == [] ==> Mentions(line, field)
    ensures Mentions(line, field) ==> |field| <= |line|
  {
    assert field == [] ==> OccursAt(Lower(line), Lower(field), 0);
    Contains(Lower(line), Lower(field))
  }

  // ------------------------------------------------ value: [\d\.,]+

  /** Index of the first number character of `line`, or `|line|` when there is none. */
  function FirstNumberIndex(line: string, i: nat): (k: nat)
    requires i <= |line|
    ensures i <= k <= |line|
    ensures forall j :: i <= j < k ==> !IsNumberChar(line[j])
    ensures k < |line| ==> IsNumberChar(line[k])
    decreases |line| - i
  {
    if i == |line| || IsNumberChar(line[i]) then i else FirstNumberIndex(line, i + 1)
  }

  /** End of the maximal run of number characters starting at `i`. */
  function NumberRunEnd(line: string, i: nat): (j: nat)
    requires i <= |line|
    ensures i <= j <= |line|
    ensures forall k :: i <= k < j ==> IsNumberChar(line[k])
    ensures j == |line| || !IsNumberChar(line[j])
    decreases |line| - i
  {
    if i < |line| && IsNumberChar(line[i]) then NumberRunEnd(line, i + 1) else i
  }

  /** The match of `re.search(r'[\d\.,]+', line)`, if any. */
  function NumberToken(line: string): (r: Option<string>)
    ensures r.None? <==> forall k :: 0 <= k < |line| ==> !IsNumberChar(line[k])
    ensures r.Some? ==> r.value != [] && forall k :: 0 <= k < |r.value| ==> IsNumberChar(r.value[k])
  {
    var i := FirstNumberIndex(line, 0);
    if i == |line| then None
    else
      var j := NumberRunEnd(line, i);
      var tok := line[i..j];
      assert forall k :: 0 <= k < |tok| ==> tok[k] == line[i + k];
      Some(tok)
  }

  /** The value a matching line gives: its number token, else the line trimmed. */
  function LineValue(line: string): (r: string)
    ensures (forall k :: 0 <= k < |line| ==> !IsNumberChar(line[k])) ==> r == Strip(line)
    ensures (exists k :: 0 <= k < |line| && IsNumberChar(line[k])) ==>
      r != [] && forall k :: 0 <= k < |r| ==> IsNumberChar(r[k])
  {
    match NumberToken(line)
    case Some(tok) => tok
    case None => Strip(line)
  }

  /**
   * The regex engine's leftmost-longest reading: the token is the run that
   * starts at the first number character and extends as far as the class goes.
   */
  lemma NumberTokenIsFirstRun(line: string, i: nat, j: nat)
    requires i < j <= |line|
    requires forall k :: 0 <= k < i ==> !IsNumberChar(line[k])
    requires forall k :: i <= k < j ==> IsNumberChar(line[k])
    requires j == |line| || !IsNumberChar(line[j])
    ensures NumberToken(line) == Some(line[i..j])
  {
    NumberRunEndExact(line, i, j);
  }

  lemma {:induction false} NumberRunEndExact(line: string, i: nat, j: nat)
    requires i <= j <= |line|
    requires forall k :: i <= k < j ==> IsNumberChar(line[k])
    requires j == |line| || !IsNumberChar(line[j])
    ensures NumberRunEnd(line, i) == j
    decreases j - i
  {
    if i < j {
      NumberRunEndExact(line, i + 1, j);
    }
  }

  /** A line made of words and then a number gives that number. */
  lemma TrailingNumber(pre: string, tok: string)
    requires forall k :: 0 <= k < |pre| ==> !IsNumberChar(pre[k])
    requires tok != [] && forall k :: 0 <= k < |tok| ==> IsNumberChar(tok[k])
    ensures LineValue(pre + tok) == tok
  {
    var line := pre + tok;
    assert forall k :: 0 <= k < |pre| ==> line[k] == pre[k];
    assert forall k :: |pre| <= k < |line| ==> line[k] == tok[k - |pre|];
    NumberTokenIsFirstRun(line, |pre|, |line|);
    assert line[|pre|..|line|] == tok;
  }

  /** A line with no number character gives its stripped self; one with a number gives a number run. */
  lemma LineValueCases(line: string)
    ensures (forall k :: 0 <= k < |line| ==> !IsNumberChar(line[k])) ==> LineValue(line) == Strip(line)
    ensures (exists k :: 0 <= k < |line| && IsNumberChar(line[k])) ==>
      exists i, j :: 0 <= i < j <= |line| && LineValue(line) == line[i..j] &&
        forall k :: i <= k < j ==> IsNumberChar(line[k])
  {
    if NumberToken(line).Some? {
      var i := FirstNumberIndex(line, 0);
      var j := NumberRunEnd(line, i);
      assert LineValue(line) == line[i..j];
    }
  }

  // ------------------------------------------------ one field

  /** Index of the first line mentioning `field`, or `|lines|` when none does. */
  function FirstMention(lines: seq<string>, field: string): (k: nat)
    ensures k <= |lines|
    ensures forall j :: 0 <= j < k ==> !Mentions(lines[j], field)
    ensures k < |lines| ==> Mentions(lines[k], field)
    decreases |lines|
  {
    if lines == [] then 0
    else if Mentions(lines[0], field) then 0
    else
      var k := 1 + FirstMention(lines[1..], field);
      assert forall j :: 1 <= j < k ==> lines[j] == lines[1..][j - 1];
      k
  }

  /** The value `match_fields` records for `field`. */
  function FieldValue(lines: seq<string>, field: string): (r: string)
    ensures r == "NA" || exists k :: 0 <= k < |lines| && Mentions(lines[k], field) && r == LineValue(lines[k])
  {
    var k := FirstMention(lines, field);
    if k == |lines| then "NA" else LineValue(lines[k])
  }

  /** A field that no line mentions is "NA". */
  lemma UnmentionedIsNA(lines: seq<string>, field: string)
    requires forall j :: 0 <= j < |lines| ==> !Mentions(lines[j], field)
    ensures FieldValue(lines, field) == "NA"
  {
    assert FirstMention(lines, field) == |lines|;
  }

  /** The first mentioning line decides the value, whatever follows it. */
  lemma FirstMentionDecides(lines: seq<string>, field: string, k: nat)
    requires k < |lines| && Mentions(lines[k], field)
    requires forall j :: 0 <= j < k ==> !Mentions(lines[j], field)
    ensures FieldValue(lines, field) == LineValue(lines[k])
  {
    FirstMentionAt(lines, field, k);
  }

  lemma FirstMentionAt(lines: seq<string>, field: string, k: nat)
    requires k < |lines| && Mentions(lines[k], field)
    requires forall j :: 0 <= j < k ==> !Mentions(lines[j], field)
    ensures FirstMention(lines, field) == k
  {
    var m := FirstMention(lines, field);
    assert !(m < k) && !(k < m);
  }

  /** Lines after a mention are never looked at. */
  lemma LaterLinesIgnored(lines: seq<string>, more: seq<string>, field: string)
    requires exists j :: 0 <= j < |lines| && Mentions(lines[j], field)
    ensures FieldValue(lines + more, field) == FieldValue(lines, field)
  {
    var k := FirstMention(lines, field);
    assert (lines + more)[k] == lines[k];
    assert forall j :: 0 <= j < k ==> (lines + more)[j] == lines[j];
    FirstMentionDecides(lines + more, field, k);
  }

  /** Lines before any mention add nothing: the value is found in the rest. */
  lemma EarlierSilentLines(silent: seq<string>, lines: seq<string>, field: string)
    requires forall j :: 0 <= j < |silent| ==> !Mentions(silent[j], field)
    ensures FieldValue(silent + lines, field) == FieldValue(lines, field)
  {
    var k := FirstMention(lines, field);
    var all := silent + lines;
    assert forall j :: 0 <= j < |silent| ==> all[j] == silent[j];
    assert forall j :: 0 <= j < k ==> all[|silent| + j] == lines[j];
    if k < |lines| {
      assert all[|silent| + k] == lines[k];
      FirstMentionDecides(all, field, |silent| + k);
    } else {
      UnmentionedIsNA(all, field);
    }
  }

  /** Matching ignores case: a field and its lower-cased spelling get the same value. */
  lemma FieldValueIgnoresCase(lines: seq<string>, field: string)
    ensures FieldValue(lines, Lower(field)) == FieldValue(lines, field)
  {
    LowerIdempotent(field);
    assert forall line :: Mentions(line, Lower(field)) == Mentions(line, field);
    MentionsSameValue(lines, Lower(field), field);
  }

  /** Matching ignores the case of the line too: lower-casing a line does not change whether it mentions a field. */
  lemma MentionsIgnoresLineCase(line: string, field: string)
    ensures Mentions(Lower(line), field) == Mentions(line, field)
  {
    LowerIdempotent(line);
  }

  /** Two fields mentioned by exactly the same lines get the same value. */
  lemma {:induction false} MentionsSameValue(lines: seq<string>, f: string, g: string)
    requires forall j :: 0 <= j < |lines| ==> Mentions(lines[j], f) == Mentions(lines[j], g)
    ensures FieldValue(lines, f) == FieldValue(lines, g)
  {
    var k := FirstMention(lines, f);
    if k < |lines| {
      FirstMentionDecides(lines, g, k);
    } else {
      UnmentionedIsNA(lines, g);
    }
  }

  lemma LowerIdempotent(s: string)
    ensures Lower(Lower(s)) == Lower(s)
  {
  }

  // ------------------------------------------------ the result dict

  /**
   * A Python dict from field names to values: the keys in insertion order and
   * the mapping they carry.
   */
  datatype Dict = Dict(keys: seq<string>, values: map<string, string>)

  predicate WellFormed(d: Dict) {
    Distinct(d.keys) && (forall i :: 0 <= i < |d.keys| ==> d.keys[i] in d.values) &&
    (forall k :: k in d.values ==> k in d.keys)
  }

  /** `d[k] = v`: a new key goes last, an existing key keeps its place. */
  function Put(d: Dict, k: string, v: string): (r: Dict)
    requires WellFormed(d)
    ensures WellFormed(r)
    ensures r.values == d.values[k := v]
    ensures r.keys == if k in d.values then d.keys else d.keys + [k]
  {
    if k in d.values then Dict(d.keys, d.values[k := v]) else Dict(d.keys + [k], d.values[k := v])
  }

  /** What `match_fields` has built once it has handled the fields `fs`. */
  ghost predicate Answers(d: Dict, lines: seq<string>, fs: seq<string>) {
    && WellFormed(d)
    && d.keys == Dedup(fs)
    && (forall f :: f in d.values <==> f in fs)
    && (forall f :: f in d.values ==> d.values[f] == FieldValue(lines, f))
  }

  /** Recording one more field keeps the result right for the fields handled so far. */
  lemma PutAnswersSnoc(d: Dict, lines: seq<string>, fs: seq<string>, field: string, v: string)
    requires Answers(d, lines, fs) && v == FieldValue(lines, field)
    ensures Answers(Put(d, field, v), lines, fs + [field])
  {
    var r := Put(d, field, v);
    DedupSnoc(fs, field);
    assert r.keys == Dedup(fs + [field]);
    PutValues(d.values, r.values, lines, fs, field, v);
  }

  /** The value map part of `PutAnswersSnoc`. */
  lemma PutValues(m: map<string, string>, m': map<string, string>, lines: seq<string>,
                  fs: seq<string>, field: string, v: string)
    requires m' == m[field := v] && v == FieldValue(lines, field)
    requires forall f :: f in m <==> f in fs
    requires forall f :: f in m ==> m[f] == FieldValue(lines, f)
    ensures forall f :: f in m' <==> f in fs + [field]
    ensures forall f :: f in m' ==> m'[f] == FieldValue(lines, f)
  {
    forall f ensures f in m' <==> f in fs + [field] {
      assert f in fs + [field] <==> f in fs || f == field;
    }
  }

  /**
   * The inner loop of `match_fields`: the lines are scanned in order and the
   * first one that mentions the field gives the value; "NA" when none does.
   */
  method ScanLines(textLines: seq<string>, field: string) returns (found: string)
    ensures found == FieldValue(textLines, field)
  {
    found := "NA";
    var j := 0;
    while j < |textLines|
      invariant j <= |textLines|
      invariant forall k :: 0 <= k < j ==> !Mentions(textLines[k], field)
      invariant found == "NA"
    {
      if Mentions(textLines[j], field) {
        found := LineValue(textLines[j]);
        FirstMentionDecides(textLines, field, j);
        return;
      }
      j := j + 1;
    }
    UnmentionedIsNA(textLines, field);
  }

  /**
   * `match_fields`: the keys are the requested fields in first-occurrence
   * order, each mapped to its `FieldValue`, which depends on nothing but the
   * lines and that field.
   */
  method MatchFields(textLines: seq<string>, targetFields: seq<string>) returns (result: Dict)
    ensures Answers(result, textLines, targetFields)
  {
    result := Dict([], map[]);
    ghost var handled: seq<string> := [];
    for i := 0 to |targetFields|
      invariant handled == targetFields[..i]
      invariant Answers(result, textLines, handled)
    {
      var field := targetFields[i];
      var found := ScanLines(textLines, field);
      PutAnswersSnoc(result, textLines, handled, field, found);
      result := Put(result, field, found);
      PrefixSnoc(targetFields, i);
      handled := handled + [field];
    }
    assert targetFields[..|targetFields|] == targetFields;
  }

  // ------------------------------------------------ examples

  /** `"Invoice Number: 00123"` gives `"00123"` for the field "Invoice Number". */
  lemma ExampleFoundField()
    ensures FieldValue(["Invoice Number: 00123"], "Invoice Number") == "00123"
  {
    var line := "Invoice Number: 00123";
    InvoiceLineMentions();
    FirstMentionDecides([line], "Invoice Number", 0);
    InvoiceLineNumber();
  }

  /** The same line says nothing about "Total": no 't' occurs in it at all. */
  lemma ExampleMissingField()
    ensures FieldValue(["Invoice Number: 00123"], "Total") == "NA"
  {
    var line := "Invoice Number: 00123";
    MissingHead(Lower(line), Lower("Total"));
    UnmentionedIsNA([line], "Total");
  }

  lemma InvoiceLineMentions()
    ensures Mentions("Invoice Number: 00123", "Invoice Number")
  {
    var low := Lower("Invoice Number: 00123");
    assert low[..14] == Lower("Invoice Number");
    assert OccursAt(low, Lower("Invoice Number"), 0);
  }

  lemma InvoiceLineNumber()
    ensures LineValue("Invoice Number: 00123") == "00123"
  {
    var pre, tok := "Invoice Number: ", "00123";
    assert forall k :: 0 <= k < |pre| ==> !IsNumberChar(pre[k]);
    assert forall k :: 0 <= k < |tok| ==> IsNumberChar(tok[k]);
    assert pre + tok == "Invoice Number: 00123";
    TrailingNumber(pre, tok);
  }

  lemma MissingHead(s: string, sub: string)
    requires sub != [] && sub[0] !in s
    ensures !Contains(s, sub)
  {
    forall i: nat | i <= |s|
      ensures !OccursAt(s, sub, i)
    {
      if i + |sub| <= |s| {
        assert s[i..i + |sub|][0] == s[i];
      }
    }
  }
}
