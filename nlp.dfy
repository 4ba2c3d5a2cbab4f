/**
 * The deterministic string handling of the NLP strategy (flow3_nlp.py): the
 * prompt sent to the language model, the document text it carries, the
 * cleaning of Markdown code fences from the reply, and the normalisation of a
 * parsed JSON object into a one-element list of records.
 */
module Nlp {
  import opened Wrappers
  import opened Text
  import opened Seqs

  // ------------------------------------------------------------ prompt

  /** The heading line that introduces the OCR text. */
  const Heading: string := "Document OCR Text:"

  /** The fixed text between the user's prompt and the OCR text: a blank line, then the heading line. */
  const Header: string := "\n" + "\n" + Heading + "\n"

  /** `generate_prompt`: the prompt, a blank line, a heading line, then the text. */
  function GeneratePrompt(prompt: string, text: string): (r: string)
    ensures |r| == |prompt| + |Header| + |text|
    ensures r[..|prompt|] == prompt && r[|prompt| + |Header|..] == text
    ensures r[|prompt|..|prompt| + |Header|] == Header
  {
    var r := prompt + Header + text;
    assert r[..|prompt|] == prompt;
    assert r[|prompt|..|prompt| + |Header|] == Header;
    assert r[|prompt| + |Header|..] == text;
    r
  }

  /** `"\n".join(lines)`: the document text splits back into the OCR lines it was joined from. */
  function DocumentText(lines: seq<string>): (r: string)
    ensures |lines| >= 1 && (forall i :: 0 <= i < |lines| ==> '\n' !in lines[i]) ==> Split(r, '\n') == lines
  {
    JoinSplitsBack(lines);
    Join(lines, "\n")
  }

  lemma JoinSplitsBack(lines: seq<string>)
    ensures |lines| >= 1 && (forall i :: 0 <= i < |lines| ==> '\n' !in lines[i]) ==>
      Split(Join(lines, "\n"), '\n') == lines
  {
    if |lines| >= 1 && (forall i :: 0 <= i < |lines| ==> '\n' !in lines[i]) {
      SplitOfJoin(lines, '\n');
    }
  }

  /**
   * Read line by line, the prompt is the user's prompt, an empty line, the
   * heading, and then exactly the OCR lines in their order.
   */
  lemma PromptLines(prompt: string, lines: seq<string>)
    requires |lines| >= 1
    requires forall i :: 0 <= i < |lines| ==> '\n' !in lines[i]
    ensures Split(GeneratePrompt(prompt, DocumentText(lines)), '\n') ==
      Split(prompt, '\n') + ["", Heading] + lines
  {
    var t := DocumentText(lines);
    var y := Heading + "\n" + t;
    PromptShape(prompt, t);
    HeadingLines(t, lines);
    LeadingBreak(y);
    SplitConcat(prompt, "\n" + y, '\n');
  }

  lemma HeadingLines(t: string, lines: seq<string>)
    requires |lines| >= 1
    requires forall i :: 0 <= i < |lines| ==> '\n' !in lines[i]
    requires t == DocumentText(lines)
    ensures Split(Heading + "\n" + t, '\n') == [Heading] + lines
  {
    LineThenText(Heading, t, lines);
  }

  /** A line without a break, a break, then text that splits into `lines`. */
  lemma LineThenText(h: string, t: string, lines: seq<string>)
    requires '\n' !in h && Split(t, '\n') == lines
    ensures Split(h + "\n" + t, '\n') == [h] + lines
  {
    SplitConcat(h, t, '\n');
    SplitOfFree(h, '\n');
  }

  lemma LeadingBreak(y: string)
    ensures Split("\n" + y, '\n') == [""] + Split(y, '\n')
  {
    assert "\n" + y == [] + "\n" + y;
    SplitConcat([], y, '\n');
  }

  lemma PromptShape(prompt: string, t: string)
    ensures GeneratePrompt(prompt, t) == prompt + "\n" + ("\n" + (Heading + "\n" + t))
  {
    Regroup(prompt, "\n", Heading, t);
  }

  lemma Regroup(p: string, n: string, h: string, t: string)
    ensures p + (n + n + h + n) + t == p + n + (n + (h + n + t))
  {
    ConcatAssoc(n + n, h, n);
    ConcatAssoc(n, n, h + n);
    ConcatAssoc(h, n, t);
    ConcatAssoc(n, h + n, t);
    ConcatAssoc(n, n + (h + n), t);
    ConcatAssoc(p, n + (n + (h + n)), t);
    ConcatAssoc(p, n, n + (h + n) + t);
  }

  // ------------------------------------------- fences: ^```(?:json)?|```$

  /** `^` under MULTILINE: the start of the text or just after a '\n'. */
  predicate LineStartAt(s: string, p: nat)
    requires p <= |s|
  {
    p == 0 || s[p - 1] == '\n'
  }

  /** `$` under MULTILINE: the end of the text or just before a '\n'. */
  predicate LineEndAt(s: string, e: nat)
    requires e <= |s|
  {
    e == |s| || s[e] == '\n'
  }

  /** Three backticks start at `p`. */
  predicate FenceAt(s: string, p: nat) {
    p + 3 <= |s| && s[p] == '`' && s[p + 1] == '`' && s[p + 2] == '`'
  }

  /** The tag `json` starts at `p`. */
  predicate TagAt(s: string, p: nat) {
    p + 4 <= |s| && s[p] == 'j' && s[p + 1] == 's' && s[p + 2] == 'o' && s[p + 3] == 'n'
  }

  /** One of the two alternatives of the fence pattern matches at `p`. */
  predicate Fires(s: string, p: nat) {
    FenceAt(s, p) && (LineStartAt(s, p) || LineEndAt(s, p + 3))
  }

  /**
   * Where the match at `p` ends: the first alternative is tried first and its
   * optional `json` is taken when present; the second never has a tag.
   */
  function FenceMatchEnd(s: string, p: nat): (e: nat)
    requires Fires(s, p)
    ensures p + 3 <= e <= |s|
  {
    if LineStartAt(s, p) && TagAt(s, p + 3) then p + 7 else p + 3
  }

  /**
   * `re.sub(pattern, '', s[p..], flags=re.MULTILINE)` as the left-to-right
   * scan the regex engine makes: a match is dropped and the scan resumes after
   * it, any other character is copied. Anchors look at the whole of `s`.
   */
  function StripFences(s: string, p: nat): (r: string)
    requires p <= |s|
    ensures |r| <= |s| - p
    decreases |s| - p
  {
    if p == |s| then []
    else if Fires(s, p) then StripFences(s, FenceMatchEnd(s, p))
    else [s[p]] + StripFences(s, p + 1)
  }

  /** The cleaned reply, `re.sub(..., response.strip(), ...).strip()`. */
  function CleanResponse(text: string): (r: string)
    ensures NoEdgeSpace(r)
  {
    Strip(StripFences(Strip(text), 0))
  }

  /** A stretch where the pattern matches nowhere is copied unchanged. */
  lemma {:induction false} CopiesUnfired(s: string, p: nat, q: nat)
    requires p <= q <= |s|
    requires forall r :: p <= r < q ==> !Fires(s, r)
    ensures StripFences(s, p) == s[p..q] + StripFences(s, q)
    decreases q - p
  {
    if p < q {
      assert !Fires(s, p);
      assert StripFences(s, p) == [s[p]] + StripFences(s, p + 1);
      CopiesUnfired(s, p + 1, q);
      assert s[p..q] == [s[p]] + s[p + 1..q];
    }
  }

  /** A reply without any "```" is only trimmed. */
  lemma UnfencedReply(text: string)
    requires !Contains(text, "```")
    ensures CleanResponse(text) == Strip(text)
  {
    StripShape(text);
    var i, j :| 0 <= i <= j <= |text| && Strip(text) == text[i..j] &&
                AllSpace(text[..i]) && AllSpace(text[j..]);
    UnfencedSlice(text, i, j);
    StripIdempotent(text);
  }

  /** A stretch of a reply without "```" goes through the fence scan unchanged. */
  lemma UnfencedSlice(text: string, i: nat, j: nat)
    requires !Contains(text, "```") && i <= j <= |text|
    ensures StripFences(text[i..j], 0) == text[i..j]
  {
    var t := text[i..j];
    NoFenceInSlice(text, i, j);
    CopiesUnfired(t, 0, |t|);
    assert t[0..|t|] == t;
  }

  lemma NoFenceInSlice(text: string, i: nat, j: nat)
    requires !Contains(text, "```") && i <= j <= |text|
    ensures forall r :: 0 <= r < j - i ==> !Fires(text[i..j], r)
  {
    var t := text[i..j];
    forall r | 0 <= r < |t|
      ensures !FenceAt(t, r)
    {
      if r + 3 <= |t| {
        assert t[r] == text[i + r] && t[r + 1] == text[i + r + 1] && t[r + 2] == text[i + r + 2];
        FenceIsOccurrence(text, i + r);
      }
    }
  }

  lemma FenceIsOccurrence(s: string, p: nat)
    ensures FenceAt(s, p) ==> OccursAt(s, "```", p)
  {
    if FenceAt(s, p) {
      assert s[p..p + 3] == "```";
    }
  }

  /** No fence of `body` sits at the start or at the end of one of its lines. */
  predicate Unfenced(body: string) {
    forall k :: 0 <= k < |body| ==> !Fires(body, k)
  }

  /**
   * A reply that is one fenced block, "```" or "```json" on the first line,
   * then the body, then "```" on the last line, cleans to the trimmed body.
   */
  lemma FencedReply(lead: string, tag: string, body: string, trail: string)
    requires AllSpace(lead) && AllSpace(trail)
    requires tag == "" || tag == "json"
    requires Unfenced(body)
    ensures CleanResponse(lead + "```" + tag + "\n" + body + "\n```" + trail) == Strip(body)
  {
    var f := "```" + tag + "\n" + body + "\n```";
    var text := lead + "```" + tag + "\n" + body + "\n```" + trail;
    assert text == lead + f + trail;
    BlockIsStripped(lead, f, trail);
    FencedScan(f, tag, body);
    StripOfPadded("\n", body, "\n");
  }

  /** The scan drops the opening fence with its tag and the closing fence, and nothing else. */
  lemma FencedScan(f: string, tag: string, body: string)
    requires tag == "" || tag == "json"
    requires Unfenced(body)
    requires f == "```" + tag + "\n" + body + "\n```"
    ensures StripFences(f, 0) == "\n" + body + "\n"
  {
    FenceOpens(f, tag, body);
    InnerUnfired(f, tag, body);
    CopiesUnfired(f, 3 + |tag|, |f| - 3);
    FenceCloses(f, tag, body);
    assert f[3 + |tag|..|f| - 3] + [] == "\n" + body + "\n";
  }

  lemma BlockIsStripped(lead: string, f: string, trail: string)
    requires AllSpace(lead) && AllSpace(trail)
    requires |f| >= 3 && f[0] == '`' && f[|f| - 1] == '`'
    ensures Strip(lead + f + trail) == f
  {
    StripOfPadded(lead, f, trail);
    StripOfEdgeless(f);
  }

  /** Between the opening tag and the closing fence nothing matches. */
  lemma InnerUnfired(f: string, tag: string, body: string)
    requires tag == "" || tag == "json"
    requires Unfenced(body)
    requires f == "```" + tag + "\n" + body + "\n```"
    ensures forall r :: 3 + |tag| <= r < |f| - 3 ==> !Fires(f, r)
  {
    var o := 3 + |tag|;
    assert f[o] == '\n' && f[o + 1 + |body|] == '\n';
    assert f[o + 1..o + 1 + |body|] == body;
    forall r | o <= r < |f| - 3
      ensures !Fires(f, r)
    {
      if o < r < |f| - 4 {
        BodyFires(f, o, body, r - o - 1);
      }
    }
  }

  /** The closing fence is the last match and leaves nothing after it. */
  lemma FenceCloses(f: string, tag: string, body: string)
    requires tag == "" || tag == "json"
    requires f == "```" + tag + "\n" + body + "\n```"
    ensures StripFences(f, |f| - 3) == []
    ensures f[3 + |tag|..|f| - 3] == "\n" + body + "\n"
  {
    var o, m := "```" + tag, "\n" + body + "\n";
    assert f == o + m + "```";
    MiddleSlice(o, m, "```");
    ClosingFence(f);
  }

  /** A text ending in a line of its own holding "```" has its last match there. */
  lemma ClosingFence(f: string)
    requires |f| >= 4 && f[|f| - 4] == '\n' && f[|f| - 3] == '`' && f[|f| - 2] == '`' && f[|f| - 1] == '`'
    ensures StripFences(f, |f| - 3) == []
  {
    assert Fires(f, |f| - 3) && FenceMatchEnd(f, |f| - 3) == |f|;
  }

  /** The opening fence and its tag form the first match, ending just before the '\n'. */
  lemma FenceOpens(f: string, tag: string, body: string)
    requires tag == "" || tag == "json"
    requires f == "```" + tag + "\n" + body + "\n```"
    ensures Fires(f, 0) && FenceMatchEnd(f, 0) == 3 + |tag|
    ensures StripFences(f, 0) == StripFences(f, 3 + |tag|)
  {
    assert f[0] == '`' && f[1] == '`' && f[2] == '`';
    assert f[3 + |tag|] == '\n';
    if tag == "json" {
      assert f[3] == 'j' && f[4] == 's' && f[5] == 'o' && f[6] == 'n';
    }
  }

  /**
   * Inside the block the pattern matches at a position exactly when it
   * matches at the same place of the body: the '\n' before and after the
   * body make line starts and ends agree.
   */
  lemma BodyFires(f: string, o: nat, body: string, k: nat)
    requires o + 1 + |body| < |f| && f[o] == '\n' && f[o + 1 + |body|] == '\n'
    requires f[o + 1..o + 1 + |body|] == body
    requires k < |body|
    ensures Fires(f, o + 1 + k) ==> Fires(body, k)
  {
    var r := o + 1 + k;
    var m := o + 1 + |body|;
    assert forall d :: 0 <= d < |body| ==> f[o + 1 + d] == body[d];
    if k + 3 <= |body| {
      assert f[r] == body[k] && f[r + 1] == body[k + 1] && f[r + 2] == body[k + 2];
      assert r + 3 < m ==> f[r + 3] == body[k + 3];
    } else {
      assert f[m] == '\n';
      assert m == r || m == r + 1 || m == r + 2;
    }
    assert k > 0 ==> f[r - 1] == body[k - 1];
  }

  // ------------------------------------------------------------ JSON

  /** A parsed JSON value, as `json.loads` would return it. */
  datatype Json =
    | JNull
    | JBool(b: bool)
    | JNumber(literal: string)
    | JString(s: string)
    | JArray(items: seq<Json>)
    | JObject(members: seq<(string, Json)>)

  /**
   * Lines 47-48: one JSON object becomes a list holding it; anything else is
   * kept as it is. The result is never an object.
   */
  function AsRecordList(v: Json): (r: Json)
    ensures !r.JObject?
    ensures v.JObject? ==> r == JArray([v])
    ensures !v.JObject? ==> r == v
  {
    if v.JObject? then JArray([v]) else v
  }

  /**
   * The reply-handling path with the model's reply and `json.loads` given as
   * parameters: `None` when the cleaned reply does not parse (the error is
   * reported and nothing is written), else the normalised value.
   */
  function ProcessReply(reply: string, parse: string -> Option<Json>): (r: Option<Json>)
    ensures r.Some? <==> parse(CleanResponse(reply)).Some?
    ensures r.Some? ==> !r.value.JObject?
    ensures r.Some? && parse(CleanResponse(reply)).value.JArray? ==> r.value == parse(CleanResponse(reply)).value
  {
    match parse(CleanResponse(reply))
    case None => None
    case Some(v) => Some(AsRecordList(v))
  }

  // ------------------------------------------------------------ examples

  /** A reply fenced as a JSON block cleans to its body. */
  lemma ExampleJsonBlock()
    ensures CleanResponse("```json\n{\"Total\": \"50\"}\n```") == "{\"Total\": \"50\"}"
  {
    var body := "{\"Total\": \"50\"}";
    assert "```json\n{\"Total\": \"50\"}\n```" == "" + "```" + "json" + "\n" + body + "\n```" + "";
    ExampleBodyUnfenced(body);
    JsonBlockLayout(body);
  }

  lemma JsonBlockLayout(body: string)
    requires Unfenced(body) && NoEdgeSpace(body)
    ensures CleanResponse("" + "```" + "json" + "\n" + body + "\n```" + "") == body
  {
    StripOfEdgeless(body);
    FencedReply("", "json", body, "");
  }

  lemma ExampleBodyUnfenced(body: string)
    requires body == "{\"Total\": \"50\"}"
    ensures Unfenced(body) && NoEdgeSpace(body)
  {
    assert forall k :: 0 <= k < |body| ==> body[k] != '`';
  }
}
