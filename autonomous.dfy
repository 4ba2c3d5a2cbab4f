/**
 * The autonomous strategy (flow1_autonomous.py): split the OCR text into clean
 * lines, and parse every line into a `[Qty, Item, Price, Info]` row.
 *
 * The regular expressions of `parse_item_line` are written out as character
 * predicates; each has a single reading, so the leftmost match the regex engine
 * returns is given by index functions (`PriceStart`, `QtyTokenEnd`), and lemmas
 * tie these back to the token shapes the patterns describe.
 */
module Autonomous {
  import opened Wrappers
  import opened Text
  import opened Seqs

  /** A structured line `[qty, item, price]`, as `parse_item_line` returns it. */
  datatype Item = Item(qty: string, item: string, price: string)

  /** One row of the autonomous table, columns Qty, Item, Price, Info. */
  datatype Row = Row(qty: string, item: string, price: string, info: string)

  predicate IsSeparator(c: char) { c == '.' || c == ',' }

  // ------------------------------------------------- price: (\d+[\.,]\d{2})$

  /** `$` without MULTILINE holds at the end, and just before a final '\n'. */
  predicate DollarAt(line: string, e: nat) {
    e == |line| || (e + 1 == |line| && line[e] == '\n')
  }

  /** The only place where a price match can end: the `$` position with a character before it that is not '\n'. */
  function AnchorEnd(line: string): nat {
    if |line| > 0 && line[|line| - 1] == '\n' then |line| - 1 else |line|
  }

  /** A whole string of the form `\d+[\.,]\d{2}`. */
  predicate IsPriceToken(tok: string) {
    |tok| >= 4 && AllDigits(tok[..|tok| - 3]) && IsSeparator(tok[|tok| - 3]) &&
    AllDigits(tok[|tok| - 2..])
  }

  /** The price regex finds a match in `line`. */
  predicate HasPrice(line: string) {
    var e := AnchorEnd(line);
    e >= 4 && IsDigit(line[e - 4]) && IsSeparator(line[e - 3]) &&
    IsDigit(line[e - 2]) && IsDigit(line[e - 1])
  }

  /** Start of the maximal digit run that ends just before index `j`. */
  function DigitRunStart(s: string, j: nat): (i: nat)
    requires j <= |s|
    ensures i <= j && AllDigits(s[i..j])
    ensures i == 0 || !IsDigit(s[i - 1])
    decreases j
  {
    if j > 0 && IsDigit(s[j - 1]) then
      var i := DigitRunStart(s, j - 1);
      assert s[i..j] == s[i..j - 1] + [s[j - 1]];
      i
    else j
  }

  /** Where the price match begins: `\d+` starts as far left as the digits go. */
  function PriceStart(line: string): (s: nat)
    requires HasPrice(line)
    ensures s + 4 <= AnchorEnd(line) <= |line|
  {
    DigitRunStart(line, AnchorEnd(line) - 3)
  }

  /** The price token the regex matches, before normalisation. */
  function PriceToken(line: string): string
    requires HasPrice(line)
  {
    line[PriceStart(line)..AnchorEnd(line)]
  }

  /** `.replace(',', '.')`. */
  function CommaToDot(s: string): (r: string)
    ensures |r| == |s| && ',' !in r
    ensures forall i :: 0 <= i < |s| ==> r[i] == if s[i] == ',' then '.' else s[i]
  {
    seq(|s|, i requires 0 <= i < |s| => if s[i] == ',' then '.' else s[i])
  }

  // ----------------------------------- quantity: (\d+x|Qty[:\-]?\s*\d+|\d+)\s+

  /** End of the maximal digit run starting at `i`. */
  function DigitRunEnd(s: string, i: nat): (j: nat)
    requires i <= |s|
    ensures i <= j <= |s| && AllDigits(s[i..j])
    ensures j == |s| || !IsDigit(s[j])
    decreases |s| - i
  {
    if i < |s| && IsDigit(s[i]) then
      var j := DigitRunEnd(s, i + 1);
      assert s[i..j] == [s[i]] + s[i + 1..j];
      j
    else i
  }

  /** `\s*\d+` as a whole string. */
  predicate SpacedDigits(u: string) {
    exists b :: 0 <= b < |u| && AllSpace(u[..b]) && AllDigits(u[b..])
  }

  /** A whole string matching one of the three quantity alternatives. */
  predicate IsQuantity(q: string) {
    || (|q| >= 2 && q[|q| - 1] == 'x' && AllDigits(q[..|q| - 1]))
    || (|q| >= 4 && q[..3] == "Qty" &&
        (SpacedDigits(q[3..]) || ((q[3] == ':' || q[3] == '-') && SpacedDigits(q[4..]))))
    || (|q| >= 1 && AllDigits(q))
  }

  /**
   * End of the leading quantity token of a stripped text, or 0 when the optional
   * group does not match; the token is always followed by whitespace.
   */
  function QtyTokenEnd(t: string): (n: nat)
    requires t != [] && NoEdgeSpace(t)
    ensures n < |t|
    ensures n > 0 ==> IsSpace(t[n])
  {
    var d := DigitRunEnd(t, 0);
    if 0 < d && d + 1 < |t| && t[d] == 'x' && IsSpace(t[d + 1]) then d + 1
    else if |t| > 3 && t[..3] == "Qty" then
      var p := if t[3] == ':' || t[3] == '-' then 4 else 3;
      var q := SpaceRunEnd(t, p);
      var r := DigitRunEnd(t, q);
      if q < r < |t| && IsSpace(t[r]) then r else 0
    else if 0 < d < |t| && IsSpace(t[d]) then d
    else 0
  }

  /** `parse_item_line`: `None` unless a price ends the line and text precedes it. */
  function ParseItemLine(line: string): (r: Option<Item>)
    ensures r.None? <==> !HasPrice(line) || AllSpace(line[..PriceStart(line)])
  {
    if !HasPrice(line) then None
    else ItemOfText(Strip(line[..PriceStart(line)]), CommaToDot(PriceToken(line)))
  }

  /**
   * The second regex, an optional quantity token, whitespace and `(.+)`,
   * matched against the stripped text before the price.
   */
  function ItemOfText(before: string, price: string): (r: Option<Item>)
    requires NoEdgeSpace(before)
    ensures r.None? <==> before == []
    ensures r.Some? ==> r.value.price == price
  {
    if before == [] then None
    else
      var n := QtyTokenEnd(before);
      var itemStart := if n == 0 then 0 else SpaceRunEnd(before, n);
      ItemStartFacts(before, n, itemStart);
      Some(Item(before[..n], Strip(FirstLine(before[itemStart..])), price))
  }

  /** A returned item is non-empty, has no whitespace at its edges and no line break. */
  lemma ParsedItemText(line: string)
    requires ParseItemLine(line).Some?
    ensures var item := ParseItemLine(line).value.item;
      item != [] && NoEdgeSpace(item) && '\n' !in item
  {
    var before := Strip(line[..PriceStart(line)]);
    var n := QtyTokenEnd(before);
    ItemStartFacts(before, n, if n == 0 then 0 else SpaceRunEnd(before, n));
  }

  /** A returned quantity is empty or has one of the three quantity forms. */
  lemma ParsedQuantity(line: string)
    requires ParseItemLine(line).Some?
    ensures var qty := ParseItemLine(line).value.qty;
      qty == [] || IsQuantity(qty)
  {
    QtyTokenIsQuantity(Strip(line[..PriceStart(line)]));
  }

  /** A returned price is a price token whose separator is '.'. */
  lemma ParsedPrice(line: string)
    requires ParseItemLine(line).Some?
    ensures var price := ParseItemLine(line).value.price;
      price == CommaToDot(PriceToken(line)) && IsPriceToken(price) && price[|price| - 3] == '.'
  {
    PriceOfParse(line);
    PriceTokenFacts(line);
    var p := ParseItemLine(line).value.price;
    assert p == CommaToDot(PriceToken(line));
  }

  lemma PriceOfParse(line: string)
    requires ParseItemLine(line).Some?
    ensures HasPrice(line) && ParseItemLine(line).value.price == CommaToDot(PriceToken(line))
  {
  }

  /** `parse_lines`' row for one line: the triple plus an empty Info, or only Info. */
  function LineRow(line: string): Row {
    match ParseItemLine(line)
    case Some(it) => Row(it.qty, it.item, it.price, "")
    case None => Row("", "", "", line)
  }

  /**
   * Every row has one of two shapes: a parsed row (non-empty Price and Item,
   * empty Info) or an info row (only Info, holding the line verbatim).
   */
  lemma RowShapes(line: string)
    ensures var row := LineRow(line);
      || (row.price != "" && row.item != "" && NoEdgeSpace(row.item) && row.info == "")
      || (row == Row("", "", "", line))
    ensures LineRow(line).price != "" <==> ParseItemLine(line).Some?
  {
    if ParseItemLine(line).Some? { ParsedItemText(line); ParsedPrice(line); }
  }

  /** `parse_lines`: one row per line, in order, appended to a list as the loop goes. */
  method ParseLines(lines: seq<string>) returns (structured: seq<Row>)
    ensures |structured| == |lines|
    ensures forall i :: 0 <= i < |lines| ==> structured[i] == LineRow(lines[i])
  {
    ghost var rows := seq(|lines|, i requires 0 <= i < |lines| => LineRow(lines[i]));
    structured := [];
    for k := 0 to |lines|
      invariant structured == rows[..k]
    {
      var row := RowFor(lines[k]);
      assert rows[..k + 1] == rows[..k] + [row];
      structured := structured + [row];
    }
    assert structured == rows;
  }

  /** The body of `parse_lines`' loop: parse the line, then build its row. */
  method RowFor(line: string) returns (row: Row)
    ensures row == LineRow(line)
  {
    var parsed := ParseItemLine(line);
    if parsed.Some? {
      row := Row(parsed.value.qty, parsed.value.item, parsed.value.price, "");
    } else {
      row := Row("", "", "", line);
    }
  }

  // --------------------------------------------------------- OCR text lines

  /** The filter-and-strip comprehension of `extract_ocr_lines`. */
  function CleanLines(parts: seq<string>): (r: seq<string>)
    ensures |r| <= |parts|
    ensures forall i :: 0 <= i < |r| ==> r[i] != [] && NoEdgeSpace(r[i])
    ensures forall i :: 0 <= i < |parts| && Strip(parts[i]) != [] ==> Strip(parts[i]) in r
    decreases |parts|
  {
    if parts == [] then []
    else
      var head := if Strip(parts[0]) != [] then [Strip(parts[0])] else [];
      var rest := CleanLines(parts[1..]);
      CleanPieces(head, rest);
      KeptParts(parts[0], parts[1..], parts, head, rest);
      head + rest
  }

  lemma KeptParts(p: string, ps: seq<string>, parts: seq<string>, head: seq<string>, rest: seq<string>)
    requires parts == [p] + ps
    requires Strip(p) != [] ==> Strip(p) in head
    requires forall i :: 0 <= i < |ps| && Strip(ps[i]) != [] ==> Strip(ps[i]) in rest
    ensures forall i :: 0 <= i < |parts| && Strip(parts[i]) != [] ==> Strip(parts[i]) in head + rest
  {
    forall i | 0 <= i < |parts| && Strip(parts[i]) != []
      ensures Strip(parts[i]) in head + rest
    {
      if i > 0 {
        assert parts[i] == ps[i - 1];
      }
    }
  }

  lemma CleanPieces(a: seq<string>, b: seq<string>)
    requires forall i :: 0 <= i < |a| ==> a[i] != [] && NoEdgeSpace(a[i])
    requires forall i :: 0 <= i < |b| ==> b[i] != [] && NoEdgeSpace(b[i])
    ensures forall i :: 0 <= i < |a + b| ==> (a + b)[i] != [] && NoEdgeSpace((a + b)[i])
  {
  }

  /** `extract_ocr_lines` with the OCR call replaced by the text it returns. */
  function OcrLines(text: string): (lines: seq<string>)
    ensures forall i :: 0 <= i < |lines| ==> lines[i] != [] && NoEdgeSpace(lines[i]) && '\n' !in lines[i]
  {
    var parts := Split(text, '\n');
    CleanLinesKeepAbsence(parts, '\n');
    CleanLines(parts)
  }

  /** A text without a line break is one OCR line when it is not blank, and none when it is. */
  lemma OcrLinesOfLine(s: string)
    requires '\n' !in s
    ensures OcrLines(s) == if Strip(s) == [] then [] else [Strip(s)]
  {
    SplitOfFree(s, '\n');
    CleanLinesCons(s, []);
  }

  // ------------------------------------------------------ regex semantics

  /**
   * `re.search(r'(\d+[\.,]\d{2})$', line)`: a match exists exactly when some
   * substring ending where `$` holds is a price token, and the match found
   * (from `PriceStart` to `AnchorEnd`) is the leftmost such substring.
   */
  lemma PriceMatchIsLeftmost(line: string)
    ensures HasPrice(line) <==>
      exists s, e :: 0 <= s <= e <= |line| && DollarAt(line, e) && IsPriceToken(line[s..e])
    ensures HasPrice(line) ==>
      forall s, e :: 0 <= s < PriceStart(line) && s <= e <= |line| && DollarAt(line, e) ==>
        !IsPriceToken(line[s..e])
  {
    if HasPrice(line) {
      PriceTokenFacts(line);
      assert DollarAt(line, AnchorEnd(line));
      NoEarlierToken(line);
    }
    forall s, e | 0 <= s <= e <= |line| && DollarAt(line, e) && IsPriceToken(line[s..e])
      ensures HasPrice(line)
    {
      TokenGivesPrice(line, s, e);
    }
  }

  /** No price token ending at `$` starts before the match. */
  lemma NoEarlierToken(line: string)
    requires HasPrice(line)
    ensures forall s, e :: 0 <= s < PriceStart(line) && s <= e <= |line| && DollarAt(line, e) ==>
      !IsPriceToken(line[s..e])
  {
    forall s, e | 0 <= s < PriceStart(line) && s <= e <= |line| && DollarAt(line, e)
      ensures !IsPriceToken(line[s..e])
    {
      EarlierTokenFails(line, s, e);
    }
  }

  lemma EarlierTokenFails(line: string, s: nat, e: nat)
    requires HasPrice(line) && s < PriceStart(line) && s <= e <= |line| && DollarAt(line, e)
    ensures !IsPriceToken(line[s..e])
  {
    var tok := line[s..e];
    if e == AnchorEnd(line) {
      var i := PriceStart(line);
      assert tok[..|tok| - 3][i - 1 - s] == line[i - 1];
    } else {
      assert |tok| >= 4 ==> tok[|tok| - 2..][1] == line[e - 1] == '\n';
    }
  }

  /** A price token ending where `$` holds makes the search succeed. */
  lemma TokenGivesPrice(line: string, s: nat, e: nat)
    requires s <= e <= |line| && DollarAt(line, e) && IsPriceToken(line[s..e])
    ensures HasPrice(line)
  {
    TokenEndsAtAnchor(line, s, e);
    var tok := line[s..e];
    assert tok[..|tok| - 3][|tok| - 4] == line[e - 4];
    assert tok[|tok| - 2..][0] == line[e - 2];
    assert tok[|tok| - 2..][1] == line[e - 1];
  }

  lemma TokenEndsAtAnchor(line: string, s: nat, e: nat)
    requires s <= e <= |line| && DollarAt(line, e) && IsPriceToken(line[s..e])
    ensures e == AnchorEnd(line)
  {
    var tok := line[s..e];
    assert tok[|tok| - 2..][1] == line[e - 1];
  }

  /** A line holding nothing but a price (after whitespace) has no text before that price. */
  lemma PriceOnlyLineIsInfo(w: string, tok: string)
    requires AllSpace(w) && IsPriceToken(tok)
    ensures ParseItemLine(w + tok) == None
    ensures LineRow(w + tok) == Row("", "", "", w + tok)
  {
    PriceOnlyBefore(w, tok, w + tok);
  }

  lemma PriceOnlyBefore(w: string, tok: string, line: string)
    requires AllSpace(w) && IsPriceToken(tok) && line == w + tok
    ensures HasPrice(line) && AllSpace(line[..PriceStart(line)])
  {
    assert w != [] ==> IsSpace(w[|w| - 1]);
    PriceAfter(w, tok);
    assert line[..PriceStart(line)] == w;
  }

  lemma {:induction false} DigitRunStartExact(s: string, i: nat, j: nat)
    requires i <= j <= |s| && AllDigits(s[i..j]) && (i == 0 || !IsDigit(s[i - 1]))
    ensures DigitRunStart(s, j) == i
    decreases j - i
  {
    if i < j {
      assert s[i..j][j - 1 - i] == s[j - 1];
      assert s[i..j - 1] == s[i..j][..j - 1 - i];
      DigitRunStartExact(s, i, j - 1);
    }
  }

  lemma {:induction false} DigitRunEndExact(s: string, i: nat, j: nat)
    requires i <= j <= |s| && AllDigits(s[i..j]) && (j == |s| || !IsDigit(s[j]))
    ensures DigitRunEnd(s, i) == j
    decreases j - i
  {
    if i < j {
      assert s[i..j][0] == s[i];
      assert s[i + 1..j] == s[i..j][1..];
      DigitRunEndExact(s, i + 1, j);
    }
  }

  /**
   * The quantity token is unique: any prefix of the text that has one of the
   * three quantity forms and is followed by whitespace is the one `QtyTokenEnd`
   * finds. With `QtyTokenIsQuantity` this says the optional group matches exactly
   * when such a prefix exists.
   */
  lemma QtyTokenUnique(t: string, n: nat)
    requires t != [] && NoEdgeSpace(t)
    requires 0 < n < |t| && IsQuantity(t[..n]) && IsSpace(t[n])
    ensures QtyTokenEnd(t) == n
  {
    var q := t[..n];
    if |q| >= 2 && q[|q| - 1] == 'x' && AllDigits(q[..|q| - 1]) {
      CountedQuantityUnique(t, n);
    } else if |q| >= 4 && q[..3] == "Qty" {
      LabelledQuantityUnique(t, n);
    } else {
      BareQuantityUnique(t, n);
    }
  }

  lemma CountedQuantityUnique(t: string, n: nat)
    requires t != [] && NoEdgeSpace(t) && 1 < n < |t| && IsSpace(t[n])
    requires t[n - 1] == 'x' && AllDigits(t[..n - 1])
    ensures QtyTokenEnd(t) == n
  {
    assert t[0..n - 1] == t[..n - 1];
    DigitRunEndExact(t, 0, n - 1);
  }

  lemma BareQuantityUnique(t: string, n: nat)
    requires t != [] && NoEdgeSpace(t) && 0 < n < |t| && IsSpace(t[n])
    requires AllDigits(t[..n])
    ensures QtyTokenEnd(t) == n
  {
    assert t[0..n] == t[..n];
    DigitRunEndExact(t, 0, n);
    assert t[..n][0] == t[0];
    assert t[..3] != "Qty" by { if |t| >= 3 { assert t[..3][0] == t[0]; } }
  }

  lemma SpacedDigitsHead(u: string)
    requires SpacedDigits(u)
    ensures IsSpace(u[0]) || IsDigit(u[0])
  {
    var b :| 0 <= b < |u| && AllSpace(u[..b]) && AllDigits(u[b..]);
    if b == 0 { assert u[b..][0] == u[0]; } else { assert u[..b][0] == u[0]; }
  }

  lemma LabelledQuantityUnique(t: string, n: nat)
    requires t != [] && NoEdgeSpace(t) && 3 < n < |t| && IsSpace(t[n])
    requires t[..3] == "Qty"
    requires IsQuantity(t[..n])
    ensures QtyTokenEnd(t) == n
  {
    var p, b := LabelledParts(t, n);
    LabelledTokenEnd(t, p, b, n);
  }

  /** A labelled quantity is "Qty", an optional ':' or '-', whitespace, then digits. */
  lemma LabelledParts(t: string, n: nat) returns (p: nat, b: nat)
    requires 3 < n <= |t| && t[..3] == "Qty" && IsQuantity(t[..n])
    ensures p == (if t[3] == ':' || t[3] == '-' then 4 else 3)
    ensures p + b < n && AllSpace(t[p..p + b]) && AllDigits(t[p + b..n])
  {
    var q := t[..n];
    p := if t[3] == ':' || t[3] == '-' then 4 else 3;
    LabelledAfterTag(q);
    var u := q[p..];
    b :| 0 <= b < |u| && AllSpace(u[..b]) && AllDigits(u[b..]);
    assert u[..b] == q[p..p + b] && u[b..] == q[p + b..];
    SliceOfPrefix(t, n, p, p + b);
    SliceOfPrefix(t, n, p + b, n);
  }

  /** Only the labelled alternative matches a token starting with "Qty". */
  lemma LabelledAfterTag(q: string)
    requires |q| > 3 && q[..3] == "Qty" && IsQuantity(q)
    ensures SpacedDigits(q[if q[3] == ':' || q[3] == '-' then 4 else 3..])
  {
    assert q[0] == 'Q' by { assert q[..3][0] == q[0]; }
    assert !(q[|q| - 1] == 'x' && AllDigits(q[..|q| - 1])) by { assert q[..|q| - 1][0] == q[0]; }
    assert !AllDigits(q) by { assert q[0] == q[0]; }
    if SpacedDigits(q[3..]) { SpacedDigitsHead(q[3..]); }
  }

  /** The scan of `QtyTokenEnd` over "Qty", separator, whitespace and digits ends at the digits' end. */
  lemma LabelledTokenEnd(t: string, p: nat, b: nat, n: nat)
    requires t != [] && NoEdgeSpace(t) && 3 < n < |t| && IsSpace(t[n]) && t[..3] == "Qty"
    requires p == (if t[3] == ':' || t[3] == '-' then 4 else 3)
    requires p + b < n && AllSpace(t[p..p + b]) && AllDigits(t[p + b..n])
    ensures QtyTokenEnd(t) == n
  {
    assert t[0] == 'Q' by { assert t[..3][0] == t[0]; }
    DigitRunEndExact(t, 0, 0);
    assert t[p + b..n][0] == t[p + b];
    SpaceRunEndExact(t, p, p + b);
    DigitRunEndExact(t, p + b, n);
  }

  /**
   * With no line break in the line, the text before the price is exactly the
   * quantity, then whitespace, then the item; when there is no quantity it is
   * the item alone.
   */
  lemma TextBeforePriceSplits(line: string)
    requires ParseItemLine(line).Some? && '\n' !in line
    ensures var it := ParseItemLine(line).value;
      var before := Strip(line[..PriceStart(line)]);
      && (it.qty == [] ==> it.item == before)
      && (it.qty != [] ==> exists w :: w != [] && AllSpace(w) && before == it.qty + w + it.item)
  {
    var s := PriceStart(line);
    var before := Strip(line[..s]);
    SliceKeepsAbsence(line, '\n', 0, s);
    StripKeepsAbsence(line[..s], '\n');
    var n := QtyTokenEnd(before);
    var w := if n == 0 then 0 else SpaceRunEnd(before, n);
    assert ParseItemLine(line).value == Item(before[..n], Strip(FirstLine(before[w..])), CommaToDot(PriceToken(line)));
    StrippedTextSplits(before, n, w);
  }

  lemma StrippedTextSplits(t: string, n: nat, w: nat)
    requires t != [] && NoEdgeSpace(t) && '\n' !in t
    requires n == QtyTokenEnd(t)
    requires w == if n == 0 then 0 else SpaceRunEnd(t, n)
    ensures Strip(FirstLine(t[w..])) == t[w..]
    ensures n == 0 ==> t[w..] == t
    ensures n > 0 ==> t[n..w] != [] && AllSpace(t[n..w]) && t == t[..n] + t[n..w] + t[w..]
  {
    ItemStartBounds(t, n, w);
    RestIsItem(t, w);
    if n > 0 {
      GapSplits(t, n, w);
    }
  }

  /** The text around the quantity's whitespace run is three consecutive pieces. */
  lemma GapSplits(t: string, n: nat, w: nat)
    requires 0 < n < w < |t| && w == SpaceRunEnd(t, n)
    ensures t[n..w] != [] && AllSpace(t[n..w]) && t == t[..n] + t[n..w] + t[w..]
  {
    assert t == t[..n] + t[n..w] + t[w..];
    assert t[n..w][0] == t[n];
  }

  lemma RestIsItem(t: string, w: nat)
    requires w < |t| && !IsSpace(t[w]) && NoEdgeSpace(t) && '\n' !in t
    ensures Strip(FirstLine(t[w..])) == t[w..]
  {
    var rest := t[w..];
    SliceKeepsAbsence(t, '\n', w, |t|);
    FirstLineOfFree(rest);
    assert rest[|rest| - 1] == t[|t| - 1];
    StripOfEdgeless(rest);
  }

  lemma {:induction false} FirstLineOfFree(s: string)
    requires '\n' !in s
    ensures FirstLine(s) == s
    decreases |s|
  {
    if s != [] {
      assert '\n' !in s[1..] by { assert forall k :: 0 <= k < |s| - 1 ==> s[1..][k] == s[k + 1]; }
      FirstLineOfFree(s[1..]);
      assert s == [s[0]] + s[1..];
    }
  }

  // -------------------------------------------------------- OCR text lines

  /**
   * The OCR post-processing and the newline join are inverse on clean lines:
   * joining non-empty, stripped, newline-free lines and splitting the text again
   * gives the same lines in the same order.
   */
  lemma OcrLinesOfJoin(lines: seq<string>)
    requires forall i :: 0 <= i < |lines| ==> lines[i] != [] && NoEdgeSpace(lines[i]) && '\n' !in lines[i]
    ensures OcrLines(Join(lines, "\n")) == lines
  {
    if lines == [] {
      assert Split([], '\n') == [[]];
    } else {
      SplitOfJoin(lines, '\n');
      CleanLinesOfClean(lines);
    }
  }

  lemma {:induction false} CleanLinesOfClean(lines: seq<string>)
    requires forall i :: 0 <= i < |lines| ==> lines[i] != [] && NoEdgeSpace(lines[i])
    ensures CleanLines(lines) == lines
    decreases |lines|
  {
    if lines != [] {
      StripOfEdgeless(lines[0]);
      CleanLinesOfClean(lines[1..]);
      assert lines == [lines[0]] + lines[1..];
    }
  }

  /** Cutting the text at a line break cuts the OCR lines there: order is kept. */
  lemma OcrLinesConcat(a: string, b: string)
    ensures OcrLines(a + "\n" + b) == OcrLines(a) + OcrLines(b)
  {
    SplitConcat(a, b, '\n');
    CleanLinesConcat(Split(a, '\n'), Split(b, '\n'));
  }

  lemma {:induction false} CleanLinesConcat(x: seq<string>, y: seq<string>)
    ensures CleanLines(x + y) == CleanLines(x) + CleanLines(y)
    decreases |x|
  {
    if x == [] {
      assert x + y == y;
    } else {
      assert x + y == [x[0]] + (x[1..] + y);
      assert x == [x[0]] + x[1..];
      CleanLinesCons(x[0], x[1..] + y);
      CleanLinesCons(x[0], x[1..]);
      CleanLinesConcat(x[1..], y);
      ConcatAssoc(if Strip(x[0]) != [] then [Strip(x[0])] else [], CleanLines(x[1..]), CleanLines(y));
    }
  }

  /** `CleanLines` on a list with a known first element. */
  lemma CleanLinesCons(p: string, ps: seq<string>)
    ensures CleanLines([p] + ps) == (if Strip(p) != [] then [Strip(p)] else []) + CleanLines(ps)
  {
    assert ([p] + ps)[0] == p && ([p] + ps)[1..] == ps;
  }

  // ------------------------------------------------------------ round trip

  /** A price token after a text not ending in a digit is the match, starting where the text ends. */
  lemma PriceAfter(pre: string, price: string)
    requires IsPriceToken(price) && (pre == [] || !IsDigit(pre[|pre| - 1]))
    ensures HasPrice(pre + price)
    ensures PriceStart(pre + price) == |pre| && PriceToken(pre + price) == price
  {
    var line := pre + price;
    assert line[|pre|..|line|] == price;
    TokenGivesPrice(line, |pre|, |line|);
    TokenEndsAtAnchor(line, |pre|, |line|);
    assert line[|pre|..|line| - 3] == price[..|price| - 3];
    assert pre != [] ==> line[|pre| - 1] == pre[|pre| - 1];
    DigitRunStartExact(line, |pre|, |line| - 3);
  }

  /**
   * Parsing inverts layout: a line laid out as whitespace, a quantity token,
   * whitespace, an item, optional whitespace and a price token parses back to
   * that quantity, that item and the price with ',' turned into '.'.
   */
  lemma ParseOfLaidOutLine(lead: string, qty: string, gap: string, item: string, pad: string, price: string)
    requires AllSpace(lead) && AllSpace(pad)
    requires IsQuantity(qty) && gap != [] && AllSpace(gap)
    requires item != [] && NoEdgeSpace(item) && '\n' !in item
    requires IsPriceToken(price) && (pad != [] || !IsDigit(item[|item| - 1]))
    ensures ParseItemLine(lead + qty + gap + item + pad + price) == Some(Item(qty, item, CommaToDot(price)))
  {
    var t := qty + gap + item;
    assert lead + qty + gap + item + pad + price == lead + t + pad + price;
    CountedText(qty, gap, item);
    assert t[|t| - 1] == item[|item| - 1];
    PaddedItemLine(lead, t, pad, price);
    CountedItem(qty, gap, item, CommaToDot(price));
  }

  lemma CountedItem(qty: string, gap: string, item: string, price: string)
    requires IsQuantity(qty) && gap != [] && AllSpace(gap)
    requires item != [] && NoEdgeSpace(item) && '\n' !in item
    ensures ItemOfText(qty + gap + item, price) == Some(Item(qty, item, price))
  {
    CountedText(qty, gap, item);
    GapEnd(qty, gap, item);
    FirstLineOfFree(item);
    StripOfEdgeless(item);
  }

  /** How `parse_item_line` takes apart a stripped text that starts with a quantity token. */
  lemma CountedText(qty: string, gap: string, item: string)
    requires IsQuantity(qty) && gap != [] && AllSpace(gap)
    requires item != [] && NoEdgeSpace(item)
    ensures NoEdgeSpace(qty + gap + item) && Strip(qty + gap + item) == qty + gap + item
    ensures QtyTokenEnd(qty + gap + item) == |qty|
    ensures (qty + gap + item)[..|qty|] == qty && (qty + gap + item)[|qty| + |gap|..] == item
  {
    CountedTextEdges(qty, gap, item);
    CountedSplit(qty, gap, item, qty + gap + item);
  }

  lemma CountedSplit(qty: string, gap: string, item: string, t: string)
    requires t == qty + gap + item && t != [] && NoEdgeSpace(t)
    requires IsQuantity(qty) && gap != [] && AllSpace(gap)
    ensures QtyTokenEnd(t) == |qty|
    ensures t[..|qty|] == qty && t[|qty| + |gap|..] == item
  {
    assert t[..|qty|] == qty;
    assert t[|qty|] == gap[0];
    QtyTokenUnique(t, |qty|);
    assert t[|qty| + |gap|..] == item;
  }

  lemma GapEnd(qty: string, gap: string, item: string)
    requires AllSpace(gap) && item != [] && NoEdgeSpace(item)
    ensures SpaceRunEnd(qty + gap + item, |qty|) == |qty| + |gap|
  {
    var t := qty + gap + item;
    assert t[|qty|..|qty| + |gap|] == gap;
    assert t[|qty| + |gap|] == item[0];
    SpaceRunEndExact(t, |qty|, |qty| + |gap|);
  }

  lemma CountedTextEdges(qty: string, gap: string, item: string)
    requires IsQuantity(qty) && item != [] && NoEdgeSpace(item)
    ensures NoEdgeSpace(qty + gap + item) && Strip(qty + gap + item) == qty + gap + item
  {
    var t := qty + gap + item;
    QuantityHead(qty);
    assert t[0] == qty[0];
    assert t[|t| - 1] == item[|item| - 1];
    StripOfEdgeless(t);
  }

  /**
   * The same without a quantity: when no leading part of the item is a
   * quantity token followed by whitespace, the quantity is empty and the item
   * is the whole text before the price.
   */
  lemma ParseOfUncountedLine(lead: string, item: string, pad: string, price: string)
    requires AllSpace(lead) && AllSpace(pad)
    requires item != [] && NoEdgeSpace(item) && '\n' !in item
    requires forall n :: 0 < n < |item| && IsSpace(item[n]) ==> !IsQuantity(item[..n])
    requires IsPriceToken(price) && (pad != [] || !IsDigit(item[|item| - 1]))
    ensures ParseItemLine(lead + item + pad + price) == Some(Item("", item, CommaToDot(price)))
  {
    PaddedItemLine(lead, item, pad, price);
    UncountedItem(item, CommaToDot(price));
  }

  /** The text before a price token at the end of the line is the padded text, stripped. */
  lemma PaddedItemLine(lead: string, item: string, pad: string, price: string)
    requires AllSpace(lead) && AllSpace(pad) && item != [] && NoEdgeSpace(item)
    requires IsPriceToken(price) && (pad != [] || !IsDigit(item[|item| - 1]))
    ensures ParseItemLine(lead + item + pad + price) == ItemOfText(item, CommaToDot(price))
  {
    var pre := lead + item + pad;
    assert pre[|pre| - 1] == if pad != [] then pad[|pad| - 1] else item[|item| - 1];
    assert lead + item + pad + price == pre + price;
    PriceAfter(pre, price);
    assert (pre + price)[..|pre|] == pre;
    StripOfPadded(lead, item, pad);
    StripOfEdgeless(item);
  }

  lemma UncountedItem(item: string, price: string)
    requires item != [] && NoEdgeSpace(item) && '\n' !in item
    requires forall n :: 0 < n < |item| && IsSpace(item[n]) ==> !IsQuantity(item[..n])
    ensures ItemOfText(item, price) == Some(Item("", item, price))
  {
    QtyTokenIsQuantity(item);
    assert QtyTokenEnd(item) == 0;
    assert item[0..] == item;
    FirstLineOfFree(item);
    StripOfEdgeless(item);
  }

  lemma QuantityHead(q: string)
    requires IsQuantity(q)
    ensures q != [] && !IsSpace(q[0])
  {
    if |q| >= 2 && q[|q| - 1] == 'x' && AllDigits(q[..|q| - 1]) {
      assert q[..|q| - 1][0] == q[0];
    } else if |q| >= 4 && q[..3] == "Qty" {
      assert q[..3][0] == q[0];
    }
  }

  // ------------------------------------------------------------- examples

  /** `"2x Widget 10.50"` gives `["2x", "Widget", "10.50"]`. */
  lemma ExampleCountedQuantity()
    ensures ParseItemLine("2x Widget 10.50") == Some(Item("2x", "Widget", "10.50"))
  {
    assert "2x Widget 10.50" == "" + "2x" + " " + "Widget" + " " + "10.50";
    assert CommaToDot("10.50") == "10.50";
    CountedLayout();
  }

  lemma CountedLayout()
    ensures ParseItemLine("" + "2x" + " " + "Widget" + " " + "10.50") ==
      Some(Item("2x", "Widget", CommaToDot("10.50")))
  {
    assert IsQuantity("2x") by { assert "2x"[..1] == "2"; }
    assert IsPriceToken("10.50") by { assert "10.50"[..2] == "10"; assert "10.50"[3..] == "50"; }
    ParseOfLaidOutLine("", "2x", " ", "Widget", " ", "10.50");
  }

  /** `"Qty: 3 Blue Pen 4,25"` gives `["Qty: 3", "Blue Pen", "4.25"]`. */
  lemma ExampleLabelledQuantity()
    ensures ParseItemLine("Qty: 3 Blue Pen 4,25") == Some(Item("Qty: 3", "Blue Pen", "4.25"))
  {
    assert "Qty: 3 Blue Pen 4,25" == "" + "Qty: 3" + " " + "Blue Pen" + " " + "4,25";
    assert CommaToDot("4,25") == "4.25";
    LabelledLayout();
  }

  lemma LabelledLayout()
    ensures ParseItemLine("" + "Qty: 3" + " " + "Blue Pen" + " " + "4,25") ==
      Some(Item("Qty: 3", "Blue Pen", CommaToDot("4,25")))
  {
    LabelledPieces();
    ParseOfLaidOutLine("", "Qty: 3", " ", "Blue Pen", " ", "4,25");
  }

  lemma LabelledPieces()
    ensures IsQuantity("Qty: 3") && IsPriceToken("4,25")
    ensures NoEdgeSpace("Blue Pen") && '\n' !in "Blue Pen"
  {
    LabelledQty();
    assert "4,25"[..1] == "4";
    assert "4,25"[2..] == "25";
  }

  lemma LabelledQty()
    ensures IsQuantity("Qty: 3")
  {
    assert "Qty: 3"[..3] == "Qty" && "Qty: 3"[4..] == " 3";
    assert " 3"[..1] == " " && " 3"[1..] == "3";
  }

  /** `"A1,234.56"`: the price is the digit run `234.56`, and `A1,` is the item. */
  lemma ExampleEmbeddedPrice()
    ensures ParseItemLine("A1,234.56") == Some(Item("", "A1,", "234.56"))
  {
    assert "A1,234.56" == "" + "A1," + "" + "234.56";
    assert CommaToDot("234.56") == "234.56";
    EmbeddedLayout();
  }

  lemma EmbeddedLayout()
    ensures ParseItemLine("" + "A1," + "" + "234.56") == Some(Item("", "A1,", CommaToDot("234.56")))
  {
    assert IsPriceToken("234.56") by { assert "234.56"[..3] == "234"; assert "234.56"[4..] == "56"; }
    ParseOfUncountedLine("", "A1,", "", "234.56");
  }

  /** `"3 12.50"`: a number with nothing after it is the item, not a quantity. */
  lemma ExampleNumberAsItem()
    ensures ParseItemLine("3 12.50") == Some(Item("", "3", "12.50"))
  {
    assert "3 12.50" == "" + "3" + " " + "12.50";
    assert CommaToDot("12.50") == "12.50";
    NumberAsItemLayout();
  }

  lemma NumberAsItemLayout()
    ensures ParseItemLine("" + "3" + " " + "12.50") == Some(Item("", "3", CommaToDot("12.50")))
  {
    assert IsPriceToken("12.50") by { assert "12.50"[..2] == "12"; assert "12.50"[3..] == "50"; }
    ParseOfUncountedLine("", "3", " ", "12.50");
  }

  /** A line without a price is kept whole in the Info column. */
  lemma ExampleInfoLine()
    ensures LineRow("Thank you for your business") == Row("", "", "", "Thank you for your business")
  {
    assert !IsDigit("Thank you for your business"[26]);
  }

  // ------------------------------------------------------------ proof helpers

  lemma {:induction false} CleanLinesKeepAbsence(parts: seq<string>, c: char)
    requires forall j :: 0 <= j < |parts| ==> c !in parts[j]
    ensures forall i :: 0 <= i < |CleanLines(parts)| ==> c !in CleanLines(parts)[i]
    decreases |parts|
  {
    if parts != [] {
      assert parts == [parts[0]] + parts[1..];
      CleanLinesCons(parts[0], parts[1..]);
      StripKeepsAbsence(parts[0], c);
      CleanLinesKeepAbsence(parts[1..], c);
      AbsencePieces(if Strip(parts[0]) != [] then [Strip(parts[0])] else [], CleanLines(parts[1..]), c);
    }
  }

  lemma AbsencePieces(a: seq<string>, b: seq<string>, c: char)
    requires forall i :: 0 <= i < |a| ==> c !in a[i]
    requires forall i :: 0 <= i < |b| ==> c !in b[i]
    ensures forall i :: 0 <= i < |a + b| ==> c !in (a + b)[i]
  {
  }

  lemma PriceTokenFacts(line: string)
    requires HasPrice(line)
    ensures IsPriceToken(PriceToken(line))
    ensures IsPriceToken(CommaToDot(PriceToken(line)))
    ensures var p := CommaToDot(PriceToken(line)); p[|p| - 3] == '.'
  {
    var e := AnchorEnd(line);
    var s := PriceStart(line);
    var tok := PriceToken(line);
    assert tok[..|tok| - 3] == line[s..e - 3];
    assert tok[|tok| - 2..] == line[e - 2..e];
    NormalisedPrice(tok);
  }

  /** Normalising a price token keeps it a price token, with '.' as its separator. */
  lemma NormalisedPrice(tok: string)
    requires IsPriceToken(tok)
    ensures IsPriceToken(CommaToDot(tok)) && CommaToDot(tok)[|tok| - 3] == '.'
  {
    var p := CommaToDot(tok);
    var n := |tok|;
    forall i | 0 <= i < n && i != n - 3 ensures p[i] == tok[i] {
      if i < n - 3 { assert tok[..n - 3][i] == tok[i]; }
      else { assert tok[n - 2..][i - (n - 2)] == tok[i]; }
    }
    assert p[..n - 3] == tok[..n - 3];
    assert p[n - 2..] == tok[n - 2..];
  }

  lemma ItemStartBounds(t: string, n: nat, w: nat)
    requires t != [] && NoEdgeSpace(t)
    requires n == QtyTokenEnd(t)
    requires w == if n == 0 then 0 else SpaceRunEnd(t, n)
    ensures w < |t| && !IsSpace(t[w]) && t[w] != '\n'
    ensures n < w || n == 0 == w
  {
  }

  lemma ItemStartFacts(t: string, n: nat, w: nat)
    requires t != [] && NoEdgeSpace(t)
    requires n == QtyTokenEnd(t)
    requires w == if n == 0 then 0 else SpaceRunEnd(t, n)
    ensures w < |t| && !IsSpace(t[w]) && t[w] != '\n'
    ensures n < w || n == 0 == w
    ensures var item := Strip(FirstLine(t[w..]));
      item != [] && NoEdgeSpace(item) && '\n' !in item
  {
    ItemStartBounds(t, n, w);
    var f := FirstLine(t[w..]);
    assert f != [] && f[0] == t[w];
    assert !AllSpace(f);
    StripKeepsAbsence(f, '\n');
  }

  /** The token `QtyTokenEnd` finds has one of the three quantity forms. */
  lemma QtyTokenIsQuantity(t: string)
    requires t != [] && NoEdgeSpace(t)
    ensures QtyTokenEnd(t) > 0 ==> IsQuantity(t[..QtyTokenEnd(t)])
  {
    var n := QtyTokenEnd(t);
    if n == 0 { return; }
    var q := t[..n];
    var d := DigitRunEnd(t, 0);
    if 0 < d && d + 1 < |t| && t[d] == 'x' && IsSpace(t[d + 1]) {
      assert q[..|q| - 1] == t[0..d];
    } else if |t| > 3 && t[..3] == "Qty" {
      var p := if t[3] == ':' || t[3] == '-' then 4 else 3;
      var sp := SpaceRunEnd(t, p);
      assert q[..3] == t[..3];
      assert q[p..][..sp - p] == t[p..sp];
      assert q[p..][sp - p..] == t[sp..n];
      assert SpacedDigits(q[p..]);
    } else {
      assert q == t[0..d];
    }
  }
}
