# Document-Processing-System: a verified model of the text and record core

The Document-Processing-System turns scanned invoices and receipts into tables
in four ways. This project models in Dafny the deterministic core of each way
and proves properties about it:

- **Autonomous** (`flow1_autonomous.py`). Each OCR line is parsed into a
  `[Qty, Item, Price, Info]` row. A price must end the line, and an optional
  quantity may start the text before that price. A line that does not parse is
  kept whole in the Info column. The OCR text is first split into stripped,
  non-empty lines. Module `Autonomous`.
- **Targeted** (`flow2_targeted.py`). For each requested field name, the first
  line that mentions the field, ignoring case, gives the value. The value is the
  first run of digits, dots and commas in that line, or else the whole line
  trimmed. A field no line mentions is `"NA"`. Module `Targeted`.
- **NLP** (`flow3_nlp.py`). Only the string handling around the language-model
  call is modelled: the prompt, the newline-joined document text, removing
  Markdown code fences from the reply, and wrapping a parsed JSON object into a
  one-element list. Module `Nlp`.
- **Hybrid** (`flow4_hybrid.py`). The targeted table and the NLP table are put
  side by side. A missing or empty table gives way to the other. On a
  column-name collision the left table's column is kept. Module `Hybrid`.

Supporting modules:

- `Wrappers` holds `Option`, which stands for Python's `None`-or-value.
- `Text` models `str.strip`, `str.split("\n")`, `"\n".join`, ASCII
  lower-casing and substring search.
- `Seqs` models first-occurrence deduplication. It serves both for the key
  order of a Python dict and for pandas' `columns.duplicated()`.

The regular expressions are written out as character predicates:

- Price: `(\d+[\.,]\d{2})$`.
- Quantity: `(?:(\d+x|Qty[:\-]?\s*\d+|\d+)\s+)?(.+)`.
- Number: `[\d\.,]+`.
- Fences: `^```(?:json)?|```$` with MULTILINE.

Lemmas tie these predicates back to the regex engine's leftmost match. For
example, `PriceMatchIsLeftmost` shows that the price match starts at the
leftmost position where a price token ends the line. `QtyTokenUnique` and
`QtyTokenIsQuantity` show that the quantity group matches exactly the one
prefix that has a quantity form and is followed by whitespace.

Two operations are imperative in the source and are methods with loops here:

- `parse_lines` appends rows in a `for` loop. It is `Autonomous.ParseLines`.
- `match_fields` fills a dict in nested loops with an early `break`. It is
  `Targeted.MatchFields`, and its inner loop is `Targeted.ScanLines`.

Each method is proved against a specification function: `LineRow` and
`FieldValue`. The properties are proved about those functions.

A line that is only a price, such as `"12.50"`, is not parsed. The text
before the price is empty and `(.+)` needs at least one character, so
`parse_item_line` returns `None` and the line becomes an info row. This is
`Autonomous.PriceOnlyLineIsInfo`.

## Model

| member | source | states |
|---|---|---|
| Autonomous.HasPrice | flow1_autonomous.py:22 | the price pattern finds a match; `PriceMatchIsLeftmost` proves this holds exactly when some substring ending where `$` holds is a price token |
| Autonomous.PriceStart | flow1_autonomous.py:22-25 | where the match starts, at least four characters before the `$` position; `PriceMatchIsLeftmost` proves no price token ending at `$` starts further left |
| Autonomous.CommaToDot | flow1_autonomous.py:24 | the result has the same length, no comma is left, every comma became a dot and every other character is unchanged |
| Autonomous.QtyTokenEnd | flow1_autonomous.py:27 | the end of the leading quantity token of the stripped text, or 0 when the optional group does not match; a token is always followed by whitespace; `QtyTokenUnique` and `QtyTokenIsQuantity` tie it to the three alternatives |
| Autonomous.ParseItemLine | flow1_autonomous.py:18-32 | the result is `None` exactly when the line does not end in a price token, or only whitespace comes before the price |
| Autonomous.ItemOfText | flow1_autonomous.py:27-31 | the quantity pattern fails on the stripped text before the price exactly when that text is empty; otherwise the row carries the given price |
| Autonomous.PriceMatchIsLeftmost | flow1_autonomous.py:22 | a price match exists exactly when some substring that ends where `$` holds is `\d+[.,]\d\d`; the match found starts at the leftmost such substring |
| Autonomous.ParsedPrice | flow1_autonomous.py:22-24 | a returned price is the matched token with `,` replaced by `.`; it is still a price token and its separator is `.` |
| Autonomous.ParsedItemText | flow1_autonomous.py:25-30 | a returned item is non-empty, has no whitespace at either edge and holds no line break |
| Autonomous.ParsedQuantity | flow1_autonomous.py:27-29 | a returned quantity is `""` or has one of the three quantity forms |
| Autonomous.QtyTokenUnique | flow1_autonomous.py:27 | any prefix of the trimmed text that has a quantity form and is followed by whitespace is the one the optional group matches |
| Autonomous.QtyTokenIsQuantity | flow1_autonomous.py:27 | when the optional group matches, what it matches has a quantity form |
| Autonomous.TextBeforePriceSplits | flow1_autonomous.py:25-30 | for a line without line breaks, the text before the price is the item alone, or the quantity, non-empty whitespace and then the item |
| Autonomous.PriceOnlyLineIsInfo | flow1_autonomous.py:25-32 | whitespace followed only by a price token gives `None` and the info row `["", "", "", line]` |
| Autonomous.LineRow | flow1_autonomous.py:37-41 | the row for one line: the parsed triple with an empty Info when `parse_item_line` succeeds, otherwise `["", "", "", line]`; `RowShapes` proves that the two shapes cannot be confused |
| Autonomous.ParseOfLaidOutLine | flow1_autonomous.py:22-31 | a line laid out as whitespace, quantity, whitespace, item, whitespace and price token parses back to that quantity, that item and the normalised price |
| Autonomous.ParseOfUncountedLine | flow1_autonomous.py:22-31 | when no leading part of the item is a quantity followed by whitespace, the quantity is `""` and the item is the whole text before the price |
| Autonomous.CountedItem | flow1_autonomous.py:27-31 | a quantity, whitespace and an item give back that quantity and that item |
| Autonomous.UncountedItem | flow1_autonomous.py:27-31 | an item with no leading quantity followed by whitespace gives quantity `""` and the whole item |
| Autonomous.ExampleCountedQuantity | flow1_autonomous.py:22-31 | `"2x Widget 10.50"` gives `["2x", "Widget", "10.50"]` |
| Autonomous.ExampleLabelledQuantity | flow1_autonomous.py:22-31 | `"Qty: 3 Blue Pen 4,25"` gives `["Qty: 3", "Blue Pen", "4.25"]` |
| Autonomous.ExampleEmbeddedPrice | flow1_autonomous.py:22-25 | `"A1,234.56"` gives price `"234.56"` and item `"A1,"` |
| Autonomous.ExampleNumberAsItem | flow1_autonomous.py:27-31 | `"3 12.50"` gives quantity `""` and item `"3"` |
| Autonomous.ExampleInfoLine | flow1_autonomous.py:32-41 | `"Thank you for your business"` becomes an info row holding the line |
| Autonomous.RowShapes | flow1_autonomous.py:36-41 | a row is a parsed row (Price and Item non-empty, Info empty) or exactly `["", "", "", line]`; Price is non-empty exactly when the line parsed |
| Autonomous.ParseLines | flow1_autonomous.py:34-42 | one row per input line, in input order; row `i` is the row of line `i` |
| Autonomous.RowFor | flow1_autonomous.py:37-41 | the row appended for one line is that line's parsed row with an empty Info, or `["", "", "", line]` |
| Autonomous.CleanLines | flow1_autonomous.py:16 | the kept lines are at most as many as the parts, each is non-empty and stripped, and every part that is not blank is kept in stripped form |
| Autonomous.CleanLinesCons | flow1_autonomous.py:16 | proof helper used by `OcrLinesConcat` and `OcrLinesOfLine`: one step of the comprehension, read off the definition (the first part, stripped, when it is not blank, then the rest in order) |
| Autonomous.OcrLines | flow1_autonomous.py:16 | every OCR line is non-empty, stripped and has no `\n` |
| Autonomous.OcrLinesOfLine | flow1_autonomous.py:16 | a text without a line break gives its stripped self as the only line, or no line when it is blank; with `OcrLinesConcat` this fixes the lines of every text |
| Autonomous.OcrLinesOfJoin | flow1_autonomous.py:16 | splitting the newline-join of clean lines gives back the same lines in the same order |
| Autonomous.OcrLinesConcat | flow1_autonomous.py:16 | cutting the text at a line break cuts the line list there, so the lines keep the text's order |
| Text.Strip | flow1_autonomous.py:16 | the result has no whitespace at either edge; it is empty exactly when the input is all whitespace |
| Text.StripShape | flow1_autonomous.py:16 | the result is a substring of the input with only whitespace cut from either side |
| Text.StripOfPadded | flow1_autonomous.py:25 | whitespace added around a text does not change its strip |
| Text.Split | flow1_autonomous.py:16 | `text.split("\n")`: the result is never empty and no part holds the separator |
| Text.Join | flow3_nlp.py:37 | `"\n".join(parts)`, defined by recursion with no contract of its own; its meaning is given by `JoinOfSplit` and `SplitOfJoin`, which make it the inverse of `Split` |
| Text.Lower | flow2_targeted.py:20 | the ASCII case folding `re.IGNORECASE` applies: same length, each upper-case letter becomes its lower-case counterpart, and every other character is unchanged |
| Text.FirstLine | flow1_autonomous.py:27 | what `.` in `(.+)` can match: the longest prefix without a line break, ending at the end of the text or just before a '\n'; this is why `ParseItemLine` needs no precondition on line breaks |
| Text.JoinOfSplit | flow1_autonomous.py:16 | joining the parts of `split("\n")` with `"\n"` rebuilds the text |
| Text.SplitOfJoin | flow3_nlp.py:37 | splitting the join of newline-free parts gives back the parts |
| Text.SplitConcat | flow1_autonomous.py:16 | splitting at one separator splits the two sides on their own |
| Targeted.NumberToken | flow2_targeted.py:22 | there is no match exactly when the line has no character of `[0-9.,]`; a match is non-empty and made of those characters |
| Targeted.NumberTokenIsFirstRun | flow2_targeted.py:22 | the match is the run that starts at the first `[0-9.,]` character and goes as far as the class allows |
| Targeted.LineValue | flow2_targeted.py:22-23 | a line without number characters gives itself stripped; otherwise the value is a non-empty run of number characters |
| Targeted.LineValueCases | flow2_targeted.py:22-23 | a line with no number character gives its stripped self; otherwise the value is a run of number characters in the line |
| Targeted.TrailingNumber | flow2_targeted.py:22-23 | a line whose only number characters form a run at its end gives that run |
| Targeted.Mentions | flow2_targeted.py:20 | the escaped field occurs in the line, ignoring case; an empty field is mentioned by every line, and a field longer than the line by none |
| Targeted.FirstMention | flow2_targeted.py:19-20 | the index of the first line that mentions the field, ignoring case, or the number of lines when none does |
| Targeted.FieldValue | flow2_targeted.py:18-24 | the value is `"NA"` or the value of some line that mentions the field |
| Targeted.UnmentionedIsNA | flow2_targeted.py:18-20 | a field that no line mentions has the value `"NA"` |
| Targeted.FirstMentionDecides | flow2_targeted.py:19-24 | the first mentioning line gives the value |
| Targeted.LaterLinesIgnored | flow2_targeted.py:19-24 | lines after a mentioning line do not change the value |
| Targeted.EarlierSilentLines | flow2_targeted.py:19-24 | lines before any mention do not change the value |
| Targeted.FieldValueIgnoresCase | flow2_targeted.py:20 | a field and its lower-cased spelling get the same value |
| Targeted.MentionsIgnoresLineCase | flow2_targeted.py:20 | a line and its lower-cased spelling mention exactly the same fields |
| Targeted.MentionsSameValue | flow2_targeted.py:17-25 | a field's value depends only on which lines mention it, not on the other requested fields |
| Targeted.Put | flow2_targeted.py:25 | `result[field] = found` keeps the dict well formed; a new key is appended and an existing key keeps its position |
| Targeted.PutAnswersSnoc | flow2_targeted.py:17-25 | recording the value of one more field turns the dict for the fields handled so far into the dict for those fields and that one |
| Targeted.ScanLines | flow2_targeted.py:18-24 | the inner loop's `found` is the field's value |
| Targeted.MatchFields | flow2_targeted.py:10-26 | the keys are the requested fields without repeats, in first-occurrence order; they are exactly the requested fields, and each maps to its own value |
| Targeted.ExampleFoundField | flow2_targeted.py:19-23 | the line `"Invoice Number: 00123"` gives `"00123"` for the field "Invoice Number" |
| Targeted.ExampleMissingField | flow2_targeted.py:18-25 | the same line gives `"NA"` for the field "Total" |
| Nlp.GeneratePrompt | flow3_nlp.py:21-22 | the prompt is the user's prompt, then the fixed heading text, then the document text, each in its own place |
| Nlp.PromptLines | flow3_nlp.py:21-22 | read line by line, the prompt is the user's prompt lines, an empty line, the heading, then exactly the OCR lines |
| Nlp.DocumentText | flow3_nlp.py:37 | the newline-join of the OCR lines; when there is at least one line and none holds a line break, the text splits back into exactly those lines |
| Nlp.StripFences | flow3_nlp.py:44 | the substitution never makes the text longer; what it removes and keeps is stated by `CopiesUnfired`, `UnfencedReply` and `FencedReply` |
| Nlp.CleanResponse | flow3_nlp.py:44 | the cleaned reply has no whitespace at either edge |
| Nlp.CopiesUnfired | flow3_nlp.py:44 | a stretch where the pattern matches nowhere is copied unchanged |
| Nlp.UnfencedReply | flow3_nlp.py:44 | a reply without "```" is only trimmed |
| Nlp.FencedReply | flow3_nlp.py:44 | a reply that is one block opened by "```" or "```json" and closed by "```" cleans to the trimmed body, when no fence sits at a line start or line end of the body |
| Nlp.ExampleJsonBlock | flow3_nlp.py:44 | a JSON object fenced as `json` cleans to the object text |
| Nlp.AsRecordList | flow3_nlp.py:47-48 | an object becomes a one-element list and anything else is unchanged; the result is never an object |
| Nlp.ProcessReply | flow3_nlp.py:44-48 | the reply yields a value exactly when the cleaned reply parses; that value is never an object, and a list is passed through unchanged |
| Hybrid.Merge | flow4_hybrid.py:9-14 | a missing or empty left table gives the right one; otherwise a missing or empty right table gives the left one; otherwise the result is well formed, as tall as the taller input, and its names are the names of both inputs without repeats, in first-occurrence order |
| Hybrid.Absent | flow4_hybrid.py:10-13 | `df is None or df.empty`: no table, or a table with no columns or no rows; defined directly, and `Merge` returns the other input exactly when it holds |
| Hybrid.PadColumn | flow4_hybrid.py:14 | the row alignment of `pd.concat(axis=1)`: the column keeps its name and cells and is lengthened to the given height with missing cells |
| Hybrid.PadColumns | flow4_hybrid.py:14 | every column padded in place, with the names kept in order |
| Hybrid.KeepFirst | flow4_hybrid.py:14 | the kept column names are the input names with every later repeat dropped |
| Hybrid.KeepFirstSelects | flow4_hybrid.py:14 | every kept column is one of the input columns |
| Hybrid.KeepFirstLookup | flow4_hybrid.py:14 | dropping repeats keeps each name's first column |
| Hybrid.MergeNames | flow4_hybrid.py:14 | the merged names are distinct and are exactly the names of either input; when the left names are distinct they come first, in their order |
| Hybrid.MergeLookup | flow4_hybrid.py:14 | for a name in both inputs the merged column is the left one; any other name brings its own column; the cells are padded to the merged height |
| Hybrid.ExampleMerge | flow4_hybrid.py:9-14 | `{Date: 2024-01-01}` merged with `{Date: 01/01/2024, Penalty: 50.00}` gives `{Date: 2024-01-01, Penalty: 50.00}` |
| Seqs.Dedup | flow2_targeted.py:25 | the result has no repeats, and it holds exactly the elements of the input |
| Seqs.DedupOrder | flow2_targeted.py:25 | the kept elements come in the order of their first occurrences |
| Seqs.DedupOfDistinct | flow4_hybrid.py:14 | a sequence without repeats is left unchanged |

## Left out

- OCR and rasterisation are left out: Tesseract, `pdfplumber`, OpenCV and PIL decoding, and `utils.ocr_utils`. Each is an external library working on images. The OCR text and OCR lines are inputs of the model.
- The loop over PDF pages in `process_autonomous` and the page loops in the other strategies are left out. They only concatenate per-page results.
- The Gemini call, `load_dotenv`, the `GOOGLE_API_KEY` check and the module-level exit are left out. They are network access and process environment. The model's reply is a parameter of `ProcessReply`.
- `json.loads` is left out; it is a library parser. It is the `parse` function parameter of `ProcessReply`, and its result is the `Json` datatype.
- All pandas construction, CSV reading and CSV writing are left out, including building the DataFrame from the NLP records and from the targeted dict. They are library code and file I/O.
- The `__main__` command-line blocks, argument parsing, extension checks and `main.py` are left out. They are plumbing.
- `run_flow4` is left out. It calls `process_hybrid`, which no module defines, and it reads `nlp_output.csv` even when the NLP step wrote nothing. So the hybrid sequence cannot run as written, and no failure-isolation guarantee is modelled.
- Unicode semantics are left out. `\d` is ASCII digits. `\s` and `str.strip()` are the ASCII characters `str.isspace` accepts. `re.IGNORECASE` is ASCII lower-casing.
- Hybrid.Merge: a table's row index is taken to be the default `0 .. n-1`, which both inputs have. Rows are aligned by position, and the shorter table is padded with missing cells. Index labels other than the default are not modelled.
- Hybrid.Merge: cell values are strings or missing. pandas' dtype changes when missing cells appear, such as integers becoming floats, are not modelled.
- Nlp.FencedReply: covers a reply that is a single fenced block. Replies with several blocks or with text outside the fences are covered only by the general scan `StripFences` and `CopiesUnfired`.
