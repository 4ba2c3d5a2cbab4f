/**
 * The record merger of the hybrid strategy (flow4_hybrid.py): two tables are
 * put side by side and every later column whose name was already seen is
 * dropped, so the left table wins on a name collision. A missing or empty
 * table gives way to the other one.
 */
module Hybrid {
  import opened Wrappers
  import opened Seqs

  /** One cell of a table; `None` is pandas' missing value (NaN). */
  type Cell = Option<string>

  datatype Column = Column(name: string, cells: seq<Cell>)

  /** A table with the default row index `0 .. height - 1`, as a sequence of columns. */
  datatype Frame = Frame(height: nat, columns: seq<Column>)

  /** Every column has one cell per row. */
  predicate WellFormed(f: Frame) {
    forall i :: 0 <= i < |f.columns| ==> |f.columns[i].cells| == f.height
  }

  /** `df.empty`: no columns or no rows. */
  predicate IsEmpty(f: Frame) {
    |f.columns| == 0 || f.height == 0
  }

  /** `df is None or df.empty`. */
  predicate Absent(f: Option<Frame>) {
    f.None? || IsEmpty(f.value)
  }

  function Names(cols: seq<Column>): (r: seq<string>)
    ensures |r| == |cols|
    ensures forall i :: 0 <= i < |cols| ==> r[i] == cols[i].name
  {
    seq(|cols|, i requires 0 <= i < |cols| => cols[i].name)
  }

  function Max(a: nat, b: nat): nat { if a < b then b else a }

  /** A column lengthened to `h` rows with missing cells, as row alignment on the default index does. */
  function PadColumn(c: Column, h: nat): (r: Column)
    requires |c.cells| <= h
    ensures r.name == c.name && |r.cells| == h
    ensures forall i :: 0 <= i < |c.cells| ==> r.cells[i] == c.cells[i]
    ensures forall i :: |c.cells| <= i < h ==> r.cells[i] == None
  {
    Column(c.name, c.cells + seq(h - |c.cells|, _ => None))
  }

  function PadColumns(cols: seq<Column>, h: nat): (r: seq<Column>)
    requires forall i :: 0 <= i < |cols| ==> |cols[i].cells| <= h
    ensures |r| == |cols| && Names(r) == Names(cols)
    ensures forall i :: 0 <= i < |cols| ==> r[i] == PadColumn(cols[i], h)
  {
    seq(|cols|, i requires 0 <= i < |cols| => PadColumn(cols[i], h))
  }

  /**
   * The columns with every later column of an already seen name removed,
   * the selection `.loc[:, ~columns.duplicated()]` makes.
   */
  function KeepFirst(cols: seq<Column>): (r: seq<Column>)
    ensures Names(r) == Dedup(Names(cols))
    decreases |cols|
  {
    if cols == [] then []
    else
      var init := cols[..|cols| - 1];
      var last := cols[|cols| - 1];
      var k := KeepFirst(init);
      assert cols == init + [last];
      NamesSnoc(init, last);
      NamesSnoc(k, last);
      DedupSnoc(Names(init), last.name);
      if last.name in Names(init) then k else k + [last]
  }

  /** Every kept column is one of the given ones. */
  lemma {:induction false} KeepFirstSelects(cols: seq<Column>)
    ensures forall c :: c in KeepFirst(cols) ==> c in cols
    decreases |cols|
  {
    if cols != [] {
      var init := cols[..|cols| - 1];
      KeepFirstSelects(init);
      assert cols == init + [cols[|cols| - 1]];
    }
  }

  lemma NamesSnoc(cols: seq<Column>, c: Column)
    ensures Names(cols + [c]) == Names(cols) + [c.name]
  {
  }

  /**
   * `merge_dataframes`. The columns of both tables are aligned on the row
   * index (so the result has as many rows as the longer table) and the first
   * column of every name is kept.
   */
  function Merge(df1: Option<Frame>, df2: Option<Frame>): (r: Option<Frame>)
    requires df1.Some? ==> WellFormed(df1.value)
    requires df2.Some? ==> WellFormed(df2.value)
    ensures Absent(df1) ==> r == df2
    ensures !Absent(df1) && Absent(df2) ==> r == df1
    ensures r.Some? ==> WellFormed(r.value)
    ensures !Absent(df1) && !Absent(df2) ==>
      r.Some? && r.value.height == Max(df1.value.height, df2.value.height) &&
      Names(r.value.columns) == Dedup(Names(df1.value.columns) + Names(df2.value.columns))
  {
    if Absent(df1) then df2
    else if Absent(df2) then df1
    else
      var a, b := df1.value, df2.value;
      var h := Max(a.height, b.height);
      var both := PadColumns(a.columns, h) + PadColumns(b.columns, h);
      MergedColumns(a, b, h);
      Some(Frame(h, KeepFirst(both)))
  }

  /** The padded, deduplicated columns all have `h` cells and the expected names. */
  lemma MergedColumns(a: Frame, b: Frame, h: nat)
    requires WellFormed(a) && WellFormed(b) && h == Max(a.height, b.height)
    ensures var k := KeepFirst(PadColumns(a.columns, h) + PadColumns(b.columns, h));
      WellFormed(Frame(h, k)) && Names(k) == Dedup(Names(a.columns) + Names(b.columns))
  {
    var pa, pb := PadColumns(a.columns, h), PadColumns(b.columns, h);
    NamesConcat(pa, pb);
    assert forall i :: 0 <= i < |pa + pb| ==> |(pa + pb)[i].cells| == h;
    KeptHeight(pa + pb, h);
  }

  /** Keeping some of the columns keeps a well-formed table well-formed. */
  lemma KeptHeight(cols: seq<Column>, h: nat)
    requires WellFormed(Frame(h, cols))
    ensures WellFormed(Frame(h, KeepFirst(cols)))
  {
    KeepFirstSelects(cols);
    assert forall c: Column :: c in cols ==> |c.cells| == h;
  }

  lemma NamesConcat(x: seq<Column>, y: seq<Column>)
    ensures Names(x + y) == Names(x) + Names(y)
  {
  }

  // ------------------------------------------------------------ lookups

  /** The first column called `n`: what `df[n]` gives on the merged table. */
  function ColumnNamed(cols: seq<Column>, n: string): (c: Column)
    requires n in Names(cols)
    ensures c in cols && c.name == n
  {
    cols[FirstIndex(Names(cols), n)]
  }

  /** Dropping later duplicates keeps each name's first column. */
  lemma {:induction false} KeepFirstLookup(cols: seq<Column>, n: string)
    requires n in Names(cols)
    ensures n in Names(KeepFirst(cols)) && ColumnNamed(KeepFirst(cols), n) == ColumnNamed(cols, n)
    decreases |cols|
  {
    var init := cols[..|cols| - 1];
    var last := cols[|cols| - 1];
    assert cols == init + [last];
    assert Names(cols) == Names(init) + [last.name];
    var k := KeepFirst(init);
    NamesConcat(k, [last]);
    if n in Names(init) {
      KeepFirstLookup(init, n);
      FirstIndexOfPrefix(Names(init), [last.name], n);
      FirstIndexOfPrefix(Names(k), [last.name], n);
      assert (k + [last])[FirstIndex(Names(k), n)] == k[FirstIndex(Names(k), n)];
    } else {
      assert n == last.name;
      assert n !in Names(k);
      FirstIndexAfter(Names(init), [last.name], n);
      FirstIndexAfter(Names(k), [last.name], n);
    }
  }

  lemma {:induction false} LookupConcat(x: seq<Column>, y: seq<Column>, n: string)
    requires n in Names(x) || n in Names(y)
    ensures n in Names(x + y)
    ensures ColumnNamed(x + y, n) == if n in Names(x) then ColumnNamed(x, n) else ColumnNamed(y, n)
  {
    NamesConcat(x, y);
    if n in Names(x) {
      FirstIndexOfPrefix(Names(x), Names(y), n);
    } else {
      FirstIndexAfter(Names(x), Names(y), n);
    }
  }

  lemma {:induction false} FirstIndexAfter(s: seq<string>, t: seq<string>, n: string)
    requires n !in s && n in t
    ensures n in s + t && FirstIndex(s + t, n) == |s| + FirstIndex(t, n)
    decreases |s|
  {
    if s != [] {
      assert (s + t)[1..] == s[1..] + t;
      FirstIndexAfter(s[1..], t, n);
    } else {
      assert s + t == t;
    }
  }

  lemma LookupPadded(cols: seq<Column>, h: nat, n: string)
    requires forall i :: 0 <= i < |cols| ==> |cols[i].cells| <= h
    requires n in Names(cols)
    ensures n in Names(PadColumns(cols, h))
    ensures ColumnNamed(PadColumns(cols, h), n) == PadColumn(ColumnNamed(cols, n), h)
  {
  }

  /**
   * On a name collision the left table's column is the one kept; every other
   * name brings its own column. Either way the cells are padded to the
   * merged height.
   */
  lemma MergeLookup(a: Frame, b: Frame, n: string)
    requires WellFormed(a) && WellFormed(b) && !IsEmpty(a) && !IsEmpty(b)
    requires n in Names(a.columns) || n in Names(b.columns)
    ensures var r := Merge(Some(a), Some(b)).value;
      n in Names(r.columns) &&
      ColumnNamed(r.columns, n) ==
        if n in Names(a.columns) then PadColumn(ColumnNamed(a.columns, n), r.height)
        else PadColumn(ColumnNamed(b.columns, n), r.height)
  {
    PaddedLookup(a.columns, b.columns, Max(a.height, b.height), n);
  }

  /** `MergeLookup` on the columns alone, padded to `h` rows. */
  lemma PaddedLookup(x: seq<Column>, y: seq<Column>, h: nat, n: string)
    requires forall i :: 0 <= i < |x| ==> |x[i].cells| <= h
    requires forall i :: 0 <= i < |y| ==> |y[i].cells| <= h
    requires n in Names(x) || n in Names(y)
    ensures var k := KeepFirst(PadColumns(x, h) + PadColumns(y, h));
      n in Names(k) &&
      ColumnNamed(k, n) == if n in Names(x) then PadColumn(ColumnNamed(x, n), h) else PadColumn(ColumnNamed(y, n), h)
  {
    var px, py := PadColumns(x, h), PadColumns(y, h);
    LookupConcat(px, py, n);
    KeepFirstLookup(px + py, n);
    if n in Names(x) {
      LookupPadded(x, h, n);
    } else {
      LookupPadded(y, h, n);
    }
  }

  /**
   * The merged names are each name of either table once: the left table's
   * names come first, in their order.
   */
  lemma MergeNames(a: Frame, b: Frame)
    requires WellFormed(a) && WellFormed(b) && !IsEmpty(a) && !IsEmpty(b)
    ensures var names := Names(Merge(Some(a), Some(b)).value.columns);
      && Distinct(names)
      && (forall n :: n in names <==> n in Names(a.columns) || n in Names(b.columns))
      && (Distinct(Names(a.columns)) ==> |names| >= |a.columns| && names[..|a.columns|] == Names(a.columns))
  {
    var s := Names(a.columns) + Names(b.columns);
    assert Names(Merge(Some(a), Some(b)).value.columns) == Dedup(s);
    forall n ensures n in Dedup(s) <==> n in Names(a.columns) || n in Names(b.columns) {
      DedupMembers(s, n);
    }
    if Distinct(Names(a.columns)) {
      DedupKeepsDistinctPrefix(Names(a.columns), Names(b.columns));
    }
  }

  /** Deduplicating after a duplicate-free prefix leaves that prefix in place. */
  lemma {:induction false} DedupKeepsDistinctPrefix(x: seq<string>, y: seq<string>)
    requires Distinct(x)
    ensures |Dedup(x + y)| >= |x| && Dedup(x + y)[..|x|] == x
    decreases |y|
  {
    if y == [] {
      assert x + y == x;
      DedupOfDistinct(x);
    } else {
      var init := y[..|y| - 1];
      var last := y[|y| - 1];
      assert y == init + [last];
      ConcatAssoc(x, init, [last]);
      DedupKeepsDistinctPrefix(x, init);
      DedupSnoc(x + init, last);
      PrefixKept(Dedup(x + init), x, last);
    }
  }

  // ------------------------------------------------------------ example

  /**
   * A targeted row `{Date: 2024-01-01}` merged with a model row
   * `{Date: 01/01/2024, Penalty: 50.00}` keeps the targeted date and adds
   * the penalty.
   */
  lemma ExampleMerge()
    ensures Merge(Some(Frame(1, [Column("Date", [Some("2024-01-01")])])),
                  Some(Frame(1, [Column("Date", [Some("01/01/2024")]),
                                 Column("Penalty", [Some("50.00")])]))) ==
            Some(Frame(1, [Column("Date", [Some("2024-01-01")]), Column("Penalty", [Some("50.00")])]))
  {
    var d1 := Column("Date", [Some("2024-01-01")]);
    var d2 := Column("Date", [Some("01/01/2024")]);
    var p := Column("Penalty", [Some("50.00")]);
    ExamplePadding(d1, d2, p);
    assert [d1] + [d2, p] == [d1, d2, p];
    ExampleKeepFirst(d1, d2, p);
  }

  lemma ExamplePadding(d1: Column, d2: Column, p: Column)
    requires |d1.cells| == 1 && |d2.cells| == 1 && |p.cells| == 1
    ensures PadColumns([d1], 1) == [d1] && PadColumns([d2, p], 1) == [d2, p]
  {
    assert d1.cells + [] == d1.cells && d2.cells + [] == d2.cells && p.cells + [] == p.cells;
    assert PadColumn(d1, 1) == d1 && PadColumn(d2, 1) == d2 && PadColumn(p, 1) == p;
  }

  /** A later column of a seen name is dropped; a new name is kept. */
  lemma ExampleKeepFirst(d1: Column, d2: Column, p: Column)
    requires d1.name == d2.name != p.name
    ensures KeepFirst([d1, d2, p]) == [d1, p]
  {
    assert [d1, d2, p][..2] == [d1, d2] && [d1, d2][..1] == [d1] && [d1][..0] == [];
    assert KeepFirst([d1]) == [d1];
    assert Names([d1]) == [d1.name];
    assert KeepFirst([d1, d2]) == [d1];
    assert Names([d1, d2]) == [d1.name, d2.name];
  }
}
