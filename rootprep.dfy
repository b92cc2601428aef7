/** The earlier, top-level prep_ref_files.py: `explode_columns` as a loop
    over the listed columns, `SAE_SCE_prep` with half-open block ends and no
    sort, and `CCDS_prep` with only the `Public` filter, whose location
    bounds stay text. */
module RootPrep {
  import opened Wrappers
  import opened Strings
  import opened Merge
  import opened RefPrep

  // ---------------------------------------------------------------------
  // explode_columns
  // ---------------------------------------------------------------------

  /** A row whose listed columns have been turned into lists. */
  datatype Listed<R> = Listed(rest: R, lists: seq<seq<string>>)

  /** `df.explode(columns)` of a table whose listed columns hold lists. */
  function ExplodeListed<R>(rows: seq<Listed<R>>): Result<seq<Narrow<R>>, ExplodeError>
    decreases |rows|
  {
    if |rows| == 0 then Success([])
    else
      var front, last := ExplodeListed(rows[..|rows| - 1]), ExplodeLists(rows[|rows| - 1].rest, rows[|rows| - 1].lists);
      if front.Failure? then front
      else if last.Failure? then Failure(last.error)
      else Success(front.value + last.value)
  }

  /** Exploding the split lists is exploding the cells. */
  lemma {:induction false} ExplodeListedAgrees<R>(table: seq<Wide<R>>, rows: seq<Listed<R>>)
    requires |rows| == |table|
    requires forall k :: 0 <= k < |table| ==> rows[k] == Listed(table[k].rest, SplitCells(table[k].cells))
    ensures ExplodeListed(rows) == ExplodeRows(table)
    decreases |table|
  {
    if |table| > 0 {
      var n := |table| - 1;
      ExplodeListedAgrees(table[..n], rows[..n]);
      assert ExplodeLists(rows[n].rest, rows[n].lists) == ExplodeRow(table[n]);
    }
  }

  /** Splitting one more cell of a row extends its lists by that cell's list. */
  lemma {:induction false} SplitCellsSnoc(cells: seq<string>, c: nat)
    requires c < |cells|
    ensures SplitCells(cells[..c + 1]) == SplitCells(cells[..c]) + [Split(cells[c], ',')]
  {
    var a, b := SplitCells(cells[..c + 1]), SplitCells(cells[..c]) + [Split(cells[c], ',')];
    assert |a| == |b|;
    forall i | 0 <= i < |a| ensures a[i] == b[i] {
      if i < c {
        assert cells[..c + 1][i] == cells[..c][i];
      }
    }
  }

  /** `explode_columns(df, columns)`: each listed column in turn becomes its
      `split(',')` lists, then one explosion pairs the lists element by
      element.  The same result as the column-wise definition. */
  method ExplodeColumns<R>(table: seq<Wide<R>>, width: nat) returns (r: Result<seq<Narrow<R>>, ExplodeError>)
    requires forall k :: 0 <= k < |table| ==> |table[k].cells| == width
    ensures r == Explode(width, table)
  {
    var rows := seq(|table|, k requires 0 <= k < |table| => Listed(table[k].rest, []));
    for c := 0 to width
      invariant |rows| == |table|
      invariant forall k :: 0 <= k < |table| ==> rows[k] == Listed(table[k].rest, SplitCells(table[k].cells[..c]))
    {
      forall k | 0 <= k < |table| {
        SplitCellsSnoc(table[k].cells, c);
      }
      rows := seq(|table|, k requires 0 <= k < |table| =>
        Listed(rows[k].rest, rows[k].lists + [Split(table[k].cells[c], ',')]));
    }
    if width == 0 {
      return Failure(NoColumns);
    }
    forall k | 0 <= k < |table| ensures rows[k] == Listed(table[k].rest, SplitCells(table[k].cells)) {
      assert table[k].cells[..width] == table[k].cells;
    }
    ExplodeListedAgrees(table, rows);
    r := ExplodeListed(rows);
  }

  // ---------------------------------------------------------------------
  // SAE_SCE_prep: half-open block ends, table order kept.
  // ---------------------------------------------------------------------

  /** `SAE_SCE_prep` of this version: the exploded blocks, in table order. */
  function SaeScePrep(table: seq<BedRecord>): (r: Result<seq<Row<Block>>, PrepError>)
    ensures r.Success? ==> forall k :: 0 <= k < |r.value| ==> r.value[k].end - r.value[k].start == r.value[k].data.blockSize
  {
    var b := Blocks(table, false);
    if b.Success? then BlocksSpan(table, false); b else b
  }

  /** One exploded block: the half-open end is one past the closed end. */
  lemma {:induction false} BlockOfHalfOpen(n: Narrow<BedRecord>)
    requires |n.values| == 2
    ensures BlockOf(n, false).Success? <==> BlockOf(n, true).Success?
    ensures BlockOf(n, false).Success? ==>
      BlockOf(n, false).value == BlockOf(n, true).value.(end := BlockOf(n, true).value.end + 1)
  {
  }

  /** Block rows of an exploded table: half-open ends are one past the
      closed ones. */
  lemma {:induction false} BlockRowsHalfOpen(rows: seq<Narrow<BedRecord>>)
    requires forall k :: 0 <= k < |rows| ==> |rows[k].values| == 2
    ensures BlockRows(rows, false).Success? <==> BlockRows(rows, true).Success?
    ensures BlockRows(rows, false).Success? ==>
      var open, closed := BlockRows(rows, false).value, BlockRows(rows, true).value;
      |open| == |closed|
      && forall k :: 0 <= k < |open| ==>
        open[k] == closed[k].(end := closed[k].end + 1) && open[k].end - open[k].start == open[k].data.blockSize
  {
    forall k | 0 <= k < |rows| {
      BlockOfHalfOpen(rows[k]);
    }
    if BlockRows(rows, false).Success? {
      var open, closed := BlockRows(rows, false).value, BlockRows(rows, true).value;
      forall k | 0 <= k < |open|
        ensures open[k] == closed[k].(end := closed[k].end + 1) && open[k].end - open[k].start == open[k].data.blockSize
      {
        assert open[k] == BlockOf(rows[k], false).value;
        assert closed[k] == BlockOf(rows[k], true).value;
      }
    }
  }

  /** The block rows of both versions coincide except that here the end is
      one past the closed end the later version writes. */
  lemma {:induction false} HalfOpenBlocks(table: seq<BedRecord>)
    ensures SaeScePrep(table).Success? <==> Blocks(table, true).Success?
    ensures SaeScePrep(table).Success? ==>
      var open, closed := SaeScePrep(table).value, Blocks(table, true).value;
      |open| == |closed|
      && forall k :: 0 <= k < |open| ==>
        open[k] == closed[k].(end := closed[k].end + 1) && open[k].end - open[k].start == open[k].data.blockSize
  {
    var ex := Explode(2, BlockColumns(table));
    if ex.Success? {
      assert forall k :: 0 <= k < |ex.value| ==> |ex.value[k].values| == 2;
      BlockRowsHalfOpen(ex.value);
    }
  }

  // ---------------------------------------------------------------------
  // CCDS_prep: Public filter only, text bounds.
  // ---------------------------------------------------------------------

  predicate Public(r: CcdsRecord)
  {
    r.ccdsStatus == "Public"
  }

  /** `df[df['ccds_status'] == 'Public']`, in table order. */
  function KeepPublic(table: seq<CcdsRecord>): (r: seq<CcdsRecord>)
    ensures forall k :: 0 <= k < |r| ==> Public(r[k])
    ensures multiset(r) <= multiset(table)
    ensures forall x :: x in table && Public(x) ==> x in r
    decreases |table|
  {
    if |table| == 0 then []
    else
      var p, x := table[..|table| - 1], table[|table| - 1];
      assert table == p + [x];
      KeepPublic(p) + (if Public(x) then [x] else [])
  }

  /** Filtering two consecutive stretches of a table filters each, in
      table order. */
  lemma {:induction false} KeepPublicAppend(a: seq<CcdsRecord>, b: seq<CcdsRecord>)
    ensures KeepPublic(a + b) == KeepPublic(a) + KeepPublic(b)
    decreases |b|
  {
    if |b| == 0 {
      assert a + b == a;
    } else {
      var p := b[..|b| - 1];
      assert a + b == (a + p) + [b[|b| - 1]];
      assert (a + b)[..|a + b| - 1] == a + p;
      KeepPublicAppend(a, p);
    }
  }

  /** A record is kept as often as it occurs if it passes the filter, and
      never otherwise. */
  lemma {:induction false} KeepPublicCount(table: seq<CcdsRecord>, x: CcdsRecord)
    ensures multiset(KeepPublic(table))[x] == if Public(x) then multiset(table)[x] else 0
    decreases |table|
  {
    if |table| > 0 {
      var p := table[..|table| - 1];
      assert table == p + [table[|table| - 1]];
      KeepPublicCount(p, x);
    }
  }

  /** A coding-region row whose bounds are the two halves of the token's
      split at its first '-'; a token without '-' has no end. */
  datatype TextRow = TextRow(chrom: string, start: string, end: Option<string>, data: CdsInfo)

  function TextRowOf(t: Token): (r: TextRow)
    ensures r.chrom == "chr" + t.rec.chromosome
    ensures '-' !in r.start
    ensures r.end.None? <==> '-' !in t.text
    ensures r.end.None? ==> r.start == t.text
    ensures r.end.Some? ==> r.start + "-" + r.end.value == t.text
  {
    var (s, e) := SplitOnce(t.text, '-');
    var rec := t.rec;
    TextRow("chr" + rec.chromosome, s, e, CdsInfo(rec.ncAccession, rec.gene, rec.geneId, rec.cdsStrand, rec.ccdsId))
  }

  /** `CCDS_prep` of this version.  Splitting with `expand=True` gives two
      columns only if some token holds a '-'; otherwise the assignment of two
      columns fails. */
  function CcdsPrep(table: seq<CcdsRecord>): (r: Result<seq<TextRow>, PrepError>)
    ensures r.Failure? <==> !HasSeparator(Tokens(KeepPublic(table)))
  {
    var ts := Tokens(KeepPublic(table));
    if !HasSeparator(ts) then Failure(NoRangeSeparator)
    else Success(seq(|ts|, k requires 0 <= k < |ts| => TextRowOf(ts[k])))
  }

  /** Every row of this version comes from a `Public` record and carries its
      chromosome. */
  lemma {:induction false} TextRowSource(table: seq<CcdsRecord>, k: int) returns (j: int)
    requires CcdsPrep(table).Success? && 0 <= k < |CcdsPrep(table).value|
    ensures 0 <= j < |table| && Public(table[j])
    ensures CcdsPrep(table).value[k].chrom == "chr" + table[j].chromosome
    ensures CcdsPrep(table).value[k].data.gene == table[j].gene
  {
    var kept := KeepPublic(table);
    var ts := Tokens(kept);
    var r := ts[k].rec;
    assert CcdsPrep(table).value[k] == TextRowOf(ts[k]);
    assert r in multiset(table);
    j :| 0 <= j < |table| && table[j] == r;
  }

  /** A `Public` record with a partial match survives here but not in the
      later version. */
  lemma {:induction false} PartialKeptHere(r: CcdsRecord)
    requires Public(r) && r.matchType == "Partial"
    ensures KeepPublic([r]) == [r]
    ensures KeepCurrent([r]) == []
  {
    assert [r][..0] == [];
  }

  /** Without partial matches both filters keep the same records. */
  lemma {:induction false} FiltersAgree(table: seq<CcdsRecord>)
    requires forall j :: 0 <= j < |table| ==> table[j].matchType != "Partial"
    ensures KeepPublic(table) == KeepCurrent(table)
    decreases |table|
  {
    if |table| > 0 {
      FiltersAgree(table[..|table| - 1]);
    }
  }

  /** `strip().astype('int')` of both text bounds, column by column. */
  function CastBounds(rows: seq<TextRow>): Result<seq<Row<CdsInfo>>, PrepError>
  {
    if forall k :: 0 <= k < |rows| ==> rows[k].end.Some? && CastInt(rows[k].start).Some? && CastInt(rows[k].end.value).Some? then
      Success(seq(|rows|, k requires 0 <= k < |rows| && rows[k].end.Some? && CastInt(rows[k].start).Some? && CastInt(rows[k].end.value).Some? =>
        Row(rows[k].chrom, CastInt(rows[k].start).value, CastInt(rows[k].end.value).value, rows[k].data)))
    else Failure(BadInteger)
  }

  /** One token: casting this version's text bounds is the later version's
      parse. */
  lemma {:induction false} CastTokenAgrees(t: Token)
    ensures CdsRow(t).Success? <==>
      (TextRowOf(t).end.Some? && CastInt(TextRowOf(t).start).Some? && CastInt(TextRowOf(t).end.value).Some?)
    ensures CdsRow(t).Success? ==>
      CdsRow(t).value == Row(TextRowOf(t).chrom, CastInt(TextRowOf(t).start).value,
                             CastInt(TextRowOf(t).end.value).value, TextRowOf(t).data)
  {
    var split := SplitOnce(t.text, '-');
    var row := TextRowOf(t);
    assert row.start == split.0 && row.end == split.1;
    if split.1.Some? {
      var a, b := CastInt(split.0), CastInt(split.1.value);
      assert ParseLocation(t.text) == if a.None? || b.None? then Failure(BadInteger) else Success((a.value, b.value));
    }
  }

  /** The rows of some tokens: cast text bounds are the parsed intervals. */
  lemma {:induction false} CastRowsAgree(ts: seq<Token>)
    ensures var text := seq(|ts|, k requires 0 <= k < |ts| => TextRowOf(ts[k]));
      CdsRows(ts) == CastBounds(text)
  {
    var text := seq(|ts|, k requires 0 <= k < |ts| => TextRowOf(ts[k]));
    forall k | 0 <= k < |ts| {
      CastTokenAgrees(ts[k]);
    }
    if CdsRows(ts).Success? {
      var a, b := CdsRows(ts).value, CastBounds(text).value;
      assert |a| == |b|;
      forall k | 0 <= k < |a| ensures a[k] == b[k] {
        assert a[k] == CdsRow(ts[k]).value;
        assert text[k] == TextRowOf(ts[k]);
      }
      assert a == b;
    } else {
      var k :| 0 <= k < |ts| && CdsRow(ts[k]).Failure?;
      assert text[k] == TextRowOf(ts[k]);
    }
  }

  /** On a table without partial matches the later version's intervals
      are this version's rows with their bounds cast to integers. */
  lemma {:induction false} CastAgrees(table: seq<CcdsRecord>)
    requires forall j :: 0 <= j < |table| ==> table[j].matchType != "Partial"
    ensures CcdsIntervals(table).Success? <==> (CcdsPrep(table).Success? && CastBounds(CcdsPrep(table).value).Success?)
    ensures CcdsIntervals(table).Success? ==> CcdsIntervals(table) == CastBounds(CcdsPrep(table).value)
  {
    FiltersAgree(table);
    CastRowsAgree(Tokens(KeepCurrent(table)));
  }
}
