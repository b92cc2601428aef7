/** The column preparation of scripts/prep_ref_files.py: `explode_columns`,
    `SAE_SCE_prep` (BED12 blocks to one closed interval per block),
    `CCDS_prep` (status filter, location parsing, deduplication, sort and
    merge) and `SAE_SCE_merge`.

    A DataFrame is a sequence of records in positional order; after
    `reset_index(drop=True)` the index label of a row is its position, which
    is what `merge_overlapping` relies on. */
module RefPrep {
  import opened Wrappers
  import opened Strings
  import opened Sorting
  import opened Merge

  // ---------------------------------------------------------------------
  // explode_columns
  // ---------------------------------------------------------------------

  /** A row before the explosion: the other columns, and the text of each
      column to be exploded, in the order the columns are listed. */
  datatype Wide<R> = Wide(rest: R, cells: seq<string>)

  /** A row after the explosion: the other columns, and one element of each
      exploded column. */
  datatype Narrow<R> = Narrow(rest: R, values: seq<string>)

  /** `df.explode([])` raises, and so does a row whose lists differ in length. */
  datatype ExplodeError = NoColumns | MismatchedCounts

  /** The lists every column of a row becomes, `str.split(',')` of each cell. */
  function SplitCells(cells: seq<string>): (lists: seq<seq<string>>)
    ensures |lists| == |cells|
    ensures forall c :: 0 <= c < |cells| ==> lists[c] == Split(cells[c], ',')
  {
    seq(|cells|, c requires 0 <= c < |cells| => Split(cells[c], ','))
  }

  /** The `i`-th element of every list. */
  function Slice(lists: seq<seq<string>>, i: nat): (vs: seq<string>)
    requires forall c :: 0 <= c < |lists| ==> i < |lists[c]|
    ensures |vs| == |lists|
    ensures forall c :: 0 <= c < |lists| ==> vs[c] == lists[c][i]
  {
    seq(|lists|, c requires 0 <= c < |lists| && i < |lists[c]| => lists[c][i])
  }

  predicate SameLength(lists: seq<seq<string>>)
  {
    forall c :: 0 <= c < |lists| ==> |lists[c]| == |lists[0]|
  }

  /** `explode` of one row whose listed columns hold `lists`: one row per
      position, pairing the elements at that position. */
  function ExplodeLists<R>(rest: R, lists: seq<seq<string>>): (r: Result<seq<Narrow<R>>, ExplodeError>)
    ensures r.Failure? <==> |lists| == 0 || !SameLength(lists)
    ensures r.Success? ==> (|r.value| == |lists[0]|
      && forall i :: 0 <= i < |r.value| ==> r.value[i].rest == rest && r.value[i].values == Slice(lists, i))
  {
    if |lists| == 0 then Failure(NoColumns)
    else if !SameLength(lists) then Failure(MismatchedCounts)
    else Success(seq(|lists[0]|, i requires 0 <= i < |lists[0]| => Narrow(rest, Slice(lists, i))))
  }

  function ExplodeRow<R>(w: Wide<R>): Result<seq<Narrow<R>>, ExplodeError>
  {
    ExplodeLists(w.rest, SplitCells(w.cells))
  }

  /** The rows' explosions, concatenated in table order; the first row that
      cannot be exploded makes the whole call fail. */
  function ExplodeRows<R>(table: seq<Wide<R>>): (r: Result<seq<Narrow<R>>, ExplodeError>)
    ensures r.Success? ==> forall k :: 0 <= k < |r.value| ==>
      exists j :: 0 <= j < |table| && r.value[k].rest == table[j].rest
                  && |r.value[k].values| == |table[j].cells|
    decreases |table|
  {
    if |table| == 0 then Success([])
    else
      var p, w := table[..|table| - 1], table[|table| - 1];
      var front, last := ExplodeRows(p), ExplodeRow(w);
      if front.Failure? then front
      else if last.Failure? then Failure(last.error)
      else
        var out := front.value + last.value;
        assert forall k :: |front.value| <= k < |out| ==> out[k] == last.value[k - |front.value|];
        assert forall j :: 0 <= j < |p| ==> table[j] == p[j];
        Success(out)
  }

  /** `explode_columns(df, columns)` on a table whose `width` listed columns
      are the cells of each row. */
  function Explode<R>(width: nat, table: seq<Wide<R>>): Result<seq<Narrow<R>>, ExplodeError>
    requires forall k :: 0 <= k < |table| ==> |table[k].cells| == width
  {
    if width == 0 then Failure(NoColumns) else ExplodeRows(table)
  }

  /** The explosion fails exactly when some row cannot be exploded. */
  lemma {:induction false} ExplodeRowsSucceed<R>(table: seq<Wide<R>>)
    ensures ExplodeRows(table).Success? <==> forall k :: 0 <= k < |table| ==> ExplodeRow(table[k]).Success?
    decreases |table|
  {
    if |table| > 0 {
      var p := table[..|table| - 1];
      ExplodeRowsSucceed(p);
      assert forall k :: 0 <= k < |p| ==> table[k] == p[k];
    }
  }

  /** A row can be exploded exactly when all its cells hold the same number
      of commas. */
  lemma {:induction false} ExplodeRowCounts<R>(w: Wide<R>)
    requires |w.cells| > 0
    ensures ExplodeRow(w).Success? <==>
      forall c :: 0 <= c < |w.cells| ==> multiset(w.cells[c])[','] == multiset(w.cells[0])[',']
  {
    forall c | 0 <= c < |w.cells| ensures |Split(w.cells[c], ',')| == multiset(w.cells[c])[','] + 1 {
      SplitLength(w.cells[c], ',');
    }
  }

  /** The `c`-th exploded column of some rows. */
  function ColumnOf<R>(rs: seq<Narrow<R>>, c: nat): seq<string>
    requires forall i :: 0 <= i < |rs| ==> c < |rs[i].values|
  {
    seq(|rs|, i requires 0 <= i < |rs| && c < |rs[i].values| => rs[i].values[c])
  }

  /** Exploding loses nothing: each exploded row keeps the other columns, and
      joining the elements of a column with commas gives back its cell. */
  lemma {:induction false} ExplodeRowRoundTrip<R>(w: Wide<R>)
    requires ExplodeRow(w).Success?
    ensures var rs := ExplodeRow(w).value;
      |rs| >= 1
      && (forall i :: 0 <= i < |rs| ==> rs[i].rest == w.rest && |rs[i].values| == |w.cells|)
      && forall c :: 0 <= c < |w.cells| ==> Join(ColumnOf(rs, c), ',') == w.cells[c]
  {
    var rs := ExplodeRow(w).value;
    var lists := SplitCells(w.cells);
    forall c | 0 <= c < |w.cells| ensures Join(ColumnOf(rs, c), ',') == w.cells[c] {
      assert ColumnOf(rs, c) == lists[c];
      JoinSplit(w.cells[c], ',');
    }
  }

  // ---------------------------------------------------------------------
  // SAE_SCE_prep: one closed interval per BED12 block.
  // ---------------------------------------------------------------------

  /** The columns of an annotation-track record that the preparation reads;
      `blockSizes` and `chromStarts` are comma lists, the starts relative to
      `chromStart`. */
  datatype BedRecord = BedRecord(chrom: string, chromStart: int, chromEnd: int, name: string,
                                 strand: string, blockSizes: string, chromStarts: string)

  /** The other columns of a prepared block row. */
  datatype Block = Block(name: string, strand: string, blockSize: int)

  datatype PrepError =
    | Explosion(explode: ExplodeError)
    | BadInteger          // `astype(int)` of a text that is no integer, or of a missing value
    | NoRangeSeparator    // splitting at '-' gave a single column, so two columns cannot be assigned
    | MergeFailed(merge: MergeError)

  /** `astype(int)` of a text column: surrounding whitespace is allowed. */
  function CastInt(s: string): Option<int>
  {
    ParseInt(Strip(s))
  }

  /** The two block columns of a record, in the order they are exploded. */
  function BlockColumns(table: seq<BedRecord>): (w: seq<Wide<BedRecord>>)
    ensures |w| == |table|
    ensures forall k :: 0 <= k < |table| ==>
      w[k] == Wide(table[k], [table[k].blockSizes, table[k].chromStarts])
  {
    seq(|table|, k requires 0 <= k < |table| => Wide(table[k], [table[k].blockSizes, table[k].chromStarts]))
  }

  /** One exploded block: absolute start `chromStart + offset`, closed end
      `start + blockSize - 1` (the block's half-open end minus one). */
  function BlockOf(n: Narrow<BedRecord>, closed: bool): (r: Result<Row<Block>, PrepError>)
    requires |n.values| == 2
    ensures r.Success? <==> CastInt(n.values[0]).Some? && CastInt(n.values[1]).Some?
    ensures r.Success? ==>
      r.value.chrom == n.rest.chrom
      && r.value.start == n.rest.chromStart + CastInt(n.values[1]).value
      && r.value.data == Block(n.rest.name, n.rest.strand, CastInt(n.values[0]).value)
      && r.value.end - r.value.start == r.value.data.blockSize - (if closed then 1 else 0)
  {
    var size, offset := CastInt(n.values[0]), CastInt(n.values[1]);
    if size.None? || offset.None? then Failure(BadInteger)
    else
      var start := n.rest.chromStart + offset.value;
      var end := if closed then start + size.value - 1 else start + size.value;
      Success(Row(n.rest.chrom, start, end, Block(n.rest.name, n.rest.strand, size.value)))
  }

  /** The block rows of an exploded table, in table order; the casts are
      column-wise, so one bad value fails the whole table. */
  function BlockRows(rows: seq<Narrow<BedRecord>>, closed: bool): (r: Result<seq<Row<Block>>, PrepError>)
    requires forall k :: 0 <= k < |rows| ==> |rows[k].values| == 2
  {
    if forall k :: 0 <= k < |rows| ==> BlockOf(rows[k], closed).Success? then
      Success(seq(|rows|, k requires 0 <= k < |rows| && BlockOf(rows[k], closed).Success? => BlockOf(rows[k], closed).value))
    else Failure(BadInteger)
  }

  /** Explode the block columns, cast them and compute each block's bounds. */
  function Blocks(table: seq<BedRecord>, closed: bool): Result<seq<Row<Block>>, PrepError>
  {
    var ex := Explode(2, BlockColumns(table));
    if ex.Failure? then Failure(Explosion(ex.error))
    else
      assert forall k :: 0 <= k < |ex.value| ==> |ex.value[k].values| == 2;
      BlockRows(ex.value, closed)
  }

  function StartKey(r: Row<Block>): Key
  {
    Key(r.chrom, r.start, 0)
  }

  /** `SAE_SCE_prep`: the closed block rows, sorted by (chrom, chromStart). */
  function SaeScePrep(table: seq<BedRecord>): (r: Result<seq<Row<Block>>, PrepError>)
    ensures r.Success? <==> Blocks(table, true).Success?
    ensures r.Success? ==> SortedBy(r.value, StartKey) && multiset(r.value) == multiset(Blocks(table, true).value)
    ensures r.Success? ==> forall k :: 0 <= k < |r.value| ==> r.value[k].end - r.value[k].start + 1 == r.value[k].data.blockSize
  {
    var b := Blocks(table, true);
    if b.Failure? then b
    else
      var out := SortBy(b.value, StartKey);
      SortBySpec(b.value, StartKey);
      BlocksSpan(table, true);
      SpansKept(b.value, out);
      Success(out)
  }

  /** Every block row spans its size, less one when the end is closed. */
  lemma {:induction false} BlocksSpan(table: seq<BedRecord>, closed: bool)
    requires Blocks(table, closed).Success?
    ensures var rows := Blocks(table, closed).value;
      forall j :: 0 <= j < |rows| ==> rows[j].end - rows[j].start == rows[j].data.blockSize - (if closed then 1 else 0)
  {
    var ex := Explode(2, BlockColumns(table));
    assert forall k :: 0 <= k < |ex.value| ==> |ex.value[k].values| == 2;
    assert Blocks(table, closed) == BlockRows(ex.value, closed);
  }

  /** Reordering block rows keeps every row's span equal to its size. */
  lemma {:induction false} SpansKept(rows: seq<Row<Block>>, out: seq<Row<Block>>)
    requires multiset(out) == multiset(rows)
    requires forall j :: 0 <= j < |rows| ==> rows[j].end - rows[j].start + 1 == rows[j].data.blockSize
    ensures forall k :: 0 <= k < |out| ==> out[k].end - out[k].start + 1 == out[k].data.blockSize
  {
    forall k | 0 <= k < |out| ensures out[k].end - out[k].start + 1 == out[k].data.blockSize {
      assert out[k] in multiset(rows);
      var j :| 0 <= j < |rows| && rows[j] == out[k];
    }
  }

  // ---------------------------------------------------------------------
  // CCDS_prep
  // ---------------------------------------------------------------------

  /** The columns of a CCDS record that the preparation reads. */
  datatype CcdsRecord = CcdsRecord(chromosome: string, ncAccession: string, gene: string, geneId: string,
                                   ccdsId: string, ccdsStatus: string, cdsStrand: string,
                                   cdsLocations: string, matchType: string)

  /** The other columns of a coding-region row. */
  datatype CdsInfo = CdsInfo(ncAccession: string, gene: string, geneId: string, cdsStrand: string, ccdsId: string)

  /** Neither withdrawn nor a partial match. */
  predicate Current(r: CcdsRecord)
  {
    r.ccdsStatus == "Public" && r.matchType != "Partial"
  }

  /** The two boolean-mask filters, in table order. */
  function KeepCurrent(table: seq<CcdsRecord>): (r: seq<CcdsRecord>)
    ensures forall k :: 0 <= k < |r| ==> Current(r[k])
    ensures multiset(r) <= multiset(table)
    ensures forall x :: x in table && Current(x) ==> x in r
    decreases |table|
  {
    if |table| == 0 then []
    else
      var p, x := table[..|table| - 1], table[|table| - 1];
      assert table == p + [x];
      KeepCurrent(p) + (if Current(x) then [x] else [])
  }

  /** Filtering two consecutive stretches of a table filters each, in
      table order. */
  lemma {:induction false} KeepCurrentAppend(a: seq<CcdsRecord>, b: seq<CcdsRecord>)
    ensures KeepCurrent(a + b) == KeepCurrent(a) + KeepCurrent(b)
    decreases |b|
  {
    if |b| == 0 {
      assert a + b == a;
    } else {
      var p := b[..|b| - 1];
      assert a + b == (a + p) + [b[|b| - 1]];
      assert (a + b)[..|a + b| - 1] == a + p;
      KeepCurrentAppend(a, p);
    }
  }

  /** A record is kept as often as it occurs if it passes the filter, and
      never otherwise. */
  lemma {:induction false} KeepCurrentCount(table: seq<CcdsRecord>, x: CcdsRecord)
    ensures multiset(KeepCurrent(table))[x] == if Current(x) then multiset(table)[x] else 0
    decreases |table|
  {
    if |table| > 0 {
      var p := table[..|table| - 1];
      assert table == p + [table[|table| - 1]];
      KeepCurrentCount(p, x);
    }
  }

  /** The location list with its brackets removed, split at each comma. */
  function Locations(r: CcdsRecord): seq<string>
  {
    Split(RemoveAll(RemoveAll(r.cdsLocations, '['), ']'), ',')
  }

  /** An exploded location: the record it came from and its text. */
  datatype Token = Token(rec: CcdsRecord, text: string)

  function TokensOfRecord(r: CcdsRecord): (ts: seq<Token>)
    ensures |ts| == |Locations(r)|
    ensures forall i :: 0 <= i < |ts| ==> ts[i] == Token(r, Locations(r)[i])
  {
    var ls := Locations(r);
    seq(|ls|, i requires 0 <= i < |ls| => Token(r, ls[i]))
  }

  /** The exploded locations of a table, in table order. */
  function Tokens(table: seq<CcdsRecord>): (ts: seq<Token>)
    ensures forall k :: 0 <= k < |ts| ==> ts[k].rec in table
    decreases |table|
  {
    if |table| == 0 then []
    else
      var p := table[..|table| - 1];
      assert forall x :: x in p ==> x in table;
      Tokens(p) + TokensOfRecord(table[|table| - 1])
  }

  /** One location token: split at its first '-', then `strip()` and
      `astype('int')` of both halves.  A token without '-' leaves a missing
      end, which cannot be cast. */
  function ParseLocation(text: string): (r: Result<(int, int), PrepError>)
    ensures r.Success? ==> '-' in text
  {
    var (s, e) := SplitOnce(text, '-');
    if e.None? then Failure(BadInteger)
    else
      var a, b := CastInt(s), CastInt(e.value);
      if a.None? || b.None? then Failure(BadInteger) else Success((a.value, b.value))
  }

  /** The coding-region row of one token, its chromosome written "chr" + #chromosome. */
  function CdsRow(t: Token): (r: Result<Row<CdsInfo>, PrepError>)
    ensures r.Success? <==> ParseLocation(t.text).Success?
    ensures r.Success? ==>
      r.value.chrom == "chr" + t.rec.chromosome
      && (r.value.start, r.value.end) == ParseLocation(t.text).value
      && r.value.data == CdsInfo(t.rec.ncAccession, t.rec.gene, t.rec.geneId, t.rec.cdsStrand, t.rec.ccdsId)
  {
    var loc := ParseLocation(t.text);
    if loc.Failure? then Failure(loc.error)
    else
      var r := t.rec;
      Success(Row("chr" + r.chromosome, loc.value.0, loc.value.1,
                  CdsInfo(r.ncAccession, r.gene, r.geneId, r.cdsStrand, r.ccdsId)))
  }

  /** The coding-region rows of the tokens, in order; the casts are
      column-wise, so one bad token fails the whole table. */
  function CdsRows(ts: seq<Token>): (r: Result<seq<Row<CdsInfo>>, PrepError>)
  {
    if forall k :: 0 <= k < |ts| ==> CdsRow(ts[k]).Success? then
      Success(seq(|ts|, k requires 0 <= k < |ts| && CdsRow(ts[k]).Success? => CdsRow(ts[k]).value))
    else Failure(BadInteger)
  }

  predicate HasSeparator(ts: seq<Token>)
  {
    exists k :: 0 <= k < |ts| && '-' in ts[k].text
  }

  /** The rows of `CCDS_prep` up to the group-by: filter, explode, split,
      cast. */
  function CcdsIntervals(table: seq<CcdsRecord>): Result<seq<Row<CdsInfo>>, PrepError>
  {
    var ts := Tokens(KeepCurrent(table));
    if !HasSeparator(ts) then Failure(NoRangeSeparator) else CdsRows(ts)
  }

  /** Every interval comes from a current record: the record interval `k`
      was exploded from carries its chromosome and its gene. */
  lemma {:induction false} IntervalSource(table: seq<CcdsRecord>, k: int) returns (j: int)
    requires CcdsIntervals(table).Success? && 0 <= k < |CcdsIntervals(table).value|
    ensures 0 <= j < |table| && Current(table[j])
    ensures CcdsIntervals(table).value[k].chrom == "chr" + table[j].chromosome
    ensures CcdsIntervals(table).value[k].data.gene == table[j].gene
  {
    var kept := KeepCurrent(table);
    var ts := Tokens(kept);
    var rows := CcdsIntervals(table).value;
    assert rows == CdsRows(ts).value;
    var t := ts[k];
    assert rows[k] == CdsRow(t).value;
    var r := t.rec;
    assert r in kept;
    var i :| 0 <= i < |kept| && kept[i] == r;
    assert r in multiset(table);
    j :| 0 <= j < |table| && table[j] == r;
  }

  /** The locations "[s1-e1, s2-e2, ...]" of a record, written without
      brackets or commas inside the ranges, come back out range by range. */
  lemma {:induction false} LocationsRoundTrip(r: CcdsRecord, ranges: seq<string>)
    requires |ranges| >= 1
    requires forall k :: 0 <= k < |ranges| ==> ',' !in ranges[k] && '[' !in ranges[k] && ']' !in ranges[k]
    requires r.cdsLocations == "[" + Join(ranges, ',') + "]"
    ensures Locations(r) == ranges
  {
    JoinAvoids(ranges, ',', '[');
    JoinAvoids(ranges, ',', ']');
    RemoveBrackets(Join(ranges, ','));
    SplitJoin(ranges, ',');
  }

  /** A range "s-e" with `s` a natural number, optionally preceded by
      whitespace, parses to (s, e); the split is at the first '-' only, so a
      negative end survives. */
  lemma {:induction false} ParseLocationRoundTrip(pad: string, s: nat, e: int)
    requires forall j :: 0 <= j < |pad| ==> IsSpace(pad[j])
    ensures ParseLocation(pad + ShowNat(s) + "-" + ShowInt(e)) == Success((s, e))
  {
    var front := pad + ShowNat(s);
    assert '-' !in front by {
      ShowNatHasNoSign(s);
      forall j | 0 <= j < |front| ensures front[j] != '-' {
        if j >= |pad| {
          assert front[j] == ShowNat(s)[j - |pad|];
        }
      }
    }
    assert pad + ShowNat(s) + "-" + ShowInt(e) == front + ['-'] + ShowInt(e);
    SplitOnceAt(front, '-', ShowInt(e));
    ParsePaddedNat(pad, s);
    ParseStrippedInt(e);
  }

  /** The group-by key: every column except `ccds_id`. */
  function GroupKey(r: Row<CdsInfo>): Row<CdsInfo>
  {
    r.(data := r.data.(ccdsId := ""))
  }

  function Keys(rows: seq<Row<CdsInfo>>): (ks: seq<Row<CdsInfo>>)
    ensures |ks| == |rows|
    ensures forall k :: 0 <= k < |rows| ==> ks[k] == GroupKey(rows[k])
  {
    seq(|rows|, k requires 0 <= k < |rows| => GroupKey(rows[k]))
  }

  /** The `ccds_id`s of the rows with group key `key`, in table order. */
  function IdsOf(rows: seq<Row<CdsInfo>>, key: Row<CdsInfo>): (ids: seq<string>)
    ensures (exists k :: 0 <= k < |rows| && GroupKey(rows[k]) == key) ==> |ids| >= 1
    ensures forall i :: 0 <= i < |ids| ==> exists k :: 0 <= k < |rows| && rows[k].data.ccdsId == ids[i]
    decreases |rows|
  {
    if |rows| == 0 then []
    else
      var p, x := rows[..|rows| - 1], rows[|rows| - 1];
      assert forall k :: 0 <= k < |p| ==> rows[k] == p[k];
      IdsOf(p, key) + (if GroupKey(x) == key then [x.data.ccdsId] else [])
  }

  /** The aggregated row of one group: the ids joined with ',' in brackets. */
  function Group(rows: seq<Row<CdsInfo>>, key: Row<CdsInfo>): Row<CdsInfo>
  {
    key.(data := key.data.(ccdsId := "[" + Join(IdsOf(rows, key), ',') + "]"))
  }

  /** `groupby(every column but ccds_id).agg({'ccds_id': ','.join})` followed
      by the bracket wrap; groups are listed in order of first appearance. */
  function Aggregated(rows: seq<Row<CdsInfo>>): (out: seq<Row<CdsInfo>>)
  {
    var u := Unique(Keys(rows));
    seq(|u|, i requires 0 <= i < |u| => Group(rows, u[i]))
  }

  /** The key of group `i` is the key of some input row, and the group
      row keeps it. */
  lemma {:induction false} KeyOfGroup(rows: seq<Row<CdsInfo>>, i: int) returns (k: int)
    requires 0 <= i < |Unique(Keys(rows))|
    ensures 0 <= k < |rows| && Unique(Keys(rows))[i] == GroupKey(rows[k])
    ensures GroupKey(Group(rows, Unique(Keys(rows))[i])) == Unique(Keys(rows))[i]
  {
    var ks := Keys(rows);
    var u := Unique(ks);
    UniqueSpec(ks);
    assert u[i] in u;
    k :| 0 <= k < |ks| && ks[k] == u[i];
  }

  /** One row per distinct key, every key of the input represented. */
  lemma {:induction false} AggregatedKeys(rows: seq<Row<CdsInfo>>)
    ensures var out := Aggregated(rows);
      (forall i, j :: 0 <= i < j < |out| ==> GroupKey(out[i]) != GroupKey(out[j]))
      && (forall k :: 0 <= k < |rows| ==> exists i :: 0 <= i < |out| && GroupKey(out[i]) == GroupKey(rows[k]))
      && (forall i :: 0 <= i < |out| ==> exists k :: 0 <= k < |rows| && GroupKey(out[i]) == GroupKey(rows[k]))
  {
    var ks := Keys(rows);
    var u := Unique(ks);
    var out := Aggregated(rows);
    UniqueSpec(ks);
    forall i | 0 <= i < |u| ensures GroupKey(out[i]) == u[i] && exists k :: 0 <= k < |rows| && u[i] == GroupKey(rows[k]) {
      var k := KeyOfGroup(rows, i);
    }
    forall k | 0 <= k < |rows| ensures exists i :: 0 <= i < |out| && GroupKey(out[i]) == GroupKey(rows[k]) {
      assert ks[k] in ks;
      var i :| 0 <= i < |u| && u[i] == ks[k];
    }
  }

  /** The bracketed id list of a group splits back into the group's ids. */
  lemma {:induction false} AggregatedIds(rows: seq<Row<CdsInfo>>, i: int)
    requires 0 <= i < |Aggregated(rows)|
    requires forall k :: 0 <= k < |rows| ==> ',' !in rows[k].data.ccdsId
    ensures var s, ids := Aggregated(rows)[i].data.ccdsId, IdsOf(rows, GroupKey(Aggregated(rows)[i]));
      |s| >= 2 && s[0] == '[' && s[|s| - 1] == ']' && Split(s[1..|s| - 1], ',') == ids
  {
    var u := Unique(Keys(rows));
    var key := u[i];
    var k0 := KeyOfGroup(rows, i);
    assert Aggregated(rows)[i] == Group(rows, key);
    var ids := IdsOf(rows, key);
    assert |ids| >= 1;
    forall j | 0 <= j < |ids| ensures ',' !in ids[j] {
      var k :| 0 <= k < |rows| && rows[k].data.ccdsId == ids[j];
    }
    SplitJoin(ids, ',');
    Bracketed(Join(ids, ','));
  }

  lemma {:induction false} Bracketed(t: string)
    ensures var s := "[" + t + "]"; |s| >= 2 && s[0] == '[' && s[|s| - 1] == ']' && s[1..|s| - 1] == t
  {
  }

  function CdsKey(r: Row<CdsInfo>): Key
  {
    Key(r.chrom, r.start, r.end)
  }

  /** `CCDS_prep`: the aggregated rows sorted by (chrom, start, end) and merged. */
  function CcdsPrep(table: seq<CcdsRecord>): (r: Result<seq<Row<CdsInfo>>, PrepError>)
    ensures CcdsIntervals(table).Failure? ==> r == Failure(CcdsIntervals(table).error)
    ensures r.Failure? && CcdsIntervals(table).Success? ==> r.error.MergeFailed?
    ensures r.Success? ==> |r.value| > 0 && forall k :: 0 <= k < |r.value| ==> r.value[k].start != 0
  {
    var iv := CcdsIntervals(table);
    if iv.Failure? then Failure(iv.error)
    else
      var m := Merged(SortBy(Aggregated(iv.value), CdsKey));
      if m.Failure? then Failure(MergeFailed(m.error)) else Success(m.value)
  }

  /** Rows sorted by a (chrom, start, ...) key are sorted for the merge. */
  lemma {:induction false} SortedByKeyIsSorted<T>(rows: seq<Row<T>>, key: Row<T> -> Key)
    requires forall r :: key(r).text == r.chrom && key(r).major == r.start
    requires SortedBy(rows, key)
    ensures Sorted(rows)
  {
    forall k | 0 < k < |rows| ensures InOrder(rows[k - 1], rows[k]) {
      assert KeyLe(key(rows[k - 1]), key(rows[k]));
    }
  }

  /** A group row has the bounds of its key. */
  lemma {:induction false} GroupBounds(rows: seq<Row<CdsInfo>>, i: int) returns (k: int)
    requires 0 <= i < |Aggregated(rows)|
    ensures 0 <= k < |rows|
    ensures Aggregated(rows)[i].chrom == rows[k].chrom
    ensures Aggregated(rows)[i].start == rows[k].start && Aggregated(rows)[i].end == rows[k].end
  {
    k := KeyOfGroup(rows, i);
    assert Aggregated(rows)[i] == Group(rows, Unique(Keys(rows))[i]);
  }

  /** The group of row `k` in the aggregated table. */
  lemma {:induction false} GroupOfRow(rows: seq<Row<CdsInfo>>, k: int) returns (i: int)
    requires 0 <= k < |rows|
    ensures 0 <= i < |Aggregated(rows)|
    ensures Aggregated(rows)[i].chrom == rows[k].chrom
    ensures Aggregated(rows)[i].start == rows[k].start && Aggregated(rows)[i].end == rows[k].end
  {
    var ks := Keys(rows);
    var u := Unique(ks);
    UniqueSpec(ks);
    assert ks[k] in ks;
    i :| 0 <= i < |u| && u[i] == ks[k];
    assert Aggregated(rows)[i] == Group(rows, u[i]);
  }

  /** The group-by keeps exactly the intervals of its input. */
  lemma {:induction false} AggregatedCovers(rows: seq<Row<CdsInfo>>, c: string, p: int)
    ensures Covers(Aggregated(rows), c, p) <==> Covers(rows, c, p)
    ensures (forall k :: 0 <= k < |rows| ==> Genuine(rows[k])) ==>
      forall i :: 0 <= i < |Aggregated(rows)| ==> Genuine(Aggregated(rows)[i])
  {
    var out := Aggregated(rows);
    if Covers(rows, c, p) {
      var k :| 0 <= k < |rows| && rows[k].chrom == c && rows[k].start <= p <= rows[k].end;
      var i := GroupOfRow(rows, k);
      assert out[i].chrom == c && out[i].start <= p <= out[i].end;
    }
    if Covers(out, c, p) {
      var i :| 0 <= i < |out| && out[i].chrom == c && out[i].start <= p <= out[i].end;
      var k := GroupBounds(rows, i);
      assert rows[k].chrom == c && rows[k].start <= p <= rows[k].end;
    }
    if forall k :: 0 <= k < |rows| ==> Genuine(rows[k]) {
      forall i | 0 <= i < |out| ensures Genuine(out[i]) {
        var k := GroupBounds(rows, i);
      }
    }
  }

  /** Sorting genuine rows by a (chrom, start, ...) key readies them for the
      merge, whose result is separated and covers what the rows cover. */
  lemma {:induction false} SortThenMerge<T>(rows: seq<Row<T>>, key: Row<T> -> Key, c: string, p: int)
    requires forall r :: key(r).text == r.chrom && key(r).major == r.start
    requires |rows| > 0 && forall k :: 0 <= k < |rows| ==> Genuine(rows[k])
    ensures Merged(SortBy(rows, key)).Success?
    ensures Separated(Merged(SortBy(rows, key)).value) && PairwiseApart(Merged(SortBy(rows, key)).value)
    ensures Covers(Merged(SortBy(rows, key)).value, c, p) <==> Covers(rows, c, p)
  {
    var sorted := SortBy(rows, key);
    SortBySpec(rows, key);
    SortedByKeyIsSorted(sorted, key);
    forall k | 0 <= k < |sorted| ensures Genuine(sorted[k]) {
      assert sorted[k] in multiset(rows);
      var i :| 0 <= i < |rows| && rows[i] == sorted[k];
    }
    assert |sorted| > 0 by {
      assert rows[0] in multiset(sorted);
    }
    MergedSound(sorted, c, p);
    CoversPermutation(sorted, rows, c, p);
  }

  /** When every parsed interval is genuine, `CCDS_prep` succeeds, its
      intervals are separated, and they cover exactly the positions the
      parsed locations cover. */
  lemma {:induction false} CcdsPrepSound(table: seq<CcdsRecord>, c: string, p: int)
    requires CcdsIntervals(table).Success? && |CcdsIntervals(table).value| > 0
    requires forall k :: 0 <= k < |CcdsIntervals(table).value| ==> Genuine(CcdsIntervals(table).value[k])
    ensures CcdsPrep(table).Success?
    ensures Separated(CcdsPrep(table).value) && PairwiseApart(CcdsPrep(table).value)
    ensures Covers(CcdsPrep(table).value, c, p) <==> Covers(CcdsIntervals(table).value, c, p)
  {
    var rows := CcdsIntervals(table).value;
    var agg := Aggregated(rows);
    AggregatedCovers(rows, c, p);
    assert |agg| > 0 by {
      var i := GroupOfRow(rows, 0);
    }
    SortThenMerge(agg, CdsKey, c, p);
  }

  // ---------------------------------------------------------------------
  // SAE_SCE_merge
  // ---------------------------------------------------------------------

  datatype Track = SAE | SCE

  /** The `type` column's text. */
  function TrackName(t: Track): string
  {
    match t
    case SAE => "SAE"
    case SCE => "SCE"
  }

  /** A block row tagged with its track. */
  datatype Annotation = Annotation(block: Block, track: Track)

  function Tag(rows: seq<Row<Block>>, t: Track): (r: seq<Row<Annotation>>)
    ensures |r| == |rows|
    ensures forall k :: 0 <= k < |rows| ==>
      r[k] == Row(rows[k].chrom, rows[k].start, rows[k].end, Annotation(rows[k].data, t))
  {
    seq(|rows|, k requires 0 <= k < |rows| => Row(rows[k].chrom, rows[k].start, rows[k].end, Annotation(rows[k].data, t)))
  }

  function AnnKey(r: Row<Annotation>): Key
  {
    Key(r.chrom, r.start, r.end)
  }

  function TrackOf(r: Row<Annotation>): string
  {
    TrackName(r.data.track)
  }

  /** One track tagged, sorted by (chrom, chromStart, chromEnd) and merged. */
  function MergedTrack(rows: seq<Row<Block>>, t: Track): Result<seq<Row<Annotation>>, MergeError>
  {
    Merged(SortBy(Tag(rows, t), AnnKey))
  }

  /** `SAE_SCE_merge`: each track merged on its own, then the two
      concatenated and sorted by (chrom, chromStart, chromEnd). */
  function SaeSceMerge(sae: seq<Row<Block>>, sce: seq<Row<Block>>): (r: Result<seq<Row<Annotation>>, MergeError>)
    ensures r.Success? <==> MergedTrack(sae, SAE).Success? && MergedTrack(sce, SCE).Success?
    ensures r.Failure? ==>
      r.error == if MergedTrack(sae, SAE).Failure? then MergedTrack(sae, SAE).error else MergedTrack(sce, SCE).error
  {
    var a := MergedTrack(sae, SAE);
    if a.Failure? then a
    else
      var b := MergedTrack(sce, SCE);
      if b.Failure? then b else Success(SortBy(a.value + b.value, AnnKey))
  }

  /** Every row of a merged track carries that track's tag. */
  lemma {:induction false} MergedTrackTagged(rows: seq<Row<Block>>, t: Track)
    requires MergedTrack(rows, t).Success?
    ensures forall k :: 0 <= k < |MergedTrack(rows, t).value| ==> MergedTrack(rows, t).value[k].data.track == t
  {
    var tagged := Tag(rows, t);
    var sorted := SortBy(tagged, AnnKey);
    SortBySpec(tagged, AnnKey);
    MergedRowsFromInput(sorted);
    var out := MergedTrack(rows, t).value;
    forall k | 0 <= k < |out| ensures out[k].data.track == t {
      var j :| 0 <= j < |sorted| && out[k].data == sorted[j].data;
      assert sorted[j] in multiset(tagged);
      var i :| 0 <= i < |tagged| && tagged[i] == sorted[j];
    }
  }

  /** The merged table is sorted, holds exactly the rows of the two merged
      tracks, and its rows of each type are exactly that track merged: the
      two tracks are never merged with each other. */
  lemma {:induction false} SaeSceMergeSpec(sae: seq<Row<Block>>, sce: seq<Row<Block>>)
    requires SaeSceMerge(sae, sce).Success?
    ensures var out, a, b := SaeSceMerge(sae, sce).value, MergedTrack(sae, SAE), MergedTrack(sce, SCE);
      a.Success? && b.Success?
      && SortedBy(out, AnnKey)
      && multiset(out) == multiset(a.value) + multiset(b.value)
      && multiset(Select(out, TrackOf, "SAE")) == multiset(a.value)
      && multiset(Select(out, TrackOf, "SCE")) == multiset(b.value)
  {
    var a, b := MergedTrack(sae, SAE).value, MergedTrack(sce, SCE).value;
    var out := SortBy(a + b, AnnKey);
    assert SaeSceMerge(sae, sce).value == out;
    SortBySpec(a + b, AnnKey);
    MergedTrackTagged(sae, SAE);
    MergedTrackTagged(sce, SCE);
    SelectTracks(out, a, b);
  }

  /** Selecting by track name from a union of an SAE table and an SCE table
      gives back each table. */
  lemma {:induction false} SelectTracks(out: seq<Row<Annotation>>, a: seq<Row<Annotation>>, b: seq<Row<Annotation>>)
    requires multiset(out) == multiset(a + b)
    requires forall k :: 0 <= k < |a| ==> a[k].data.track == SAE
    requires forall k :: 0 <= k < |b| ==> b[k].data.track == SCE
    ensures multiset(Select(out, TrackOf, "SAE")) == multiset(a)
    ensures multiset(Select(out, TrackOf, "SCE")) == multiset(b)
  {
    assert multiset(a + b) == multiset(a) + multiset(b);
    SelectOfUnion(out, a, b, TrackOf, "SAE");
    SelectOfUnion(out, b, a, TrackOf, "SCE");
  }

  /** A merged track covers exactly the positions of its blocks, with gaps
      between consecutive intervals of a chromosome. */
  lemma {:induction false} MergedTrackSound(rows: seq<Row<Block>>, t: Track, c: string, p: int)
    requires |rows| > 0 && forall k :: 0 <= k < |rows| ==> Genuine(rows[k])
    ensures MergedTrack(rows, t).Success?
    ensures Separated(MergedTrack(rows, t).value) && PairwiseApart(MergedTrack(rows, t).value)
    ensures Covers(MergedTrack(rows, t).value, c, p) <==> Covers(rows, c, p)
  {
    var tagged := Tag(rows, t);
    SortThenMerge(tagged, AnnKey, c, p);
    if Covers(tagged, c, p) {
      var k :| 0 <= k < |tagged| && tagged[k].chrom == c && tagged[k].start <= p <= tagged[k].end;
      assert rows[k].chrom == c && rows[k].start <= p <= rows[k].end;
    }
    if Covers(rows, c, p) {
      var k :| 0 <= k < |rows| && rows[k].chrom == c && rows[k].start <= p <= rows[k].end;
      assert tagged[k].chrom == c && tagged[k].start <= p <= tagged[k].end;
    }
  }
}
