/** The coverage split of scripts/prep_ref_files.py: `_split_chrom` walks
    the coding regions of one chromosome against its SAE/SCE annotations and
    writes "keep" and "del" segments; `split_CCDS_by_coverage` runs it per
    chromosome.

    The walk is modelled as written, not as an idealised tiling: the last
    annotation is duplicated as a sentinel and is itself processed whenever
    it starts at or before a region's end, the `elif` branch and the overrun
    branch leave the region cursor where it is, and so a region can be
    re-emitted as an overlapping `normal` segment. */
module Coverage {
  import opened Wrappers
  import opened Sorting

  /** The columns of a coding-region row that the split reads. */
  datatype Cds = Cds(chrom: string, start: int, end: int, gene: string)

  /** An SAE/SCE annotation row: `chromStart`, `chromEnd` and its `type`. */
  datatype Ann = Ann(chrom: string, start: int, end: int, kind: string)

  /** A written row: chromosome, start, end, gene and type. */
  datatype Segment = Segment(chrom: string, start: int, end: int, gene: string, kind: string)

  /** The two output tables. */
  datatype Tables = Tables(keep: seq<Segment>, del: seq<Segment>)

  /** `SAE_SCE_df.iloc[[-1]]` of an empty table raises. */
  datatype SplitError = NoAnnotations

  /** The type written for coding sequence outside every annotation. */
  const Normal := "normal"

  /** `b` holds everything `a` holds, with rows only appended. */
  predicate Grows(a: Tables, b: Tables)
  {
    a.keep <= b.keep && a.del <= b.del
  }

  // ---------------------------------------------------------------------
  // The body of the inner while loop.
  // ---------------------------------------------------------------------

  /** Lines 296-303: an annotation starting left of the cursor sends its part
      before the cursor to "del" and moves the cursor back to its start; one
      starting right of the cursor writes the gap as `normal` and leaves the
      cursor alone. */
  function Align(r: Cds, a: Ann, t: Tables, cursor: int): (Tables, int)
  {
    if cursor > a.start then
      (Tables(t.keep, t.del + [Segment(r.chrom, a.start, cursor - 1, r.gene, a.kind)]), a.start)
    else if cursor != a.start then
      (Tables(t.keep + [Segment(r.chrom, cursor, a.start - 1, r.gene, Normal)], t.del), cursor)
    else (t, cursor)
  }

  /** Lines 307-315: an annotation ending inside the region is kept whole and
      the cursor moves past it; one running past the region's end is kept up
      to that end and the rest goes to "del", the cursor unchanged. */
  function Cover(r: Cds, a: Ann, t: Tables, cursor: int): (Tables, int)
  {
    if a.end <= r.end then
      (Tables(t.keep + [Segment(r.chrom, a.start, a.end, r.gene, a.kind)], t.del), a.end + 1)
    else
      (Tables(t.keep + [Segment(r.chrom, a.start, r.end, r.gene, a.kind)],
              t.del + [Segment(r.chrom, r.end + 1, a.end, r.gene, a.kind)]), cursor)
  }

  /** Lines 318-319: at the last real annotation (the one before the
      sentinel) the rest of the region after it is written as `normal`. */
  function Close(r: Cds, a: Ann, penultimate: bool, t: Tables): Tables
  {
    if penultimate then Tables(t.keep + [Segment(r.chrom, a.end + 1, r.end, r.gene, Normal)], t.del) else t
  }

  /** One pass of the loop body, before the index moves on. */
  function Visit(r: Cds, a: Ann, penultimate: bool, t: Tables, cursor: int): (Tables, int)
  {
    var (t1, c1) := Align(r, a, t, cursor);
    var (t2, c2) := Cover(r, a, t1, c1);
    (Close(r, a, penultimate, t2), c2)
  }

  /** The inner while loop from annotation `index` on, with the running
      cursor: tables, index and cursor when it stops. */
  function Inner(r: Cds, anns: seq<Ann>, index: nat, cursor: int, t: Tables): (res: (Tables, nat, int))
    requires index <= |anns|
    ensures index <= res.1 <= |anns|
    ensures res.1 == |anns| || anns[res.1].start > r.end
    ensures forall j :: index <= j < res.1 ==> anns[j].start <= r.end
    ensures Grows(t, res.0)
    decreases |anns| - index
  {
    if index < |anns| && anns[index].start <= r.end then
      var (t1, c1) := Visit(r, anns[index], index == |anns| - 2, t, cursor);
      Inner(r, anns, index + 1, c1, t1)
    else (t, index, cursor)
  }

  /** Lines 327-328: a cursor still inside the region writes the rest of it
      as `normal`. */
  function Tail(r: Cds, cursor: int, t: Tables): Tables
  {
    if cursor <= r.end then Tables(t.keep + [Segment(r.chrom, cursor, r.end, r.gene, Normal)], t.del) else t
  }

  /** One coding-region row: the cursor starts at the region's start, the
      annotation index carries over from the previous row. */
  function ScanRow(r: Cds, anns: seq<Ann>, index: nat, t: Tables): (res: (Tables, nat))
    requires index <= |anns|
    ensures index <= res.1 <= |anns|
    ensures Grows(t, res.0)
  {
    var (t1, i1, c1) := Inner(r, anns, index, r.start, t);
    (Tail(r, c1, t1), i1)
  }

  /** The outer loop over the coding-region rows from the front. */
  function ScanRows(rows: seq<Cds>, anns: seq<Ann>, index: nat, t: Tables): (res: (Tables, nat))
    requires index <= |anns|
    ensures index <= res.1 <= |anns|
    ensures Grows(t, res.0)
    decreases |rows|
  {
    if |rows| == 0 then (t, index)
    else
      var (t1, i1) := ScanRow(rows[0], anns, index, t);
      ScanRows(rows[1..], anns, i1, t1)
  }

  /** Lines 273-274: the annotations followed by a copy of the last one. */
  function Extended(ann: seq<Ann>): (e: seq<Ann>)
    requires |ann| > 0
  {
    ann + [ann[|ann| - 1]]
  }

  /** `_split_chrom(CCDS_df, SAE_SCE_df)`. */
  function SplitChrom(cds: seq<Cds>, ann: seq<Ann>): (r: Result<Tables, SplitError>)
    ensures r.Failure? <==> |ann| == 0
    ensures r.Success? && |cds| == 0 ==> r.value == Tables([], [])
  {
    if |ann| == 0 then Failure(NoAnnotations)
    else Success(ScanRows(cds, Extended(ann), 0, Tables([], [])).0)
  }

  // ---------------------------------------------------------------------
  // _split_chrom as written: two nested loops over mutable state.
  // ---------------------------------------------------------------------

  /** The inner while loop of `_split_chrom` (lines 292-322) for one
      coding-region row, advancing the shared annotation index. */
  method Walk(row: Cds, anns: seq<Ann>, index0: nat, keep0: seq<Segment>, del0: seq<Segment>)
    returns (keep: seq<Segment>, del: seq<Segment>, index: nat, cursor: int)
    requires index0 <= |anns|
    ensures (Tables(keep, del), index, cursor) == Inner(row, anns, index0, row.start, Tables(keep0, del0))
  {
    keep, del, index, cursor := keep0, del0, index0, row.start;
    var len := |anns|;
    while index < len && anns[index].start <= row.end
      invariant index <= len
      invariant Inner(row, anns, index, cursor, Tables(keep, del)) == Inner(row, anns, index0, row.start, Tables(keep0, del0))
      decreases len - index
    {
      var a := anns[index];
      ghost var before := Visit(row, a, index == len - 2, Tables(keep, del), cursor);
      ghost var aligned := Align(row, a, Tables(keep, del), cursor);
      if cursor > a.start {
        del := del + [Segment(row.chrom, a.start, cursor - 1, row.gene, a.kind)];
        cursor := a.start;
      } else if cursor != a.start {
        keep := keep + [Segment(row.chrom, cursor, a.start - 1, row.gene, Normal)];
      }
      assert (Tables(keep, del), cursor) == aligned;
      ghost var covered := Cover(row, a, Tables(keep, del), cursor);
      if a.end <= row.end {
        keep := keep + [Segment(row.chrom, a.start, a.end, row.gene, a.kind)];
        cursor := a.end + 1;
      } else {
        keep := keep + [Segment(row.chrom, a.start, row.end, row.gene, a.kind)];
        del := del + [Segment(row.chrom, row.end + 1, a.end, row.gene, a.kind)];
      }
      assert (Tables(keep, del), cursor) == covered;
      if index == len - 2 {
        keep := keep + [Segment(row.chrom, a.end + 1, row.end, row.gene, Normal)];
      }
      assert (Tables(keep, del), cursor) == before;
      index := index + 1;
    }
  }

  /** `_split_chrom` as written: the outer loop over the coding-region rows
      around `Walk`, appending to the two tables. */
  method SplitChromLoop(cds: seq<Cds>, ann: seq<Ann>) returns (r: Result<Tables, SplitError>)
    ensures r == SplitChrom(cds, ann)
  {
    if |ann| == 0 {
      return Failure(NoAnnotations);
    }
    var anns := ann + [ann[|ann| - 1]];
    var keep: seq<Segment> := [];
    var del: seq<Segment> := [];
    var index: nat := 0;
    for i := 0 to |cds|
      invariant index <= |anns|
      invariant ScanRows(cds[i..], anns, index, Tables(keep, del)) == ScanRows(cds, anns, 0, Tables([], []))
    {
      var row := cds[i];
      assert cds[i..][1..] == cds[i + 1..];
      var cursor;
      keep, del, index, cursor := Walk(row, anns, index, keep, del);
      if cursor <= row.end {
        keep := keep + [Segment(row.chrom, cursor, row.end, row.gene, Normal)];
      }
    }
    assert cds[|cds|..] == [];
    return Success(Tables(keep, del));
  }

  // ---------------------------------------------------------------------
  // What a single visit writes.
  // ---------------------------------------------------------------------

  /** A visit appends to both tables and, after it, the cursor is past the
      annotation's end if the annotation ends inside the region, and back at
      or before the annotation's start otherwise. */
  lemma {:induction false} VisitCursor(r: Cds, a: Ann, p: bool, t: Tables, cursor: int)
    ensures Grows(t, Visit(r, a, p, t, cursor).0)
    ensures a.end <= r.end ==> Visit(r, a, p, t, cursor).1 == a.end + 1
    ensures a.end > r.end ==> Visit(r, a, p, t, cursor).1 == (if cursor > a.start then a.start else cursor)
  {
  }

  /** An annotation that ends inside the region is written to "keep" whole,
      with its type; nothing goes to "del" unless the cursor had passed its
      start. */
  lemma {:induction false} ContainedKept(r: Cds, a: Ann, p: bool, t: Tables, cursor: int)
    requires a.end <= r.end
    ensures var t1 := Visit(r, a, p, t, cursor).0;
      Segment(r.chrom, a.start, a.end, r.gene, a.kind) in t1.keep[|t.keep|..]
      && (cursor <= a.start ==> t1.del == t.del)
  {
    var (ta, ca) := Align(r, a, t, cursor);
    var tc := Cover(r, a, ta, ca).0;
    assert tc.keep[|tc.keep| - 1] == Segment(r.chrom, a.start, a.end, r.gene, a.kind);
    assert Close(r, a, p, tc).keep[|tc.keep| - 1] == tc.keep[|tc.keep| - 1];
  }

  /** An annotation that runs past the region's end is written as two
      adjacent segments of its type, one in "keep" up to the region's end and
      one in "del" after it, which together are exactly the annotation. */
  lemma {:induction false} OverrunSplit(r: Cds, a: Ann, p: bool, t: Tables, cursor: int)
    requires a.start <= r.end < a.end
    ensures var t1 := Visit(r, a, p, t, cursor).0;
      exists k, d :: |t.keep| <= k < |t1.keep| && |t.del| <= d < |t1.del|
        && t1.keep[k].start == a.start && t1.keep[k].end + 1 == t1.del[d].start && t1.del[d].end == a.end
        && t1.keep[k].kind == a.kind == t1.del[d].kind
  {
    var (ta, ca) := Align(r, a, t, cursor);
    var tc := Cover(r, a, ta, ca).0;
    var t1 := Visit(r, a, p, t, cursor).0;
    var k, d := |tc.keep| - 1, |tc.del| - 1;
    assert t1.keep[k] == tc.keep[k] && t1.del[d] == tc.del[d];
  }

  /** The segment of an annotation written to "keep": the annotation, cut
      at the region's end if it runs past it. */
  function OwnSegment(r: Cds, a: Ann): Segment
  {
    Segment(r.chrom, a.start, if a.end <= r.end then a.end else r.end, r.gene, a.kind)
  }

  /** What a visit writes before the annotation itself. A cursor right of
      the annotation's start sends the stretch between them to "del" and
      the first row written to "keep" is the annotation's own segment, so
      the cursor stood at the annotation's start when it was covered. A
      cursor left of it writes the gap up to the annotation as `normal`
      first. A cursor at the annotation's start writes the annotation's
      own segment first. */
  lemma {:induction false} VisitGaps(r: Cds, a: Ann, p: bool, t: Tables, cursor: int)
    ensures var t1 := Visit(r, a, p, t, cursor).0;
      (cursor > a.start ==>
        |t1.del| > |t.del| && t1.del[|t.del|] == Segment(r.chrom, a.start, cursor - 1, r.gene, a.kind)
        && |t1.keep| > |t.keep| && t1.keep[|t.keep|] == OwnSegment(r, a))
      && (cursor < a.start ==>
        |t1.keep| > |t.keep| + 1 && t1.keep[|t.keep|] == Segment(r.chrom, cursor, a.start - 1, r.gene, Normal)
        && t1.keep[|t.keep| + 1] == OwnSegment(r, a))
      && (cursor == a.start ==> |t1.keep| > |t.keep| && t1.keep[|t.keep|] == OwnSegment(r, a))
  {
    var (ta, ca) := Align(r, a, t, cursor);
    var tc := Cover(r, a, ta, ca).0;
    var t1 := Close(r, a, p, tc);
    assert t1.keep[..|tc.keep|] == tc.keep && t1.del == tc.del;
    assert tc.keep[..|ta.keep|] == ta.keep && tc.del[..|ta.del|] == ta.del;
    assert tc.keep[|ta.keep|] == OwnSegment(r, a);
  }

  /** Whenever the walk of a coding row visits the last real annotation,
      it goes on to visit the duplicated copy of it as well, in the same
      row: the sentinel never stops the loop after a real annotation. */
  lemma {:induction false} SentinelFollowsLast(r: Cds, ann: seq<Ann>, index: nat, cursor: int, t: Tables)
    requires |ann| > 0 && index < |ann|
    ensures var e, stop := Extended(ann), Inner(r, Extended(ann), index, cursor, t).1;
      e[|ann|] == e[|ann| - 1] && (stop > |ann| - 1 ==> stop == |ann| + 1)
  {
  }

  // ---------------------------------------------------------------------
  // The sentinel and the overrun as written.
  // ---------------------------------------------------------------------

  /** One region around one contained annotation: the duplicated last row is
      processed again, so the annotation and the region's tail are each
      written twice and the annotation also lands in "del". */
  lemma {:induction false} SentinelReprocessed()
    ensures SplitChrom([Cds("c", 100, 200, "g")], [Ann("c", 120, 130, "SAE")])
         == Success(Tables(
              [Segment("c", 100, 119, "g", Normal), Segment("c", 120, 130, "g", "SAE"), Segment("c", 131, 200, "g", Normal),
               Segment("c", 120, 130, "g", "SAE"), Segment("c", 131, 200, "g", Normal)],
              [Segment("c", 120, 130, "g", "SAE")]))
  {
    var r, a := Cds("c", 100, 200, "g"), Ann("c", 120, 130, "SAE");
    var anns := [a, a];
    var t0 := Tables([], []);
    var n1, s1, n2 := Segment("c", 100, 119, "g", Normal), Segment("c", 120, 130, "g", "SAE"), Segment("c", 131, 200, "g", Normal);
    assert [] + [n1] == [n1] && [n1] + [s1] == [n1, s1] && [n1, s1] + [n2] == [n1, s1, n2];
    assert [] + [s1] == [s1] && [n1, s1, n2] + [s1] == [n1, s1, n2, s1];
    assert Align(r, a, t0, 100) == (Tables([n1], []), 100);
    assert Cover(r, a, Tables([n1], []), 100) == (Tables([n1, s1], []), 131);
    assert Close(r, a, true, Tables([n1, s1], [])) == Tables([n1, s1, n2], []);
    var v1 := Visit(r, a, true, t0, 100);
    assert v1 == (Tables([n1, s1, n2], []), 131);
    assert Align(r, a, v1.0, 131) == (Tables([n1, s1, n2], [s1]), 120);
    assert Cover(r, a, Tables([n1, s1, n2], [s1]), 120) == (Tables([n1, s1, n2, s1], [s1]), 131);
    var v2 := Visit(r, a, false, v1.0, 131);
    assert v2 == (Tables([n1, s1, n2, s1], [s1]), 131);
    assert Inner(r, anns, 2, 131, v2.0) == (v2.0, 2, 131);
    assert Inner(r, anns, 1, 131, v1.0) == Inner(r, anns, 2, 131, v2.0);
    assert Inner(r, anns, 0, 100, t0) == (v2.0, 2, 131);
    assert Extended([a]) == anns;
    assert Tail(r, 131, v2.0) == Tables([n1, s1, n2, s1, n2], [s1]);
    assert ScanRow(r, anns, 0, t0) == (Tables([n1, s1, n2, s1, n2], [s1]), 2);
    assert ScanRows([r][1..], anns, 2, Tables([n1, s1, n2, s1, n2], [s1])) == (Tables([n1, s1, n2, s1, n2], [s1]), 2);
  }

  /** One region and one annotation running past its end: the cursor never
      moves, so the gap before the annotation is written twice, the tail
      after the annotation is an empty (inverted) `normal` segment, and the
      whole region is finally written once more as `normal`, overlapping
      everything written for it. */
  lemma {:induction false} OverrunReemits()
    ensures SplitChrom([Cds("c", 100, 200, "g")], [Ann("c", 150, 250, "SCE")])
         == Success(Tables(
              [Segment("c", 100, 149, "g", Normal), Segment("c", 150, 200, "g", "SCE"), Segment("c", 251, 200, "g", Normal),
               Segment("c", 100, 149, "g", Normal), Segment("c", 150, 200, "g", "SCE"), Segment("c", 100, 200, "g", Normal)],
              [Segment("c", 201, 250, "g", "SCE"), Segment("c", 201, 250, "g", "SCE")]))
  {
    var r, a := Cds("c", 100, 200, "g"), Ann("c", 150, 250, "SCE");
    var anns := [a, a];
    var t0 := Tables([], []);
    var n1, s1, n2, d1 := Segment("c", 100, 149, "g", Normal), Segment("c", 150, 200, "g", "SCE"),
                          Segment("c", 251, 200, "g", Normal), Segment("c", 201, 250, "g", "SCE");
    var v2 := Tables([n1, s1, n2, n1, s1], [d1, d1]);
    OverrunWalk();
    var n3 := Segment("c", 100, 200, "g", Normal);
    assert Extended([a]) == anns;
    assert [n1, s1, n2, n1, s1] + [n3] == [n1, s1, n2, n1, s1, n3];
    assert Tail(r, 100, v2) == Tables([n1, s1, n2, n1, s1, n3], [d1, d1]);
    assert ScanRow(r, anns, 0, t0) == (Tables([n1, s1, n2, n1, s1, n3], [d1, d1]), 2);
    assert ScanRows([r][1..], anns, 2, Tables([n1, s1, n2, n1, s1, n3], [d1, d1])) == (Tables([n1, s1, n2, n1, s1, n3], [d1, d1]), 2);
  }

  /** The inner loop of the example above: both copies of the annotation
      are visited with the cursor left at the region's start. */
  lemma {:induction false} OverrunWalk()
    ensures var r, a := Cds("c", 100, 200, "g"), Ann("c", 150, 250, "SCE");
      Inner(r, [a, a], 0, 100, Tables([], []))
      == (Tables([Segment("c", 100, 149, "g", Normal), Segment("c", 150, 200, "g", "SCE"), Segment("c", 251, 200, "g", Normal),
                  Segment("c", 100, 149, "g", Normal), Segment("c", 150, 200, "g", "SCE")],
                 [Segment("c", 201, 250, "g", "SCE"), Segment("c", 201, 250, "g", "SCE")]), 2, 100)
  {
    var r, a := Cds("c", 100, 200, "g"), Ann("c", 150, 250, "SCE");
    var anns := [a, a];
    var t0 := Tables([], []);
    var n1, s1, n2, d1 := Segment("c", 100, 149, "g", Normal), Segment("c", 150, 200, "g", "SCE"),
                          Segment("c", 251, 200, "g", Normal), Segment("c", 201, 250, "g", "SCE");
    assert [] + [n1] == [n1] && [n1] + [s1] == [n1, s1] && [n1, s1] + [n2] == [n1, s1, n2];
    assert [] + [d1] == [d1] && [n1, s1, n2] + [n1] == [n1, s1, n2, n1];
    assert [n1, s1, n2, n1] + [s1] == [n1, s1, n2, n1, s1] && [d1] + [d1] == [d1, d1];
    assert Align(r, a, t0, 100) == (Tables([n1], []), 100);
    assert Cover(r, a, Tables([n1], []), 100) == (Tables([n1, s1], [d1]), 100);
    assert Close(r, a, true, Tables([n1, s1], [d1])) == Tables([n1, s1, n2], [d1]);
    var v1 := Visit(r, a, true, t0, 100);
    assert v1 == (Tables([n1, s1, n2], [d1]), 100);
    assert Align(r, a, v1.0, 100) == (Tables([n1, s1, n2, n1], [d1]), 100);
    assert Cover(r, a, Tables([n1, s1, n2, n1], [d1]), 100) == (Tables([n1, s1, n2, n1, s1], [d1, d1]), 100);
    var v2 := Visit(r, a, false, v1.0, 100);
    assert v2 == (Tables([n1, s1, n2, n1, s1], [d1, d1]), 100);
    assert Inner(r, anns, 2, 100, v2.0) == (v2.0, 2, 100);
    assert Inner(r, anns, 1, 100, v1.0) == Inner(r, anns, 2, 100, v2.0);
  }

  // ---------------------------------------------------------------------
  // The shared annotation index.
  // ---------------------------------------------------------------------

  /** The annotation index is shared by the rows: each row's walk starts
      where the previous one stopped, and every annotation the whole walk
      passes starts at or before the end of the row that passed it. */
  lemma {:induction false} IndexCarriesOver(rows: seq<Cds>, anns: seq<Ann>, index: nat, t: Tables)
    requires index <= |anns| && |rows| > 0
    ensures ScanRows(rows, anns, index, t)
         == ScanRows(rows[1..], anns, ScanRow(rows[0], anns, index, t).1, ScanRow(rows[0], anns, index, t).0)
    ensures var stop := ScanRow(rows[0], anns, index, t).1;
      (stop == |anns| || anns[stop].start > rows[0].end)
      && forall j :: index <= j < stop ==> anns[j].start <= rows[0].end
  {
    var (t1, i1, c1) := Inner(rows[0], anns, index, rows[0].start, t);
  }

  // ---------------------------------------------------------------------
  // Every segment is on the region's chromosome.
  // ---------------------------------------------------------------------

  function SegChrom(s: Segment): string
  {
    s.chrom
  }

  function CdsChrom(r: Cds): string
  {
    r.chrom
  }

  function AnnChrom(a: Ann): string
  {
    a.chrom
  }

  predicate OnChrom(t: Tables, c: string)
  {
    (forall k :: 0 <= k < |t.keep| ==> t.keep[k].chrom == c) && (forall k :: 0 <= k < |t.del| ==> t.del[k].chrom == c)
  }

  lemma {:induction false} InnerOnChrom(r: Cds, anns: seq<Ann>, index: nat, cursor: int, t: Tables)
    requires index <= |anns| && OnChrom(t, r.chrom)
    ensures OnChrom(Inner(r, anns, index, cursor, t).0, r.chrom)
    decreases |anns| - index
  {
    if index < |anns| && anns[index].start <= r.end {
      var (t1, c1) := Visit(r, anns[index], index == |anns| - 2, t, cursor);
      InnerOnChrom(r, anns, index + 1, c1, t1);
    }
  }

  lemma {:induction false} ScanRowsOnChrom(rows: seq<Cds>, anns: seq<Ann>, index: nat, t: Tables, c: string)
    requires index <= |anns| && OnChrom(t, c)
    requires forall k :: 0 <= k < |rows| ==> rows[k].chrom == c
    ensures OnChrom(ScanRows(rows, anns, index, t).0, c)
    decreases |rows|
  {
    if |rows| > 0 {
      var (t1, i1, c1) := Inner(rows[0], anns, index, rows[0].start, t);
      InnerOnChrom(rows[0], anns, index, rows[0].start, t);
      ScanRowsOnChrom(rows[1..], anns, i1, Tail(rows[0], c1, t1), c);
    }
  }

  /** A chromosome's split writes only rows of that chromosome. */
  lemma {:induction false} SplitChromOnChrom(cds: seq<Cds>, ann: seq<Ann>, c: string)
    requires forall k :: 0 <= k < |cds| ==> cds[k].chrom == c
    requires SplitChrom(cds, ann).Success?
    ensures OnChrom(SplitChrom(cds, ann).value, c)
  {
    ScanRowsOnChrom(cds, Extended(ann), 0, Tables([], []), c);
  }

  // ---------------------------------------------------------------------
  // split_CCDS_by_coverage
  // ---------------------------------------------------------------------

  /** The split of one chromosome's rows against that chromosome's
      annotations. */
  function SplitOf(cds: seq<Cds>, ann: seq<Ann>, c: string): Result<Tables, SplitError>
  {
    SplitChrom(Select(cds, CdsChrom, c), Select(ann, AnnChrom, c))
  }

  /** The per-chromosome loop from chromosome `chroms[0]` on, appending to
      the tables so far. */
  function CoverFrom(chroms: seq<string>, cds: seq<Cds>, ann: seq<Ann>, t: Tables): Result<Tables, SplitError>
    decreases |chroms|
  {
    if |chroms| == 0 then Success(t)
    else
      var part := SplitOf(cds, ann, chroms[0]);
      if part.Failure? then Failure(part.error)
      else CoverFrom(chroms[1..], cds, ann, Tables(t.keep + part.value.keep, t.del + part.value.del))
  }

  /** The chromosomes of the coding regions in order of first appearance. */
  function Chroms(cds: seq<Cds>): seq<string>
  {
    Unique(Column(cds, CdsChrom))
  }

  /** `split_CCDS_by_coverage(CCDS_df, SAE_SCE_df)`. */
  function SplitByCoverage(cds: seq<Cds>, ann: seq<Ann>): (r: Result<Tables, SplitError>)
    ensures r.Failure? <==>
      exists k :: 0 <= k < |cds| && forall j :: 0 <= j < |ann| ==> ann[j].chrom != cds[k].chrom
  {
    ChromsFail(cds, ann);
    CoverFrom(Chroms(cds), cds, ann, Tables([], []))
  }

  /** The driver's loop over the chromosomes, concatenating as it goes. */
  method SplitCcdsByCoverage(cds: seq<Cds>, ann: seq<Ann>) returns (r: Result<Tables, SplitError>)
    ensures r == SplitByCoverage(cds, ann)
  {
    var chroms := Unique(Column(cds, CdsChrom));
    var keep: seq<Segment> := [];
    var del: seq<Segment> := [];
    for i := 0 to |chroms|
      invariant CoverFrom(chroms[i..], cds, ann, Tables(keep, del)) == SplitByCoverage(cds, ann)
    {
      var c := chroms[i];
      assert chroms[i..][1..] == chroms[i + 1..];
      var part := SplitChromLoop(Select(cds, CdsChrom, c), Select(ann, AnnChrom, c));
      if part.Failure? {
        return Failure(part.error);
      }
      keep := keep + part.value.keep;
      del := del + part.value.del;
    }
    assert chroms[|chroms|..] == [];
    return Success(Tables(keep, del));
  }

  /** No annotation lies on chromosome `c`. */
  predicate Unannotated(ann: seq<Ann>, c: string)
  {
    Select(ann, AnnChrom, c) == []
  }

  /** The loop fails exactly when some listed chromosome has no annotation. */
  lemma {:induction false} CoverFromFails(chroms: seq<string>, cds: seq<Cds>, ann: seq<Ann>, t: Tables)
    ensures CoverFrom(chroms, cds, ann, t).Failure? <==>
      exists i :: 0 <= i < |chroms| && Unannotated(ann, chroms[i])
    decreases |chroms|
  {
    if |chroms| > 0 {
      var part := SplitOf(cds, ann, chroms[0]);
      if part.Success? {
        assert !Unannotated(ann, chroms[0]);
        var rest := chroms[1..];
        var next := Tables(t.keep + part.value.keep, t.del + part.value.del);
        assert CoverFrom(chroms, cds, ann, t) == CoverFrom(rest, cds, ann, next);
        CoverFromFails(rest, cds, ann, next);
        SomeUnannotated(ann, chroms);
      } else {
        assert Unannotated(ann, chroms[0]);
      }
    }
  }

  lemma {:induction false} SomeUnannotated(ann: seq<Ann>, chroms: seq<string>)
    requires |chroms| > 0
    ensures (exists i :: 0 <= i < |chroms| && Unannotated(ann, chroms[i])) <==>
      Unannotated(ann, chroms[0]) || exists i :: 0 <= i < |chroms[1..]| && Unannotated(ann, chroms[1..][i])
  {
    var rest := chroms[1..];
    if exists i :: 0 <= i < |chroms| && Unannotated(ann, chroms[i]) {
      var i :| 0 <= i < |chroms| && Unannotated(ann, chroms[i]);
      if i > 0 {
        assert rest[i - 1] == chroms[i];
      }
    }
    if exists i :: 0 <= i < |rest| && Unannotated(ann, rest[i]) {
      var i :| 0 <= i < |rest| && Unannotated(ann, rest[i]);
      assert chroms[i + 1] == rest[i];
    }
  }

  /** A chromosome is listed exactly when some coding region lies on it. */
  lemma {:induction false} ChromsListed(cds: seq<Cds>, c: string)
    ensures c in Chroms(cds) <==> exists k :: 0 <= k < |cds| && cds[k].chrom == c
  {
    var col := Column(cds, CdsChrom);
    UniqueSpec(col);
    if exists k :: 0 <= k < |cds| && cds[k].chrom == c {
      var k :| 0 <= k < |cds| && cds[k].chrom == c;
      assert col[k] in col;
    }
    if c in Chroms(cds) {
      assert c in col;
      var k :| 0 <= k < |col| && col[k] == c;
    }
  }

  /** The loop over the listed chromosomes fails exactly when a coding
      region lies on a chromosome without any annotation. */
  lemma {:induction false} ChromsFail(cds: seq<Cds>, ann: seq<Ann>)
    ensures CoverFrom(Chroms(cds), cds, ann, Tables([], [])).Failure? <==>
      exists k :: 0 <= k < |cds| && forall j :: 0 <= j < |ann| ==> ann[j].chrom != cds[k].chrom
  {
    var chroms := Chroms(cds);
    CoverFromFails(chroms, cds, ann, Tables([], []));
    if exists i :: 0 <= i < |chroms| && Unannotated(ann, chroms[i]) {
      var i :| 0 <= i < |chroms| && Unannotated(ann, chroms[i]);
      SelectEmpty(ann, AnnChrom, chroms[i]);
      ChromsListed(cds, chroms[i]);
      var k :| 0 <= k < |cds| && cds[k].chrom == chroms[i];
      assert forall j :: 0 <= j < |ann| ==> ann[j].chrom != cds[k].chrom;
    }
    if exists k :: 0 <= k < |cds| && forall j :: 0 <= j < |ann| ==> ann[j].chrom != cds[k].chrom {
      var k :| 0 <= k < |cds| && forall j :: 0 <= j < |ann| ==> ann[j].chrom != cds[k].chrom;
      ChromsListed(cds, cds[k].chrom);
      var i :| 0 <= i < |chroms| && chroms[i] == cds[k].chrom;
      SelectEmpty(ann, AnnChrom, chroms[i]);
    }
  }

  /** A chromosome's split contributes exactly its own rows: selecting one
      chromosome from a split is the identity, selecting another is empty. */
  lemma {:induction false} SplitOfSelect(cds: seq<Cds>, ann: seq<Ann>, c0: string, c: string)
    requires SplitOf(cds, ann, c0).Success?
    ensures var part := SplitOf(cds, ann, c0).value;
      Select(part.keep, SegChrom, c) == (if c == c0 then part.keep else [])
      && Select(part.del, SegChrom, c) == (if c == c0 then part.del else [])
  {
    var rows := Select(cds, CdsChrom, c0);
    assert forall k :: 0 <= k < |rows| ==> CdsChrom(rows[k]) == c0;
    SplitChromOnChrom(rows, Select(ann, AnnChrom, c0), c0);
    var part := SplitOf(cds, ann, c0).value;
    assert forall k :: 0 <= k < |part.keep| ==> SegChrom(part.keep[k]) == c0;
    assert forall k :: 0 <= k < |part.del| ==> SegChrom(part.del[k]) == c0;
    if c == c0 {
      SelectAll(part.keep, SegChrom, c);
      SelectAll(part.del, SegChrom, c);
    } else {
      SelectEmpty(part.keep, SegChrom, c);
      SelectEmpty(part.del, SegChrom, c);
    }
  }

  /** Along the loop over distinct chromosomes, one chromosome's rows in
      the result are those before the loop followed by that chromosome's
      own split, if it is listed. */
  lemma {:induction false} CoverFromSelect(chroms: seq<string>, cds: seq<Cds>, ann: seq<Ann>, t: Tables, c: string)
    requires Distinct(chroms)
    requires CoverFrom(chroms, cds, ann, t).Success?
    ensures c in chroms ==> SplitOf(cds, ann, c).Success?
    ensures var out := CoverFrom(chroms, cds, ann, t).value;
      var own := if c in chroms then SplitOf(cds, ann, c).value else Tables([], []);
      Select(out.keep, SegChrom, c) == Select(t.keep, SegChrom, c) + own.keep
      && Select(out.del, SegChrom, c) == Select(t.del, SegChrom, c) + own.del
    decreases |chroms|
  {
    if |chroms| == 0 {
      assert Select(t.keep, SegChrom, c) + [] == Select(t.keep, SegChrom, c);
      assert Select(t.del, SegChrom, c) + [] == Select(t.del, SegChrom, c);
    } else {
      var c0, rest := chroms[0], chroms[1..];
      assert Distinct(rest) by {
        assert forall i :: 0 <= i < |rest| ==> rest[i] == chroms[i + 1];
      }
      assert c in chroms <==> c == c0 || c in rest;
      assert c == c0 ==> c !in rest;
      var part := SplitOf(cds, ann, c0).value;
      var t1 := Tables(t.keep + part.keep, t.del + part.del);
      CoverFromSelect(rest, cds, ann, t1, c);
      SelectAppend(t.keep, part.keep, SegChrom, c);
      SelectAppend(t.del, part.del, SegChrom, c);
      SplitOfSelect(cds, ann, c0, c);
      if c != c0 {
        assert Select(t.keep, SegChrom, c) + [] == Select(t.keep, SegChrom, c);
        assert Select(t.del, SegChrom, c) + [] == Select(t.del, SegChrom, c);
      }
    }
  }

  /** On success, the part of either output table on chromosome `c` is
      that chromosome's own split when a coding region lies on `c`, and
      empty otherwise. */
  lemma {:induction false} SplitByCoveragePerChrom(cds: seq<Cds>, ann: seq<Ann>, c: string)
    requires SplitByCoverage(cds, ann).Success?
    ensures var out := SplitByCoverage(cds, ann).value;
      if exists k :: 0 <= k < |cds| && cds[k].chrom == c then
        SplitOf(cds, ann, c).Success?
        && Select(out.keep, SegChrom, c) == SplitOf(cds, ann, c).value.keep
        && Select(out.del, SegChrom, c) == SplitOf(cds, ann, c).value.del
      else
        Select(out.keep, SegChrom, c) == [] && Select(out.del, SegChrom, c) == []
  {
    var chroms := Chroms(cds);
    assert Distinct(chroms) by {
      UniqueSpec(Column(cds, CdsChrom));
      assert chroms == Unique(Column(cds, CdsChrom));
    }
    ChromsListed(cds, c);
    CoverFromSelect(chroms, cds, ann, Tables([], []), c);
    var empty: seq<Segment> := [];
    assert Select(empty, SegChrom, c) == [];
  }
}
