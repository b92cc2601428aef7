/** `merge_overlapping` of scripts/prep_ref_files.py: one pass over a table
    sorted by (chromosome, start) that merges overlapping rows.

    The pass keeps a running (chrom, start, end) that starts at the sentinel
    ("chr0", 0, 0) and a `keep_list` of flushed [position, chrom, start, end]
    entries.  Afterwards the first entry is popped, the running interval is
    appended, every entry whose start is 0 is discarded, and each survivor
    becomes the row at its position with start and end overwritten.

    `Merged` is that computation as written, `MergeOverlapping` the loop that
    is proved to compute it, and `IdealMerge` an independent definition of
    "merge overlapping intervals" (no sentinel, an empty start state) that
    `Merged` is proved to agree with on well-formed tables. */
module Merge {
  import opened Wrappers
  import opened Strings
  import opened Slices

  /** A table row: chromosome, start, end (both closed) and the other columns. */
  datatype Row<T> = Row(chrom: string, start: int, end: int, data: T)

  /** An entry of `keep_list`: [row position, chromosome, start, end]. */
  datatype Entry = Entry(index: int, chrom: string, start: int, end: int)

  /** The loop variables `chrom`, `start`, `end` and `keep_list`. */
  datatype Acc = Acc(chrom: string, start: int, end: int, keep: seq<Entry>)

  /** The two ways the function raises: `keep_list.pop(0)` on an empty list
      (IndexError), and unpacking the columns of an empty `real_keep_list`
      (ValueError). */
  datatype MergeError = PopFromEmptyList | NothingToUnpack

  /** The values the loop variables start with. */
  const Initial: Acc := Acc("chr0", 0, 0, [])

  // ---------------------------------------------------------------------
  // The computation as written.
  // ---------------------------------------------------------------------

  /** One iteration of the loop, for the row at position `i`. */
  function Step<T>(acc: Acc, i: int, row: Row<T>): Acc
  {
    var a := if StrLess(acc.chrom, row.chrom)
             then Acc(row.chrom, 0, 0, acc.keep + [Entry(i - 1, acc.chrom, acc.start, acc.end)])
             else acc;
    if row.start <= a.end then a.(end := if row.end > a.end then row.end else a.end)
    else Acc(a.chrom, row.start, row.end, a.keep + [Entry(i - 1, row.chrom, a.start, a.end)])
  }

  /** One iteration only appends to the keep list, at most two entries
      and each stamped with the previous position; afterwards the open
      interval is on the row's chromosome if that sorts after the current
      one, and reaches at least to the row's end. */
  lemma {:induction false} StepSpec<T>(acc: Acc, i: int, row: Row<T>)
    ensures var r := Step(acc, i, row);
      acc.keep <= r.keep && |r.keep| <= |acc.keep| + 2
      && (forall k :: |acc.keep| <= k < |r.keep| ==> r.keep[k].index == i - 1)
      && r.chrom == (if StrLess(acc.chrom, row.chrom) then row.chrom else acc.chrom)
      && r.end >= row.end
  {
  }

  /** The loop variables after the loop has seen all of `rows`. */
  function Scan<T>(rows: seq<Row<T>>): Acc
    decreases |rows|
  {
    if |rows| == 0 then Initial
    else Step(Scan(rows[..|rows| - 1]), |rows| - 1, rows[|rows| - 1])
  }

  /** The entries whose start is not 0, in order. */
  function NonZero(es: seq<Entry>): (r: seq<Entry>)
    ensures forall k :: 0 <= k < |r| ==> r[k].start != 0 && r[k] in es
    ensures forall e :: e in es && e.start != 0 ==> e in r
    decreases |es|
  {
    if |es| == 0 then []
    else
      var p, e := es[..|es| - 1], es[|es| - 1];
      assert es == p + [e];
      NonZero(p) + (if e.start != 0 then [e] else [])
  }

  /** `keep_list` after the pop and the final append. */
  function Flushed<T>(rows: seq<Row<T>>): seq<Entry>
    requires Scan(rows).keep != []
  {
    var acc := Scan(rows);
    acc.keep[1..] + [Entry(|rows| - 1, acc.chrom, acc.start, acc.end)]
  }

  /** `df.iloc[index]` with the start and end columns overwritten. */
  function Rebuilt<T>(rows: seq<Row<T>>, e: Entry): Row<T>
    requires 0 <= e.index < |rows|
  {
    rows[e.index].(start := e.start, end := e.end)
  }

  function Rebuild<T>(rows: seq<Row<T>>, es: seq<Entry>): (out: seq<Row<T>>)
    requires forall k :: 0 <= k < |es| ==> 0 <= es[k].index < |rows|
    ensures |out| == |es|
    ensures forall k :: 0 <= k < |es| ==> out[k] == Rebuilt(rows, es[k])
  {
    seq(|es|, k requires 0 <= k < |es| => Rebuilt(rows, es[k]))
  }

  /** Every entry the loop flushes points at the row before the current one,
      and the entries flushed for the very first row, whose position is -1,
      all have start 0. */
  lemma {:induction false} ScanIndices<T>(rows: seq<Row<T>>)
    ensures forall e :: e in Scan(rows).keep ==>
      -1 <= e.index <= |rows| - 2 && (e.index < 0 ==> e.start == 0)
    ensures rows == [] ==> Scan(rows).keep == []
    decreases |rows|
  {
    if |rows| > 0 {
      ScanIndices(rows[..|rows| - 1]);
    }
  }

  /** `merge_overlapping(df, ...)` as written. */
  function Merged<T>(rows: seq<Row<T>>): (r: Result<seq<Row<T>>, MergeError>)
    ensures r.Success? ==> |r.value| > 0
    ensures r.Success? ==> forall k :: 0 <= k < |r.value| ==> r.value[k].start != 0
  {
    var acc := Scan(rows);
    if acc.keep == [] then Failure(PopFromEmptyList)
    else
      var survivors := NonZero(Flushed(rows));
      if survivors == [] then Failure(NothingToUnpack)
      else
        ScanIndices(rows);
        assert forall k :: 0 <= k < |survivors| ==> 0 <= survivors[k].index < |rows|;
        Success(Rebuild(rows, survivors))
  }

  /** The loop of `merge_overlapping`: it returns what `Merged` describes. */
  method MergeOverlapping<T>(rows: seq<Row<T>>) returns (r: Result<seq<Row<T>>, MergeError>)
    ensures r == Merged(rows)
  {
    var start, end, chrom := 0, 0, "chr0";
    var keepList: seq<Entry> := [];
    for i := 0 to |rows|
      invariant Scan(rows[..i]) == Acc(chrom, start, end, keepList)
    {
      var row := rows[i];
      PrefixSnoc(rows, i);
      ScanSnoc(rows[..i], row);
      if StrLess(chrom, row.chrom) {
        keepList := keepList + [Entry(i - 1, chrom, start, end)];
        start, end := 0, 0;
        chrom := row.chrom;
      }
      if row.start <= end {
        if row.end > end {
          end := row.end;
        }
      } else {
        keepList := keepList + [Entry(i - 1, row.chrom, start, end)];
        start, end := row.start, row.end;
      }
    }
    assert rows[..|rows|] == rows;
    if keepList == [] {
      return Failure(PopFromEmptyList);
    }
    keepList := keepList[1..];
    keepList := keepList + [Entry(|rows| - 1, chrom, start, end)];
    var realKeep: seq<Entry> := [];
    for j := 0 to |keepList|
      invariant realKeep == NonZero(keepList[..j])
    {
      PrefixSnoc(keepList, j);
      NonZeroAppend(keepList[..j], keepList[j]);
      if keepList[j].start != 0 {
        realKeep := realKeep + [keepList[j]];
      }
    }
    assert keepList[..|keepList|] == keepList;
    if realKeep == [] {
      return Failure(NothingToUnpack);
    }
    ScanIndices(rows);
    r := Success(Rebuild(rows, realKeep));
  }

  // ---------------------------------------------------------------------
  // Well-formed tables and the reference merge.
  // ---------------------------------------------------------------------

  /** Row `a` may precede row `b` in a table sorted by (chrom, start). */
  predicate InOrder<T>(a: Row<T>, b: Row<T>)
  {
    StrLess(a.chrom, b.chrom) || (a.chrom == b.chrom && a.start <= b.start)
  }

  /** Row `a` lies wholly before row `b`, on an earlier chromosome or with a
      gap between them. */
  predicate Apart<T>(a: Row<T>, b: Row<T>)
  {
    StrLess(a.chrom, b.chrom) || (a.chrom == b.chrom && a.end < b.start)
  }

  predicate Sorted<T>(rows: seq<Row<T>>)
  {
    forall k :: 0 < k < |rows| ==> InOrder(rows[k - 1], rows[k])
  }

  predicate Separated<T>(rows: seq<Row<T>>)
  {
    forall k :: 0 < k < |rows| ==> Apart(rows[k - 1], rows[k])
  }

  /** Every row lies wholly before every later row. */
  predicate PairwiseApart<T>(rows: seq<Row<T>>)
  {
    forall i, j :: 0 <= i < j < |rows| ==> Apart(rows[i], rows[j])
  }

  /** A row on a chromosome whose label sorts after "chr0", with genomic
      coordinates that start at 1 or later. */
  predicate Genuine<T>(r: Row<T>)
  {
    StrLess("chr0", r.chrom) && 0 < r.start <= r.end
  }

  /** The tables `merge_overlapping` is given: sorted, and every row genuine. */
  predicate WellFormed<T>(rows: seq<Row<T>>)
  {
    Sorted(rows) && forall k :: 0 <= k < |rows| ==> Genuine(rows[k])
  }

  /** Position `p` of chromosome `c` lies in some row. */
  ghost predicate Covers<T>(rows: seq<Row<T>>, c: string, p: int)
  {
    exists k :: 0 <= k < |rows| && rows[k].chrom == c && rows[k].start <= p <= rows[k].end
  }

  /** Row `x` starts inside the last merged row `last`. */
  predicate Overlaps<T>(last: Row<T>, x: Row<T>)
  {
    last.chrom == x.chrom && x.start <= last.end
  }

  /** `last` extended by `x`: the group's start, the larger of the two ends,
      and the other columns of `x`. */
  function Extend<T>(last: Row<T>, x: Row<T>): Row<T>
  {
    x.(start := last.start, end := if x.end > last.end then x.end else last.end)
  }

  /** Adds one row to the rows merged so far. */
  function MergeInto<T>(m: seq<Row<T>>, x: Row<T>): seq<Row<T>>
  {
    if |m| > 0 && Overlaps(m[|m| - 1], x) then m[..|m| - 1] + [Extend(m[|m| - 1], x)]
    else m + [x]
  }

  /** Merging overlapping rows with an empty start state: a row that starts at
      or before the end of the last merged row of its chromosome extends it,
      any other row starts a new one. */
  function IdealMerge<T>(rows: seq<Row<T>>): seq<Row<T>>
    decreases |rows|
  {
    if |rows| == 0 then [] else MergeInto(IdealMerge(rows[..|rows| - 1]), rows[|rows| - 1])
  }

  lemma {:induction false} IdealMergeSnoc<T>(p: seq<Row<T>>, x: Row<T>)
    ensures IdealMerge(p + [x]) == MergeInto(IdealMerge(p), x)
  {
    assert (p + [x])[..|p|] == p;
  }

  lemma {:induction false} ScanSnoc<T>(p: seq<Row<T>>, x: Row<T>)
    ensures Scan(p + [x]) == Step(Scan(p), |p|, x)
  {
    assert (p + [x])[..|p|] == p;
  }

  lemma {:induction false} WellFormedPrefix<T>(p: seq<Row<T>>, x: Row<T>)
    requires WellFormed(p + [x])
    ensures WellFormed(p)
    ensures Genuine(x)
    ensures |p| > 0 ==> InOrder(p[|p| - 1], x)
  {
    var r := p + [x];
    assert forall k :: 0 <= k < |p| ==> r[k] == p[k];
    assert r[|p|] == x;
    if |p| > 0 {
      assert InOrder(r[|p| - 1], r[|p|]);
    }
  }

  // ---------------------------------------------------------------------
  // The computation as written agrees with the reference merge.
  // ---------------------------------------------------------------------

  /** Each entry points into `rows`, and rebuilding the entries gives `m`. */
  ghost predicate Describes<T>(rows: seq<Row<T>>, es: seq<Entry>, m: seq<Row<T>>)
  {
    |es| == |m|
    && forall k :: 0 <= k < |es| ==> 0 <= es[k].index < |rows| && Rebuilt(rows, es[k]) == m[k]
  }

  /** The entries the computation would output after the loop has seen
      `rows`: the surviving flushed entries, then the running interval. */
  function Pending<T>(rows: seq<Row<T>>, acc: Acc): seq<Entry>
    requires |acc.keep| >= 1
  {
    NonZero(acc.keep[1..]) + [Entry(|rows| - 1, acc.chrom, acc.start, acc.end)]
  }

  /** How the loop variables after `rows` describe `IdealMerge(rows)`. */
  ghost predicate Tracks<T>(rows: seq<Row<T>>, acc: Acc)
  {
    |rows| > 0 && |acc.keep| >= 1 && acc.keep[0] == Entry(-1, "chr0", 0, 0) && acc.start > 0
    && acc.chrom == rows[|rows| - 1].chrom
    && Describes(rows, Pending(rows, acc), IdealMerge(rows))
  }

  lemma {:induction false} NonZeroAppend(es: seq<Entry>, e: Entry)
    ensures NonZero(es + [e]) == NonZero(es) + (if e.start != 0 then [e] else [])
  {
    assert (es + [e])[..|es|] == es;
  }

  lemma {:induction false} DescribesSnoc<T>(p: seq<Row<T>>, x: Row<T>, es: seq<Entry>, m: seq<Row<T>>)
    requires Describes(p, es, m)
    ensures Describes(p + [x], es, m)
  {
    forall k | 0 <= k < |es| ensures Rebuilt(p + [x], es[k]) == m[k] {
      assert (p + [x])[es[k].index] == p[es[k].index];
    }
  }

  lemma {:induction false} DescribesAppend<T>(rows: seq<Row<T>>, es: seq<Entry>, m: seq<Row<T>>, e: Entry, y: Row<T>)
    requires Describes(rows, es, m)
    requires 0 <= e.index < |rows| && Rebuilt(rows, e) == y
    ensures Describes(rows, es + [e], m + [y])
  {
    forall k | 0 <= k < |es| + 1
      ensures 0 <= (es + [e])[k].index < |rows| && Rebuilt(rows, (es + [e])[k]) == (m + [y])[k]
    {
      if k < |es| {
        assert (es + [e])[k] == es[k] && (m + [y])[k] == m[k];
      }
    }
  }

  lemma {:induction false} DescribesInit<T>(rows: seq<Row<T>>, es: seq<Entry>, e: Entry, m: seq<Row<T>>)
    requires Describes(rows, es + [e], m)
    ensures |m| > 0 && Describes(rows, es, m[..|m| - 1])
    ensures 0 <= e.index < |rows| && m[|m| - 1] == Rebuilt(rows, e)
  {
    assert (es + [e])[|es|] == e;
    forall k | 0 <= k < |es| ensures 0 <= es[k].index < |rows| && Rebuilt(rows, es[k]) == m[..|m| - 1][k] {
      assert (es + [e])[k] == es[k];
    }
  }

  lemma {:induction false} TracksFirst<T>(x: Row<T>)
    requires StrLess("chr0", x.chrom) && 0 < x.start
    ensures Tracks([x], Scan([x]))
  {
    assert [] + [x] == [x];
    ScanSnoc([], x);
    IdealMergeSnoc([], x);
    var acc := Scan([x]);
    var z := Entry(-1, x.chrom, 0, 0);
    assert acc == Acc(x.chrom, x.start, x.end, [Entry(-1, "chr0", 0, 0), z]);
    assert acc.keep[1..] == [] + [z];
    NonZeroAppend([], z);
    assert Pending([x], acc) == [Entry(0, x.chrom, x.start, x.end)];
  }

  /** A row that does not extend the running interval starts a new group:
      whatever the loop flushed for it, the surviving entries gain the old
      running interval and the running interval becomes the row. */
  lemma {:induction false} TracksNewGroup<T>(p: seq<Row<T>>, x: Row<T>, keep: seq<Entry>)
    requires Tracks(p, Scan(p)) && 0 < x.start
    requires !Overlaps(IdealMerge(p)[|IdealMerge(p)| - 1], x)
    requires |keep| >= 1 && keep[0] == Entry(-1, "chr0", 0, 0)
    requires NonZero(keep[1..]) == Pending(p, Scan(p))
    requires Scan(p + [x]) == Acc(x.chrom, x.start, x.end, keep)
    ensures Tracks(p + [x], Scan(p + [x]))
  {
    var m := IdealMerge(p);
    IdealMergeSnoc(p, x);
    assert IdealMerge(p + [x]) == m + [x];
    var e := Entry(|p|, x.chrom, x.start, x.end);
    assert Pending(p + [x], Scan(p + [x])) == Pending(p, Scan(p)) + [e];
    DescribesSnoc(p, x, Pending(p, Scan(p)), m);
    DescribesAppend(p + [x], Pending(p, Scan(p)), m, e, x);
  }

  /** A row on a later chromosome flushes the running interval and a zero
      entry, then starts a new group. */
  lemma {:induction false} TracksNewChrom<T>(p: seq<Row<T>>, x: Row<T>)
    requires Tracks(p, Scan(p)) && 0 < x.start
    requires StrLess(Scan(p).chrom, x.chrom)
    ensures Tracks(p + [x], Scan(p + [x]))
  {
    var n, a := |p|, Scan(p);
    var l := Entry(n - 1, a.chrom, a.start, a.end);
    var z := Entry(n - 1, x.chrom, 0, 0);
    var keep := a.keep + [l] + [z];
    assert Scan(p + [x]) == Acc(x.chrom, x.start, x.end, keep) by {
      ScanSnoc(p, x);
      StepNewChrom(a, n, x);
    }
    assert NonZero(keep[1..]) == Pending(p, a) by {
      TailAppend(a.keep, [l] + [z]);
      assert keep == a.keep + ([l] + [z]);
      assert a.keep[1..] + ([l] + [z]) == (a.keep[1..] + [l]) + [z];
      NonZeroAppend(a.keep[1..] + [l], z);
      NonZeroAppend(a.keep[1..], l);
    }
    assert !Overlaps(IdealMerge(p)[|IdealMerge(p)| - 1], x) by {
      DescribesInit(p, NonZero(a.keep[1..]), l, IdealMerge(p));
      StrLessIrreflexive(x.chrom);
    }
    TracksNewGroup(p, x, keep);
  }

  /** The step for a row on a later chromosome. */
  lemma {:induction false} StepNewChrom<T>(a: Acc, n: int, x: Row<T>)
    requires StrLess(a.chrom, x.chrom) && 0 < x.start
    ensures Step(a, n, x)
      == Acc(x.chrom, x.start, x.end,
             a.keep + [Entry(n - 1, a.chrom, a.start, a.end)] + [Entry(n - 1, x.chrom, 0, 0)])
  {
  }

  /** A row of the same chromosome that starts after the running interval
      flushes it and starts a new group. */
  lemma {:induction false} TracksGap<T>(p: seq<Row<T>>, x: Row<T>)
    requires Tracks(p, Scan(p)) && 0 < x.start
    requires Scan(p).chrom == x.chrom && x.start > Scan(p).end
    ensures Tracks(p + [x], Scan(p + [x]))
  {
    var n, a := |p|, Scan(p);
    var l := Entry(n - 1, a.chrom, a.start, a.end);
    ScanSnoc(p, x);
    StrLessIrreflexive(x.chrom);
    var keep := a.keep + [l];
    assert Scan(p + [x]) == Acc(x.chrom, x.start, x.end, keep);
    assert keep[1..] == a.keep[1..] + [l];
    NonZeroAppend(a.keep[1..], l);
    DescribesInit(p, NonZero(a.keep[1..]), l, IdealMerge(p));
    TracksNewGroup(p, x, keep);
  }

  /** A row that starts inside the running interval extends it. */
  lemma {:induction false} TracksExtend<T>(p: seq<Row<T>>, x: Row<T>)
    requires Tracks(p, Scan(p))
    requires Scan(p).chrom == x.chrom && x.start <= Scan(p).end
    ensures Tracks(p + [x], Scan(p + [x]))
  {
    var n, a := |p|, Scan(p);
    var es := NonZero(a.keep[1..]);
    var l := Entry(n - 1, a.chrom, a.start, a.end);
    var m := IdealMerge(p);
    ScanSnoc(p, x);
    IdealMergeSnoc(p, x);
    StrLessIrreflexive(a.chrom);
    var acc := Scan(p + [x]);
    var hi := if x.end > a.end then x.end else a.end;
    assert acc == a.(end := hi);
    DescribesInit(p, es, l, m);
    var y := Extend(m[|m| - 1], x);
    assert IdealMerge(p + [x]) == m[..|m| - 1] + [y];
    assert Pending(p + [x], acc) == es + [Entry(n, a.chrom, a.start, hi)];
    DescribesSnoc(p, x, es, m[..|m| - 1]);
    DescribesAppend(p + [x], es, m[..|m| - 1], Entry(n, a.chrom, a.start, hi), y);
  }

  lemma {:induction false} ScanTracks<T>(rows: seq<Row<T>>)
    requires |rows| > 0 && WellFormed(rows)
    ensures Tracks(rows, Scan(rows))
    decreases |rows|
  {
    var p, x := rows[..|rows| - 1], rows[|rows| - 1];
    assert rows == p + [x];
    WellFormedPrefix(p, x);
    if |p| == 0 {
      assert rows == [x];
      TracksFirst(x);
    } else {
      ScanTracks(p);
      var a := Scan(p);
      if StrLess(a.chrom, x.chrom) {
        TracksNewChrom(p, x);
      } else if a.chrom == x.chrom && x.start > a.end {
        TracksGap(p, x);
      } else {
        StrLessTrichotomy(a.chrom, x.chrom);
        if StrLess(x.chrom, a.chrom) {
          StrLessAsymmetric(x.chrom, a.chrom);
        }
        TracksExtend(p, x);
      }
    }
  }

  /** On a well-formed table the function as written returns the reference
      merge: the sentinel and the zero entries are all discarded, and no
      genuine interval is lost. */
  lemma {:induction false} MergedIsIdealMerge<T>(rows: seq<Row<T>>)
    requires |rows| > 0 && WellFormed(rows)
    ensures Merged(rows) == Success(IdealMerge(rows))
  {
    ScanTracks(rows);
    var acc := Scan(rows);
    var last := Entry(|rows| - 1, acc.chrom, acc.start, acc.end);
    NonZeroAppend(acc.keep[1..], last);
    assert NonZero(Flushed(rows)) == Pending(rows, acc);
    var m := IdealMerge(rows);
    assert Rebuild(rows, Pending(rows, acc)) == m;
  }

  // ---------------------------------------------------------------------
  // What the reference merge guarantees.
  // ---------------------------------------------------------------------

  /** The last merged row belongs to the last row's chromosome and starts no
      later than that row. */
  lemma {:induction false} IdealMergeLast<T>(rows: seq<Row<T>>)
    requires WellFormed(rows)
    ensures var m := IdealMerge(rows);
      (|m| > 0 <==> |rows| > 0)
      && (|rows| > 0 ==>
            m[|m| - 1].chrom == rows[|rows| - 1].chrom && m[|m| - 1].start <= rows[|rows| - 1].start)
    decreases |rows|
  {
    if |rows| > 0 {
      var p, x := rows[..|rows| - 1], rows[|rows| - 1];
      assert rows == p + [x];
      WellFormedPrefix(p, x);
      IdealMergeLast(p);
      IdealMergeSnoc(p, x);
      var m := IdealMerge(p);
      if |m| > 0 && Overlaps(m[|m| - 1], x) {
        StrLessIrreflexive(x.chrom);
      }
    }
  }

  lemma {:induction false} MergeIntoGenuine<T>(m: seq<Row<T>>, x: Row<T>)
    requires forall k :: 0 <= k < |m| ==> Genuine(m[k])
    requires Genuine(x)
    ensures var r := MergeInto(m, x); forall k :: 0 <= k < |r| ==> Genuine(r[k])
  {
    var r := MergeInto(m, x);
    forall k | 0 <= k < |r| ensures Genuine(r[k]) {
      if k < |m| - 1 || !(|m| > 0 && Overlaps(m[|m| - 1], x)) {
        if k < |m| {
          assert r[k] == m[k];
        }
      }
    }
  }

  /** Every merged row is a nonempty interval of a real chromosome that
      starts at 1 or later. */
  lemma {:induction false} IdealMergeBounds<T>(rows: seq<Row<T>>)
    requires WellFormed(rows)
    ensures var m := IdealMerge(rows); forall k :: 0 <= k < |m| ==> Genuine(m[k])
    decreases |rows|
  {
    if |rows| > 0 {
      var p, x := rows[..|rows| - 1], rows[|rows| - 1];
      assert rows == p + [x];
      WellFormedPrefix(p, x);
      IdealMergeBounds(p);
      IdealMergeSnoc(p, x);
      MergeIntoGenuine(IdealMerge(p), x);
    }
  }

  /** Consecutive merged rows of one chromosome leave a gap
      (`next.start > prev.end`), and chromosomes appear in ascending order. */
  lemma {:induction false} IdealMergeSeparated<T>(rows: seq<Row<T>>)
    requires WellFormed(rows)
    ensures Separated(IdealMerge(rows))
    decreases |rows|
  {
    if |rows| > 0 {
      var p, x := rows[..|rows| - 1], rows[|rows| - 1];
      assert rows == p + [x];
      WellFormedPrefix(p, x);
      IdealMergeSeparated(p);
      IdealMergeLast(p);
      IdealMergeSnoc(p, x);
      var m := IdealMerge(p);
      if |m| > 0 {
        var last := m[|m| - 1];
        if Overlaps(last, x) {
          var r := m[..|m| - 1] + [Extend(last, x)];
          forall k | 0 < k < |r| ensures Apart(r[k - 1], r[k]) {
            assert r[k - 1] == m[k - 1];
            if k < |r| - 1 {
              assert r[k] == m[k];
            } else {
              assert Apart(m[k - 1], m[k]);
            }
          }
        } else {
          assert Apart(last, x);
          var r := m + [x];
          forall k | 0 < k < |r| ensures Apart(r[k - 1], r[k]) {
            assert r[k - 1] == m[k - 1];
          }
        }
      }
    }
  }

  /** Separated rows whose starts do not pass their ends are apart
      pairwise, not only neighbour by neighbour. */
  lemma {:induction false} SeparatedIsPairwise<T>(rows: seq<Row<T>>)
    requires Separated(rows)
    requires forall k :: 0 <= k < |rows| ==> rows[k].start <= rows[k].end
    ensures PairwiseApart(rows)
  {
    forall i, j | 0 <= i < j < |rows| ensures Apart(rows[i], rows[j]) {
      ApartUpTo(rows, i, j);
    }
  }

  lemma {:induction false} ApartUpTo<T>(rows: seq<Row<T>>, i: int, j: int)
    requires Separated(rows)
    requires forall k :: 0 <= k < |rows| ==> rows[k].start <= rows[k].end
    requires 0 <= i < j < |rows|
    ensures Apart(rows[i], rows[j])
    decreases j - i
  {
    if i + 1 < j {
      ApartUpTo(rows, i, j - 1);
      var a, b, c := rows[i], rows[j - 1], rows[j];
      assert Apart(b, c);
      if StrLess(a.chrom, b.chrom) && StrLess(b.chrom, c.chrom) {
        StrLessTransitive(a.chrom, b.chrom, c.chrom);
      }
    }
  }

  lemma {:induction false} CoversAppend<T>(s: seq<Row<T>>, y: Row<T>, c: string, p: int)
    ensures Covers(s + [y], c, p) <==> Covers(s, c, p) || (y.chrom == c && y.start <= p <= y.end)
  {
    var t := s + [y];
    assert forall k :: 0 <= k < |s| ==> t[k] == s[k];
    assert t[|s|] == y;
  }

  /** The merged rows cover exactly the positions the input rows cover. */
  lemma {:induction false} IdealMergeCovers<T>(rows: seq<Row<T>>, c: string, pos: int)
    requires WellFormed(rows)
    ensures Covers(IdealMerge(rows), c, pos) <==> Covers(rows, c, pos)
    decreases |rows|
  {
    if |rows| > 0 {
      var p, x := rows[..|rows| - 1], rows[|rows| - 1];
      assert rows == p + [x];
      WellFormedPrefix(p, x);
      IdealMergeCovers(p, c, pos);
      IdealMergeSnoc(p, x);
      CoversAppend(p, x, c, pos);
      var m := IdealMerge(p);
      if |m| > 0 && Overlaps(m[|m| - 1], x) {
        IdealMergeLast(p);
        StrLessIrreflexive(x.chrom);
        var last := m[|m| - 1];
        var init := m[..|m| - 1];
        assert m == init + [last];
        CoversAppend(init, last, c, pos);
        CoversAppend(init, Extend(last, x), c, pos);
      } else {
        CoversAppend(m, x, c, pos);
      }
    }
  }

  /** A table that is already separated is its own merge. */
  lemma {:induction false} IdealMergeOfSeparated<T>(rows: seq<Row<T>>)
    requires Separated(rows)
    ensures IdealMerge(rows) == rows
    decreases |rows|
  {
    if |rows| > 0 {
      var p, x := rows[..|rows| - 1], rows[|rows| - 1];
      assert rows == p + [x];
      assert Separated(p) by {
        assert forall k :: 0 <= k < |p| ==> p[k] == rows[k];
      }
      IdealMergeOfSeparated(p);
      IdealMergeSnoc(p, x);
      if |p| > 0 {
        assert Apart(rows[|p| - 1], rows[|p|]);
        StrLessIrreflexive(x.chrom);
      }
    }
  }

  /** Row `y` is input row `j` with only its bounds changed, and the input
      row after position `j`, if any, lies wholly after `y`. */
  ghost predicate GroupEnd<T>(rows: seq<Row<T>>, j: int, y: Row<T>)
  {
    0 <= j < |rows| && y == rows[j].(start := y.start, end := y.end)
    && (j + 1 < |rows| ==> Apart(y, rows[j + 1]))
  }

  /** For each merged row, the position of the last input row of its group. */
  ghost function GroupEnds<T>(rows: seq<Row<T>>): seq<int>
    decreases |rows|
  {
    if |rows| == 0 then []
    else
      var p, x := rows[..|rows| - 1], rows[|rows| - 1];
      var m, g := IdealMerge(p), GroupEnds(p);
      if |m| > 0 && Overlaps(m[|m| - 1], x) && |g| > 0 then g[..|g| - 1] + [|p|] else g + [|p|]
  }

  /** `g` gives, for each row of `m`, the last input row of its group: the
      positions increase, the last is the last input row, and each is a
      group end. */
  ghost predicate GroupsOf<T>(rows: seq<Row<T>>, m: seq<Row<T>>, g: seq<int>)
  {
    |g| == |m|
    && (|rows| > 0 ==> |g| > 0 && g[|g| - 1] == |rows| - 1)
    && (forall k :: 0 < k < |g| ==> g[k - 1] < g[k])
    && (forall k :: 0 <= k < |g| ==> GroupEnd(rows, g[k], m[k]))
  }

  /** A row that starts a new group ends the previous group. */
  lemma {:induction false} GroupsOfNewGroup<T>(p: seq<Row<T>>, x: Row<T>, m: seq<Row<T>>, g: seq<int>)
    requires GroupsOf(p, m, g)
    requires |p| > 0 ==> Apart(m[|m| - 1], x)
    ensures GroupsOf(p + [x], m + [x], g + [|p|])
  {
    var rows, out, h := p + [x], m + [x], g + [|p|];
    forall k | 0 <= k < |h| ensures GroupEnd(rows, h[k], out[k]) {
      if k < |g| {
        assert h[k] == g[k] && out[k] == m[k] && GroupEnd(p, g[k], m[k]);
        assert rows[g[k]] == p[g[k]];
        if g[k] + 1 < |p| {
          assert rows[g[k] + 1] == p[g[k] + 1];
        } else if k < |g| - 1 {
          GroupsIncrease(g, k, |g| - 1);
        }
      }
    }
  }

  /** A row that extends the last group becomes that group's end. */
  lemma {:induction false} GroupsOfExtend<T>(p: seq<Row<T>>, x: Row<T>, m: seq<Row<T>>, g: seq<int>)
    requires GroupsOf(p, m, g) && |m| > 0
    ensures GroupsOf(p + [x], m[..|m| - 1] + [Extend(m[|m| - 1], x)], g[..|g| - 1] + [|p|])
  {
    var rows, out, h := p + [x], m[..|m| - 1] + [Extend(m[|m| - 1], x)], g[..|g| - 1] + [|p|];
    forall k | 0 <= k < |h| ensures GroupEnd(rows, h[k], out[k]) {
      if k < |g| - 1 {
        assert h[k] == g[k] && out[k] == m[k] && GroupEnd(p, g[k], m[k]);
        assert g[k] < g[|g| - 1] by {
          GroupsIncrease(g, k, |g| - 1);
        }
        assert rows[g[k]] == p[g[k]] && rows[g[k] + 1] == p[g[k] + 1];
      }
    }
  }

  lemma {:induction false} GroupsIncrease(g: seq<int>, i: int, j: int)
    requires forall k :: 0 < k < |g| ==> g[k - 1] < g[k]
    requires 0 <= i < j < |g|
    ensures g[i] < g[j]
    decreases j - i
  {
    if i + 1 < j {
      GroupsIncrease(g, i, j - 1);
    }
  }

  /** Every merged row takes its other columns from the last input row of its
      group, these rows come in input order, the last group ends with the last
      input row, and the input row after each group lies wholly after it. */
  lemma {:induction false} IdealMergeKeepsLastRow<T>(rows: seq<Row<T>>)
    requires WellFormed(rows)
    ensures GroupsOf(rows, IdealMerge(rows), GroupEnds(rows))
    decreases |rows|
  {
    if |rows| > 0 {
      var p, x := rows[..|rows| - 1], rows[|rows| - 1];
      assert rows == p + [x];
      WellFormedPrefix(p, x);
      IdealMergeKeepsLastRow(p);
      IdealMergeLast(p);
      IdealMergeSnoc(p, x);
      var m, g := IdealMerge(p), GroupEnds(p);
      if |m| > 0 && Overlaps(m[|m| - 1], x) {
        GroupsOfExtend(p, x, m, g);
      } else {
        if |p| > 0 {
          StrLessIrreflexive(x.chrom);
          assert Apart(m[|m| - 1], x);
        }
        GroupsOfNewGroup(p, x, m, g);
      }
    }
  }

  /** Merging a merged table changes nothing. */
  lemma {:induction false} MergedIdempotent<T>(rows: seq<Row<T>>)
    requires |rows| > 0 && WellFormed(rows)
    ensures Merged(rows).Success?
    ensures Merged(Merged(rows).value) == Merged(rows)
  {
    MergedIsIdealMerge(rows);
    var m := IdealMerge(rows);
    IdealMergeLast(rows);
    IdealMergeBounds(rows);
    IdealMergeSeparated(rows);
    assert WellFormed(m) by {
      forall k | 0 < k < |m| ensures InOrder(m[k - 1], m[k]) {
        assert Apart(m[k - 1], m[k]);
      }
    }
    MergedIsIdealMerge(m);
    IdealMergeOfSeparated(m);
  }

  /** On a well-formed table the function as written succeeds, its rows are
      separated, cover exactly the positions the input covers, and each is
      the last input row of its group with the group's bounds. */
  lemma {:induction false} MergedSound<T>(rows: seq<Row<T>>, c: string, pos: int)
    requires |rows| > 0 && WellFormed(rows)
    ensures Merged(rows).Success?
    ensures Separated(Merged(rows).value) && PairwiseApart(Merged(rows).value)
    ensures Covers(Merged(rows).value, c, pos) <==> Covers(rows, c, pos)
    ensures GroupsOf(rows, Merged(rows).value, GroupEnds(rows))
  {
    MergedIsIdealMerge(rows);
    IdealMergeSeparated(rows);
    IdealMergeBounds(rows);
    SeparatedIsPairwise(IdealMerge(rows));
    IdealMergeCovers(rows, c, pos);
    IdealMergeKeepsLastRow(rows);
  }

  /** Whatever the input, every row the function as written returns is an
      input row with only its start and end replaced. */
  lemma {:induction false} MergedRowsFromInput<T>(rows: seq<Row<T>>)
    ensures var r := Merged(rows);
      r.Success? ==> forall k :: 0 <= k < |r.value| ==>
        exists j :: 0 <= j < |rows| && r.value[k] == rows[j].(start := r.value[k].start, end := r.value[k].end)
  {
    var r := Merged(rows);
    if r.Success? {
      var survivors := NonZero(Flushed(rows));
      ScanIndices(rows);
      forall k | 0 <= k < |r.value|
        ensures exists j :: 0 <= j < |rows| && r.value[k] == rows[j].(start := r.value[k].start, end := r.value[k].end)
      {
        var j := survivors[k].index;
        assert r.value[k] == Rebuilt(rows, survivors[k]);
      }
    }
  }

  lemma {:induction false} CoversSubset<T>(a: seq<Row<T>>, b: seq<Row<T>>, c: string, p: int)
    requires forall k :: 0 <= k < |a| ==> a[k] in b
    requires Covers(a, c, p)
    ensures Covers(b, c, p)
  {
    var k :| 0 <= k < |a| && a[k].chrom == c && a[k].start <= p <= a[k].end;
    var j :| 0 <= j < |b| && b[j] == a[k];
  }

  /** Coverage does not depend on the order of the rows. */
  lemma {:induction false} CoversPermutation<T>(a: seq<Row<T>>, b: seq<Row<T>>, c: string, p: int)
    requires multiset(a) == multiset(b)
    ensures Covers(a, c, p) <==> Covers(b, c, p)
  {
    forall k | 0 <= k < |a| ensures a[k] in b {
      assert a[k] in multiset(b);
    }
    forall k | 0 <= k < |b| ensures b[k] in a {
      assert b[k] in multiset(a);
    }
    if Covers(a, c, p) {
      CoversSubset(a, b, c, p);
    }
    if Covers(b, c, p) {
      CoversSubset(b, a, c, p);
    }
  }

  // ---------------------------------------------------------------------
  // Behaviour outside well-formed input.
  // ---------------------------------------------------------------------

  /** A genuine interval that starts at position 0 is merged into the
      sentinel and discarded with it. */
  lemma {:induction false} ZeroStartIntervalDropped<T>(d: T)
    ensures Merged([Row("chr1", 0, 5, d), Row("chr1", 10, 20, d)])
         == Success([Row("chr1", 10, 20, d)])
  {
    var r0, r1 := Row("chr1", 0, 5, d), Row("chr1", 10, 20, d);
    var e2 := Entry(1, "chr1", 10, 20);
    ZeroStartScan(d);
    ZeroStartSurvivors();
    MergedOf([r0, r1], [e2]);
    RebuildOne([r0, r1], e2);
    assert Rebuilt([r0, r1], e2) == r1;
  }

  /** Of the two flushed entries of the example, the one at 0 is dropped. */
  lemma {:induction false} ZeroStartSurvivors()
    ensures NonZero([Entry(0, "chr1", 0, 5)] + [Entry(1, "chr1", 10, 20)]) == [Entry(1, "chr1", 10, 20)]
  {
    var e1, e2 := Entry(0, "chr1", 0, 5), Entry(1, "chr1", 10, 20);
    NonZeroAppend([e1], e2);
    assert [] + [e1] == [e1];
    NonZeroAppend([], e1);
  }

  lemma {:induction false} RebuildOne<T>(rows: seq<Row<T>>, e: Entry)
    requires 0 <= e.index < |rows|
    ensures Rebuild(rows, [e]) == [Rebuilt(rows, e)]
  {
  }

  /** The loop of the example above: the interval at 0 extends the
      sentinel, which is popped, and the second interval is flushed last. */
  lemma {:induction false} ZeroStartScan<T>(d: T)
    ensures var rows := [Row("chr1", 0, 5, d), Row("chr1", 10, 20, d)];
      Scan(rows).keep != [] && Flushed(rows) == [Entry(0, "chr1", 0, 5)] + [Entry(1, "chr1", 10, 20)]
  {
    var r0, r1 := Row("chr1", 0, 5, d), Row("chr1", 10, 20, d);
    assert StrLess("chr0", "chr1");
    StrLessIrreflexive("chr1");
    assert [] + [r0] == [r0] && [r0] + [r1] == [r0, r1];
    ScanSnoc([], r0);
    ScanSnoc([r0], r1);
    assert Scan([r0]) == Acc("chr1", 0, 5, [Entry(-1, "chr0", 0, 0)]);
    assert Scan([r0, r1]) == Acc("chr1", 10, 20, [Entry(-1, "chr0", 0, 0), Entry(0, "chr1", 0, 5)]);
  }

  /** `merge_overlapping` on rows whose surviving entries are known. */
  lemma {:induction false} MergedOf<T>(rows: seq<Row<T>>, es: seq<Entry>)
    requires Scan(rows).keep != [] && NonZero(Flushed(rows)) == es && es != []
    requires forall k :: 0 <= k < |es| ==> 0 <= es[k].index < |rows|
    ensures Merged(rows) == Success(Rebuild(rows, es))
  {
  }

  /** The chromosome ordering is the string ordering, so "chr10" sorts
      before "chr2". */
  lemma {:induction false} ChromosomeOrderIsTextual()
    ensures StrLess("chr10", "chr2") && !StrLess("chr2", "chr10")
  {
  }
}
