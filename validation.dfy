/** Validation of the mutations listed in downloaded MAF files
    (`scripts/validate_mutations.py`): the accept/reject rule for each row,
    the per-file and overall saved/total counters, the coordinate
    conversion of the reference-genome lookup and the metadata header drop.
    File contents and the genome are parameters. */
module Validation {
  import opened Wrappers
  import opened Slices

  // ---------------------------------------------------------------------
  // Records.
  // ---------------------------------------------------------------------

  /** The columns of a MAF row that validation reads or copies. */
  datatype MafRow = MafRow(
    hugoSymbol: string, entrezGeneId: string, chromosome: string,
    startPosition: int, endPosition: int, strand: string,
    variantClassification: string, variantType: string,
    referenceAllele: string, ccds: string)

  /** One line of `mutations.csv`: five metadata fields, then nine copied
      MAF columns. */
  datatype MutationLine = MutationLine(
    filePath: string, projectId: string, projectName: string,
    diseaseType: string, primarySite: string,
    hugoSymbol: string, entrezGeneId: string, chromosome: string,
    startPosition: int, endPosition: int, strand: string,
    variantClassification: string, variantType: string, ccds: string)

  /** One line of `raw_counts.csv`. */
  datatype CountLine = CountLine(filePath: string, saved: nat, total: nat)

  /** A metadata row (the fields of one line of the manifest) with the rows
      of the MAF file it names. */
  datatype MafFile = MafFile(line: seq<string>, rows: seq<MafRow>)

  datatype ValidationError =
    | EmptyMetadata           // `metadata.pop(0)` on a file without lines
    | ShortMetadataLine(file: nat)  // a manifest field the loop reads is missing

  // ---------------------------------------------------------------------
  // The metadata file.
  // ---------------------------------------------------------------------

  /** `import_metadata`: the CSV rows without the header, or nothing when
      the file does not exist (the error is printed and `None` returned). */
  function ImportMetadata(file: Option<seq<seq<string>>>): (r: Result<Option<seq<seq<string>>>, ValidationError>)
    ensures file.None? ==> r == Success(None)
    ensures file.Some? && |file.value| == 0 ==> r == Failure(EmptyMetadata)
    ensures file.Some? && |file.value| > 0 ==>
      r.Success? && r.value.Some? && [file.value[0]] + r.value.value == file.value
  {
    match file
    case None => Success(None)
    case Some(rows) => if |rows| == 0 then Failure(EmptyMetadata) else Success(Some(rows[1..]))
  }

  // ---------------------------------------------------------------------
  // The reference-genome check.
  // ---------------------------------------------------------------------

  /** A genome_kit interval: 0-based, half-open `[start, end)`. */
  datatype GenomeInterval = GenomeInterval(chrom: string, strand: string, start: int, end: int, build: string)

  /** The genome, as the bases it reads over an interval. */
  type Genome = GenomeInterval -> string

  const Build := "hg38"

  /** The 0-based coordinate `p` lies in the half-open interval. */
  predicate Covers(iv: GenomeInterval, p: int)
  {
    iv.start <= p < iv.end
  }

  /** The interval `check_nucleotide` looks up for the 1-based MAF position
      `pos`: it covers exactly the 0-based coordinate `pos - 1`. */
  function NucleotideInterval(chrom: string, strand: string, pos: int): (iv: GenomeInterval)
    ensures iv.chrom == chrom && iv.strand == strand && iv.build == Build
    ensures forall p :: Covers(iv, p) <==> p == pos - 1
  {
    GenomeInterval(chrom, strand, pos - 1, pos, Build)
  }

  /** `check_nucleotide`: the genome's base at that coordinate equals the
      reference allele. */
  predicate CheckNucleotide(genome: Genome, chrom: string, pos: int, strand: string, refAllele: string)
    ensures CheckNucleotide(genome, chrom, pos, strand, refAllele) <==>
      exists iv: GenomeInterval :: iv.chrom == chrom && iv.strand == strand && iv.build == Build
        && (forall p :: Covers(iv, p) <==> p == pos - 1) && genome(iv) == refAllele
  {
    var iv := NucleotideInterval(chrom, strand, pos);
    OnlyInterval(chrom, strand, pos);
    genome(iv) == refAllele
  }

  /** The hg38 interval covering exactly one coordinate is unique. */
  lemma {:induction false} OnlyInterval(chrom: string, strand: string, pos: int)
    ensures forall iv: GenomeInterval | iv.chrom == chrom && iv.strand == strand && iv.build == Build
      && (forall p :: Covers(iv, p) <==> p == pos - 1) :: iv == NucleotideInterval(chrom, strand, pos)
  {
    forall iv: GenomeInterval | iv.chrom == chrom && iv.strand == strand && iv.build == Build
      && (forall p :: Covers(iv, p) <==> p == pos - 1)
      ensures iv == NucleotideInterval(chrom, strand, pos)
    {
      assert Covers(iv, pos - 1);
      assert Covers(iv, iv.start);
      assert Covers(iv, iv.end - 1);
    }
  }

  // ---------------------------------------------------------------------
  // The row filter.
  // ---------------------------------------------------------------------

  const Missense := "Missense_Mutation"
  const Silent := "Silent"
  const Snp := "SNP"

  /** The three branches of the row loop. */
  datatype Verdict = NotTargetSnp | ReferenceMismatch | Save

  predicate TargetSnp(row: MafRow)
  {
    (row.variantClassification == Missense || row.variantClassification == Silent) && row.variantType == Snp
  }

  /** The if/elif/else of the row loop. */
  function Judge(genome: Genome, row: MafRow): (v: Verdict)
    ensures v == NotTargetSnp <==>
      !((row.variantClassification == Missense || row.variantClassification == Silent) && row.variantType == Snp)
    ensures v == ReferenceMismatch ==>
      genome(NucleotideInterval(row.chromosome, row.strand, row.startPosition)) != row.referenceAllele
  {
    if !TargetSnp(row) then NotTargetSnp
    else if CheckNucleotide(genome, row.chromosome, row.startPosition, row.strand, row.referenceAllele) then Save
    else ReferenceMismatch
  }

  /** A row is saved exactly when it is a missense or silent SNP whose
      reference allele agrees with the genome at its position. */
  lemma {:induction false} JudgeSaves(genome: Genome, row: MafRow)
    ensures Judge(genome, row) == Save <==>
      (row.variantClassification == Missense || row.variantClassification == Silent)
      && row.variantType == Snp
      && genome(GenomeInterval(row.chromosome, row.strand, row.startPosition - 1, row.startPosition, Build)) == row.referenceAllele
  {
  }

  /** The genome is consulted only for target SNPs, and then only at the
      row's own coordinate: two genomes that agree there give the same
      verdict, and any two genomes agree on rows that are not target SNPs. */
  lemma {:induction false} JudgeConsultsOneBase(g1: Genome, g2: Genome, row: MafRow)
    requires TargetSnp(row) ==>
      g1(NucleotideInterval(row.chromosome, row.strand, row.startPosition))
      == g2(NucleotideInterval(row.chromosome, row.strand, row.startPosition))
    ensures Judge(g1, row) == Judge(g2, row)
    ensures !TargetSnp(row) ==> Judge(g1, row) == NotTargetSnp
  {
  }

  /** The rows of a file that are saved, in file order. */
  function Kept(genome: Genome, rows: seq<MafRow>): (k: seq<MafRow>)
    ensures |k| <= |rows|
    ensures forall i :: 0 <= i < |k| ==> Judge(genome, k[i]) == Save && k[i] in rows
    ensures forall i :: 0 <= i < |rows| && Judge(genome, rows[i]) == Save ==> rows[i] in k
    decreases |rows|
  {
    if |rows| == 0 then []
    else
      var p := rows[..|rows| - 1];
      assert rows == p + [rows[|rows| - 1]];
      Kept(genome, p) + (if Judge(genome, rows[|rows| - 1]) == Save then [rows[|rows| - 1]] else [])
  }

  /** The saved rows of two consecutive stretches of a file are those of
      the first followed by those of the second: saving keeps file order. */
  lemma {:induction false} KeptAppend(genome: Genome, a: seq<MafRow>, b: seq<MafRow>)
    ensures Kept(genome, a + b) == Kept(genome, a) + Kept(genome, b)
    decreases |b|
  {
    if |b| == 0 {
      assert a + b == a;
    } else {
      var p := b[..|b| - 1];
      assert a + b == (a + p) + [b[|b| - 1]];
      assert (a + b)[..|a + b| - 1] == a + p;
      KeptAppend(genome, a, p);
    }
  }

  /** A single row is saved exactly when it is judged `Save`. */
  lemma {:induction false} KeptOne(genome: Genome, row: MafRow)
    ensures Kept(genome, [row]) == if Judge(genome, row) == Save then [row] else []
  {
    assert [row][..0] == [];
  }

  /** A row occurs among the saved rows as often as in the file if it is
      judged `Save`, and not at all otherwise. */
  lemma {:induction false} KeptCount(genome: Genome, rows: seq<MafRow>, x: MafRow)
    ensures multiset(Kept(genome, rows))[x] == if Judge(genome, x) == Save then multiset(rows)[x] else 0
    decreases |rows|
  {
    if |rows| > 0 {
      var p := rows[..|rows| - 1];
      assert rows == p + [rows[|rows| - 1]];
      KeptCount(genome, p, x);
    }
  }

  /** The positions of the rows judged `Save`. */
  function SavedAt(genome: Genome, rows: seq<MafRow>): set<int>
  {
    set i | 0 <= i < |rows| && Judge(genome, rows[i]) == Save
  }

  /** The number of saved rows is the number of positions judged `Save`. */
  lemma {:induction false} KeptLength(genome: Genome, rows: seq<MafRow>)
    ensures |Kept(genome, rows)| == |SavedAt(genome, rows)|
    decreases |rows|
  {
    if |rows| > 0 {
      var n := |rows| - 1;
      KeptLength(genome, rows[..n]);
      SavedAtSnoc(genome, rows);
      KeptSnoc(genome, rows, n);
      assert rows[..n + 1] == rows;
    }
  }

  lemma {:induction false} SavedAtSnoc(genome: Genome, rows: seq<MafRow>)
    requires |rows| > 0
    ensures var n := |rows| - 1;
      SavedAt(genome, rows) == SavedAt(genome, rows[..n]) + (if Judge(genome, rows[n]) == Save then {n} else {})
      && n !in SavedAt(genome, rows[..n])
  {
    var n := |rows| - 1;
    var p := rows[..n];
    assert forall i :: 0 <= i < n ==> p[i] == rows[i];
  }

  /** The `mutations.csv` line written for a saved row. */
  function SaveLine(line: seq<string>, row: MafRow): MutationLine
    requires |line| >= 10
  {
    MutationLine(line[0], line[6], line[7], line[8], line[9],
      row.hugoSymbol, row.entrezGeneId, row.chromosome, row.startPosition, row.endPosition,
      row.strand, row.variantClassification, row.variantType, row.ccds)
  }

  function SaveLines(line: seq<string>, rows: seq<MafRow>): (ls: seq<MutationLine>)
    requires |line| >= 10
    ensures |ls| == |rows|
  {
    seq(|rows|, i requires 0 <= i < |rows| => SaveLine(line, rows[i]))
  }

  /** What one manifest entry contributes: its saved lines and its count
      line (none for a file that is not whole-exome sequencing). */
  datatype FileReport = FileReport(lines: seq<MutationLine>, counts: seq<CountLine>)

  const Wxs := "WXS"

  /** One iteration of the loop over the manifest, for file number `n`. */
  function ValidateFile(genome: Genome, n: nat, f: MafFile): (r: Result<FileReport, ValidationError>)
    ensures r.Failure? <==>
      |f.line| < 5 || (f.line[4] == Wxs && |f.line| < 10 && exists i :: 0 <= i < |f.rows| && Judge(genome, f.rows[i]) == Save)
    ensures r.Failure? ==> r.error == ShortMetadataLine(n)
  {
    if |f.line| < 5 then Failure(ShortMetadataLine(n))
    else if f.line[4] != Wxs then Success(FileReport([], []))
    else
      var k := Kept(genome, f.rows);
      if |k| > 0 && |f.line| < 10 then
        assert k[0] in f.rows;
        Failure(ShortMetadataLine(n))
      else if |k| == 0 then Success(FileReport([], [CountLine(f.line[0], 0, |f.rows|)]))
      else Success(FileReport(SaveLines(f.line, k), [CountLine(f.line[0], |k|, |f.rows|)]))
  }

  /** The row loop for one manifest entry, with the file's counters. */
  method ValidateRows(genome: Genome, n: nat, f: MafFile) returns (r: Result<FileReport, ValidationError>)
    ensures r == ValidateFile(genome, n, f)
  {
    if |f.line| < 5 {
      return Failure(ShortMetadataLine(n));
    }
    if f.line[4] != Wxs {
      return Success(FileReport([], []));
    }
    var lines: seq<MutationLine> := [];
    var fileTotal: nat := 0;
    var fileSaved: nat := 0;
    for i := 0 to |f.rows|
      invariant fileTotal == i
      invariant fileSaved == |Kept(genome, f.rows[..i])|
      invariant |f.line| < 10 ==> fileSaved == 0 && lines == []
      invariant |f.line| >= 10 ==> lines == SaveLines(f.line, Kept(genome, f.rows[..i]))
    {
      var row := f.rows[i];
      KeptSnoc(genome, f.rows, i);
      ghost var before := Kept(genome, f.rows[..i]);
      if !TargetSnp(row) {
        assert Kept(genome, f.rows[..i + 1]) == before;
      } else if CheckNucleotide(genome, row.chromosome, row.startPosition, row.strand, row.referenceAllele) {
        assert Kept(genome, f.rows[..i + 1]) == before + [row];
        if |f.line| < 10 {
          assert row in Kept(genome, f.rows);
          return Failure(ShortMetadataLine(n));
        }
        SaveLinesSnoc(f.line, before, row);
        lines := lines + [SaveLine(f.line, row)];
        fileSaved := fileSaved + 1;
      } else {
        assert Kept(genome, f.rows[..i + 1]) == before;
      }
      fileTotal := fileTotal + 1;
    }
    assert f.rows[..|f.rows|] == f.rows;
    return Success(FileReport(lines, [CountLine(f.line[0], fileSaved, fileTotal)]));
  }

  lemma {:induction false} KeptSnoc(genome: Genome, rows: seq<MafRow>, i: nat)
    requires i < |rows|
    ensures Kept(genome, rows[..i + 1])
      == Kept(genome, rows[..i]) + (if Judge(genome, rows[i]) == Save then [rows[i]] else [])
  {
    PrefixSnoc(rows, i);
    assert rows[..i + 1][..i] == rows[..i];
  }

  lemma {:induction false} SaveLinesSnoc(line: seq<string>, rows: seq<MafRow>, row: MafRow)
    requires |line| >= 10
    ensures SaveLines(line, rows + [row]) == SaveLines(line, rows) + [SaveLine(line, row)]
  {
  }

  // ---------------------------------------------------------------------
  // The loop over the manifest.
  // ---------------------------------------------------------------------

  /** The two output files and the two overall counters. */
  datatype Report = Report(mutations: seq<MutationLine>, counts: seq<CountLine>, saved: nat, total: nat)

  /** The loop over the first `|files|` manifest entries. */
  function Validated(genome: Genome, files: seq<MafFile>): (r: Result<Report, ValidationError>)
    ensures r.Failure? <==> exists i :: 0 <= i < |files| && ValidateFile(genome, i, files[i]).Failure?
    decreases |files|
  {
    if |files| == 0 then Success(Report([], [], 0, 0))
    else
      SomeFileFails(genome, files);
      var prev := Validated(genome, files[..|files| - 1]);
      if prev.Failure? then prev
      else
        var part := ValidateFile(genome, |files| - 1, files[|files| - 1]);
        if part.Failure? then Failure(part.error)
        else
          var d := part.value;
          var saved := if |d.counts| == 0 then 0 else d.counts[0].saved;
          var total := if |d.counts| == 0 then 0 else d.counts[0].total;
          Success(Report(prev.value.mutations + d.lines, prev.value.counts + d.counts,
            prev.value.saved + saved, prev.value.total + total))
  }

  /** Some entry of a non-empty manifest fails exactly when some entry
      before the last fails or the last one does. */
  lemma {:induction false} SomeFileFails(genome: Genome, files: seq<MafFile>)
    requires |files| > 0
    ensures var n, p := |files| - 1, files[..|files| - 1];
      (exists i :: 0 <= i < |files| && ValidateFile(genome, i, files[i]).Failure?) <==>
      (exists i :: 0 <= i < |p| && ValidateFile(genome, i, p[i]).Failure?) || ValidateFile(genome, n, files[n]).Failure?
  {
    var p := files[..|files| - 1];
    assert forall i :: 0 <= i < |p| ==> p[i] == files[i];
  }

  /** `main`'s loop over the manifest: writes the saved lines and one count
      line per whole-exome file, and accumulates the overall counters. */
  method ValidateMutations(genome: Genome, files: seq<MafFile>) returns (r: Result<Report, ValidationError>)
    ensures r == Validated(genome, files)
  {
    var mutations: seq<MutationLine> := [];
    var counts: seq<CountLine> := [];
    var totalMutations: nat := 0;
    var savedMutations: nat := 0;
    for i := 0 to |files|
      invariant Validated(genome, files[..i]) == Success(Report(mutations, counts, savedMutations, totalMutations))
    {
      assert files[..i + 1][..i] == files[..i];
      var part := ValidateRows(genome, i, files[i]);
      if part.Failure? {
        FailureSticks(genome, files, i + 1);
        return Failure(part.error);
      }
      mutations := mutations + part.value.lines;
      counts := counts + part.value.counts;
      if |part.value.counts| > 0 {
        savedMutations := savedMutations + part.value.counts[0].saved;
        totalMutations := totalMutations + part.value.counts[0].total;
      }
    }
    assert files[..|files|] == files;
    return Success(Report(mutations, counts, savedMutations, totalMutations));
  }

  /** A failure on one manifest entry ends the whole run with that error. */
  lemma {:induction false} FailureSticks(genome: Genome, files: seq<MafFile>, j: nat)
    requires j <= |files|
    requires Validated(genome, files[..j]).Failure?
    ensures Validated(genome, files) == Validated(genome, files[..j])
    decreases |files| - j
  {
    if j < |files| {
      assert files[..j + 1][..j] == files[..j];
      FailureSticks(genome, files, j + 1);
    } else {
      assert files[..j] == files;
    }
  }

  // ---------------------------------------------------------------------
  // What the counters mean.
  // ---------------------------------------------------------------------

  predicate IsWxs(f: MafFile)
  {
    |f.line| >= 5 && f.line[4] == Wxs
  }

  /** The rows of the whole-exome files: an independent account of the
      overall total. */
  function WxsRows(files: seq<MafFile>): nat
    decreases |files|
  {
    if |files| == 0 then 0
    else WxsRows(files[..|files| - 1]) + (if IsWxs(files[|files| - 1]) then |files[|files| - 1].rows| else 0)
  }

  /** The number of whole-exome files. */
  function WxsFiles(files: seq<MafFile>): nat
    decreases |files|
  {
    if |files| == 0 then 0
    else WxsFiles(files[..|files| - 1]) + (if IsWxs(files[|files| - 1]) then 1 else 0)
  }

  function SumSaved(cs: seq<CountLine>): nat
    decreases |cs|
  {
    if |cs| == 0 then 0 else SumSaved(cs[..|cs| - 1]) + cs[|cs| - 1].saved
  }

  function SumTotal(cs: seq<CountLine>): nat
    decreases |cs|
  {
    if |cs| == 0 then 0 else SumTotal(cs[..|cs| - 1]) + cs[|cs| - 1].total
  }

  lemma {:induction false} SumsAppend(a: seq<CountLine>, c: CountLine)
    ensures SumSaved(a + [c]) == SumSaved(a) + c.saved
    ensures SumTotal(a + [c]) == SumTotal(a) + c.total
  {
    assert (a + [c])[..|a|] == a;
  }

  /** One file's report: a count line exactly for a whole-exome file, whose
      total is the file's row count and whose saved count is the number of
      its saved lines, never more than the total. */
  lemma {:induction false} ValidateFileCounts(genome: Genome, n: nat, f: MafFile)
    requires ValidateFile(genome, n, f).Success?
    ensures var d := ValidateFile(genome, n, f).value;
      (IsWxs(f) ==>
        |d.counts| == 1 && d.counts[0].total == |f.rows|
        && d.counts[0].saved == |d.lines| && d.counts[0].saved <= d.counts[0].total
        && d.counts[0].saved == |SavedAt(genome, f.rows)|
        && (|f.line| >= 10 ==> d.lines == SaveLines(f.line, Kept(genome, f.rows))))
      && (!IsWxs(f) ==> d == FileReport([], []))
  {
    KeptLength(genome, f.rows);
  }

  /** On success, the overall counters are the sums of the per-file count
      lines, the overall total is the number of rows of the whole-exome
      files, one count line is written per such file, and the saved count
      is the number of lines written and at most the total. */
  lemma {:induction false} ValidatedCounters(genome: Genome, files: seq<MafFile>)
    requires Validated(genome, files).Success?
    ensures var rep := Validated(genome, files).value;
      rep.saved == SumSaved(rep.counts) && rep.total == SumTotal(rep.counts)
      && rep.total == WxsRows(files) && |rep.counts| == WxsFiles(files)
      && rep.saved == |rep.mutations| && rep.saved <= rep.total
    decreases |files|
  {
    if |files| > 0 {
      var p := files[..|files| - 1];
      var f := files[|files| - 1];
      var n := |files| - 1;
      ValidatedCounters(genome, p);
      var prev := Validated(genome, p).value;
      var d := ValidateFile(genome, n, f).value;
      ValidateFileCounts(genome, n, f);
      if IsWxs(f) {
        SumsAppend(prev.counts, d.counts[0]);
        assert prev.counts + d.counts == prev.counts + [d.counts[0]];
      } else {
        assert prev.counts + d.counts == prev.counts;
        assert prev.mutations + d.lines == prev.mutations;
      }
    }
  }

  /** Only the metadata can make the run fail: with every manifest line
      complete, validation succeeds whatever the rows and the genome. */
  lemma {:induction false} CompleteManifestSucceeds(genome: Genome, files: seq<MafFile>)
    requires forall i :: 0 <= i < |files| ==> |files[i].line| >= 10
    ensures Validated(genome, files).Success?
    decreases |files|
  {
    if |files| > 0 {
      CompleteManifestSucceeds(genome, files[..|files| - 1]);
    }
  }
}
