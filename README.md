# Mutation counting over split coding regions, in Dafny

This project models the interval code of a small pipeline. The pipeline counts
silent and missense cancer mutations in human coding sequence, split into
regions covered by SAE or SCE annotations and "normal" regions. It models four
files.

- `scripts/prep_ref_files.py` prepares the reference tables. Modelled here:
  - `explode_columns`, which turns comma lists into one row per element;
  - `SAE_SCE_prep`, which turns BED12 blocks into one closed interval per block, sorted;
  - `CCDS_prep`, which filters on status and match type, parses the `cds_locations`
    ranges, groups on every column but `ccds_id`, sorts and merges;
  - `merge_overlapping`, the sweep that merges overlapping rows, with its sentinel
    `("chr0", 0, 0)` and its drop of every flushed entry whose start is 0;
  - `_split_chrom`, the walk of one chromosome's coding regions against its
    annotations, with the duplicated last annotation as sentinel;
  - `split_CCDS_by_coverage`, the per-chromosome driver;
  - `SAE_SCE_merge`, which merges each track and then sorts the two together.
- `prep_ref_files.py` at the top level is an earlier version of the same
  preparation. Its `SAE_SCE_prep` has half-open block ends and no sort. Its `CCDS_prep` has only
  the `Public` filter and keeps the location bounds as text.
- `scripts/count_mutations.py` covers:
  - `prep_mutations`, a sort by (chromosome, position) and a column drop;
  - `add_mutation_counts`, the two-pointer scan that skips mutations left of a
    region, counts the silent and missense mutations inside it, and sends the
    skipped ones to the unmatched table;
  - the per-chromosome loop of `main`.
- `scripts/validate_mutations.py` covers:
  - the accept/reject rule for each MAF row;
  - the per-file and overall saved/total counters, and the count lines;
  - the half-open interval `[pos - 1, pos)` that `check_nucleotide` looks up;
  - the header drop of `import_metadata`.

A DataFrame is a sequence of records in positional order. Every call of
`merge_overlapping` follows a `reset_index(drop=True)`, so there an index label
is a row position. Where a pandas step raises, the model returns a `Failure`
that names the cause. Examples are an `iloc[[-1]]` of an empty table, a
`pop(0)` of an empty list, an `astype(int)` of a text that is no integer, and
an `explode` of lists of different lengths.

Each loop of the source that builds a table row by row, advances a cursor or
accumulates counters is a method proved equal to a function that states the
computation. The column loop of `explode_columns` is the same in both versions
(`scripts/prep_ref_files.py:32-34` and `prep_ref_files.py:6-8`). It is modelled
once, as the method `RootPrep.ExplodeColumns`, proved equal to the function
`RefPrep.Explode` that the models of both versions use. Lemmas relate those
functions to independent definitions:
- `Merge.IdealMerge` is a textbook merge of overlapping intervals;
- `Counting.Hits` selects the mutations inside a region, and `Counting.Strays`
  the mutations that lie inside no region and left of the last region's start;
- `Validation.WxsRows` is the number of rows of the whole-exome files.

The modules are:
- `Wrappers`: `Option` and `Result`.
- `Strings`: Python's `str` order, `split`, `split(sep, n=1)`, `replace`,
  `strip()` and `int()`.
- `Slices`: four sequence facts.
- `Sorting`: an insertion sort by key that keeps equal keys in input order, `unique()` and `df[df[col] == c]`.
- `Merge`, `RefPrep`, `RootPrep`, `Coverage`, `Counting`, `Validation`: the
  modules for the source files above.

Three behaviours of the code are modelled as written, and lemmas show each one
on a concrete input:
- `merge_overlapping` drops a real interval that starts at 0
  (`Merge.ZeroStartIntervalDropped`).
- `_split_chrom` processes its sentinel row like a real annotation
  (`Coverage.SentinelReprocessed`).
- `_split_chrom` leaves the cursor unchanged when an annotation runs past a
  region's end, so the region is written out again as `normal`
  (`Coverage.OverrunReemits`).

In each case the code does more than its own comments say:
- The comments at `scripts/prep_ref_files.py:189` and `:195` say the filter
  removes the all-zero entries. It removes every entry whose start is 0, so a
  genuine interval that starts at 0 goes too.
- The comment at `:272` only says that the last row is duplicated. The copy
  serves as the end marker that the `SAE_SCE_len - 2` test at `:318` counts on.
  The loop also processes it as an annotation, so whenever the last annotation
  is visited its copy is visited too, in the same row
  (`Coverage.SentinelFollowsLast`).
- The comment at `:325` says the tail is written only for regions where the loop
  "did not enter". It is also written after an overrun, because the cursor
  stayed where it was.

The model follows the code. The code does not check that its inputs are sorted
or free of overlaps, so the model has no such errors. Instead, each property
that needs sorted, disjoint or well-formed input states that as a `requires`.
The regions the coverage split writes are not disjoint in general: the
repeated rows above overlap. `Counting.AddMutationCountsReference` and
`Counting.ChromosomeReference` need disjoint regions, so they do not describe
what the pipeline reports on its own split. What it does report for a repeated
region met after the mutation cursor has passed its end is stated by
`Counting.PassedRegionCountsZero`: that row counts zero. `add_mutation_counts` never
drains mutations to the right of the last region. They are neither counted
nor unmatched, and `Counting.StrandedAreRightOfLast` states which mutations
these are.

## Model

| member | source | states |
|---|---|---|
| Strings.StrLessIrreflexive | scripts/prep_ref_files.py:170 | no chromosome label sorts before itself |
| Strings.StrLessTrichotomy | scripts/prep_ref_files.py:170 | any two labels are equal or one sorts before the other |
| Strings.StrLessAsymmetric | scripts/prep_ref_files.py:170 | the string order is asymmetric |
| Strings.StrLessTransitive | scripts/prep_ref_files.py:170 | the string order is transitive |
| Strings.Split | scripts/prep_ref_files.py:34 | `split(',')` gives at least one part and no part holds the separator |
| Strings.JoinSplit | scripts/prep_ref_files.py:34 | joining the parts of a split with the separator gives back the text |
| Strings.SplitJoin | scripts/prep_ref_files.py:34 | splitting a join of separator-free parts gives back the parts |
| Strings.SplitLength | scripts/prep_ref_files.py:34 | a split has one part more than the text has separators |
| Strings.SplitOnce | scripts/prep_ref_files.py:117 | `split('-', n=1)` has a second part exactly when '-' occurs; the first part holds no '-' and the two parts around '-' give back the text |
| Strings.SplitOnceAt | scripts/prep_ref_files.py:117 | the split is at the first '-': a '-'-free front and any back come back apart |
| Strings.RemoveAll | scripts/prep_ref_files.py:107-108 | `replace(c, "")` removes every `c` and keeps every other character, with its multiplicity |
| Strings.RemoveBrackets | scripts/prep_ref_files.py:107-108 | removing '[' and ']' from "[t]" gives t when t holds neither |
| Strings.StripLeft | scripts/prep_ref_files.py:126-127 | the result is a suffix, everything cut is whitespace, and it starts with non-whitespace |
| Strings.StripRight | scripts/prep_ref_files.py:126-127 | the result is a prefix, everything cut is whitespace, and it ends with non-whitespace |
| Strings.StripTrims | scripts/prep_ref_files.py:126-127 | a non-empty `strip()` result neither starts nor ends with whitespace |
| Strings.StripCutsOnlySpace | scripts/prep_ref_files.py:126-127 | `strip()` cuts only whitespace, at both ends |
| Strings.StripPadded | scripts/prep_ref_files.py:126-127 | stripping leading whitespace off a trimmed text gives the text |
| Strings.StripIdempotent | scripts/prep_ref_files.py:126-127 | stripping twice is stripping once |
| Strings.ParseShowInt | scripts/prep_ref_files.py:126-127 | `int(str(n)) == n` for every integer |
| Strings.ParsePaddedNat | scripts/prep_ref_files.py:126-127 | `int(strip(pad + str(n))) == n` for whitespace padding |
| Strings.ParseStrippedInt | scripts/prep_ref_files.py:126-127 | stripping does not change what `int()` reads from `str(n)` |
| Sorting.KeyLeTotal | scripts/prep_ref_files.py:81 | any two sort keys are ordered one way or the other |
| Sorting.KeyLeTransitive | scripts/prep_ref_files.py:81 | the key order is transitive |
| Sorting.SortBySpec | scripts/prep_ref_files.py:81 | `sort_values` gives a table sorted by the key that is a permutation of the input |
| Sorting.UniqueSpec | scripts/prep_ref_files.py:237 | `unique()` lists each value of the column once, no other values, in order of first appearance |
| Sorting.Select | scripts/prep_ref_files.py:241-242 | the selection holds only rows of chromosome c, taken from the input, and every such row appears in it |
| Sorting.SelectCount | scripts/prep_ref_files.py:241-242 | each row of chromosome c appears as often as in the input, any other row not at all |
| Sorting.SelectKeepsOrder | scripts/count_mutations.py:115 | selecting one chromosome of a sorted table gives a sorted table |
| Sorting.GroupedByUniqueValues | scripts/prep_ref_files.py:237-249 | concatenating the per-chromosome selections over `unique()` gives a permutation of the table |
| Merge.NonZero | scripts/prep_ref_files.py:196-199 | the kept entries are exactly the entries with a start other than 0 |
| Merge.ScanIndices | scripts/prep_ref_files.py:168-187 | each flushed entry points at a row before the current one; entries flushed at the first row have start 0 |
| Merge.StepSpec | scripts/prep_ref_files.py:170-187 | one iteration only appends to `keep_list`, at most two entries, each stamped `index - 1`; afterwards `chrom` is the row's chromosome if that sorts later, and `end` reaches at least the row's end |
| Merge.Merged | scripts/prep_ref_files.py:142-213 | a result that is not an error is non-empty and holds no row that starts at 0 |
| Merge.MergeOverlapping | scripts/prep_ref_files.py:162-213 | the loop with its `keep_list` returns what `Merged` describes, including both errors |
| Merge.MergedIsIdealMerge | scripts/prep_ref_files.py:142-213 | on a sorted table of rows that start after 0 on chromosomes after "chr0", the result is the reference merge |
| Merge.MergedSound | scripts/prep_ref_files.py:142-213 | on such a table consecutive result rows are apart and so is every pair of rows, the rows cover the same positions as the input, and each is the last row of its group of input rows |
| Merge.MergedIdempotent | scripts/prep_ref_files.py:142-213 | merging a merged table changes nothing |
| Merge.MergedRowsFromInput | scripts/prep_ref_files.py:207-211 | each output row is an input row with only its start and end overwritten |
| Merge.ZeroStartIntervalDropped | scripts/prep_ref_files.py:196-199 | a real interval [0, 5] is dropped along with the sentinel entries |
| Merge.ChromosomeOrderIsTextual | scripts/prep_ref_files.py:170 | the chromosome test is textual: "chr10" sorts before "chr2" |
| RefPrep.ExplodeLists | scripts/prep_ref_files.py:37 | `explode` fails exactly when there are no columns or the lists differ in length; otherwise row i pairs the i-th elements and keeps the other columns |
| RefPrep.ExplodeRows | scripts/prep_ref_files.py:37 | every exploded row comes from an input row with the same other columns and one value per listed column |
| RefPrep.ExplodeRowsSucceed | scripts/prep_ref_files.py:37 | the table explodes exactly when every row does |
| RefPrep.ExplodeRowCounts | scripts/prep_ref_files.py:34-37 | a row explodes exactly when all its listed cells hold the same number of commas |
| RefPrep.ExplodeRowRoundTrip | scripts/prep_ref_files.py:34-37 | joining an exploded column with commas gives back the cell; the other columns are copied to every row |
| RefPrep.BlockOf | scripts/prep_ref_files.py:66-76 | a block fails exactly when a size or offset is not an integer; otherwise its start is chromStart + offset and its end is start + blockSize - 1 |
| RefPrep.BlocksSpan | scripts/prep_ref_files.py:73-76 | every block row spans blockSize positions, less one for a closed end |
| RefPrep.SaeScePrep | scripts/prep_ref_files.py:42-83 | `SAE_SCE_prep` fails exactly when the block explosion does; otherwise it is the block rows sorted by (chrom, chromStart), a permutation of them, each spanning blockSize positions with both ends included |
| RefPrep.KeepCurrent | scripts/prep_ref_files.py:103-104 | only rows that are `Public` and not `Partial` survive, each taken from the table, and every such row survives |
| RefPrep.KeepCurrentAppend | scripts/prep_ref_files.py:103-104 | the filter keeps table order: filtering two stretches of a table filters each and concatenates |
| RefPrep.KeepCurrentCount | scripts/prep_ref_files.py:103-104 | a row that passes the filter survives exactly as often as it occurs; any other row not at all |
| RefPrep.Tokens | scripts/prep_ref_files.py:114 | every exploded location comes from a filtered record |
| RefPrep.CdsRow | scripts/prep_ref_files.py:117-127 | a location parses exactly when its range parses; the row's chromosome is "chr" + #chromosome and its other columns are the record's |
| RefPrep.IntervalSource | scripts/prep_ref_files.py:102-127 | every parsed interval comes from a current record with that chromosome and gene |
| RefPrep.LocationsRoundTrip | scripts/prep_ref_files.py:107-114 | a location list "[r1,r2,...]" comes back as its ranges |
| RefPrep.ParseLocationRoundTrip | scripts/prep_ref_files.py:117-127 | a range "s-e", optionally padded in front, parses to (s, e) |
| RefPrep.IdsOf | scripts/prep_ref_files.py:130 | a group has at least one id, and each id is the `ccds_id` of a row in it |
| RefPrep.AggregatedKeys | scripts/prep_ref_files.py:130 | the group-by yields one row per distinct key, with every key of the input and no other |
| RefPrep.AggregatedIds | scripts/prep_ref_files.py:130-131 | a group's `ccds_id` is its ids joined with commas inside brackets |
| RefPrep.AggregatedCovers | scripts/prep_ref_files.py:130 | grouping keeps the covered positions and keeps real coordinates real |
| RefPrep.CcdsPrep | scripts/prep_ref_files.py:86-139 | a location that does not parse is the error of the whole; any other error is the merge's; a result is non-empty and holds no row starting at 0 |
| RefPrep.SortThenMerge | scripts/prep_ref_files.py:133-137 | sorting and merging real intervals cannot fail, gives rows that are apart pairwise (consecutive ones and any two), and covers the same positions |
| RefPrep.CcdsPrepSound | scripts/prep_ref_files.py:86-139 | `CCDS_prep` of a table with real intervals returns rows that are apart pairwise (consecutive ones and any two) and cover exactly the parsed intervals' positions |
| RefPrep.MergedTrackTagged | scripts/prep_ref_files.py:347-354 | every row of a merged track carries that track's type |
| RefPrep.MergedTrackSound | scripts/prep_ref_files.py:347-354 | merging one track of real blocks cannot fail, gives rows that are apart pairwise (consecutive ones and any two), and covers the same positions |
| RefPrep.SaeSceMerge | scripts/prep_ref_files.py:333-360 | `SAE_SCE_merge` succeeds exactly when merging each track does, and otherwise fails with the SAE track's error first |
| RefPrep.SaeSceMergeSpec | scripts/prep_ref_files.py:333-360 | the result is sorted and a permutation of the two merged tracks, and its SAE and SCE rows are exactly those tracks |
| RootPrep.ExplodeListedAgrees | prep_ref_files.py:4-13 | exploding the split lists is exploding the cells |
| RootPrep.ExplodeColumns | prep_ref_files.py:4-13 | the loop that splits one column at a time, followed by one explosion, gives the column-wise result |
| RootPrep.SaeScePrep | prep_ref_files.py:16-36 | every block row of this version spans exactly blockSize positions as a half-open interval |
| RootPrep.HalfOpenBlocks | prep_ref_files.py:16-36 | this version succeeds exactly when the later one does, and each row ends one past the closed end, so that end - start == blockSize |
| RootPrep.KeepPublic | prep_ref_files.py:43 | only `Public` rows survive, each taken from the table, and every such row survives |
| RootPrep.KeepPublicAppend | prep_ref_files.py:43 | the filter keeps table order: filtering two stretches of a table filters each and concatenates |
| RootPrep.KeepPublicCount | prep_ref_files.py:43 | a `Public` row survives exactly as often as it occurs; any other row not at all |
| RootPrep.PartialKeptHere | prep_ref_files.py:43 | a `Public` partial match survives here and not in the later version |
| RootPrep.FiltersAgree | prep_ref_files.py:43 | without partial matches both filters keep the same rows |
| RootPrep.TextRowOf | prep_ref_files.py:54-56 | the bounds are the two halves around the first '-', with no end when there is none; the chromosome is "chr" + #chromosome |
| RootPrep.CcdsPrep | prep_ref_files.py:39-60 | the preparation fails exactly when no location holds a '-' |
| RootPrep.TextRowSource | prep_ref_files.py:43-56 | every row comes from a `Public` record with that chromosome and gene |
| RootPrep.CastAgrees | prep_ref_files.py:54 | without partial matches, stripping and casting this version's text bounds gives the later version's intervals, failures included |
| Coverage.Inner | scripts/prep_ref_files.py:292-322 | the inner loop stops at the first annotation past the region's end, consumes only annotations starting at or before it, and only appends rows |
| Coverage.Walk | scripts/prep_ref_files.py:292-322 | the while loop with its two cursors writes the rows `Inner` describes and leaves the index and cursor where `Inner` does |
| Coverage.SplitChromLoop | scripts/prep_ref_files.py:258-330 | the nested loops of `_split_chrom` compute `SplitChrom`, including the error on an empty annotation table |
| Coverage.SplitChrom | scripts/prep_ref_files.py:258-330 | `_split_chrom` fails exactly when the annotation table is empty, and an empty coding table writes nothing |
| Coverage.VisitCursor | scripts/prep_ref_files.py:296-322 | one pass of the body only appends rows; the cursor moves past a contained annotation, and after an overrun it stays put or moves back to the annotation's start |
| Coverage.VisitGaps | scripts/prep_ref_files.py:296-315 | a cursor past the annotation's start first sends [start, cursor - 1] to "del" and then keeps the annotation from its start; a cursor before it first writes [cursor, start - 1] as normal; a cursor at it writes the annotation first |
| Coverage.SentinelFollowsLast | scripts/prep_ref_files.py:272-292 | the duplicated last row equals the last annotation, and a walk that visits the last annotation also visits its copy in the same row |
| Coverage.ContainedKept | scripts/prep_ref_files.py:307-309 | an annotation ending inside the region is kept whole |
| Coverage.OverrunSplit | scripts/prep_ref_files.py:313-315 | an annotation running past the region is kept up to the region's end and the rest goes to "del", with no gap between the two |
| Coverage.IndexCarriesOver | scripts/prep_ref_files.py:281-292 | the annotation index at the end of one region is where the next region starts |
| Coverage.SentinelReprocessed | scripts/prep_ref_files.py:272-319 | one region with one contained annotation writes the annotation and the normal tail after it twice, and sends the annotation to "del" once |
| Coverage.OverrunReemits | scripts/prep_ref_files.py:313-328 | one region with one overrunning annotation writes its normal and annotated rows twice, the overrun to "del" twice, an empty normal row [251, 200], and then the whole region again as normal |
| Coverage.SplitChromOnChrom | scripts/prep_ref_files.py:258-330 | every written row carries the chromosome of the coding regions |
| Coverage.SplitCcdsByCoverage | scripts/prep_ref_files.py:216-255 | the driver loop concatenates the per-chromosome splits, stopping at the first error |
| Coverage.CoverFromFails | scripts/prep_ref_files.py:239-249 | the loop fails exactly when some listed chromosome has no annotation |
| Coverage.ChromsListed | scripts/prep_ref_files.py:237 | a chromosome is listed exactly when some coding region lies on it |
| Coverage.SplitByCoverage | scripts/prep_ref_files.py:216-255 | the split fails exactly when some coding region's chromosome has no annotation |
| Coverage.SplitByCoveragePerChrom | scripts/prep_ref_files.py:239-249 | the output rows of each chromosome are exactly that chromosome's own split, and a chromosome without coding regions has none |
| Counting.TrimSort | scripts/count_mutations.py:79-82 | dropping the unneeded columns commutes with the sort |
| Counting.PrepMutations | scripts/count_mutations.py:65-84 | the prepared table is sorted by (Chromosome, Start_Position) and holds exactly the trimmed input rows |
| Counting.SkipBefore | scripts/count_mutations.py:38-45 | the first loop stops at the first mutation at or after the region's start, passing only mutations before it |
| Counting.TakeWithin | scripts/count_mutations.py:48-59 | the second loop stops at the first mutation outside the region, passing only mutations inside it, both ends included |
| Counting.MatchFrom | scripts/count_mutations.py:35-59 | every region is counted once, in order, and the cursor only moves forward |
| Counting.AddMutationCounts | scripts/count_mutations.py:11-62 | one counted row per region, in region order, and the counted plus unmatched mutations are at most the mutations given |
| Counting.DrainBefore | scripts/count_mutations.py:38-45 | the first loop advances to `SkipBefore` and records the skipped mutations as unmatched, with 0-based positions |
| Counting.TallyWithin | scripts/count_mutations.py:48-59 | the second loop advances to `TakeWithin` and adds that run's silent and missense counts to the region's row, changing no other row |
| Counting.CountRegion | scripts/count_mutations.py:35-59 | both loops for one region produce that region's counted row and unmatched records |
| Counting.CountMutations | scripts/count_mutations.py:11-62 | `add_mutation_counts` over a counter table zeroed in place returns what `AddMutationCounts` describes |
| Counting.CountBoth | scripts/count_mutations.py:52-56 | a run's silent and missense counts add up to at most its length |
| Counting.MatchConserves | scripts/count_mutations.py:35-59 | counted plus unmatched mutations never exceed the mutations the cursor passed |
| Counting.TrailingIgnored | scripts/count_mutations.py:35-59 | mutations past the final cursor do not change the result |
| Counting.UnmatchedLeftOfRegion | scripts/count_mutations.py:38-42 | every unmatched record is a mutation that lies left of some region |
| Counting.AddMutationCountsReference | scripts/count_mutations.py:11-62 | on sorted mutations and disjoint regions, each region's counts are the silent and missense mutations inside it, and the unmatched records are the mutations inside no region that lie left of the last region's start |
| Counting.StrandedAreRightOfLast | scripts/count_mutations.py:35-59 | on such input the scan stops exactly at the first mutation past the last region's end |
| Counting.PassedRegionCountsZero | scripts/count_mutations.py:35-59 | a region met after the cursor has passed its end counts zero silent and zero missense mutations and adds no unmatched record |
| Counting.CountByChromosome | scripts/count_mutations.py:97-122 | `main` prepares the mutations and concatenates the per-chromosome counts and unmatched records in order of first appearance |
| Counting.CountAll | scripts/count_mutations.py:110-122 | the rows `main` writes to `counts.csv` are a permutation of the region table |
| Counting.CountAllRegions | scripts/count_mutations.py:110-122 | the counted regions are the regions grouped by chromosome, a permutation of the region table |
| Counting.CountAllUnmatched | scripts/count_mutations.py:110-122 | every unmatched record of the whole run is a mutation left of a region on its own chromosome |
| Counting.ChromosomeAscending | scripts/count_mutations.py:79-115 | each chromosome's prepared mutations are sorted by position |
| Counting.ChromosomeReference | scripts/count_mutations.py:110-118 | for a chromosome whose regions are disjoint, `main`'s counts and unmatched records are the reference ones for that chromosome |
| Validation.ImportMetadata | scripts/validate_mutations.py:60-87 | a missing file gives nothing, an empty file fails at the pop, and otherwise every row but the header is returned |
| Validation.NucleotideInterval | scripts/validate_mutations.py:108 | the lookup interval for MAF position `pos` covers exactly the 0-based coordinate `pos - 1`, on the row's chromosome and strand, in hg38 |
| Validation.CheckNucleotide | scripts/validate_mutations.py:90-111 | the check holds exactly when the genome reads the reference allele over the hg38 interval on the row's chromosome and strand that covers exactly coordinate pos - 1 |
| Validation.Judge | scripts/validate_mutations.py:171-185 | a row is set aside first exactly when it is not a missense or silent SNP; a mismatch verdict means the genome disagrees with the reference allele |
| Validation.JudgeSaves | scripts/validate_mutations.py:171-185 | a row is saved exactly when it is a missense or silent SNP whose reference allele matches the genome at [pos - 1, pos) |
| Validation.JudgeConsultsOneBase | scripts/validate_mutations.py:171-175 | the verdict depends on the genome only at the row's own base, and a row that is not a target SNP is rejected whatever the genome |
| Validation.Kept | scripts/validate_mutations.py:168-185 | the saved rows are only rows judged `Save`, taken from the file, and every such row is saved |
| Validation.KeptAppend | scripts/validate_mutations.py:168-185 | saving keeps file order: the saved rows of two stretches of a file are those of the first, then those of the second |
| Validation.KeptOne | scripts/validate_mutations.py:171-185 | a single row is saved exactly when it is judged `Save` |
| Validation.KeptCount | scripts/validate_mutations.py:168-185 | a row judged `Save` is saved exactly as often as it occurs; any other row never |
| Validation.KeptLength | scripts/validate_mutations.py:176-185 | the number of saved rows, which `file_saved_mutations` counts, is the number of positions whose row is judged `Save` |
| Validation.ValidateFile | scripts/validate_mutations.py:149-196 | one manifest entry fails, with its own number, exactly when its line has fewer than five fields, or it is whole-exome, has fewer than ten fields and some row is saved |
| Validation.ValidateRows | scripts/validate_mutations.py:158-202 | the row loop with its two file counters gives `ValidateFile`'s lines and count line |
| Validation.ValidateMutations | scripts/validate_mutations.py:144-207 | the loop over the manifest accumulates lines, count lines and both overall counters as `Validated` describes |
| Validation.Validated | scripts/validate_mutations.py:149-207 | the run fails exactly when some manifest entry fails |
| Validation.FailureSticks | scripts/validate_mutations.py:149-152 | an error on one manifest entry is the result of the whole run |
| Validation.ValidateFileCounts | scripts/validate_mutations.py:158-196 | a whole-exome file writes one count line whose total is its row count and whose saved count is its written lines and the number of rows judged `Save`; with ten fields the lines are those of the saved rows in file order; any other file writes nothing |
| Validation.ValidatedCounters | scripts/validate_mutations.py:145-202 | the overall counters are the sums of the count lines, the total is the rows of the whole-exome files, and saved equals the lines written and is at most the total |
| Validation.CompleteManifestSucceeds | scripts/validate_mutations.py:149-178 | a manifest whose lines all hold ten fields never fails |

## Left out

- File and console I/O is left out: `read_csv`, `to_csv`, the file handles and their formatted writes, `print` and logging. Tables come in as sequences of records and go out as results.
- `genome_kit` is a foreign library. The genome is a function parameter from a half-open interval to the bases it reads, and `Genome('hg38')` is not modelled.
- `import_maf` reads a file and selects columns. A MAF row is a record of the columns that validation reads or copies, and the files' rows are parameters.
- `Validation.ImportMetadata`: when the metadata file is missing, `main` goes on to iterate `None` and raises. `ValidateMutations` takes the manifest entries directly, so this path is not modelled.
- `explode_columns(..., islist=True)` is not modelled, because no caller passes it.
- Column drops are modelled by the shape of the records. Only `prep_mutations`'s drop is a function (`Counting.Trim`), because the sort runs before it.
- Index labels and `reset_index` are replaced by row positions. Every call of `merge_overlapping` follows a `reset_index(drop=True)`, so there labels are positions.
- `CCDS_prep`'s `groupby` sorts its groups by key. `RefPrep.Aggregated` lists them in order of first appearance. The sort by (chrom, start, end) that follows makes the two orders agree, except between groups with equal (chrom, start, end) keys. Dropping groups whose keys hold missing values is not modelled either, since all fields are strings.
- pandas dtypes (integer columns turned into floats by concatenation with empty float frames, missing values) are not modelled. All numbers are unbounded integers.
- `Strings.ParseInt`: reads an optional sign and ASCII digits. It does not model the underscores between digits or the non-ASCII decimal digits that Python's `int()` also accepts.
- `Counting.TallyWithin`: increments the counters in local variables and writes the region's row once after the loop. The source increments the table cell on each matching mutation.
- `counts_df`, initialised from `regions_df.iloc[:0]`, and the `print(counts_df)` in `count_mutations.py`'s `main` are not modelled.
- The whole-genome drivers (`main` of both `prep_ref_files.py` files) only chain the modelled functions and write files, so they are not modelled.
- scripts/maf_downloader.py is not part of this model: it is a network and file client.
