/** Counting validated mutations in the split coding regions
    (`scripts/count_mutations.py`): the preparation of the mutation table,
    the two-pointer match of one chromosome's mutations against its regions,
    and the per-chromosome driver. */
module Counting {
  import opened Strings
  import opened Slices
  import opened Sorting
  import opened Coverage
  import opened Validation

  // ---------------------------------------------------------------------
  // prep_mutations
  // ---------------------------------------------------------------------

  /** A row of the prepared mutation table: `mutations.csv` without the
      columns `file_path`, `project_id`, `End_Position`, `Strand`,
      `Variant_Type` and `CCDS`. */
  datatype Mutation = Mutation(
    projectName: string, diseaseType: string, primarySite: string,
    hugoSymbol: string, entrezGeneId: string, chromosome: string,
    startPosition: int, variantClassification: string)

  /** The column drop. */
  function Trim(m: MutationLine): Mutation
  {
    Mutation(m.projectName, m.diseaseType, m.primarySite, m.hugoSymbol, m.entrezGeneId,
      m.chromosome, m.startPosition, m.variantClassification)
  }

  function TrimAll(s: seq<MutationLine>): (r: seq<Mutation>)
    ensures |r| == |s|
    ensures forall k :: 0 <= k < |s| ==> r[k] == Trim(s[k])
  {
    seq(|s|, k requires 0 <= k < |s| => Trim(s[k]))
  }

  /** Sort order of `prep_mutations`: `Chromosome`, then `Start_Position`. */
  function LineKey(m: MutationLine): Key
  {
    Key(m.chromosome, m.startPosition, 0)
  }

  function MutationKey(m: Mutation): Key
  {
    Key(m.chromosome, m.startPosition, 0)
  }

  /** `prep_mutations`: sort, then drop the unneeded columns. */
  function PrepMutations(lines: seq<MutationLine>): (r: seq<Mutation>)
    ensures SortedBy(r, MutationKey)
    ensures multiset(r) == multiset(TrimAll(lines))
  {
    TrimSort(lines);
    SortBySpec(TrimAll(lines), MutationKey);
    TrimAll(SortBy(lines, LineKey))
  }

  lemma {:induction false} TrimInsert(x: MutationLine, s: seq<MutationLine>)
    ensures TrimAll(Insert(x, s, LineKey)) == Insert(Trim(x), TrimAll(s), MutationKey)
    decreases |s|
  {
    if |s| > 0 && !KeyLe(LineKey(x), LineKey(s[0])) {
      TrimInsert(x, s[1..]);
      assert TrimAll(s)[1..] == TrimAll(s[1..]);
      assert TrimAll([s[0]] + Insert(x, s[1..], LineKey)) == [Trim(s[0])] + TrimAll(Insert(x, s[1..], LineKey));
    } else if |s| > 0 {
      assert TrimAll([x] + s) == [Trim(x)] + TrimAll(s);
    }
  }

  /** Dropping columns that are not sort keys commutes with the sort. */
  lemma {:induction false} TrimSort(s: seq<MutationLine>)
    ensures TrimAll(SortBy(s, LineKey)) == SortBy(TrimAll(s), MutationKey)
    decreases |s|
  {
    if |s| > 0 {
      TrimSort(s[1..]);
      TrimInsert(s[0], SortBy(s[1..], LineKey));
      assert TrimAll(s)[0] == Trim(s[0]) && TrimAll(s)[1..] == TrimAll(s[1..]);
    }
  }

  // ---------------------------------------------------------------------
  // add_mutation_counts
  // ---------------------------------------------------------------------

  const SilentClass := "Silent"
  const MissenseClass := "Missense_Mutation"

  /** A region with its two counters. */
  datatype Counted = Counted(region: Segment, silentCount: nat, missenseCount: nat)

  /** A row of `not_matched_df`. */
  datatype Unmatched = Unmatched(chrom: string, position: int, gene: string, kind: string)

  /** The 0-based position of a mutation (MAF positions are 1-based). */
  function Position(m: Mutation): int
  {
    m.startPosition - 1
  }

  function Record(m: Mutation): Unmatched
  {
    Unmatched(m.chromosome, Position(m), m.hugoSymbol, m.variantClassification)
  }

  function Records(s: seq<Mutation>): (r: seq<Unmatched>)
    ensures |r| == |s|
    ensures forall k :: 0 <= k < |s| ==> r[k] == Record(s[k])
  {
    seq(|s|, k requires 0 <= k < |s| => Record(s[k]))
  }

  /** How many mutations of class `c` a run of mutations holds. */
  function Count(s: seq<Mutation>, c: string): (n: nat)
    ensures n <= |s|
    decreases |s|
  {
    if |s| == 0 then 0
    else Count(s[..|s| - 1], c) + (if s[|s| - 1].variantClassification == c then 1 else 0)
  }

  /** The first `while` loop: the cursor after skipping the mutations that
      lie before the region. */
  function SkipBefore(r: Segment, muts: seq<Mutation>, i: nat): (j: nat)
    requires i <= |muts|
    ensures i <= j <= |muts|
    ensures forall x :: i <= x < j ==> Position(muts[x]) < r.start
    ensures j == |muts| || Position(muts[j]) >= r.start
    decreases |muts| - i
  {
    if i < |muts| && Position(muts[i]) < r.start then SkipBefore(r, muts, i + 1) else i
  }

  /** `r.start <= p <= r.end`, the test `p in range(start, end + 1)`. */
  predicate Inside(r: Segment, p: int)
  {
    r.start <= p <= r.end
  }

  /** The second `while` loop: the cursor after consuming the mutations
      inside the region. */
  function TakeWithin(r: Segment, muts: seq<Mutation>, i: nat): (j: nat)
    requires i <= |muts|
    ensures i <= j <= |muts|
    ensures forall x :: i <= x < j ==> Inside(r, Position(muts[x]))
    ensures j == |muts| || !Inside(r, Position(muts[j]))
    decreases |muts| - i
  {
    if i < |muts| && Inside(r, Position(muts[i])) then TakeWithin(r, muts, i + 1) else i
  }

  /** The scan of the regions from the first one on, with the mutation
      cursor at `i`: the counted regions, the unmatched mutations and the
      final cursor. */
  function MatchFrom(regions: seq<Segment>, muts: seq<Mutation>, i: nat): (res: (seq<Counted>, seq<Unmatched>, nat))
    requires i <= |muts|
    ensures |res.0| == |regions|
    ensures forall k :: 0 <= k < |regions| ==> res.0[k].region == regions[k]
    ensures i <= res.2 <= |muts|
    decreases |regions|
  {
    if |regions| == 0 then ([], [], i)
    else
      var r := regions[0];
      var j := SkipBefore(r, muts, i);
      var k := TakeWithin(r, muts, j);
      var rest := MatchFrom(regions[1..], muts, k);
      ([Counted(r, Count(muts[j..k], SilentClass), Count(muts[j..k], MissenseClass))] + rest.0,
       Records(muts[i..j]) + rest.1, rest.2)
  }

  /** `add_mutation_counts(intervals_df, mutations_df)`. */
  function AddMutationCounts(regions: seq<Segment>, muts: seq<Mutation>): (r: (seq<Counted>, seq<Unmatched>))
    ensures |r.0| == |regions| && forall k :: 0 <= k < |regions| ==> r.0[k].region == regions[k]
    ensures Total(r.0) + |r.1| <= |muts|
  {
    MatchConserves(regions, muts, 0);
    var res := MatchFrom(regions, muts, 0);
    (res.0, res.1)
  }

  /** The first `while` loop of `add_mutation_counts`: the mutations before
      the region go to the unmatched list. */
  method DrainBefore(row: Segment, muts: seq<Mutation>, start: nat) returns (index: nat, drained: seq<Unmatched>)
    requires start <= |muts|
    ensures index == SkipBefore(row, muts, start)
    ensures drained == Records(muts[start..index])
  {
    index := start;
    drained := [];
    while index < |muts| && Position(muts[index]) < row.start
      invariant start <= index <= |muts|
      invariant SkipBefore(row, muts, index) == SkipBefore(row, muts, start)
      invariant drained == Records(muts[start..index])
      decreases |muts| - index
    {
      drained := drained + [Record(muts[index])];
      index := index + 1;
    }
  }

  /** The second `while` loop of `add_mutation_counts`: the mutations
      inside the region are consumed, and the silent and missense ones are
      added to row `r`'s counters in place. */
  method TallyWithin(row: Segment, muts: seq<Mutation>, start: nat, table: array<Counted>, r: nat)
    returns (index: nat)
    requires start <= |muts| && r < table.Length
    modifies table
    ensures index == TakeWithin(row, muts, start)
    ensures table[r].region == old(table[r].region)
    ensures table[r].silentCount == old(table[r].silentCount) + Count(muts[start..index], SilentClass)
    ensures table[r].missenseCount == old(table[r].missenseCount) + Count(muts[start..index], MissenseClass)
    ensures forall k :: 0 <= k < table.Length && k != r ==> table[k] == old(table[k])
  {
    index := start;
    var c := table[r];
    var silent, missense := c.silentCount, c.missenseCount;
    ghost var stop := TakeWithin(row, muts, start);
    while index < |muts| && Inside(row, Position(muts[index]))
      invariant start <= index <= stop
      invariant TakeWithin(row, muts, index) == stop
      invariant silent == c.silentCount + Count(muts[start..index], SilentClass)
      invariant missense == c.missenseCount + Count(muts[start..index], MissenseClass)
      invariant unchanged(table)
      decreases |muts| - index
    {
      ghost var done := muts[start..index];
      assert muts[start..index + 1] == done + [muts[index]];
      CountSnoc(done, muts[index], SilentClass);
      CountSnoc(done, muts[index], MissenseClass);
      if muts[index].variantClassification == SilentClass {
        silent := silent + 1;
      } else if muts[index].variantClassification == MissenseClass {
        missense := missense + 1;
      }
      index := index + 1;
    }
    table[r] := Counted(c.region, silent, missense);
  }

  lemma {:induction false} CountSnoc(s: seq<Mutation>, x: Mutation, c: string)
    ensures Count(s + [x], c) == Count(s, c) + if x.variantClassification == c then 1 else 0
  {
    assert (s + [x])[..|s|] == s;
  }

  /** One iteration of the loop over the regions: both `while` loops for
      region `r`, as one step of the scan. */
  method CountRegion(regions: seq<Segment>, muts: seq<Mutation>, r: nat, start: nat, table: array<Counted>)
    returns (index: nat, drained: seq<Unmatched>)
    requires r < |regions| == table.Length && start <= |muts|
    requires table[r] == Counted(regions[r], 0, 0)
    modifies table
    ensures index <= |muts|
    ensures var here := MatchFrom(regions[r..], muts, start);
      var rest := MatchFrom(regions[r + 1..], muts, index);
      here.0 == [table[r]] + rest.0 && here.1 == drained + rest.1 && here.2 == rest.2
    ensures forall k :: 0 <= k < table.Length && k != r ==> table[k] == old(table[k])
  {
    MatchStep(regions, muts, r, start);
    var j;
    j, drained := DrainBefore(regions[r], muts, start);
    index := TallyWithin(regions[r], muts, j, table, r);
  }

  /** `add_mutation_counts` as written: both counter columns set to 0 first,
      then one pass with a shared mutation cursor over the regions,
      incrementing the current row's counters in place. */
  method CountMutations(regions: seq<Segment>, muts: seq<Mutation>) returns (counted: seq<Counted>, notMatched: seq<Unmatched>)
    ensures (counted, notMatched) == AddMutationCounts(regions, muts)
  {
    var table := new Counted[|regions|](k requires 0 <= k < |regions| => Counted(regions[k], 0, 0));
    notMatched := [];
    var index: nat := 0;
    ghost var whole := MatchFrom(regions, muts, 0);
    for r := 0 to |regions|
      invariant index <= |muts|
      invariant MatchFrom(regions[r..], muts, index).0 == whole.0[r..]
      invariant notMatched + MatchFrom(regions[r..], muts, index).1 == whole.1
      invariant |whole.0| == |regions|
      invariant forall k :: 0 <= k < r ==> table[k] == whole.0[k]
      invariant forall k :: r <= k < |regions| ==> table[k] == Counted(regions[k], 0, 0)
    {
      ghost var done := notMatched;
      ghost var start := index;
      var drained;
      index, drained := CountRegion(regions, muts, r, index, table);
      notMatched := notMatched + drained;
      ScanAdvances(regions, muts, r, start, index, table[r], drained, whole, done);
    }
    counted := table[..];
    assert MatchFrom(regions[|regions|..], muts, index).1 == [] by {
      assert regions[|regions|..] == [];
    }
    assert notMatched == whole.1;
    assert table[..] == whole.0;
  }

  /** The loop invariant of `CountMutations` carried over one region. */
  lemma {:induction false} ScanAdvances(regions: seq<Segment>, muts: seq<Mutation>, r: nat, start: nat, index: nat,
                     head: Counted, drained: seq<Unmatched>,
                     whole: (seq<Counted>, seq<Unmatched>, nat), done: seq<Unmatched>)
    requires r < |regions| && start <= |muts| && index <= |muts| && r <= |whole.0|
    requires var here := MatchFrom(regions[r..], muts, start);
      var rest := MatchFrom(regions[r + 1..], muts, index);
      here.0 == [head] + rest.0 && here.1 == drained + rest.1
    requires MatchFrom(regions[r..], muts, start).0 == whole.0[r..]
    requires done + MatchFrom(regions[r..], muts, start).1 == whole.1
    ensures r < |whole.0| && whole.0[r] == head
    ensures MatchFrom(regions[r + 1..], muts, index).0 == whole.0[r + 1..]
    ensures (done + drained) + MatchFrom(regions[r + 1..], muts, index).1 == whole.1
  {
    var rest := MatchFrom(regions[r + 1..], muts, index);
    assert whole.0[r..] == [head] + rest.0;
    assert whole.0[r..][1..] == whole.0[r + 1..];
  }

  /** One step of the scan, at region `r`. */
  lemma {:induction false} MatchStep(regions: seq<Segment>, muts: seq<Mutation>, r: nat, i: nat)
    requires r < |regions| && i <= |muts|
    ensures var j := SkipBefore(regions[r], muts, i);
      var k := TakeWithin(regions[r], muts, j);
      var rest := MatchFrom(regions[r + 1..], muts, k);
      MatchFrom(regions[r..], muts, i)
      == ([Counted(regions[r], Count(muts[j..k], SilentClass), Count(muts[j..k], MissenseClass))] + rest.0,
          Records(muts[i..j]) + rest.1, rest.2)
  {
    assert regions[r..][0] == regions[r] && regions[r..][1..] == regions[r + 1..];
  }

  // ---------------------------------------------------------------------
  // What the match does on any input.
  // ---------------------------------------------------------------------

  function Total(cs: seq<Counted>): nat
    decreases |cs|
  {
    if |cs| == 0 then 0 else cs[0].silentCount + cs[0].missenseCount + Total(cs[1..])
  }

  lemma {:induction false} CountBoth(s: seq<Mutation>)
    ensures Count(s, SilentClass) + Count(s, MissenseClass) <= |s|
    decreases |s|
  {
    if |s| > 0 {
      CountBoth(s[..|s| - 1]);
    }
  }

  /** Each mutation is consumed at most once: counted and unmatched
      mutations together are at most those the cursor passed. */
  lemma {:induction false} MatchConserves(regions: seq<Segment>, muts: seq<Mutation>, i: nat)
    requires i <= |muts|
    ensures var res := MatchFrom(regions, muts, i);
      Total(res.0) + |res.1| <= res.2 - i
    decreases |regions|
  {
    if |regions| > 0 {
      var r := regions[0];
      var j := SkipBefore(r, muts, i);
      var k := TakeWithin(r, muts, j);
      MatchConserves(regions[1..], muts, k);
      CountBoth(muts[j..k]);
      var res := MatchFrom(regions, muts, i);
      assert res.0[1..] == MatchFrom(regions[1..], muts, k).0;
    }
  }

  lemma {:induction false} SkipPrefix(r: Segment, muts: seq<Mutation>, f: nat, i: nat)
    requires i <= f <= |muts| && SkipBefore(r, muts, i) <= f
    ensures SkipBefore(r, muts[..f], i) == SkipBefore(r, muts, i)
    decreases f - i
  {
    if i < f && Position(muts[i]) < r.start {
      SkipPrefix(r, muts, f, i + 1);
    }
  }

  lemma {:induction false} TakePrefix(r: Segment, muts: seq<Mutation>, f: nat, i: nat)
    requires i <= f <= |muts| && TakeWithin(r, muts, i) <= f
    ensures TakeWithin(r, muts[..f], i) == TakeWithin(r, muts, i)
    decreases f - i
  {
    if i < f && Inside(r, Position(muts[i])) {
      TakePrefix(r, muts, f, i + 1);
    }
  }

  /** The mutations after the final cursor play no part: cutting them off
      leaves the counts and the unmatched list as they are. */
  lemma {:induction false} TrailingIgnored(regions: seq<Segment>, muts: seq<Mutation>, i: nat, f: nat)
    requires i <= |muts| && MatchFrom(regions, muts, i).2 <= f <= |muts|
    ensures MatchFrom(regions, muts[..f], i) == MatchFrom(regions, muts, i)
    decreases |regions|
  {
    if |regions| > 0 {
      var r, m := regions[0], muts[..f];
      var j := SkipBefore(r, muts, i);
      var k := TakeWithin(r, muts, j);
      var rest := MatchFrom(regions[1..], muts, k);
      assert k <= rest.2;
      SkipPrefix(r, muts, f, i);
      TakePrefix(r, muts, f, j);
      TrailingIgnored(regions[1..], muts, k, f);
      SliceOfPrefix(muts, f, i, j);
      SliceOfPrefix(muts, f, j, k);
      var c := Counted(r, Count(muts[j..k], SilentClass), Count(muts[j..k], MissenseClass));
      assert MatchFrom(regions, m, i) == ([c] + rest.0, Records(muts[i..j]) + rest.1, rest.2);
    }
  }

  /** Every unmatched record is a mutation the cursor passed, converted to
      its 0-based position, that lies before some region's start. */
  lemma {:induction false} UnmatchedLeftOfRegion(regions: seq<Segment>, muts: seq<Mutation>, i: nat, n: nat)
    returns (x: nat, k: nat)
    requires i <= |muts| && n < |MatchFrom(regions, muts, i).1|
    ensures i <= x < MatchFrom(regions, muts, i).2 && k < |regions|
    ensures MatchFrom(regions, muts, i).1[n] == Record(muts[x])
    ensures Position(muts[x]) < regions[k].start
    decreases |regions|
  {
    var r := regions[0];
    var j := SkipBefore(r, muts, i);
    var kk := TakeWithin(r, muts, j);
    var rest := MatchFrom(regions[1..], muts, kk);
    if n < j - i {
      x, k := i + n, 0;
    } else {
      var x1, k1 := UnmatchedLeftOfRegion(regions[1..], muts, kk, n - (j - i));
      x, k := x1, k1 + 1;
    }
  }

  // ---------------------------------------------------------------------
  // A reference account for sorted, disjoint input.
  // ---------------------------------------------------------------------

  /** The mutations in ascending position order. */
  predicate Ascending(muts: seq<Mutation>)
  {
    forall a, b :: 0 <= a < b < |muts| ==> Position(muts[a]) <= Position(muts[b])
  }

  /** Non-empty regions in ascending order, none touching the next. */
  predicate Disjoint(regions: seq<Segment>)
  {
    (forall k :: 0 <= k < |regions| ==> regions[k].start <= regions[k].end)
    && (forall a, b :: 0 <= a < b < |regions| ==> regions[a].end < regions[b].start)
  }

  /** The mutations of `s` that lie in region `r`, in order. */
  function Hits(s: seq<Mutation>, r: Segment): seq<Mutation>
    decreases |s|
  {
    if |s| == 0 then []
    else Hits(s[..|s| - 1], r) + (if Inside(r, Position(s[|s| - 1])) then [s[|s| - 1]] else [])
  }

  /** A position in no region but left of the last region's start. */
  predicate Stray(regions: seq<Segment>, p: int)
  {
    |regions| > 0 && p < regions[|regions| - 1].start
    && forall k :: 0 <= k < |regions| ==> !Inside(regions[k], p)
  }

  /** The mutations of `s` at stray positions, in order. */
  function Strays(s: seq<Mutation>, regions: seq<Segment>): seq<Mutation>
    decreases |s|
  {
    if |s| == 0 then []
    else Strays(s[..|s| - 1], regions) + (if Stray(regions, Position(s[|s| - 1])) then [s[|s| - 1]] else [])
  }

  lemma {:induction false} HitsAppend(a: seq<Mutation>, b: seq<Mutation>, r: Segment)
    ensures Hits(a + b, r) == Hits(a, r) + Hits(b, r)
    decreases |b|
  {
    if |b| == 0 {
      assert a + b == a;
    } else {
      assert (a + b)[..|a + b| - 1] == a + b[..|b| - 1];
      HitsAppend(a, b[..|b| - 1], r);
    }
  }

  lemma {:induction false} StraysAppend(a: seq<Mutation>, b: seq<Mutation>, regions: seq<Segment>)
    ensures Strays(a + b, regions) == Strays(a, regions) + Strays(b, regions)
    decreases |b|
  {
    if |b| == 0 {
      assert a + b == a;
    } else {
      assert (a + b)[..|a + b| - 1] == a + b[..|b| - 1];
      StraysAppend(a, b[..|b| - 1], regions);
    }
  }

  /** A run inside the region is all hits; a run outside has none. */
  lemma {:induction false} HitsOfRun(s: seq<Mutation>, r: Segment, inside: bool)
    requires forall x :: 0 <= x < |s| ==> Inside(r, Position(s[x])) == inside
    ensures Hits(s, r) == if inside then s else []
    decreases |s|
  {
    if |s| > 0 {
      HitsOfRun(s[..|s| - 1], r, inside);
      assert s == s[..|s| - 1] + [s[|s| - 1]];
    }
  }

  /** A run all stray or all not stray. */
  lemma {:induction false} StraysOfRun(s: seq<Mutation>, regions: seq<Segment>, stray: bool)
    requires forall x :: 0 <= x < |s| ==> Stray(regions, Position(s[x])) == stray
    ensures Strays(s, regions) == if stray then s else []
    decreases |s|
  {
    if |s| > 0 {
      StraysOfRun(s[..|s| - 1], regions, stray);
      assert s == s[..|s| - 1] + [s[|s| - 1]];
    }
  }

  /** Past the first region, a position is stray for all regions exactly
      when it is stray for the others. */
  lemma {:induction false} StraysPastFirst(s: seq<Mutation>, regions: seq<Segment>)
    requires |regions| > 0 && Disjoint(regions)
    requires forall x :: 0 <= x < |s| ==> Position(s[x]) > regions[0].end
    ensures Strays(s, regions) == Strays(s, regions[1..])
    decreases |s|
  {
    if |s| > 0 {
      StraysPastFirst(s[..|s| - 1], regions);
      var p := Position(s[|s| - 1]);
      var rest := regions[1..];
      assert Stray(regions, p) == Stray(rest, p) by {
        if |rest| > 0 {
          assert regions[|regions| - 1] == rest[|rest| - 1];
          assert forall k :: 0 <= k < |rest| ==> rest[k] == regions[k + 1];
          if Stray(rest, p) {
            forall k | 0 <= k < |regions| ensures !Inside(regions[k], p) {
              if k > 0 {
                assert regions[k] == rest[k - 1];
              }
            }
          }
        }
      }
    }
  }

  /** What the two loops of one region establish about sorted mutations:
      before `j` all left of the region, from `j` to `k` all inside, from
      `k` on all right of it. */
  lemma {:induction false} StepRuns(r: Segment, muts: seq<Mutation>, i: nat)
    returns (j: nat, k: nat)
    requires Ascending(muts) && i <= |muts| && r.start <= r.end
    ensures j == SkipBefore(r, muts, i) && k == TakeWithin(r, muts, j)
    ensures forall x :: i <= x < j ==> Position(muts[x]) < r.start
    ensures forall x :: j <= x < k ==> Inside(r, Position(muts[x]))
    ensures forall x :: k <= x < |muts| ==> Position(muts[x]) > r.end
  {
    j := SkipBefore(r, muts, i);
    k := TakeWithin(r, muts, j);
    if k < |muts| {
      assert Position(muts[k]) >= r.start by {
        if k == j {
        } else {
          assert Inside(r, Position(muts[k - 1]));
        }
      }
    }
  }

  /** The same three runs, as slices. */
  lemma {:induction false} StepSlices(r: Segment, muts: seq<Mutation>, i: nat)
    returns (j: nat, k: nat)
    requires Ascending(muts) && i <= |muts| && r.start <= r.end
    ensures j == SkipBefore(r, muts, i) && k == TakeWithin(r, muts, j)
    ensures i <= j <= k <= |muts| && muts[i..] == muts[i..j] + muts[j..k] + muts[k..]
    ensures forall x :: 0 <= x < |muts[i..j]| ==> Position(muts[i..j][x]) < r.start
    ensures forall x :: 0 <= x < |muts[j..k]| ==> Inside(r, Position(muts[j..k][x]))
    ensures forall x :: 0 <= x < |muts[k..]| ==> Position(muts[k..][x]) > r.end
  {
    j, k := StepRuns(r, muts, i);
    SliceConcat(muts, i, j, k);
    SliceConcat(muts, i, k, |muts|);
    assert muts[k..] == muts[k..|muts|] && muts[i..] == muts[i..|muts|];
    RunLeft(r, muts, i, j);
    RunInside(r, muts, j, k);
    RunRight(r, muts, k);
  }

  lemma {:induction false} RunLeft(r: Segment, muts: seq<Mutation>, i: nat, j: nat)
    requires i <= j <= |muts| && forall x :: i <= x < j ==> Position(muts[x]) < r.start
    ensures forall x :: 0 <= x < |muts[i..j]| ==> Position(muts[i..j][x]) < r.start
  {
    forall x | 0 <= x < |muts[i..j]| ensures Position(muts[i..j][x]) < r.start {
      assert muts[i..j][x] == muts[i + x];
    }
  }

  lemma {:induction false} RunInside(r: Segment, muts: seq<Mutation>, j: nat, k: nat)
    requires j <= k <= |muts| && forall x :: j <= x < k ==> Inside(r, Position(muts[x]))
    ensures forall x :: 0 <= x < |muts[j..k]| ==> Inside(r, Position(muts[j..k][x]))
  {
    forall x | 0 <= x < |muts[j..k]| ensures Inside(r, Position(muts[j..k][x])) {
      assert muts[j..k][x] == muts[j + x];
    }
  }

  lemma {:induction false} RunRight(r: Segment, muts: seq<Mutation>, k: nat)
    requires k <= |muts| && forall x :: k <= x < |muts| ==> Position(muts[x]) > r.end
    ensures forall x :: 0 <= x < |muts[k..]| ==> Position(muts[k..][x]) > r.end
  {
    forall x | 0 <= x < |muts[k..]| ensures Position(muts[k..][x]) > r.end {
      assert muts[k..][x] == muts[k + x];
    }
  }

  lemma {:induction false} DisjointRest(regions: seq<Segment>)
    requires |regions| > 0 && Disjoint(regions)
    ensures Disjoint(regions[1..])
  {
    assert forall m :: 0 <= m < |regions| - 1 ==> regions[1..][m] == regions[m + 1];
  }

  lemma {:induction false} RecordsAppend(a: seq<Mutation>, b: seq<Mutation>)
    ensures Records(a + b) == Records(a) + Records(b)
  {
  }

  /** The hits of each region in the three runs around the first region. */
  lemma {:induction false} HitsSplit(s1: seq<Mutation>, s2: seq<Mutation>, s3: seq<Mutation>, regions: seq<Segment>, m: nat)
    requires Disjoint(regions) && m < |regions|
    requires forall x :: 0 <= x < |s1| ==> Position(s1[x]) < regions[0].start
    requires forall x :: 0 <= x < |s2| ==> Inside(regions[0], Position(s2[x]))
    requires forall x :: 0 <= x < |s3| ==> Position(s3[x]) > regions[0].end
    ensures Hits(s1 + s2 + s3, regions[m]) == if m == 0 then s2 else Hits(s3, regions[m])
  {
    var r := regions[m];
    HitsAppend(s1 + s2, s3, r);
    HitsAppend(s1, s2, r);
    if m == 0 {
      HitsOfRun(s1, r, false);
      HitsOfRun(s2, r, true);
      HitsOfRun(s3, r, false);
    } else {
      assert regions[0].end < r.start;
      HitsOfRun(s1, r, false);
      HitsOfRun(s2, r, false);
      assert Hits(s1, r) + Hits(s2, r) == [];
    }
  }

  /** The stray mutations of the three runs around the first region. */
  lemma {:induction false} StraysSplit(s1: seq<Mutation>, s2: seq<Mutation>, s3: seq<Mutation>, regions: seq<Segment>)
    requires |regions| > 0 && Disjoint(regions)
    requires forall x :: 0 <= x < |s1| ==> Position(s1[x]) < regions[0].start
    requires forall x :: 0 <= x < |s2| ==> Inside(regions[0], Position(s2[x]))
    requires forall x :: 0 <= x < |s3| ==> Position(s3[x]) > regions[0].end
    ensures Strays(s1 + s2 + s3, regions) == s1 + Strays(s3, regions[1..])
  {
    StraysAppend(s1 + s2, s3, regions);
    StraysAppend(s1, s2, regions);
    assert forall x :: 0 <= x < |s1| ==> Stray(regions, Position(s1[x])) by {
      assert regions[0].start <= regions[|regions| - 1].start;
      forall x, m | 0 <= x < |s1| && 0 < m < |regions| ensures !Inside(regions[m], Position(s1[x])) {
        assert regions[0].end < regions[m].start;
      }
    }
    StraysOfRun(s1, regions, true);
    StraysOfRun(s2, regions, false);
    StraysPastFirst(s3, regions);
    assert s1 + [] == s1;
  }

  /** For sorted mutations and disjoint regions, the scan from cursor `i`
      counts in each region exactly the mutations of `muts[i..]` that lie
      in it. */
  lemma {:induction false} MatchCountsReference(regions: seq<Segment>, muts: seq<Mutation>, i: nat)
    requires Ascending(muts) && Disjoint(regions) && i <= |muts|
    ensures var res := MatchFrom(regions, muts, i);
      forall m :: 0 <= m < |regions| ==>
        res.0[m].silentCount == Count(Hits(muts[i..], regions[m]), SilentClass)
        && res.0[m].missenseCount == Count(Hits(muts[i..], regions[m]), MissenseClass)
    decreases |regions|
  {
    if |regions| > 0 {
      var r, rest := regions[0], regions[1..];
      var j, k := StepSlices(r, muts, i);
      var s1, s2, s3 := muts[i..j], muts[j..k], muts[k..];
      var res := MatchFrom(regions, muts, i);
      var tail := MatchFrom(rest, muts, k);
      assert res.0 == [Counted(r, Count(s2, SilentClass), Count(s2, MissenseClass))] + tail.0;
      DisjointRest(regions);
      MatchCountsReference(rest, muts, k);
      forall m | 0 <= m < |regions|
        ensures res.0[m].silentCount == Count(Hits(muts[i..], regions[m]), SilentClass)
        ensures res.0[m].missenseCount == Count(Hits(muts[i..], regions[m]), MissenseClass)
      {
        HitsSplit(s1, s2, s3, regions, m);
        if m > 0 {
          assert rest[m - 1] == regions[m] && res.0[m] == tail.0[m - 1];
        }
      }
    }
  }

  /** For sorted mutations and disjoint regions, the scan from cursor `i`
      reports as unmatched exactly the stray mutations of `muts[i..]`. */
  lemma {:induction false} MatchStraysReference(regions: seq<Segment>, muts: seq<Mutation>, i: nat)
    requires Ascending(muts) && Disjoint(regions) && i <= |muts|
    ensures MatchFrom(regions, muts, i).1 == Records(Strays(muts[i..], regions))
    decreases |regions|
  {
    if |regions| == 0 {
      StraysOfRun(muts[i..], regions, false);
    } else {
      var r, rest := regions[0], regions[1..];
      var j, k := StepSlices(r, muts, i);
      var s1, s3 := muts[i..j], muts[k..];
      assert Strays(muts[i..], regions) == s1 + Strays(s3, rest) by {
        StraysSplit(s1, muts[j..k], s3, regions);
      }
      assert MatchFrom(regions, muts, i).1 == Records(s1) + MatchFrom(rest, muts, k).1;
      DisjointRest(regions);
      MatchStraysReference(rest, muts, k);
      RecordsAppend(s1, Strays(s3, rest));
    }
  }

  /** For sorted mutations and disjoint regions, the scan stops at the
      first mutation right of the last region. */
  lemma {:induction false} MatchCursorReference(regions: seq<Segment>, muts: seq<Mutation>, i: nat)
    requires Ascending(muts) && Disjoint(regions) && i <= |muts| && |regions| > 0
    ensures var f := MatchFrom(regions, muts, i).2;
      (forall x :: i <= x < f ==> Position(muts[x]) <= regions[|regions| - 1].end)
      && (forall x :: f <= x < |muts| ==> Position(muts[x]) > regions[|regions| - 1].end)
    decreases |regions|
  {
    var r, rest := regions[0], regions[1..];
    var j, k := StepRuns(r, muts, i);
    if |rest| > 0 {
      DisjointRest(regions);
      MatchCursorReference(rest, muts, k);
      assert rest[|rest| - 1] == regions[|regions| - 1];
      assert r.end < regions[|regions| - 1].start;
    }
  }

  /** `add_mutation_counts` on sorted mutations and disjoint regions: each
      region counts exactly its silent and missense mutations, the
      unmatched list holds exactly the stray mutations in order, and the
      mutations right of the last region are neither. */
  lemma {:induction false} AddMutationCountsReference(regions: seq<Segment>, muts: seq<Mutation>)
    requires Ascending(muts) && Disjoint(regions)
    ensures var res := AddMutationCounts(regions, muts);
      (forall m :: 0 <= m < |regions| ==>
        res.0[m].region == regions[m]
        && res.0[m].silentCount == Count(Hits(muts, regions[m]), SilentClass)
        && res.0[m].missenseCount == Count(Hits(muts, regions[m]), MissenseClass))
      && res.1 == Records(Strays(muts, regions))
  {
    MatchCountsReference(regions, muts, 0);
    MatchStraysReference(regions, muts, 0);
    assert muts[0..] == muts;
  }

  /** A region met after the cursor has passed its end counts nothing and
      sends nothing to the unmatched table, whatever mutations lie in it.
      This is what happens to a region the coverage split writes a second
      time after later rows (see `Coverage.SentinelReprocessed`). */
  lemma {:induction false} PassedRegionCountsZero(r: Segment, rest: seq<Segment>, muts: seq<Mutation>, i: nat)
    requires i <= |muts| && r.start <= r.end
    requires i == |muts| || Position(muts[i]) > r.end
    ensures var res, after := MatchFrom([r] + rest, muts, i), MatchFrom(rest, muts, i);
      res.0 == [Counted(r, 0, 0)] + after.0 && res.1 == after.1 && res.2 == after.2
  {
    assert ([r] + rest)[0] == r && ([r] + rest)[1..] == rest;
    assert SkipBefore(r, muts, i) == i;
    assert TakeWithin(r, muts, i) == i;
    assert muts[i..i] == [];
    assert Records(muts[i..i]) == [];
  }

  /** On the same input the cursor stops exactly at the mutations right of
      the last region: those are the trailing mutations, neither counted
      nor unmatched. */
  lemma {:induction false} StrandedAreRightOfLast(regions: seq<Segment>, muts: seq<Mutation>)
    requires Ascending(muts) && Disjoint(regions) && |regions| > 0
    ensures var f := MatchFrom(regions, muts, 0).2;
      forall x :: 0 <= x < |muts| ==> (x < f <==> Position(muts[x]) <= regions[|regions| - 1].end)
  {
    MatchCursorReference(regions, muts, 0);
  }

  // ---------------------------------------------------------------------
  // main: one call of add_mutation_counts per chromosome
  // ---------------------------------------------------------------------

  function MutChrom(m: Mutation): string
  {
    m.chromosome
  }

  /** The region column of `counts_df`. */
  function Regions(cs: seq<Counted>): (r: seq<Segment>)
    ensures |r| == |cs|
    ensures forall k :: 0 <= k < |cs| ==> r[k] == cs[k].region
  {
    seq(|cs|, k requires 0 <= k < |cs| => cs[k].region)
  }

  /** One pass of the loop in `main`: `add_mutation_counts` on the rows of
      both tables whose chromosome is `c`. */
  function CountOn(regions: seq<Segment>, muts: seq<Mutation>, c: string): (seq<Counted>, seq<Unmatched>)
  {
    AddMutationCounts(Select(regions, SegChrom, c), Select(muts, MutChrom, c))
  }

  /** `counts_df` and `not_matched_df` once the loop has visited the
      chromosomes `cs`, each pass concatenated after the earlier ones. */
  function CountOver(regions: seq<Segment>, muts: seq<Mutation>, cs: seq<string>): (seq<Counted>, seq<Unmatched>)
    decreases |cs|
  {
    if |cs| == 0 then ([], [])
    else
      var done := CountOver(regions, muts, cs[..|cs| - 1]);
      var here := CountOn(regions, muts, cs[|cs| - 1]);
      (done.0 + here.0, done.1 + here.1)
  }

  /** The chromosomes of the region table, in order of first appearance
      (`regions_df['chrom'].unique()`). */
  function RegionChroms(regions: seq<Segment>): seq<string>
  {
    Unique(Column(regions, SegChrom))
  }

  /** What `main` writes to `counts.csv` and `not_matched.csv`. */
  function CountAll(regions: seq<Segment>, muts: seq<Mutation>): (r: (seq<Counted>, seq<Unmatched>))
    ensures multiset(Regions(r.0)) == multiset(regions)
  {
    CountOverRegions(regions, muts, RegionChroms(regions));
    GroupedByUniqueValues(regions, SegChrom);
    CountOver(regions, muts, RegionChroms(regions))
  }

  /** The main flow: prepare the mutations, then count them chromosome by
      chromosome and concatenate the results. */
  method CountByChromosome(regions: seq<Segment>, lines: seq<MutationLine>)
    returns (mutations: seq<Mutation>, counts: seq<Counted>, notMatched: seq<Unmatched>)
    ensures mutations == PrepMutations(lines)
    ensures (counts, notMatched) == CountAll(regions, mutations)
  {
    mutations := PrepMutations(lines);
    var chroms := RegionChroms(regions);
    counts, notMatched := [], [];
    for i := 0 to |chroms|
      invariant (counts, notMatched) == CountOver(regions, mutations, chroms[..i])
    {
      var c := chroms[i];
      var df1, df2 := CountMutations(Select(regions, SegChrom, c), Select(mutations, MutChrom, c));
      CountOverSnoc(regions, mutations, chroms, i);
      counts := counts + df1;
      notMatched := notMatched + df2;
    }
    assert chroms[..|chroms|] == chroms;
  }

  /** One more pass of the loop appends that chromosome's results. */
  lemma {:induction false} CountOverSnoc(regions: seq<Segment>, muts: seq<Mutation>, cs: seq<string>, i: nat)
    requires i < |cs|
    ensures var done, here := CountOver(regions, muts, cs[..i]), CountOn(regions, muts, cs[i]);
      CountOver(regions, muts, cs[..i + 1]) == (done.0 + here.0, done.1 + here.1)
  {
    assert cs[..i + 1][..i] == cs[..i];
  }

  lemma {:induction false} CountOverRegions(regions: seq<Segment>, muts: seq<Mutation>, cs: seq<string>)
    ensures Regions(CountOver(regions, muts, cs).0) == Grouped(regions, SegChrom, cs)
    decreases |cs|
  {
    if |cs| > 0 {
      var p, c := cs[..|cs| - 1], cs[|cs| - 1];
      var done, here := CountOver(regions, muts, p).0, CountOn(regions, muts, c).0;
      assert CountOver(regions, muts, cs).0 == done + here;
      CountOverRegions(regions, muts, p);
      GroupedSnoc(regions, SegChrom, p, c);
      assert Grouped(regions, SegChrom, cs) == Grouped(regions, SegChrom, p + [c]) by {
        assert cs == p + [c];
      }
      CountOnRegions(regions, muts, c);
      RegionsAppend(done, here);
    }
  }

  /** One pass counts exactly that chromosome's regions, in table order. */
  lemma {:induction false} CountOnRegions(regions: seq<Segment>, muts: seq<Mutation>, c: string)
    ensures Regions(CountOn(regions, muts, c).0) == Select(regions, SegChrom, c)
  {
    var rs := Select(regions, SegChrom, c);
    assert CountOn(regions, muts, c).0 == MatchFrom(rs, Select(muts, MutChrom, c), 0).0;
  }

  lemma {:induction false} RegionsAppend(a: seq<Counted>, b: seq<Counted>)
    ensures Regions(a + b) == Regions(a) + Regions(b)
  {
  }

  /** `counts_df` holds every region exactly once, grouped by chromosome in
      order of first appearance and in table order within a chromosome. */
  lemma {:induction false} CountAllRegions(regions: seq<Segment>, muts: seq<Mutation>)
    ensures Regions(CountAll(regions, muts).0) == Grouped(regions, SegChrom, RegionChroms(regions))
    ensures multiset(Regions(CountAll(regions, muts).0)) == multiset(regions)
  {
    CountOverRegions(regions, muts, RegionChroms(regions));
    GroupedByUniqueValues(regions, SegChrom);
  }

  /** A record of `not_matched_df` is a mutation of the table, on a
      chromosome the region table has, lying left of a region of that
      chromosome. */
  predicate LeftOfSomeRegion(regions: seq<Segment>, muts: seq<Mutation>, u: Unmatched)
  {
    exists m, g :: m in muts && g in regions && u == Record(m)
      && m.chromosome == g.chrom && Position(m) < g.start
  }

  lemma {:induction false} CountOnUnmatched(regions: seq<Segment>, muts: seq<Mutation>, c: string)
    ensures forall u :: u in CountOn(regions, muts, c).1 ==> LeftOfSomeRegion(regions, muts, u)
  {
    var rs, ms := Select(regions, SegChrom, c), Select(muts, MutChrom, c);
    forall u | u in CountOn(regions, muts, c).1 ensures LeftOfSomeRegion(regions, muts, u) {
      var n :| 0 <= n < |CountOn(regions, muts, c).1| && CountOn(regions, muts, c).1[n] == u;
      var x, k := UnmatchedLeftOfRegion(rs, ms, 0, n);
      assert ms[x] in multiset(ms) && rs[k] in multiset(rs);
      assert MutChrom(ms[x]) == c && SegChrom(rs[k]) == c;
    }
  }

  lemma {:induction false} CountOverUnmatched(regions: seq<Segment>, muts: seq<Mutation>, cs: seq<string>)
    ensures forall u :: u in CountOver(regions, muts, cs).1 ==> LeftOfSomeRegion(regions, muts, u)
    decreases |cs|
  {
    if |cs| > 0 {
      CountOverUnmatched(regions, muts, cs[..|cs| - 1]);
      CountOnUnmatched(regions, muts, cs[|cs| - 1]);
    }
  }

  /** Every unmatched record comes from a mutation on a chromosome with
      regions: mutations on other chromosomes are never selected and appear
      in neither output. */
  lemma {:induction false} CountAllUnmatched(regions: seq<Segment>, muts: seq<Mutation>)
    ensures forall u :: u in CountAll(regions, muts).1 ==> LeftOfSomeRegion(regions, muts, u)
  {
    CountOverUnmatched(regions, muts, RegionChroms(regions));
  }

  /** The mutations of one chromosome, taken from the prepared table, are in
      ascending position order. */
  lemma {:induction false} ChromosomeAscending(lines: seq<MutationLine>, c: string)
    ensures Ascending(Select(PrepMutations(lines), MutChrom, c))
  {
    var s := Select(PrepMutations(lines), MutChrom, c);
    SelectKeepsOrder(PrepMutations(lines), MutationKey, MutChrom, c);
    StrLessIrreflexive(c);
    forall a, b | 0 <= a < b < |s| ensures Position(s[a]) <= Position(s[b]) {
      assert KeyLe(MutationKey(s[a]), MutationKey(s[b]));
      assert MutChrom(s[a]) == c && MutChrom(s[b]) == c;
    }
  }

  /** Hence each pass of `main` over prepared mutations meets the reference
      account, whenever that chromosome's regions are disjoint and in
      ascending order. */
  lemma {:induction false} ChromosomeReference(regions: seq<Segment>, lines: seq<MutationLine>, c: string)
    requires Disjoint(Select(regions, SegChrom, c))
    ensures var rs := Select(regions, SegChrom, c);
      var ms := Select(PrepMutations(lines), MutChrom, c);
      var res := CountOn(regions, PrepMutations(lines), c);
      (forall m :: 0 <= m < |rs| ==>
        res.0[m].region == rs[m]
        && res.0[m].silentCount == Count(Hits(ms, rs[m]), SilentClass)
        && res.0[m].missenseCount == Count(Hits(ms, rs[m]), MissenseClass))
      && res.1 == Records(Strays(ms, rs))
  {
    ChromosomeAscending(lines, c);
    AddMutationCountsReference(Select(regions, SegChrom, c), Select(PrepMutations(lines), MutChrom, c));
  }
}
