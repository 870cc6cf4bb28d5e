/** `calculate_mean_gc`: one worker per reference sequence, the fold over
    their results in completion order, and the final division. */
module MeanGc {
  import opened Records
  import opened Partials
  import opened Region

  /** What the alignment reader exposes of an indexed BAM file: the names of
      its reference sequences, and for each name the records `fetch` yields. */
  datatype AlignmentFile = AlignmentFile(
    references: seq<string>,
    regions: map<string, seq<Record>>)

  /** Every name in `names` can be fetched, and every valid record fetched
      for it has a non-empty sequence. */
  predicate Fetchable(bam: AlignmentFile, names: seq<string>) {
    forall name :: name in names ==> name in bam.regions && GcDefined(bam.regions[name])
  }

  /** The records of all regions named in `names`, region after region. */
  function AllReads(bam: AlignmentFile, names: seq<string>): (all: seq<Record>)
    requires Fetchable(bam, names)
    ensures GcDefined(all)
  {
    if names == [] then []
    else
      var init := names[..|names| - 1];
      assert forall name :: name in init ==> name in names;
      AllReads(bam, init) + bam.regions[names[|names| - 1]]
  }

  /** The per-region results, in submission order. */
  function RegionResults(bam: AlignmentFile, names: seq<string>): (ps: seq<Partial>)
    requires Fetchable(bam, names)
    ensures |ps| == |names|
  {
    seq(|names|, k requires 0 <= k < |names| => RegionResult(bam.regions[names[k]]))
  }

  /** Partition invariance over a whole file: folding the per-region results
      gives what a single scan over all the file's records would. */
  lemma {:induction false} RegionResultsTotal(bam: AlignmentFile, names: seq<string>)
    requires Fetchable(bam, names)
    ensures Total(RegionResults(bam, names)) == RegionResult(AllReads(bam, names))
    decreases |names|
  {
    if names != [] {
      var init, last := names[..|names| - 1], names[|names| - 1];
      assert forall name :: name in init ==> name in names;
      RegionResultsTotal(bam, init);
      assert RegionResults(bam, names)[..|names| - 1] == RegionResults(bam, init);
      RegionSplit(AllReads(bam, init), bam.regions[last]);
    }
  }

  /** The list of futures: one `process_region` call per reference, in the
      order of the references. */
  method SubmitRegions(bam: AlignmentFile) returns (futures: seq<Partial>)
    requires Fetchable(bam, bam.references)
    ensures futures == RegionResults(bam, bam.references)
  {
    var references := bam.references;
    futures := [];
    for i := 0 to |references|
      invariant futures == RegionResults(bam, references[..i])
    {
      assert references[..i + 1][..i] == references[..i];
      var regionGc, regionCount := ProcessRegion(bam.regions[references[i]]);
      futures := futures + [Partial(regionGc, regionCount)];
    }
    assert references[..|references|] == references;
  }

  /** The `for future in as_completed(futures)` loop: add each arriving
      result into the two accumulators. */
  method FoldCompleted(arrived: seq<Partial>) returns (gcSum: real, totalUnique: nat)
    ensures Partial(gcSum, totalUnique) == Total(arrived)
  {
    gcSum := 0.0;
    totalUnique := 0;
    for k := 0 to |arrived|
      invariant Partial(gcSum, totalUnique) == Total(arrived[..k])
    {
      assert arrived[..k + 1][..k] == arrived[..k];
      var regionGc, regionCount := arrived[k].gcSum, arrived[k].count;
      gcSum := gcSum + regionGc;
      totalUnique := totalUnique + regionCount;
    }
    assert arrived[..|arrived|] == arrived;
  }

  /** `calculate_mean_gc`. The futures are folded in `completionOrder`, the
      order in which `as_completed` hands them back, which may be any
      permutation of the submission order. The division is unguarded, so at
      least one record must pass the filter. The mean is the one a single
      sequential scan of the whole file would give. */
  method CalculateMeanGc(bam: AlignmentFile, completionOrder: seq<nat>) returns (averageGc: real)
    requires Fetchable(bam, bam.references)
    requires multiset(completionOrder) == multiset(Indices(|bam.references|))
    requires |ValidReads(AllReads(bam, bam.references))| > 0
    ensures averageGc == Mean(RegionResult(AllReads(bam, bam.references)))
    ensures 0.0 <= averageGc <= 1.0
  {
    var futures := SubmitRegions(bam);
    CompletionOrderIrrelevant(futures, completionOrder);
    var gcSum, totalUnique := FoldCompleted(Picked(futures, completionOrder));
    RegionResultsTotal(bam, bam.references);
    averageGc := gcSum / totalUnique as real;
  }
}
