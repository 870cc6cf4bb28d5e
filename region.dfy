/** `process_region`: one worker's scan over the records fetched for one
    reference, and the facts that make splitting the scan across regions
    harmless. */
module Region {
  import opened Records
  import opened Partials

  /** The GC estimator can be applied to every record the filter keeps: the
      source divides by the sequence length without a guard, so a valid
      record with an empty sequence would abort the scan. */
  predicate GcDefined(records: seq<Record>) {
    forall r :: r in records && IsValid(r) ==> |r.bases| > 0
  }

  /** The records of a fetch that the filter keeps, in fetch order. */
  function ValidReads(records: seq<Record>): (kept: seq<Record>)
    ensures |kept| <= |records|
    ensures forall r :: r in kept <==> r in records && IsValid(r)
  {
    if records == [] then []
    else
      var last := records[|records| - 1];
      var init := ValidReads(records[..|records| - 1]);
      if IsValid(last) then init + [last] else init
  }

  /** The filter keeps every valid record as often as it was fetched and
      drops every other record. */
  lemma {:induction false} ValidReadsMultiplicity(records: seq<Record>, r: Record)
    ensures multiset(ValidReads(records))[r] == if IsValid(r) then multiset(records)[r] else 0
  {
    if records != [] {
      var init, last := records[..|records| - 1], records[|records| - 1];
      assert records == init + [last];
      ValidReadsMultiplicity(init, r);
    }
  }

  /** The sum of `calculate_gc` over a list of records. */
  function SumGc(records: seq<Record>): (sum: real)
    requires forall r :: r in records ==> |r.bases| > 0
    ensures 0.0 <= sum <= |records| as real
  {
    if records == [] then 0.0
    else SumGc(records[..|records| - 1]) + GcFraction(records[|records| - 1].bases)
  }

  /** What `process_region` promises to return for a fetch: the GC sum over
      the valid records and how many there are. */
  function RegionResult(records: seq<Record>): (p: Partial)
    requires GcDefined(records)
    ensures p.count == |ValidReads(records)| && Bounded(p)
  {
    Partial(SumGc(ValidReads(records)), |ValidReads(records)|)
  }

  /** `process_region`: walk the fetched records, skip the ones the filter
      rejects, and add each kept record's GC fraction and a count of one. */
  method ProcessRegion(fetched: seq<Record>) returns (gcSum: real, totalUnique: nat)
    requires GcDefined(fetched)
    ensures Partial(gcSum, totalUnique) == RegionResult(fetched)
    ensures totalUnique == |ValidReads(fetched)|
    ensures 0.0 <= gcSum <= totalUnique as real
  {
    gcSum := 0.0;
    totalUnique := 0;
    for i := 0 to |fetched|
      invariant totalUnique == |ValidReads(fetched[..i])|
      invariant gcSum == SumGc(ValidReads(fetched[..i]))
    {
      assert fetched[..i + 1][..i] == fetched[..i];
      var read := fetched[i];
      if !IsValid(read) {
        continue;
      }
      gcSum := gcSum + GcFraction(read.bases);
      totalUnique := totalUnique + 1;
    }
    assert fetched[..|fetched|] == fetched;
  }

  /** A record the filter rejects changes neither accumulator. */
  lemma InvalidReadIgnored(records: seq<Record>, read: Record)
    requires GcDefined(records) && !IsValid(read)
    ensures GcDefined(records + [read])
    ensures RegionResult(records + [read]) == RegionResult(records)
  {
    assert (records + [read])[..|records|] == records;
  }

  /** Filtering distributes over concatenation. */
  lemma {:induction false} ValidReadsAppend(a: seq<Record>, b: seq<Record>)
    ensures ValidReads(a + b) == ValidReads(a) + ValidReads(b)
    decreases |b|
  {
    if b == [] {
      assert a + b == a;
    } else {
      var b', y := b[..|b| - 1], b[|b| - 1];
      assert (a + b)[..|a + b| - 1] == a + b';
      assert (a + b)[|a + b| - 1] == y;
      ValidReadsAppend(a, b');
    }
  }

  /** Summing distributes over concatenation. */
  lemma {:induction false} SumGcAppend(a: seq<Record>, b: seq<Record>)
    requires forall r :: r in a + b ==> |r.bases| > 0
    ensures SumGc(a + b) == SumGc(a) + SumGc(b)
    decreases |b|
  {
    if b == [] {
      assert a + b == a;
    } else {
      var b', y := b[..|b| - 1], b[|b| - 1];
      assert (a + b)[..|a + b| - 1] == a + b';
      assert (a + b)[|a + b| - 1] == y;
      SumGcAppend(a, b');
    }
  }

  lemma GcDefinedAppend(a: seq<Record>, b: seq<Record>)
    requires GcDefined(a) && GcDefined(b)
    ensures GcDefined(a + b)
  {
    assert forall r :: r in a + b ==> r in a || r in b;
  }

  lemma KeptHaveBases(a: seq<Record>, b: seq<Record>)
    requires GcDefined(a) && GcDefined(b)
    ensures forall r :: r in ValidReads(a) + ValidReads(b) ==> |r.bases| > 0
  {
    var va, vb := ValidReads(a), ValidReads(b);
    assert forall r :: r in va + vb ==> r in va || r in vb;
  }

  /** Partition invariance: scanning `a + b` in one worker gives the
      componentwise sum of scanning `a` and `b` in two workers. */
  lemma RegionSplit(a: seq<Record>, b: seq<Record>)
    requires GcDefined(a) && GcDefined(b)
    ensures GcDefined(a + b)
    ensures RegionResult(a + b) == Combine(RegionResult(a), RegionResult(b))
  {
    GcDefinedAppend(a, b);
    var va, vb, vab := ValidReads(a), ValidReads(b), ValidReads(a + b);
    assert vab == va + vb by {
      ValidReadsAppend(a, b);
    }
    assert SumGc(vab) == SumGc(va) + SumGc(vb) by {
      KeptHaveBases(a, b);
      SumGcAppend(va, vb);
    }
  }
}
