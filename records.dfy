/** Alignment records as the read filter and the GC estimator see them,
    and the two per-read functions of bamqc: `is_valid` and `calculate_gc`. */
module Records {

  /** The attributes of one alignment record that bamqc consumes. The BAM
      decoder owns the record; here it is a plain value. */
  datatype Record = Record(
    isUnmapped: bool,
    isProperPair: bool,
    isSecondary: bool,
    isSupplementary: bool,
    mappingQuality: nat,
    isRead2: bool,
    bases: string)

  /** `is_valid`: a chain of early rejections; a record survives only if it is
      mapped, properly paired, not secondary, has non-zero mapping quality and
      is not the second mate. The supplementary flag is not consulted. */
  function IsValid(read: Record): (valid: bool)
    ensures valid <==>
      !read.isUnmapped && read.isProperPair && !read.isSecondary &&
      read.mappingQuality != 0 && !read.isRead2
  {
    if read.isUnmapped then false
    else if !read.isProperPair then false
    else if read.isSecondary then false
    else if read.mappingQuality == 0 then false
    else if read.isRead2 then false
    else true
  }

  /** Each of the five conditions rejects on its own: turning any one of them
      to its failing value makes a valid record invalid. */
  lemma EachConditionRejects(read: Record)
    requires IsValid(read)
    ensures !IsValid(read.(isUnmapped := true))
    ensures !IsValid(read.(isProperPair := false))
    ensures !IsValid(read.(isSecondary := true))
    ensures !IsValid(read.(mappingQuality := 0))
    ensures !IsValid(read.(isRead2 := true))
  {
  }

  /** The filter does not look at the supplementary flag: a supplementary
      alignment of read 1 that passes the five checks is kept, so a chimeric
      fragment can contribute more than one record. */
  lemma SupplementaryPasses(read: Record)
    requires IsValid(read)
    ensures IsValid(read.(isSupplementary := true))
    ensures IsValid(read.(isSupplementary := false))
  {
  }

  /** True for the two symbols the estimator counts; case matters. */
  predicate IsGc(c: char) {
    c == 'G' || c == 'C'
  }

  /** The numerator of `calculate_gc`: how many symbols of `s` are 'G' or 'C'. */
  function CountGc(s: string): (n: nat)
    ensures n <= |s|
  {
    if s == [] then 0
    else (if IsGc(s[0]) then 1 else 0) + CountGc(s[1..])
  }

  /** `calculate_gc`: the fraction of 'G'/'C' symbols in a read's sequence.
      The source divides by the length without a guard, hence the requires. */
  function GcFraction(s: string): (gc: real)
    requires |s| > 0
    ensures 0.0 <= gc <= 1.0
  {
    CountGc(s) as real / |s| as real
  }

  /** An independent description of the count: the multiplicity of 'G' plus
      the multiplicity of 'C' in the sequence. */
  lemma {:induction false} CountGcIsMultiplicity(s: string)
    ensures CountGc(s) == multiset(s)['G'] + multiset(s)['C']
  {
    if s != [] {
      CountGcIsMultiplicity(s[1..]);
      assert s == [s[0]] + s[1..];
      assert multiset(s) == multiset{s[0]} + multiset(s[1..]);
    }
  }

  /** `calculate_gc` is the number of 'G' plus the number of 'C' symbols,
      divided by the length. */
  lemma GcFractionIsGcOverLength(s: string)
    requires |s| > 0
    ensures GcFraction(s) == (multiset(s)['G'] + multiset(s)['C']) as real / |s| as real
  {
    CountGcIsMultiplicity(s);
  }

  /** No 'G' and no 'C' (for instance only 'A'/'T') gives no GC count at all;
      the match is case-sensitive, so 'g' and 'c' do not count either. */
  lemma {:induction false} CountGcWithoutGc(s: string)
    requires forall i :: 0 <= i < |s| ==> !IsGc(s[i])
    ensures CountGc(s) == 0
  {
    if s != [] {
      CountGcWithoutGc(s[1..]);
    }
  }

  /** Only 'G'/'C' symbols: every symbol is counted. */
  lemma {:induction false} CountGcAllGc(s: string)
    requires forall i :: 0 <= i < |s| ==> IsGc(s[i])
    ensures CountGc(s) == |s|
  {
    if s != [] {
      CountGcAllGc(s[1..]);
    }
  }

  /** A sequence of only 'A' and 'T' has GC fraction 0. */
  lemma AtOnlyIsZero(s: string)
    requires |s| > 0
    requires forall i :: 0 <= i < |s| ==> s[i] == 'A' || s[i] == 'T'
    ensures GcFraction(s) == 0.0
  {
    CountGcWithoutGc(s);
  }

  /** A sequence of only 'G' and 'C' has GC fraction 1. */
  lemma GcOnlyIsOne(s: string)
    requires |s| > 0
    requires forall i :: 0 <= i < |s| ==> IsGc(s[i])
    ensures GcFraction(s) == 1.0
  {
    CountGcAllGc(s);
  }

  /** Matching is case-sensitive: lower-case 'g' and 'c' count as non-GC, so
      a sequence of lower-case bases only has GC fraction 0. */
  lemma LowerCaseIsNotCounted(s: string)
    requires |s| > 0
    requires forall i :: 0 <= i < |s| ==> s[i] in "acgtn"
    ensures GcFraction(s) == 0.0
  {
    CountGcWithoutGc(s);
  }
}
