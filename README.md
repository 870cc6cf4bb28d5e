# bamqc: mean GC content of uniquely mapped reads

bamqc reads an indexed BAM file and reports the mean GC content of its
uniquely mapped reads. These are alignments that are mapped, properly
paired, not secondary, have non-zero mapping quality and are not read 2.
The supplementary flag is not checked, so a supplementary alignment of read 1
that passes these checks is counted as well. bamqc submits one task per
reference sequence (region) to a process pool. Each task re-opens the file,
fetches the records of its region, filters them and returns a partial
`(gc_sum, total_unique)`. The parent process adds up the partials as the
tasks finish, in whatever order they finish, and divides the sum by the
count.

This project models that pipeline in Dafny:

- `records.dfy` (module `Records`): the alignment record, the read filter
  `is_valid` and the GC estimator `calculate_gc`.
- `partials.dfy` (module `Partials`): a worker's partial result, the fold
  `+=` over partials and the final division. It also models completion order
  as a permutation of the submission order.
- `region.dfy` (module `Region`): the worker loop `process_region` over the
  records fetched for one region. Its specification is "sum of GC fractions
  over the records the filter keeps, and how many those are".
- `mean_gc.dfy` (module `MeanGc`): `calculate_mean_gc`. The BAM file is a
  value that holds its reference names and, per name, the records `fetch`
  yields. The function submits one task per reference, folds the results
  in any completion order and divides.

The main result is the contract of `MeanGc.CalculateMeanGc`. For every
completion order it returns the mean GC fraction of all valid records in the
file, which is what one sequential scan of the whole file would give. The
result lies in [0, 1]. Two facts support it:

- the fold does not depend on the order of the partials (`TotalPermutation`);
- splitting records between regions does not change the totals (`RegionSplit`).

Sums are exact `real`s, not floating-point values.

The source has two divisions without a guard. `calculate_gc` divides by the
sequence length. `calculate_mean_gc` divides by the number of valid reads.
The code raises no dedicated error for either case, so both become
preconditions:

- every valid record must have a non-empty sequence (`GcDefined`);
- at least one record in the file must pass the filter.

An empty reference list leaves zero valid reads and falls under the second
one.

## Model

| member | source | states |
|---|---|---|
| `Records.IsValid` | bamqc/src/bamqc/bamqc.py:66-82 | A record passes exactly when it is mapped, properly paired, not secondary, has mapping quality other than 0 and is not read 2 |
| `Records.EachConditionRejects` | bamqc/src/bamqc/bamqc.py:72-81 | Taking a valid record and flipping any one of the five conditions to its failing value makes it invalid |
| `Records.SupplementaryPasses` | bamqc/src/bamqc/bamqc.py:66-82 | The supplementary flag does not affect the filter: a valid record stays valid when marked supplementary |
| `Records.CountGc` | bamqc/src/bamqc/bamqc.py:89 | The number of 'G'/'C' symbols never exceeds the sequence length |
| `Records.CountGcIsMultiplicity` | bamqc/src/bamqc/bamqc.py:89 | The counted symbols are exactly the occurrences of 'G' plus the occurrences of 'C' |
| `Records.GcFraction` | bamqc/src/bamqc/bamqc.py:85-90 | GC fraction of a non-empty sequence (the length is the unguarded divisor); always in [0, 1] |
| `Records.GcFractionIsGcOverLength` | bamqc/src/bamqc/bamqc.py:89 | The GC fraction equals (occurrences of 'G' + occurrences of 'C') divided by the sequence length |
| `Records.CountGcWithoutGc` | bamqc/src/bamqc/bamqc.py:89 | A sequence with no 'G' and no 'C' has count 0 |
| `Records.CountGcAllGc` | bamqc/src/bamqc/bamqc.py:89 | A sequence made only of 'G'/'C' has count equal to its length |
| `Records.AtOnlyIsZero` | bamqc/src/bamqc/bamqc.py:89 | A sequence of only 'A'/'T' has GC fraction 0 |
| `Records.GcOnlyIsOne` | bamqc/src/bamqc/bamqc.py:89 | A sequence of only 'G'/'C' has GC fraction 1 |
| `Records.LowerCaseIsNotCounted` | bamqc/src/bamqc/bamqc.py:89 | Matching is case-sensitive: a lower-case sequence, including 'g'/'c', has GC fraction 0 |
| `Partials.CombineCommutes` | bamqc/src/bamqc/bamqc.py:38-39 | Adding two partials into the accumulators is commutative |
| `Partials.CombineAssociates` | bamqc/src/bamqc/bamqc.py:38-39 | Adding partials into the accumulators is associative |
| `Partials.TotalAppend` | bamqc/src/bamqc/bamqc.py:36-39 | Folding a concatenation of partial lists equals combining the folds of the two lists |
| `Partials.TotalPermutation` | bamqc/src/bamqc/bamqc.py:36-39 | Any permutation of the partials folds to the same `gc_sum` and `total_unique` |
| `Partials.TotalBounded` | bamqc/src/bamqc/bamqc.py:34-39 | If every partial has 0 <= sum <= count, so does the folded total |
| `Partials.Mean` | bamqc/src/bamqc/bamqc.py:40 | The final division is defined only for a positive count; a bounded total gives a mean in [0, 1] |
| `Partials.CompletionOrderIrrelevant` | bamqc/src/bamqc/bamqc.py:33-39 | Folding the futures' results in any completion order, i.e. any permutation of the submission indices, gives the submission-order totals |
| `Region.ValidReads` | bamqc/src/bamqc/bamqc.py:55-58 | The kept records are exactly the fetched records that pass the filter, and there are no more of them than were fetched |
| `Region.ValidReadsMultiplicity` | bamqc/src/bamqc/bamqc.py:55-58 | Each valid record is kept as many times as it was fetched, and each invalid one zero times |
| `Region.SumGc` | bamqc/src/bamqc/bamqc.py:59 | The sum of GC fractions over n records lies in [0, n] |
| `Region.RegionResult` | bamqc/src/bamqc/bamqc.py:45-63 | A region's result counts its valid records, and its GC sum lies between 0 and that count |
| `Region.ProcessRegion` | bamqc/src/bamqc/bamqc.py:45-63 | The loop returns the sum of GC fractions of the valid fetched records and their number, with 0 <= gc_sum <= total_unique |
| `Region.InvalidReadIgnored` | bamqc/src/bamqc/bamqc.py:57-58 | Appending a record that fails the filter changes neither accumulator |
| `Region.ValidReadsAppend` | bamqc/src/bamqc/bamqc.py:55-58 | Filtering a concatenation equals concatenating the filtered parts |
| `Region.SumGcAppend` | bamqc/src/bamqc/bamqc.py:59 | The GC sum of a concatenation is the sum of the parts' GC sums |
| `Region.RegionSplit` | bamqc/src/bamqc/bamqc.py:55-60 | Scanning `a + b` in one worker gives the componentwise sum of scanning `a` and `b` separately |
| `MeanGc.RegionResultsTotal` | bamqc/src/bamqc/bamqc.py:33-39 | Folding the per-reference results equals the result of one scan over all records of all references |
| `MeanGc.SubmitRegions` | bamqc/src/bamqc/bamqc.py:32-33 | One `process_region` result per reference, in reference order |
| `MeanGc.FoldCompleted` | bamqc/src/bamqc/bamqc.py:34-39 | The `+=` loop over arriving results leaves the folded total of everything that arrived |
| `MeanGc.CalculateMeanGc` | bamqc/src/bamqc/bamqc.py:21-42 | For any completion order, the mean equals the mean GC fraction of all valid records of the file, and lies in [0, 1]; requires at least one valid record |

## Left out

- Opening and closing the BAM file, `bam.references` and `bam.fetch(region)` (pysam): this is foreign binary-format I/O. The file is the value `AlignmentFile`, holding the reference names and the records each fetch yields.
- `ProcessPoolExecutor`, `submit` and `as_completed`: process concurrency is not modelled. Workers run one after another. Arbitrary completion order is the parameter `completionOrder`, which may be any permutation of the reference indices.
- Floating point: Python sums floats, so a different completion order can change the last bits of the result. The model uses exact reals, so its order-independence is exact.
- Records with no stored sequence (pysam gives `None`): the model's sequence is always a string.
- Failures raised by the reader or by a worker: an I/O error during fetch propagates through `future.result()`. The model does not represent it.
- `CalculateMeanGc`: when no record passes the filter, including when the file has no references, the source raises a division-by-zero error. The model makes this case a precondition instead of modelling the exception.
- `ProcessRegion`: a valid record with an empty sequence makes the source raise a division-by-zero error inside the worker. The model makes this case a precondition (`GcDefined`) instead of modelling the exception.
- `main`, `parse_arguments`, timing and logging: command-line and logging plumbing.
- bamqc/setup.py: packaging metadata only.
