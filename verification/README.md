# binGraph entropy and byte-histogram engine, in Dafny

This project models the numeric core of binGraph's `exeGraph_mpl.py`. The
tool draws entropy and byte-distribution charts of (often malicious)
executables. The model covers the integer and sequence logic that feeds the
plots. The entropy formula, the trend fit, section colours and marker
positions are left out (see "## Left out"). What is modelled:

- **Whole-file sampling** (`bin_ent` with `get_chunk`). The file is cut into
  chunks of `-(-fs // chunks)` bytes. Each chunk yields one entropy sample.
  For every tracked-byte group (`ibytes`), each chunk also yields one
  percentage: `100 * occurrences / len(chunk)`.
- **Per-section block profiling** (`section_ent_line`). Each section's
  content is walked in blocks whose boundaries fall at multiples of
  `block_len = -(-len // block_size)`. The first block holds `block_len`
  bytes. The byte at each interior multiple is skipped, so each later block
  holds `block_len - 1` bytes, the last one clipped to the content. Each
  block's entropy is smoothed as the two-point median with the previous
  block's entropy, starting from 0.
- **Byte histograms** (`section_byte_occurance_histogram` and `bin_hist`).
  Both build a value-ordered row of counts over `range(ignore_0, 256)` and
  the same counts sorted largest first. They are modelled once.
- **Section names** (`fix_section_name`). A section with a missing or empty
  name is shown as `sect_<index>`.

The file is an in-memory byte sequence, and `get_chunk` becomes sequence
splitting. Sections are plain (optional name, content) values. Shannon
entropy is a function parameter `ent: seq<Byte> -> real`. Its range [0, 1]
and its value 0 on constant input are stated as predicates
(`Normalized`, `ZeroOnConstant`) and assumed only by the lemmas that need
them.

Python's integer behaviour is written out:

- floor division for both divisor signs (`PyArith.FloorDiv`, `PyArith.CeilDiv`);
- slice clipping (`SectionBlocks.Slice`);
- `fh.read(n)` with `n <= 0`: an empty read for 0 and read-to-end for -1.
  A buffered binary file raises `ValueError` for any size below -1.

A chunk count or block size of 0 makes Python raise `ZeroDivisionError`,
which is modelled as `Err(ZeroDivision)`. A negative chunk count at most
half the file size makes the chunk size `-(-fs // chunks)` fall below -1.
The first `fh.read` then raises `ValueError`, which is modelled as
`Err(ReadSize)`. A negative block size on
non-empty content makes the `while` loop run forever, which is modelled as
`Err(NonTermination)`. `SectionBlocks.NegativeBlockSizeNeverExits` proves
that the guard then holds after every iteration.

The sampling loops are imperative methods with loop invariants:

- the chunk loop of `bin_ent` (`SampleChunks`), with its inner loops over
  the groups (`AppendPercentages`) and over a group's bytes
  (`CountOccurrences`);
- the `while` loop of `section_ent_line` (`WalkBlocks`);
- the loops over sections (`SectionEntLines`, `SectionHistograms`).

Each is proven equal to a functional reference definition (`BinEntSpec`,
`SectionSamples`, `ByteHistogram`), and the lemmas state what those
references mean. The other loops are recursive functions:

- the `get_chunk` generator (`GetChunk`);
- the histogram loops `for x in range(ignore_0, 256)` (`CountsFrom`);
- `list.sort()` and `list.reverse()` (`SortAscending`, `Reverse`).

In `bin_ent`, the median is computed on exeGraph_mpl.py:307 and
overwritten with the raw entropy on line 309. `BinEnt` therefore stores
raw chunk entropies. Only `section_ent_line` smooths its samples.

Files: `results.dfy`, `pyarith.dfy`, `bytes.dfy`, `smoothing.dfy`,
`chunking.dfy`, `file_entropy.dfy`, `section_blocks.dfy`, `histogram.dfy`,
`section_name.dfy`, `sections.dfy`.

## Model

| member | source | states |
|---|---|---|
| PyArith.FloorDiv | exeGraph_mpl.py:83 | Python `//` rounds towards minus infinity for either sign of the divisor |
| PyArith.CeilDiv | exeGraph_mpl.py:290 | `-(-a // b)` is the ceiling of a/b: for b > 0, `(q-1)*b < a <= q*b` |
| PyArith.CeilDivLeast | exeGraph_mpl.py:290 | the rounded-up chunk size is the least multiplier whose multiple reaches the size |
| PyArith.CeilDivBelowMinusOne | exeGraph_mpl.py:290 | `-(-fs // chunks)` falls below -1 exactly when `chunks` is negative and `fs >= -2*chunks` |
| PyArith.CeilDivSmallNegative | exeGraph_mpl.py:290 | for a negative `chunks` with `fs < -2*chunks`, the chunk size is 0 when `fs < -chunks` and -1 otherwise |
| Bytes.Count | exeGraph_mpl.py:314 | `Counter(chunk)[b]` is at most the chunk length, and 0 exactly when the chunk lacks the value |
| Bytes.CountIsMultiplicity | exeGraph_mpl.py:152 | the count agrees with the multiset of the bytes |
| Bytes.Occurrences | exeGraph_mpl.py:317-319 | the summed count of a byte list is 0 exactly when none of its values occurs in the chunk |
| Bytes.OccurrencesOfDistinct | exeGraph_mpl.py:317-319 | for a byte list without repeats, summing per-value counts counts the bytes whose value is listed |
| Bytes.CountInAll | exeGraph_mpl.py:317-321 | every byte is counted exactly when all of them have a listed value |
| Bytes.CountInNone | exeGraph_mpl.py:317-321 | no byte is counted exactly when none has a listed value |
| Chunking.GetChunk | exeGraph_mpl.py:54-60 | for a read size `fh.read` accepts (at least -1), every yielded chunk is non-empty; nothing is yielded exactly when the file is empty or the read size is 0; size -1 yields the whole file as one chunk |
| Chunking.ReadChunks | exeGraph_mpl.py:54-60 | running the generator fails with ValueError exactly for a read size below -1; otherwise its chunks are non-empty and, for a non-zero size, make up the whole file |
| Chunking.GetChunkCount | exeGraph_mpl.py:54-60 | a positive read size yields `ceil(len/size)` chunks |
| Chunking.GetChunkAt | exeGraph_mpl.py:54-60 | chunk i is bytes `[i*size, (i+1)*size)` of the file, clipped to its end |
| Chunking.ChunkLengths | exeGraph_mpl.py:54-60 | all chunks but the last are exactly `size` bytes, the last at most `size` |
| Chunking.GetChunkFlatten | exeGraph_mpl.py:54-60 | for a positive read size or -1, the chunks laid end to end are the whole file |
| FileEntropy.CountOccurrences | exeGraph_mpl.py:317-319 | the loop `occurance += cbytes[b]` sums the counts of the listed bytes, repeats included |
| FileEntropy.Percentage | exeGraph_mpl.py:321 | a group's percentage for a non-empty chunk is non-negative, and 0 exactly when none of its values occurs in the chunk |
| FileEntropy.AppendPercentages | exeGraph_mpl.py:313-321 | every group's series, and no other, gains this chunk's percentage |
| FileEntropy.BinEntSpec | exeGraph_mpl.py:289-321 | the reference series fail with ZeroDivisionError exactly for a chunk count of 0, and with ValueError exactly for a negative count at most half the file size; otherwise there is one percentage series per `ibytes` key, each as long as the entropy series |
| FileEntropy.SampleChunks | exeGraph_mpl.py:302-321 | one raw entropy sample per chunk (the median is overwritten) and, per group, one percentage per chunk |
| FileEntropy.BinEnt | exeGraph_mpl.py:289-321 | the sampling of `bin_ent` equals the reference series, failing for a chunk count of 0 and for a chunk size below -1 |
| FileEntropy.BinEntShape | exeGraph_mpl.py:289-303 | a failure exactly for `chunks == 0` or `chunks < 0 <= fs + 2*chunks`; for chunks >= 1 the chunk size is `ceil(len/chunks)`, there are `ceil(len/chunkSize) <= chunks` samples, none for an empty file, and every group series has one entry per sample; a negative count that does not fail gives chunk size 0 and no samples or chunk size -1 and one whole-file sample |
| FileEntropy.BinEntSamples | exeGraph_mpl.py:303-310 | sample i is the raw entropy of chunk i; the chunks partition the file; all but the last are full size |
| FileEntropy.PercentageOfDistinct | exeGraph_mpl.py:314-321 | for a list without repeats the percentage is 100 times the listed share of the chunk, lies in [0, 100], is 100 iff every byte is listed and 0 iff none is |
| FileEntropy.ShareBounds | exeGraph_mpl.py:321 | `(n/len)*100` for `n <= len` lies in [0, 100], reaching 100 iff n = len and 0 iff n = 0 |
| FileEntropy.ZeroFileScenario | exeGraph_mpl.py:289-321 | an all-zero file gives only 0 entropy samples and 100 in every entry of a group tracking byte 0 |
| Smoothing.Median2 | exeGraph_mpl.py:98 | the median of two values is their mean |
| Smoothing.SmoothSnoc | exeGraph_mpl.py:95-102 | smoothing one more raw sample appends its median with the previous raw sample |
| Smoothing.Smooth | exeGraph_mpl.py:89-102 | one smoothed sample per raw sample; the first is half the first raw one (`prev_ent` starts at 0), later ones are the mean of two neighbouring raw samples |
| Smoothing.SmoothBounded | exeGraph_mpl.py:95-102 | raw samples in [0, 1] give smoothed samples in [0, 1] |
| Smoothing.SmoothedEntropies | exeGraph_mpl.py:88-102 | the smoothed entropies of a block sequence are half the first block's entropy, then means of neighbouring blocks' entropies; normalised entropy keeps them in [0, 1] |
| SectionBlocks.BlockLen | exeGraph_mpl.py:83 | `block_len` is the ceiling of len/block_size: non-negative for a positive block size, at least 1 for non-empty content, at most 0 for a negative block size |
| SectionBlocks.Slice | exeGraph_mpl.py:95 | a Python slice with non-negative bounds clips them to the length and is empty when reversed |
| SectionBlocks.BlockCount | exeGraph_mpl.py:90-105 | the loop runs at least once; the guard admits the last counted iteration and rejects the next |
| SectionBlocks.Blocks | exeGraph_mpl.py:90-105 | one block per iteration of the loop; block k is `content[block_start:block_end]` of iteration k+1 clipped to the content, and every block ends before the next one starts |
| SectionBlocks.SectionSamples | exeGraph_mpl.py:83-105 | the reference samples: ZeroDivisionError exactly for block size 0, non-termination exactly for a negative size on non-empty content, otherwise at least one sample |
| SectionBlocks.BlockGuard | exeGraph_mpl.py:90 | the guard `prev_end <= len` admits iteration i exactly when i is within the block count |
| SectionBlocks.WalkStep | exeGraph_mpl.py:92-105 | an admitted iteration slices block i, and the next `prev_end` is one past `block_end`, strictly further on |
| SectionBlocks.Advance | exeGraph_mpl.py:92-105 | one admitted iteration takes `prev_end` from block i's start (0 for the first block) to one past `block_end`, block i+1's start, and extends the samples by the median of this block's and the previous block's entropy |
| SectionBlocks.WalkDone | exeGraph_mpl.py:90-105 | once the guard fails every block has been visited and the samples are the smoothed block entropies |
| SectionBlocks.SectionEntLine | exeGraph_mpl.py:83-105 | the walk for one section equals the reference samples: an error for block size 0 or for a negative block size on non-empty content |
| SectionBlocks.WalkBlocks | exeGraph_mpl.py:87-105 | the `while` loop terminates and produces the smoothed entropies of the blocks in order |
| SectionBlocks.SectionSampleCount | exeGraph_mpl.py:83-105 | with block size B >= 1 there are `ceil(len/block_len) <= B` samples, and exactly one, over an empty slice, for empty content |
| SectionBlocks.BlockCountIsCeiling | exeGraph_mpl.py:83-105 | with block size B >= 1 and non-empty content the loop runs `ceil(len/block_len) <= B` times |
| SectionBlocks.NegativeBlockSizeNeverExits | exeGraph_mpl.py:83-104 | with a negative block size and non-empty content the loop guard holds after every iteration |
| SectionBlocks.BlockSlices | exeGraph_mpl.py:92-104 | block 1 is `content[0:block_len]`, block i is `content[(i-1)*block_len+1 : i*block_len]` clipped; blocks are increasing and disjoint |
| SectionBlocks.BlockSizes | exeGraph_mpl.py:92-104 | the first block holds `block_len` bytes (clipped); every later block holds at most `block_len - 1`, exactly that many when its `block_end` is within the content |
| SectionBlocks.SkippedBytes | exeGraph_mpl.py:92-104 | a byte is read by some block iff its index is 0 or not a multiple of `block_len` |
| SectionBlocks.ReadByBlock | exeGraph_mpl.py:92-104 | byte 0 and every byte whose index is not a multiple of `block_len` lies in some block |
| SectionBlocks.SkippedByAll | exeGraph_mpl.py:92-104 | a byte at a non-zero multiple of `block_len` lies in no block: `block_end` is never read and the next block starts after it |
| SectionBlocks.UnitBlocksEmpty | exeGraph_mpl.py:92-104 | with `block_len` 1 every block after the first is empty |
| SectionBlocks.SectionSamplesMeaning | exeGraph_mpl.py:88-102 | sample i is the mean of block i's and block i-1's entropy, the first is half its block's; entropy in [0, 1] keeps samples in [0, 1] |
| Histogram.CountsFrom | exeGraph_mpl.py:151-154 | the row built by `for x in range(...)` has one entry per value, the count of that value |
| Histogram.SumCountsFrom | exeGraph_mpl.py:151-154 | summing the counts of consecutive values counts the bytes in that value range |
| Histogram.ValueRowSum | exeGraph_mpl.py:225-228 | the value-ordered row sums to the data length, less the zero bytes when `ignore_0` is set |
| Histogram.ValueRow | exeGraph_mpl.py:151-154 | the value-ordered row has `256 - ignore_0` entries, entry k being the count of byte `ignore_0 + k` |
| Histogram.Insert | exeGraph_mpl.py:165 | inserting into an ascending list keeps it ascending and adds exactly that value |
| Histogram.SortAscending | exeGraph_mpl.py:240 | `sort()` yields an ascending permutation |
| Histogram.Reverse | exeGraph_mpl.py:166 | `reverse()` mirrors indices and keeps the same values |
| Histogram.OrderedRow | exeGraph_mpl.py:165-166 | sort-then-reverse gives a non-increasing permutation of the row |
| Histogram.ByteHistogram | exeGraph_mpl.py:151-166 | the value row has `256 - ignore_0` entries; the ordered row is present exactly when requested |
| Histogram.DescendingPermutationUnique | exeGraph_mpl.py:234-241 | a non-increasing permutation is unique, so the ordered row is the same whatever sorting algorithm produced it |
| Histogram.ByteHistogramRows | exeGraph_mpl.py:225-241 | both histogram rows at once: size, per-value counts, sum, and the ordered row present iff requested and a non-increasing permutation |
| SectionName.NatToDecimal | exeGraph_mpl.py:50 | `str(index)` is a non-empty string of digits without a leading zero |
| SectionName.DecimalRoundTrip | exeGraph_mpl.py:50 | reading back the decimal text of n gives n |
| SectionName.NatToDecimalInjective | exeGraph_mpl.py:50 | two indices never get the same decimal text |
| SectionName.FixSectionName | exeGraph_mpl.py:46-51 | a present non-empty name is kept; otherwise `sect_` followed by digits without a leading zero that read back as the index |
| SectionName.DecimalTextUnique | exeGraph_mpl.py:50 | digit text without a leading zero is the `str()` of the number it denotes |
| SectionName.DefaultNameIsSectIndex | exeGraph_mpl.py:46-51 | an empty or missing name becomes exactly `'sect_' + str(index)` |
| Sections.SectionEntLines | exeGraph_mpl.py:72-105 | succeeds exactly when every section's walk does, giving one profile per section in order under its fixed name; a failure is the error some section's walk raises |
| Sections.SectionHistograms | exeGraph_mpl.py:139-166 | one pair of rows per section in order, under its fixed name: the value row sums to the section's counted bytes and the ordered row is present exactly when requested |

## Left out

- Shannon entropy's numeric body (exeGraph_mpl.py:24-28) uses NumPy float division and logarithms. It is a function parameter. Its [0, 1] range and its value 0 on a repeated byte are assumed predicates, not proofs.
- Floating point: percentages and entropy samples are exact reals. Float rounding of `float(occurance)/float(len(chunk))*100` is not modelled.
- The trend curve (exeGraph_mpl.py:107-117) is a degree-15 `np.polyfit` least-squares fit, drawn for display only.
- `section_colour` (exeGraph_mpl.py:31-43) calls MD5 and NumPy's random generator, which are foreign code.
- The entry-point and section marker positions (exeGraph_mpl.py:371, 380) are float divisions by `nr_chunksize` of offsets from lief's `va_to_offset`.
- All matplotlib work, `plt.savefig` and the logo image are rendering.
- `lief.parse` and section extraction form an external parser. Sections enter the model as plain values.
- File I/O (`open`, `os.fstat`, `fh.read`): the file is a byte sequence and `st_size` is its length.
- `fh.read` is library code. Its behaviour is taken from CPython's buffered reader: empty for size 0, the rest of the file for -1, and `ValueError` below -1.
- Command-line parsing, logging, file-existence checks and output-file naming (exeGraph_mpl.py:279-283, 408-482) are plumbing. The `-c/--chunks` option is parsed but never passed to `bin_ent`.
- The `print` in `fix_section_name` (exeGraph_mpl.py:49) is output only.
- Non-termination is reported as `Err(NonTermination)`, where the Python call hangs. Negative slice indices are not modelled; they arise only on that diverging path.
- FileEntropy.PercentageOfDistinct: the [0, 100] bound requires a byte list without repeats. The code counts a repeated value each time it is listed, so a list such as `[0, 0]` can give 200.
