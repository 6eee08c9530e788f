# Synthetic calcium-imaging data and ScanImage tags, in Dafny

`utils.py` holds two things this project models.

`gen_data` builds a synthetic calcium-imaging movie with known ground truth. It draws M = int(1.5 N) candidate cell footprints at random centres, truncates each below a fraction of its peak, and prunes them greedily by pairwise overlap down to N. It then draws spike trains, silences the first frame and a warm-up window, and runs each train through a leaky integrator to get calcium traces. Finally it builds a temporal background with mean one and a spatial background with mean equal to the fluorescence baseline of 10, and composes them with the footprints, the traces and noise into the movie `Yr`. That composition is not modelled.

`si_parse` and `val_parse` read the `key = value` tags that ScanImage writes into a TIFF image description.

The model keeps the discrete and exact-real steps of these functions and proves what they guarantee:

- `scanimage_tags.dfy`, module `ScanImageTags`: the tag parser. It is written as pure functions into a `map`. It is proved equal to a line-by-line reference reading, from which the key set and the last-line-wins rule follow.
- `footprints.dfy`, module `Footprints`: candidate count, centre placement with `uint16` truncation and wrap-around, per-footprint truncation, the overlap matrix, and selection of the kept columns.
- `pruning.dfy`, module `Pruning`: the greedy `keep` loop. `Prune` is a method over an `array<bool>`, proved against the function `PruneFrom`. A run of the loop that never ends is the explicit outcome `Diverges`. A corrected loop, `PruneKeptFrom`, is described under Findings.
- `spike_trains.dfy`, module `SpikeTrains`: in-place masking of the spike matrix (`array2<bool>`).
- `calcium_traces.dfy`, module `CalciumTraces`: the in-place leaky-integrator recurrence over `array2<real>`. It is proved against the recurrence `Leaky`, whose closed form, sign and bounds are proved as lemmas.
- `fluctuations.dfy`, module `Fluctuations`: centring the backgrounds at mean one and scaling by the baseline.
- `arithmetic.dfy`, module `Arithmetic`: small facts about multiplication and division that the other modules share.

Inputs that come from randomness or from code outside the model are parameters:

- the uniform draws for the centres;
- the boolean spike draws;
- the blurred footprints, before truncation;
- the truncated, normalised footprints the overlap is built from;
- the correlated noise the backgrounds start from;
- the decay factor `gamma`;
- Python's `eval`, as a partial function `string -> Option<V>`.

All numbers are exact: `int` and `real`.

## Model

| member | source | states |
|---|---|---|
| ScanImageTags.ValParse | utils.py:17-37 | the result is `eval`'s value exactly when `eval` succeeds; otherwise `true`/`false` give booleans, `NaN` gives NaN, `inf`/`Inf` give infinity, and any other text comes back unchanged |
| ScanImageTags.Split | utils.py:48 | `s.split(sep)` has at least one piece, no piece contains the separator, and there are two or more pieces exactly when the separator occurs |
| ScanImageTags.JoinSplit | utils.py:48 | joining the pieces with the separator gives the original text back |
| ScanImageTags.SplitAtFirst | utils.py:50 | piece 0 is the text before the first separator, and the remaining pieces are the split of the text after it |
| ScanImageTags.SplitNoSep | utils.py:48 | text without the separator splits into itself alone |
| ScanImageTags.SplitAppendLine | utils.py:48 | appending a newline and a line without newlines appends one line to the split |
| ScanImageTags.KeepAssignments | utils.py:49 | every kept line contains `=` |
| ScanImageTags.Fields | utils.py:50-51 | one field list per kept line, each with at least two stripped pieces |
| ScanImageTags.StripLeading | utils.py:51 | `lstrip(' \r')` never lengthens the text, and its result does not start with a blank or carriage return |
| ScanImageTags.StripTrailing | utils.py:51 | `rstrip(' \r')` never lengthens the text, and its result does not end with a blank or carriage return |
| ScanImageTags.Strip | utils.py:51 | `strip(' \r')` never lengthens the text |
| ScanImageTags.StripOmits | utils.py:51 | stripping never introduces a character the text did not hold |
| ScanImageTags.StripLeadingSpec | utils.py:51 | `lstrip(' \r')` removes a prefix made only of blanks and carriage returns, and the result does not start with one |
| ScanImageTags.StripTrailingSpec | utils.py:51 | `rstrip(' \r')` removes a suffix made only of blanks and carriage returns, and the result does not end with one |
| ScanImageTags.StripLeadingDrops | utils.py:51 | a prefix of blanks and carriage returns in front of text not starting with one is exactly what lstrip removes |
| ScanImageTags.StripTrailingDrops | utils.py:51 | a suffix of blanks and carriage returns after text not ending with one is exactly what rstrip removes |
| ScanImageTags.StripIsInfix | utils.py:51 | the stripped text is a contiguous part of the original |
| ScanImageTags.StripEnds | utils.py:51 | the stripped text neither starts nor ends with a blank or carriage return |
| ScanImageTags.StripSurrounded | utils.py:51 | stripping text padded only by blanks and carriage returns returns exactly the unpadded text |
| ScanImageTags.StripIdempotent | utils.py:51 | stripping twice is stripping once |
| ScanImageTags.BuildMap | utils.py:52 | the first stripped piece of every field list is a key of the dictionary |
| ScanImageTags.BuildMapIsTagsOf | utils.py:49-52 | the comprehension pipeline equals reading the lines one by one, each line with `=` setting its key |
| ScanImageTags.SiParse | utils.py:40-53 | `si_parse` equals the line-by-line reading of the description's lines |
| ScanImageTags.Key | utils.py:50-52 | the key a line defines is its stripped text before the first `=`, so it holds no `=` |
| ScanImageTags.RawValue | utils.py:50-52 | the raw value of a line is its stripped text between the first and second `=`, so it holds no `=` |
| ScanImageTags.ReadLineKeys | utils.py:52 | a key is present after one line exactly when it was present before or the line has `=` and defines it |
| ScanImageTags.DefinesKeySnoc | utils.py:49-52 | a key is defined by some lines plus one more exactly when it is defined by the first lines or by the extra one |
| ScanImageTags.TagsOfKeys | utils.py:49-52 | the keys read are exactly those defined by some line with `=` |
| ScanImageTags.LastDefinitionInit | utils.py:52 | the last definition of a key in some lines stays the last one when a later line that does not redefine it is dropped |
| ScanImageTags.ReadLineOtherKey | utils.py:52 | a line that does not define a key leaves that key's value unchanged |
| ScanImageTags.TagsOfLastWins | utils.py:52 | a key's value is `val_parse` of the raw value on the last line defining it |
| ScanImageTags.SiParseKeys | utils.py:48-52 | a key is in `si_parse`'s result exactly when a line with `=` has it as its stripped text before the first `=` |
| ScanImageTags.SiParseLastLineWins | utils.py:48-52 | the value of a key is `val_parse` of the stripped text between the first and second `=` on the last line defining that key |
| ScanImageTags.LineWithoutAssignmentIgnored | utils.py:48-49 | appending a line without `=` leaves the parsed map unchanged |
| Footprints.CandidateCount | utils.py:67 | `int(N * 1.5)` is at least N and is 1.5 N rounded down (`2M <= 3N < 2M + 2`) |
| Footprints.Truncate | utils.py:70-71 | the float-to-integer cast truncates toward zero: a non-negative value lies in [k, k + 1), a negative one in (k - 1, k] |
| Footprints.Wrap16 | utils.py:70-71 | the `uint16` wrap-around gives a value in [0, 65535] and leaves one already in range unchanged |
| Footprints.ScaledDrawBelow | utils.py:70-71 | a draw in [0, 1) times a positive span truncates to an offset in [0, span - 1] |
| Footprints.CentreCoordinate | utils.py:66-71 | a centre coordinate is always a `uint16`; for a draw in [0, 1) and an extent from 9 to 65540, it lies in [4, extent - 5] |
| Footprints.Centres | utils.py:70-71 | one centre per candidate, each coordinate at least 4 pixels inside the image |
| Footprints.Peak | utils.py:88 | `max(0)` of a footprint is at least every entry |
| Footprints.PeakAttained | utils.py:88 | the peak is one of the footprint's entries |
| Footprints.TruncateColumn | utils.py:88 | truncation keeps the length, and each entry is unchanged or zero |
| Footprints.TruncateColumnKeepsExactly | utils.py:88 | an entry at least `fraction` of the footprint's peak is kept unchanged, an entry below it becomes zero, and so a non-zero entry of the result was at least that large |
| Footprints.TruncateKeepsPeak | utils.py:88 | for a fraction in [0, 1] and a non-negative footprint, a peak entry survives unchanged, so a footprint with a positive entry never becomes all zeros |
| Footprints.ScaleBelow | utils.py:88 | a fraction in [0, 1] of a non-negative peak is at most the peak |
| Footprints.Overlap | utils.py:91 | the overlap matrix is M by M |
| Footprints.DotSymmetric | utils.py:91 | the dot product is symmetric |
| Footprints.Dot | utils.py:91 | the dot product of non-negative footprints is non-negative |
| Footprints.DotOfDisjoint | utils.py:91 | footprints with no common non-zero pixel have a zero dot product |
| Footprints.OverlapOfDisjoint | utils.py:91 | pairwise disjoint unit-norm footprints have an overlap matrix of zeros |
| Footprints.OverlapProperties | utils.py:91 | the overlap matrix is symmetric; off the diagonal it is non-negative for non-negative footprints; its diagonal is zero for unit-norm footprints |
| Footprints.CountKept | utils.py:92 | `keep.sum()` is at most M |
| Footprints.KeptIndices | utils.py:94 | the kept positions, strictly increasing, in range, kept, and containing every kept position |
| Footprints.SelectKept | utils.py:94 | `trueA[:, keep]` has one column per kept candidate |
| Footprints.SelectKeptInOrder | utils.py:94 | `trueA[:, keep]` has one column per kept candidate, the j-th being the footprint at the j-th kept position |
| Pruning.MaskedOverlap | utils.py:93 | `overlap * outer(keep, keep)` keeps an entry when both candidates are kept and is zero otherwise |
| Pruning.Flatten | utils.py:93 | the row-major flattening `argmax` scans; its length and the position of each entry are stated by `FlattenLength` and `FlattenAt` |
| Pruning.FlattenLength | utils.py:93 | flattening an M-by-M matrix gives M * M entries |
| Pruning.FlattenAt | utils.py:93 | entry (r, c) sits at flat index r * M + c |
| Pruning.Argmax | utils.py:93 | `np.argmax` returns a position of the largest entry, and every earlier entry is strictly smaller |
| Pruning.PruneColumn | utils.py:93 | the chosen candidate is below M |
| Pruning.SplitFlatIndexAt | utils.py:93 | a flat index below M * M splits into a row and a column, both below M |
| Pruning.CompareWithFlatMaximum | utils.py:93 | no entry exceeds the entry at the flat argmax, and entries scanned before it are strictly smaller |
| Pruning.FirstMaximumOfFlattened | utils.py:93 | the flat argmax, split into row and column, is the first maximum in a row-major scan |
| Pruning.PruneColumnIsFirstMaximum | utils.py:93 | the cleared candidate is the column of the first maximum of the masked overlap in a row-major scan |
| Pruning.PositiveMaskedIsKept | utils.py:93 | a positive masked entry lies in a kept row and a kept column |
| Pruning.CountClear | utils.py:93 | clearing a kept entry lowers `keep.sum()` by exactly one |
| Pruning.PositiveMaximumClearsKept | utils.py:92-93 | when some masked entry is positive, the step clears a kept candidate and the count drops by one |
| Pruning.PruneFrom | utils.py:92-93 | a mask the loop ends with has length M |
| Pruning.AllKept | utils.py:90 | `np.ones(M, dtype=bool)`: M entries, all kept |
| Pruning.PruneFromKeepsN | utils.py:92-93 | when the loop ends, exactly N candidates are kept (all of them if M <= N), and only kept candidates were cleared |
| Pruning.PruneFromTerminates | utils.py:92-93 | when every two distinct candidates overlap positively and N >= 1, the loop ends |
| Pruning.Prune | utils.py:90-93 | the method's mask is a fresh array of M entries; that mask, or its report that the loop never ends, is what `PruneFrom` gives from all-kept; when it ends, min(M, N) candidates are kept |
| Pruning.AllZeroChoosesFirst | utils.py:93 | when every masked entry is zero, candidate 0 is chosen |
| Pruning.ZeroOverlapDiverges | utils.py:92-93 | with M >= N + 2 candidates and an all-zero overlap matrix, the loop as written never ends |
| Pruning.DisjointFootprintsDiverge | utils.py:91-93 | M >= N + 2 pairwise disjoint unit-norm footprints have an all-zero overlap matrix, and on them the loop as written never ends |
| Pruning.Excluded | utils.py:93 | the value given to pairs that are not both kept lies below every overlap |
| Pruning.PruneKeptColumnIsKept | utils.py:93 | the corrected step chooses the column of the first maximum among kept pairs, and that candidate is kept |
| Pruning.FirstMaximumUnique | utils.py:93 | a matrix has only one first maximum in a row-major scan |
| Pruning.ChosenKeptHasKeptRow | utils.py:93 | when the step as written chooses a kept candidate, the row of the chosen entry is kept too |
| Pruning.KeptOrderFollowsMasked | utils.py:93 | against a kept pair, the corrected mask keeps the order the masked overlap gives |
| Pruning.PruneKeptColumnAgrees | utils.py:93 | whenever the step as written clears a kept candidate, the corrected step clears the same one |
| Pruning.PruneKeptColumnKept | utils.py:93 | while some candidate is kept, the corrected step clears a kept one |
| Pruning.PruneKeptFrom | utils.py:92-93 | the corrected loop's mask has length M and keeps no more candidates than it started with |
| Pruning.PruneKeptFromKeepsN | utils.py:92-93 | the corrected loop always ends, with exactly min(M, N) kept, having cleared only kept candidates |
| Pruning.PruneKeptFromAgrees | utils.py:92-93 | whenever the loop as written ends, the corrected loop ends with the same mask |
| Pruning.PrunedFootprintsInOrder | utils.py:94 | for N <= M, exactly N footprints remain, in their original relative order |
| SpikeTrains.WarmUp | utils.py:98 | `500 + i * T // N * 2 // 3` is at least 500 |
| SpikeTrains.WarmUpMonotone | utils.py:97-98 | a later neuron never has a shorter warm-up window |
| SpikeTrains.WarmUpBeyondBaseBelowThird | utils.py:97-98 | for every neuron below N // 2, the window beyond frame 500 covers less than a third of the recording |
| SpikeTrains.Silenced | utils.py:96-98 | an entry is forced to zero exactly when it is in frame 0, or in the warm-up window of a neuron below N // 2; `MaskSpikes` states its effect in these terms |
| SpikeTrains.MaskSpikes | utils.py:95-98 | with no frames, the index error leaves the matrix as it was; otherwise column 0 is false, frames before `min(T, 500 + i * T // N * 2 // 3)` of neurons below N // 2 are false, and every other entry keeps its draw |
| CalciumTraces.Leaky | utils.py:103-104 | the per-frame recurrence of the inner loop; its meaning is stated by `LeakyClosedForm`, `LeakyNonNegative`, `LeakyBounded` and `LeakySilent` |
| CalciumTraces.ResponseStep | utils.py:103-104 | a decayed sum of inputs is the newest input plus gamma times the sum one frame earlier |
| CalciumTraces.LeakyClosedForm | utils.py:99-104 | the trace at frame t is the sum over k <= t of gamma^(t - k) times the input at frame k |
| CalciumTraces.LeakyNonNegative | utils.py:99-104 | with non-negative input and gamma >= 0, the trace is non-negative and each frame keeps at least gamma times the previous one |
| CalciumTraces.BoundStep | utils.py:103-104 | one step of the recurrence keeps (1 - gamma) times the trace at most 1 |
| CalciumTraces.LeakyBounded | utils.py:99-104 | with inputs in [0, 1] and gamma in [0, 1), the trace stays at most 1 / (1 - gamma) |
| CalciumTraces.LeakySilent | utils.py:99-104 | a neuron that has not fired up to frame t has a zero trace at t |
| CalciumTraces.AsReal | utils.py:99 | `astype('float32')` maps true to 1 and false to 0 |
| CalciumTraces.Row | utils.py:103-104 | a matrix row as a sequence over frames |
| CalciumTraces.SpikeRow | utils.py:99 | a spike row as numbers |
| CalciumTraces.Convert | utils.py:99 | a fresh real matrix of the same shape, each row the spike row as numbers |
| CalciumTraces.IntegrateRow | utils.py:103-104 | the inner loop turns neuron i's row into the leaky integration of its previous contents and leaves other rows alone |
| CalciumTraces.Integrate | utils.py:100-104 | the nested loops turn every row into the leaky integration of its previous contents |
| CalciumTraces.Traces | utils.py:99-104 | every entry of the traces is the leaky integration of its neuron's spike train, and is non-negative when gamma >= 0 |
| CalciumTraces.MaskedTraces | utils.py:95-104 | the spike matrix is left as it was when there are no frames, and is otherwise masked entry by entry as `MaskSpikes` states; every trace is the leaky integration of its masked spike train, starts at zero, and stays zero throughout the neuron's warm-up window |
| Fluctuations.Mean | utils.py:111 | the mean times the length is the sum |
| Fluctuations.Shift | utils.py:111-112 | adding a constant keeps the length |
| Fluctuations.Scale | utils.py:124 | scaling keeps the length |
| Fluctuations.CentreAtOne | utils.py:111-112 | subtracting the mean and adding one keeps the length; an empty sequence stays empty |
| Fluctuations.SumShift | utils.py:111-112 | shifting every entry by d moves the sum by `len * d` |
| Fluctuations.SumScale | utils.py:124 | scaling every entry scales the sum |
| Fluctuations.CentredMeanIsOne | utils.py:111-112 | after centring, the mean is exactly one and all differences between entries are unchanged |
| Fluctuations.Ones | utils.py:122-123 | `np.ones(n)`: n entries, each 1 |
| Fluctuations.SumOnes | utils.py:122-123 | n ones sum to n |
| Fluctuations.TemporalBackground | utils.py:106-122 | the temporal background has the length of its input, and is all ones without fluctuations |
| Fluctuations.SpatialBackground | utils.py:116-124 | the spatial background has the length of its input, and is the baseline everywhere without fluctuations |
| Fluctuations.BackgroundMeans | utils.py:106-124 | with or without fluctuations, the temporal background has mean one and the spatial background has mean equal to the baseline of 10 |

## Left out

- The HDF5 and pickle persistence functions (utils.py:158-317): file I/O through h5py, scipy.sparse and pickle.
- `eval` in `val_parse` is arbitrary Python evaluation. It is the parameter `eval`.
- The centre draws, the spike draws and the correlated background samples are parameters. The shape jitter (utils.py:78, 81, 85) and the noise draw (utils.py:125) belong to code that is not modelled.
- Footprint synthesis is not modelled: Gaussian blurs, the difference of Gaussians, and `np.maximum`. Footprints enter as given columns of reals.
- L2 normalisation (utils.py:89) is not modelled. The overlap lemmas take unit norm as a hypothesis.
- The squared-exponential kernels, the Cholesky factors, and the `1e-2` scaling of the backgrounds (utils.py:107-118) are not modelled. The backgrounds start from a given sequence.
- `np.exp` for the decay factor is not modelled. `gamma` is a parameter.
- The additive noise and the composition of `Yr` (utils.py:125-126) are not modelled.
- `Fluctuations.SpatialBackground` gives both branches the length of its input. In the source the fluctuating `trueb` is an outer product over `dims[0]` on both axes (utils.py:113-118), so it has `dims[0] ** 2` entries, while the constant one has `prod(dims)` entries (utils.py:123). For non-square `dims` the fluctuating background would not broadcast against the `prod(dims)`-row noise at utils.py:125. The model does not capture that shape mismatch, because the composition is not modelled.
- The `cmap` plotting branch is not modelled: it is a UI branch with an external dependency.
- Floating point is not modelled: `float32` rounding, NaN and infinity arithmetic. All arithmetic is over exact reals.
- `Footprints.CentreCoordinate`: a float-to-`uint16` cast of a negative or too-large value is platform-dependent in numpy. The model truncates toward zero and then wraps modulo 65536. The range is only proved for extents up to 65540.
- `Footprints.TruncateColumn` requires a non-empty footprint. numpy's `max` over an empty axis raises instead.
- `Footprints.CandidateCount` follows the code, `int(N * 1.5)`, which rounds down. Rounding to nearest would differ for some odd N, e.g. 8 rather than 7 for N = 5.
- `SpikeTrains.MaskSpikes` models the spike draw `rand(N, T) < firerate / framerate` as its input matrix.
- `CalciumTraces.Traces` fixes one `gamma` for every neuron, as the code does. The commented-out per-neuron jitter is not modelled.

## Findings

| source | as written | input that shows it | evidently intended | confidence | as-written member | corrected member |
|---|---|---|---|---|---|---|
| utils.py:92-93 | The loop masks cleared candidates by multiplying by `np.outer(keep, keep)`, which leaves zeros. When no pair of kept candidates overlaps positively, `argmax` can land on a zero in a cleared row or column, such as entry (0, 0) after candidate 0 is cleared. The loop then clears an already-cleared candidate and repeats that step forever. | N = 4 (so M = 6) candidates whose footprints pairwise do not overlap: the first step clears candidate 0, and every later step chooses candidate 0 again. | Each step clears a kept candidate: the argmax ranges over pairs of kept candidates only. | medium, not executed. With `float32` the diagonal `norm**2 - 1` may be slightly positive, and then a kept candidate is chosen. | Pruning.DisjointFootprintsDiverge | Pruning.PruneKeptFromKeepsN |
