# Convolution engines: model and proofs

The program filters bitmap images with 2D convolution kernels (and one median filter) and can do so in several ways: one thread over the whole picture, many threads claiming blocks of one picture, a pipeline of reader, worker and writer threads over many files, and MPI ranks that exchange rows. All are meant to produce the picture of the single-threaded filter. This project models these engines in Dafny around one specification, `Convolution.Conv` (generalised to `Filtering.Filter.Result`, which also covers the median), and proves for each engine that its result is that picture for every input, every schedule and every number of threads or ranks. Where the code falls short, the exact condition under which it does not is proved.

## How the project is laid out

| file | content |
|---|---|
| `Pixels`, `Arithmetic`, `RowBytes`, `Options` | pictures, output buffers, packed rows, arithmetic facts, values that may be missing |
| `Kernels`, `Convolution`, `Filtering`, `FilterResponses`, `DoubleRounding` | the shipped tables, rounding, `apply_filter`, transposition, the filter as one notion, what each shipped filter makes of a lone sample, and why doubles give the same bytes |
| `Selection`, `Median` | `selectKth` on an array, and the median filter on top of it |
| `BlockClaims`, `BlockSequence`, `BlockLoops`, `ThreadPool`, `ThreadOverlaps` | block claiming from 16-bit counters: one claim, the sequence of claims, the in-place methods, every interleaving of threads, and when two threads hold one pixel |
| `BitmapFile` | the bitmap reader and writer over a file cursor |
| `ImageQueue` | the bounded ring buffer and the first-in first-out queue it refines |
| `Pipeline`, `PipelineSafety`, `PipelineProgress`, `PipelineBarrier`, `PipelineFairness` | queue mode as a step relation, its invariant, what follows for whole runs, what the readers' barrier is for, and the end of every fair run |
| `MpiGeometry`, `MpiTransfer`, `MpiFilter`, `MpiExec` | row distribution, packing and collectives, the local filter on bytes, and the two MPI modes end to end |

**Sequential code** is modelled by methods with loops over arrays and by classes, each proved against a function. **Concurrent code** is modelled by a step relation: a state, labelled steps, `Enabled` and `Apply`. A critical section, an atomic read-modify-write, or the computation of a thread on data only it holds is one step. In `ThreadPool` the write of every single pixel is a step. In `Pipeline` the steps stand for these places of `src/backend/cpu/qmt/qmt-threads.c`, with push and pop in `src/backend/cpu/qmt/utils/qmt-queue.c`:

| step | place |
|---|---|
| `ClaimFile`, `UndoClaim` | the fetch-and-add of a reader and the fetch-and-sub that takes it back, lines 34-38 |
| `Load` | reading the file, lines 54-60 |
| `Push` | `queue_push` under the mutex up to its wait or its end, queue lines 146-184, called at lines 62 and 311 |
| `PassBarrier`, `PushSentinel` | lines 79 and 83-90 |
| `Pop` | `queue_pop` under the mutex up to its wait or its end, queue lines 199-269, called at lines 109 and 363 |
| `TimeOut` | the return of `pthread_cond_timedwait` with a timeout, queue lines 213-222 |
| `WakeSpuriously` | a return of either wait that no signal caused |
| `Compute` | lines 294-303: a whole picture, by `BlockLoops.WorkerProcessImage` |
| `Check`, `Save`, `Count` | lines 355-359, 396 and 399-416 |

A signal wakes one waiting thread, any one, if there is one, and nobody otherwise. The woken thread takes the mutex again only with a later step, so another thread may get in between.

**Numbers.** Every kernel is an integer table scaled by one over an integer, so sums of weighted bytes are exact and a channel is the exact quotient, rounded as C's `round` does, halves away from zero, and clamped to a byte. Integer widths are explicit where values can reach them: 16-bit block counters, the 16-bit broadcast of the row stride, the conversion of byte counts to `int`, the 8-bit copy of the written-files counter, the 32-bit `bfSize`, the unsigned wrap of the local row index.

**Collectives** have the meaning that MPI 3.1 gives them: broadcast (section 5.4), gather (section 5.5), scatter (section 5.6). The sizes that the root and a rank name must be the same; a difference ends the modelled run with `SizesDiffer`. Reads and writes outside a local byte buffer end it with `OutOfBounds`. What a rank does between two collectives depends only on what it received, so the model runs the ranks one after the other.

## Properties that fail in general, with their exact conditions

- MPI modes: the stride is broadcast through 16 bits and packed sizes are `int`s, so row mode succeeds exactly on `MpiExec.Transferable` pictures (`MpiExec.ProcessByRows`). Where the packed size is no `int` the model ends with `CountsOverflow`: the overflow is then in the running offset at the latest, possibly only in its last update, which no array entry uses (`src/backend/cpu/mpi/utils/utils.c:264-268`). That is undefined behaviour of C even where every stored count and displacement would fit. Beyond 16 bits the root and the other ranks disagree on sizes (`MpiExec.CountsAgreeIff`).
- Column mode needs the same of the transposed picture, and in addition a picture no wider than high: before the gather the root frees one row pointer for each column of an output buffer that has one for each row (`src/backend/cpu/mpi/comm/rank0-proc.c:184-185`, `src/utils/threads-general.c:395-400`). The model ends such a run with `FreesBeyondBuffer`; this is the only memory release it contains (`MpiExec.ProcessByColumns`).
- Column mode computes the convolution with the transposed kernel. Its accumulators are those of the serial engine, on all pictures, exactly if the kernel's table is symmetric (`Convolution.SameSumsIff`), and every shipped table is. For the bytes written, symmetry is enough but not needed: `MpiExec.AsymmetryShows` has an asymmetric kernel with different bytes, `MpiExec.AsymmetryHides` one whose asymmetry rounding hides on every picture.
- Block claiming, from the first claim on and in all four modes: no pixel is handed out twice exactly if no 16-bit counter wraps, that is, if the axes rounded up to whole blocks fit 16 bits (`BlockSequence.NoPixelTwiceIff`). The claims end exactly if every axis the mode moves along is at most 65536 less the greatest common divisor of the block size and 65536 (`BlockSequence.EndsIff`). When they end every pixel has been handed out, wrapped or not, so the filtered picture is right whenever the loops end (`BlockLoops.WorkerProcessImage`, `ThreadPool.ScheduleIndependence`). With two or more threads, no two ever hold the same pixel exactly if no counter wraps (`ThreadOverlaps.NeverOverlapIff`).
- Median filter: the wrapped index stays inside an axis exactly when the axis is at least half a window long or has one element (`Median.WrapStaysInsideIff`).
- Averaging: of the shipped kernels exactly five never leave the range of the clamped neighbourhood (`Convolution.ShippedStayInRange`). "sh" turns a lone 1 among zeros into 9; "em", "gg" and "mg" change constant pictures, the latter two because their weights sum to 1349 against a divisor of 771 and to 227 against 213.
- `bfSize` is 54 less than the length of the file, because the headers are not counted, exactly when the 32-bit computation does not overflow (`BitmapFile.DefaultFileLength`).
- The pipeline's end depends on the scheduler: as soon as there is a file, a schedule in which a worker times out and looks again for ever never ends (`PipelineFairness.UnfairRunsExist`). Every schedule in which no thread stays awake for ever without taking a step does end (`PipelineFairness.NoEndlessFairRun`), with every file written (`PipelineFairness.StoppedRunsAreFinished`).

## Where the code and its comments disagree

- The termination images that readers push at the end carry no name, and `queue_push` drops images without a name (`src/backend/cpu/qmt/utils/qmt-queue.c:129-132`), so the messages about termination signals describe something that never arrives. Workers and writers end through the written-files check, and the model follows that.
- The comments on `apply_filter` (`src/utils/threads-general.h:80`) and `mpi_apply_filter` (`src/backend/cpu/mpi/compute/filter-comp.c:17`) speak of wrapping around the image; the code clamps to the border, and so does the model.

## Model

| member | source | states |
|---|---|---|
| Kernels.RoundQuotient | src/utils/threads-general.c:222-224 | the integer nearest to the exact scaled sum; of two equally near ones the one away from zero |
| Kernels.RoundBetween | src/utils/threads-general.c:222-224 | rounding is monotone: a quotient between two integers rounds to something between them |
| Kernels.ShippedKernels | src/utils/filters.c:119-130 | every kernel that has a name is a well-formed square table of odd size, at most 15 |
| Kernels.ShippedSymmetric | src/utils/filters.c:9-41 | every shipped table is symmetric |
| Kernels.ShippedWeightSums | src/utils/filters.c:119-130 | the weight sum of every shipped kernel, beside the divisor it is scaled by |
| Kernels.ShippedDivisors | src/utils/filters.c:119-130 | every shipped divisor is 256 or odd, and with an odd one no scaled sum lies half-way between two integers |
| Kernels.MedGausTable | src/utils/filters.c:31-33 | the nine rows of "mg", equal from both ends |
| Kernels.BigGausTable | src/utils/filters.c:23-29 | the fifteen rows of "gg", equal from both ends |
| Convolution.ClampIsNearest | src/utils/threads-general.c:189-205 | the coordinate read is the position of the axis nearest to the one under the weight |
| Convolution.NeighbourIs | src/utils/threads-general.c:189-212 | for every picture, kernel, pixel and place in the table, the input pixel under a weight: that at the weight's distance from the centre, with coordinates below zero replaced by zero and those past the end by the last |
| Convolution.BrightResponse | src/utils/threads-general.c:187-224 | a picture dark but for one inner sample: every output sample is the quantised product of the sample and the weight at that distance, with the table as written, and of zero outside the window |
| Convolution.IdentityFilter | src/utils/filters.c:124 | "co" leaves every picture as it is |
| FilterResponses.MotionBlurResponse | src/utils/filters.c:121 | "mb": a ninth of a lone sample appears along the main diagonal, four pixels to either side, and nothing elsewhere |
| FilterResponses.BlurResponse | src/utils/filters.c:122 | "bb": a thirteenth of it over the diamond of radius two |
| FilterResponses.GausBlurResponse | src/utils/filters.c:123 | "gb": binomial shares of it, in 256ths, over five by five pixels |
| FilterResponses.SharpenResponse | src/utils/filters.c:125 | "sh": nine times it, at most 255, in its place, and black around it |
| FilterResponses.EmbossResponse | src/utils/filters.c:126 | "em": grey 128, lighter by the sample above and to the left of it and darker below and to the right, within two pixels |
| FilterResponses.BoxBlurResponse | src/utils/filters.c:129 | "bo": a 225th of it over 15 by 15 pixels |
| FilterResponses.MedGausResponse | src/utils/filters.c:128 | "mg": its share by the table, in 213ths, over nine by nine pixels |
| FilterResponses.BigGausResponse | src/utils/filters.c:127 | "gg": its share by the table, in 771sts, over 15 by 15 pixels |
| Convolution.Accumulate | src/utils/threads-general.c:182-219 | the two kernel loops leave in each channel's accumulator the weighted sum over the clamped window |
| Convolution.ApplyFilter | src/utils/threads-general.c:168-227 | every pixel of the region becomes the convolution's pixel and every other pixel of the shared output keeps its value |
| Convolution.TransposeMatrix | src/utils/threads-general.c:405-438 | a new buffer holding the transposed picture |
| Convolution.TransposeTwice | src/utils/threads-general.c:405-438 | transposing twice gives the picture back |
| Convolution.WindowTransposed | src/utils/threads-general.c:187-219 | the weighted sum at (x, y) of the transposed picture is that at (y, x) under the transposed kernel, for every window size: the two kernel loops may be exchanged |
| Convolution.ConvTransposed | src/backend/cpu/mpi/mpi-exec.c:177-236 | transposing, convolving and transposing back is the convolution with the transposed kernel, for every picture and kernel |
| Convolution.SameSumsIff | src/backend/cpu/mpi/mpi-exec.c:177-236 | the transposed kernel leaves the serial accumulators at every pixel of every picture if and only if the table is symmetric |
| Convolution.AveragingBound | src/utils/threads-general.c:187-224 | a kernel with non-negative weights that sum to its divisor and no bias keeps every output channel between any bounds on the clamped neighbourhood |
| Convolution.FixesConstantsIff | src/utils/threads-general.c:187-224 | all constant pictures of all sizes are fixed points if and only if each of the 256 channel values is |
| Convolution.ShippedAveraging | src/utils/filters.c:119-130 | exactly "mb", "bb", "gb", "co" and "bo" have non-negative weights that sum to their divisor and no bias |
| Convolution.ShippedStayInRange | src/utils/threads-general.c:187-224 | exactly these five stay within any bounds on the clamped neighbourhood, at every pixel of every picture; each of the other four leaves them on some picture |
| Convolution.ShippedFixesConstants | src/utils/filters.c:119-130 | exactly those five and "sh" leave constant pictures as they are |
| Convolution.EmbossOnConstant | src/utils/filters.c:126 | "em" turns every constant picture into grey 128 |
| Convolution.BigGausOnConstant | src/utils/filters.c:127 | "gg" multiplies constant pictures by 1349 / 771, rounded and cut at 255 |
| Convolution.MedGausOnConstant | src/utils/filters.c:128 | "mg" multiplies them by 227 / 213, likewise |
| DoubleRounding.QuotientRounds | src/utils/threads-general.c:222-224 | `round` of the exact quotient is the model's integer, halves included |
| DoubleRounding.NearbyRounds | src/utils/threads-general.c:222-224 | with an odd divisor d any number less than 1 / (2d) away from the exact quotient rounds to the same integer |
| DoubleRounding.ShippedBytes | src/utils/threads-general.c:213-224 | for every shipped kernel, picture, pixel and channel, and all rounding errors of the factor and the product up to 10^-7, the byte written is that of the exact quotient |
| DoubleRounding.DoublesHaveSmallErrors | src/utils/filters.c:119-130 | a relative error of 2^-24, let alone the 2^-53 of doubles, is below that bound |
| Filtering.FilterPart | src/utils/threads-general.c:288-321 | for linear kernels and the median alike, exactly the pixels of the region get the filter's value |
| Filtering.ExecuteSerial | src/backend/cpu/st/st-exec.c:9-36 | the serial engine leaves the filter's result in the output, whatever it held before: for a linear filter the convolution of the whole picture |
| Filtering.FilterNames | src/utils/threads-general.c:298-320 | the ten names that select a filter, "mm" alone the median |
| Selection.Swap | src/utils/utils.c:20-25 | two elements change places and nothing else changes |
| Selection.SortShortRange | src/utils/utils.c:29-33 | the insertion sort of a short range sorts it, keeps it a permutation of itself and touches nothing outside |
| Selection.Partition | src/utils/utils.c:36-44 | everything before the returned position is smaller than the element there, nothing after it is; the range is a permutation of itself |
| Selection.SplitRange | src/utils/utils.c:27-52 | the recursion ends with the k-th place splitting the range into elements at most and at least the value there |
| Selection.SplitSelects | src/utils/utils.c:46-51 | the element at the place that splits a permuted range is the k-th of the sorted range |
| Selection.SelectKth | src/utils/utils.c:27-52 | terminates, returns the k-th element of the sorted range, leaves the range a permutation of itself and everything outside untouched |
| Selection.SortedUnique | src/utils/utils.c:27-52 | a sorted sequence is determined by its multiset, so "the k-th smallest" is well defined |
| Median.WrapStaysInsideIff | src/utils/threads-general.c:260-265 | with C's remainder, the wrapped index is inside the axis for every position and offset if and only if the axis has one element or at least half a window |
| Median.WrapIsModulo | src/utils/threads-general.c:262-263 | on such axes the wrapped index is the mathematical residue of position plus offset |
| Median.WindowAt | src/utils/threads-general.c:260-272 | what stands at each place of the collected window: the channel of the pixel at that row and column offset, both taken modulo the size of their axis |
| Median.Collect | src/utils/threads-general.c:257-272 | whatever the reused scratch arrays held, after the loops they hold the three channels of the wrapped window in order |
| Median.MedianHalves | src/utils/threads-general.c:274-278 | more than half the samples are at most the selected element and more than half are at least it |
| Median.MedianAtHalves | src/utils/threads-general.c:255-280 | every output channel is a true median of its wrapped window |
| Filtering.MedianOfNeighbourhood | src/utils/threads-general.c:310-311 | "mm": of the 225 samples of the 15 by 15 neighbourhood, wrapped around the picture, at least 113 are at most the written value and at least 113 are at least it |
| Median.ApplyMedianFilter | src/utils/threads-general.c:229-286 | exactly the pixels of the region become medians of the unchanged input; an even window size changes nothing |
| BlockClaims.SmallBlocksNeverWrap | src/backend/cpu/mt/mt-compute.c:10-89 | dimension − 1 + block at most 65535 suffices in every mode |
| BlockClaims.NextBoundary | src/backend/cpu/mt/mt-compute.c:15-28 | a counter on a block boundary inside the axis steps to a boundary no later than the rounded-up length |
| BlockClaims.ClaimMovesCounters | src/backend/cpu/mt/mt-compute.c:10-89 | in every mode a granted claim advances the counters without a wrap, from block boundary to block boundary |
| BlockClaims.ClaimHandsOut | src/backend/cpu/mt/mt-compute.c:10-89 | a granted region is non-empty, inside the picture, disjoint from everything handed out before, and together with that is exactly what the new counters call handed out |
| BlockClaims.ClaimReducesUnclaimed | src/backend/cpu/mt/mt-compute.c:10-89 | a claim takes exactly the area of its non-empty region from what is left |
| BlockSequence.NthRows | src/backend/cpu/mt/mt-compute.c:15-29 | in row mode the i-th claim is the i-th group of rows, cut at the bottom, over the whole width |
| BlockSequence.NthColumns | src/backend/cpu/mt/mt-compute.c:38-52 | in column mode the i-th claim is the i-th group of columns, cut at the right, over the whole height |
| BlockSequence.NthCell | src/backend/cpu/mt/mt-compute.c:61-89 | in grid and pixel mode cells are claimed band after band and from left to right in each: which cell the i-th claim is, in closed form |
| BlockSequence.NoPixelTwiceIff | src/backend/cpu/mt/mt-compute.c:10-89 | over the whole sequence of claims, in all four modes and for blocks up to 65535: no pixel is handed out twice if and only if no counter wraps |
| BlockSequence.EndsIff | src/backend/cpu/mt/mt-compute.c:10-89 | in all four modes the claims end if and only if every axis the mode moves along is at most 65536 − gcd(block, 65536) |
| BlockSequence.RefusalCovers | src/backend/cpu/mt/mt-compute.c:10-89 | when a claim is refused every pixel has been handed out before, also after wraps |
| BlockSequence.NeverWrapsEnds | src/backend/cpu/mt/mt-compute.c:10-89 | counters that never wrap end the claims |
| BlockSequence.WrappingClaims | src/backend/cpu/mt/mt-compute.c:15-28 | 65535 rows in blocks of seven are handed out with repeats and end; 65534 rows in blocks of four never end |
| BlockLoops.ProcessByRow | src/backend/cpu/mt/mt-compute.c:10-31 | the in-place claim of rows: new counters, region and status in both cases |
| BlockLoops.ProcessByColumn | src/backend/cpu/mt/mt-compute.c:33-54 | the in-place claim of columns |
| BlockLoops.ProcessByGrid | src/backend/cpu/mt/mt-compute.c:56-84 | the in-place claim of a grid cell, with the step to the next band |
| BlockLoops.ProcessByPixel | src/backend/cpu/mt/mt-compute.c:86-89 | pixel mode is grid mode with blocks of one |
| BlockLoops.WorkerProcessImage | src/backend/cpu/qmt/qmt-threads.c:199-242 | whenever the claims end, the loop ends with the filter's result in the whole output, in all four modes and with wrapped counters too |
| ThreadPool.StepKeepsInv | src/backend/cpu/mt/mt-exec.c:20-48 | every claim, pixel write and end of a block keeps: the counters are those of the sequence of claims, every pixel handed out is written or pending in some thread, threads exit only on a refusal |
| ThreadPool.StepKeepsApart | src/backend/cpu/mt/mt-exec.c:20-48 | as long as no counter wraps every step keeps the regions of the threads disjoint and claimed |
| ThreadPool.RegionsNeverOverlap | src/backend/cpu/mt/mt-exec.c:15-52 | if no counter wraps, no two threads hold the same pixel in any state of any interleaving |
| ThreadOverlaps.WrapOverlaps | src/backend/cpu/mt/mt-exec.c:15-52 | if a counter wraps and there are two threads, some interleaving has both hold the same pixel |
| ThreadOverlaps.NeverOverlapIff | src/backend/cpu/mt/mt-exec.c:15-52 | of two or more threads no two ever hold the same pixel, in any state of any interleaving, if and only if no counter wraps |
| ThreadPool.StepLowersMeasure | src/backend/cpu/mt/mt-exec.c:20-48 | if the claims end, every step of every thread lowers one measure |
| ThreadPool.RunsEnd | src/backend/cpu/mt/mt-exec.c:82-101 | if the claims end, every schedule is at most as long as the pixels of all claims, two steps a claim and one a thread |
| ThreadPool.RunsAreBounded | src/backend/cpu/mt/mt-exec.c:82-101 | if no counter wraps, no schedule takes more than three steps a pixel and one a thread |
| ThreadPool.ExitMeansEnd | src/backend/cpu/mt/mt-exec.c:40-51 | a thread exits only if the claims end, so the bounds above hold wherever one does |
| ThreadPool.StuckMeansExited | src/backend/cpu/mt/mt-exec.c:94-101 | a reachable state without a possible step has only exited threads, so the joins return |
| ThreadPool.ScheduleIndependence | src/backend/cpu/mt/mt-exec.c:54-111 | under every interleaving and with every block size, once all threads have exited the output is the serial filter's result, over the input no step can change |
| RowBytes.UnpackedPacked | libbmp/libbmp.c:150-156 | the packed bytes of a pixel row determine the row |
| RowBytes.PackedUnpacked | libbmp/libbmp.c:191-196 | any bytes of whole pixels are the packing of the row read from them |
| RowBytes.PackedAt | libbmp/libbmp.h:38-43 | the three bytes of each pixel are blue, green and red |
| BitmapFile.HeaderRoundTrip | libbmp/libbmp.c:29-65 | the 52 header bytes read back as the same fourteen fields, negative values included |
| BitmapFile.HeaderBytesRoundTrip | libbmp/libbmp.c:46-65 | any 52 bytes are the encoding of the header read from them |
| BitmapFile.RowLengthIsStride | libbmp/libbmp.h:8 | pixel bytes plus width mod 4 is a multiple of four and equals the format's stride, 24-bit pixels rounded up to 32 bits |
| BitmapFile.DecodeEncode | libbmp/libbmp.c:125-205 | reading what was written gives the same header and pixels, for every width and every height but those below −1 |
| BitmapFile.DecodedHeaderBytes | libbmp/libbmp.c:46-65 | whatever file is read successfully, its first 54 bytes are the encoding of the header obtained |
| BitmapFile.DecodedPixelBytes | libbmp/libbmp.c:182-200 | whatever file is read successfully, the bytes of every stored row are those of the corresponding picture row, bottom row first |
| BitmapFile.DecodedConsistent | libbmp/libbmp.c:163-205 | a successful read yields as many rows and columns as the header says |
| BitmapFile.ReadableIff | libbmp/libbmp.c:46-205 | exactly which files are read: the letters BM, a whole header of sizes the row index can take, and the pixels of every row; the padding of the last row may be missing |
| BitmapFile.InvalidIff | libbmp/libbmp.c:55-58 | a file is refused as no bitmap if and only if it has no two bytes or they are not 0x42, 0x4D |
| BitmapFile.RowsFitIff | libbmp/libbmp.c:183-200 | the row loop gets through exactly if the pixels of the last row lie in the file |
| BitmapFile.DecodedFields | libbmp/libbmp.h:19-36 | the position and byte order of all fourteen header fields in a file, sizes at 18 and 22 and the bit count at 28 among them, signed fields in two's complement |
| BitmapFile.WrittenMagic | libbmp/libbmp.c:37-39 | every written file begins with the bytes 0x42, 0x4D |
| BitmapFile.WrittenDefaults | libbmp/libbmp.c:11-27 | the bytes of a default header in a file: offset 54, header size 40, one plane, 24 bits, the picture's sizes, and zeros in all other fields but `bfSize` |
| BitmapFile.WrittenRows | libbmp/libbmp.c:141-158 | where each row stands in a written file, from the bottom one up, with zeros from its last pixel to the next row |
| BitmapFile.WrittenLength | libbmp/libbmp.c:141-158 | and that nothing follows them |
| BitmapFile.DefaultFileLength | libbmp/libbmp.c:11-27 | `bfSize` is the length of the written file less 54, in 32 bits, and exact if and only if it does not overflow them |
| BitmapFile.WriteImage | libbmp/libbmp.c:125-161 | the write loop leaves exactly the encoding in the file, for every height whose row index stays inside, −1 included |
| BitmapFile.ReadImage | libbmp/libbmp.c:163-205 | the read loop over the cursor, with its three error returns, computes the decoding, −1 as height included |
| ImageQueue.EstimateImageMemory | src/backend/cpu/qmt/utils/qmt-queue.c:23-47 | no image is estimated below two megabytes |
| ImageQueue.EstimateHoldsImage | src/backend/cpu/qmt/utils/qmt-queue.c:23-47 | less its fixed overhead, the estimate is the least whole number of megabytes that holds the pixels at the header's depth, or at three bytes if that is below 8 bits, with the row pointers |
| ImageQueue.PushKeepsLimits | src/backend/cpu/qmt/utils/qmt-queue.c:152-179 | a push that does not wait keeps the counter equal to the sum of the estimates, the count within capacity, and memory within its limit unless a single image is queued |
| ImageQueue.BlockedIff | src/backend/cpu/qmt/utils/qmt-queue.c:152-155 | a push waits if and only if storing the image would leave the queue outside its limits |
| ImageQueue.PopKeepsLimits | src/backend/cpu/qmt/utils/qmt-queue.c:240-246 | so does a pop, and the branch that resets the counter to zero is dead |
| ImageQueue.MemoryBoundsLength | src/backend/cpu/qmt/utils/qmt-queue.c:152-168 | the memory limit alone bounds the number of images by half of it, or one |
| ImageQueue.EmptyBlocksNobody | src/backend/cpu/qmt/utils/qmt-queue.c:152-155 | only a non-empty queue makes a push wait, however large the image |
| ImageQueue.FirstInFirstOut | src/backend/cpu/qmt/utils/qmt-queue.c:176-246 | over every sequence of pushes and pops, what was taken followed by what is left is what was there followed by what was stored |
| ImageQueue.NthTakenIsNthStored | src/backend/cpu/qmt/utils/qmt-queue.c:176-246 | from an empty queue, the n-th image taken is the n-th image stored |
| ImageQueue.PopDecisionIs | src/backend/cpu/qmt/utils/qmt-queue.c:199-237 | when a pop ends, waits or takes the oldest image, for every batch the 8-bit counter can count |
| ImageQueue.RingIndexInjective | src/backend/cpu/qmt/utils/qmt-queue.c:176-179 | different positions of the queue lie in different slots across the wrap-around |
| ImageQueue.RingQueue.constructor | src/backend/cpu/qmt/utils/qmt-queue.c:49-67 | an empty queue with the given limits |
| ImageQueue.RingQueue.Push | src/backend/cpu/qmt/utils/qmt-queue.c:121-185 | skips images without a name, waits exactly when the first-in first-out queue would block, and otherwise appends to it |
| ImageQueue.RingQueue.Pop | src/backend/cpu/qmt/utils/qmt-queue.c:187-270 | ends, waits or takes the oldest image exactly as the first-in first-out queue decides |
| Pipeline.TotalAfter | src/backend/cpu/qmt/qmt-threads.c:18-424 | how one step of one thread, with the signal it sends, changes any sum over all threads |
| PipelineSafety.PendingUndoMeansAllClaimed | src/backend/cpu/qmt/qmt-threads.c:34-38 | a subtraction from the reader counter is pending only when all files are claimed |
| PipelineSafety.ClaimsAfter | src/backend/cpu/qmt/qmt-threads.c:34-38 | the counter hands out the next unclaimed file or nothing, under every interleaving of additions and subtractions |
| PipelineSafety.StepKeepsPlaces | src/backend/cpu/qmt/qmt-threads.c:34-405 | every step moves a file from one place to one other place |
| PipelineSafety.StepKeepsPushers | src/backend/cpu/qmt/utils/qmt-queue.c:152-168 | although one pop signals one pusher, an unwoken waiting pusher always has a non-empty queue or a woken pusher yet to look again |
| PipelineSafety.StepKeepsPoppers | src/backend/cpu/qmt/utils/qmt-queue.c:202-229 | while a popper sleeps unwoken there are no more images than awake poppers |
| PipelineSafety.StepKeepsBarrier | src/backend/cpu/qmt/qmt-threads.c:79 | every step of any thread keeps: no reader is past the barrier unless all have come to it |
| PipelineSafety.InitialInv | src/backend/cpu/qmt/qmt-exec.c:20-136 | the state that thread creation starts from satisfies the invariant |
| PipelineSafety.StepKeepsInv | src/backend/cpu/qmt/qmt-threads.c:18-424 | every step of any thread keeps the invariant: places, counters, limits, genuine images, no early exit, the readers' barrier, nobody forgotten |
| PipelineProgress.SomebodyMoves | src/backend/cpu/qmt/utils/qmt-queue.c:152-229 | deadlock freedom: in a state that satisfies the invariant with a file uncounted, a step other than a timeout or a spurious wakeup is possible |
| PipelineProgress.NoDeadlock | src/backend/cpu/qmt/utils/qmt-queue.c:152-229 | the same for every state of every run |
| PipelineProgress.StepLowersRank | src/backend/cpu/qmt/qmt-threads.c:18-424 | every productive step lowers one rank, file stages first; a timeout or a spurious wakeup raises it by one |
| PipelineProgress.ProductiveStepsAreBounded | src/backend/cpu/qmt/qmt-threads.c:18-424 | in every run, fair or not, the productive steps exceed the timeouts and spurious wakeups by no more than a number fixed by the batch |
| PipelineProgress.CountedStepsClose | src/backend/cpu/qmt/utils/qmt-queue.c:202-222 | once every file is counted every step, timeouts included, brings some thread nearer to its end |
| PipelineProgress.CountedRunsAreBounded | src/backend/cpu/qmt/utils/qmt-queue.c:202-222 | from then on every run is finite |
| PipelineProgress.StuckIffFinished | src/backend/cpu/qmt/qmt-exec.c:138-178 | the reachable states without a further step are exactly those in which every thread has finished, so the joins return |
| PipelineProgress.EveryRunCanFinish | src/backend/cpu/qmt/qmt-exec.c:138-178 | no schedule, fair or not, leads to a dead end: the run can be continued until all threads have finished |
| PipelineProgress.EachFileInOnePlace | src/backend/cpu/qmt/qmt-threads.c:34-405 | in every reachable state each file is unread, with one thread, in one queue, or written, and in one of these only |
| PipelineProgress.UnreadIff | src/backend/cpu/qmt/qmt-threads.c:34-38 | in every reachable state the files that no thread holds, no queue contains and nobody has written are exactly those from the reader counter less its pending subtractions on |
| PipelineProgress.ClaimsAreExclusive | src/backend/cpu/qmt/qmt-threads.c:34-62 | no two threads ever hold the same file, and none beyond the last |
| PipelineProgress.WrittenFilesAreFiltered | src/backend/cpu/qmt/qmt-threads.c:355-405 | every written file is the filtered image of that file's input, and the counter misses only writes not yet counted |
| PipelineProgress.QueuesStayBounded | src/backend/cpu/qmt/utils/qmt-queue.c:152-179 | in every reachable state both queues keep count, memory and exact accounting |
| PipelineProgress.NobodyLeavesEarly | src/backend/cpu/qmt/qmt-threads.c:355-416 | a worker or writer has finished only if all files are written |
| PipelineBarrier.BarrierHolds | src/backend/cpu/qmt/qmt-threads.c:79 | in every reachable state in which some reader sends termination images or has ended, every reader is at the barrier, sending them or at its end |
| PipelineBarrier.SentinelsComeLast | src/backend/cpu/qmt/qmt-threads.c:62-90 | by then every file of the batch is past the readers: in the input queue, with a worker or writer, in the output queue or written |
| PipelineBarrier.SentinelsSent | src/backend/cpu/qmt/qmt-threads.c:82-90 | in every run the loop counter of a reader is the number of termination images it has sent, never more than there are workers, and it has ended exactly after one for each worker and the check that leaves the loop |
| PipelineProgress.OutputReadsBack | src/backend/cpu/qmt/qmt-threads.c:156-396 | whatever file a run has written, reading it back gives the filtered picture of the input of that name |
| PipelineProgress.FinishedRuns | src/backend/cpu/qmt/qmt-exec.c:138-178 | when all threads have finished, both queues are empty and every file was written exactly once, filtered, under its own name |
| PipelineFairness.SomebodyUrgent | src/backend/cpu/qmt/qmt-threads.c:33-417 | while a file is uncounted, the next step of some awake thread moves a file, or takes a writer to a pop that will |
| PipelineFairness.StaysUrgent | src/backend/cpu/qmt/qmt-threads.c:33-417 | such a thread stays so under every step of another thread that moves no file |
| PipelineFairness.NextMove | src/backend/cpu/qmt/qmt-threads.c:33-417 | if every awake thread takes a step in every window of a given length, two windows move a file |
| PipelineFairness.FairRunsAreBounded | src/backend/cpu/qmt/qmt-exec.c:90-178 | such a run is over after 2 × window × (9 × files + 1) steps and at most (workers + 5) steps for each thread |
| PipelineFairness.NoEndlessFairRun | src/backend/cpu/qmt/qmt-exec.c:90-178 | no endless run is weakly fair: every run in which no thread stays awake for ever without a step ends |
| PipelineFairness.StoppedRunsAreFinished | src/backend/cpu/qmt/qmt-exec.c:138-178 | a run that cannot go on has ended with all threads finished, both queues empty and every file written exactly once, filtered, under its own name |
| PipelineFairness.UnfairRunsExist | src/backend/cpu/qmt/utils/qmt-queue.c:202-222 | as soon as there is a file some endless run exists, which is then not fair |
| MpiGeometry.BalancedDistribution | src/backend/cpu/mpi/utils/utils.c:162-166 | every row belongs to exactly one rank, no rank has more than one row more than another and none more than one before it, for every height and rank count |
| MpiGeometry.StartsAreConsecutive | src/backend/cpu/mpi/utils/utils.c:162-166 | row intervals follow each other without gap or overlap |
| MpiGeometry.HaloSuffices | src/backend/cpu/mpi/compute/filter-comp.c:75-95 | for every owned row and window row the clamped input row was received, also when ranks outnumber rows |
| MpiGeometry.HaloIsNeeded | src/backend/cpu/mpi/utils/utils.c:117-146 | a rank with rows receives nothing else: every row it receives is one its window reaches from a row it owns |
| MpiGeometry.IdleRanksReceive | src/backend/cpu/mpi/utils/utils.c:117-146 | a rank without rows receives the last rows of the picture, as many as the halo has, or all |
| MpiGeometry.RootAgreesWithRank | src/backend/cpu/mpi/utils/utils.c:244-256 | the rows the root computes for a rank are those the rank computes for itself |
| MpiGeometry.ReceiveDisplacementsAreSums | src/backend/cpu/mpi/utils/utils.c:257-259 | the gather displacements are the prefix sums of the gather counts, in total stride times height |
| MpiGeometry.PackedBytesBounds | src/backend/cpu/mpi/utils/utils.c:262-267 | the packed buffer holds at least the picture and at most stride × (height + 2 × halo × ranks) bytes |
| MpiGeometry.EverythingFits | src/backend/cpu/mpi/utils/utils.c:256-267 | if the packed size is an `int`, so is every count and displacement |
| MpiGeometry.CommData.VerifyDistributionRange | src/backend/cpu/mpi/utils/utils.c:117-146 | the halo interval, cut at both borders |
| MpiGeometry.CommData.CalculateDistribution | src/backend/cpu/mpi/utils/utils.c:148-194 | the fields describe the share of the rank, in both modes |
| MpiGeometry.SetupArrays | src/backend/cpu/mpi/utils/utils.c:196-271 | all five arrays are those of the geometry, and no `int` overflows, if and only if the packed size is an `int` |
| MpiTransfer.SlabSlice | src/backend/cpu/mpi/comm/rank0-proc.c:121-125 | a sub-interval of rows is a slice of their bytes |
| MpiTransfer.PackedSlice | src/backend/cpu/mpi/comm/rank0-proc.c:104-134 | the slice of the packed buffer at a rank's displacement and of its count is exactly the rows the rank is to receive |
| MpiTransfer.PackForScatter | src/backend/cpu/mpi/comm/rank0-proc.c:77-137 | the packing loop never takes its error branch and produces every rank's rows in order |
| MpiTransfer.GatheredRows | src/backend/cpu/mpi/comm/data-transfer.c:101-102 | the ranks' rows, placed at their displacements, are the rows of the whole picture; no part hides another |
| MpiTransfer.UnpackGathered | src/backend/cpu/mpi/comm/rank0-proc.c:139-176 | the unpacking loop never takes its error branch and fills every output row from its owner's bytes |
| MpiFilter.ReadLocal | src/backend/cpu/mpi/compute/filter-comp.c:85-98 | the global row index turned local reads the pixel of the picture, and for a supplied rank the abort is not taken |
| MpiFilter.FilterLocal | src/backend/cpu/mpi/compute/filter-comp.c:27-117 | a supplied rank never aborts and writes the bytes of its rows of the convolution; a stride shorter than the row writes out of bounds |
| MpiFilter.RankIsSupplied | src/backend/cpu/mpi/compute/filter-comp.c:75-95 | a rank that received the rows of its geometry has every row its window can reach |
| MpiExec.BroadcastStride | src/backend/cpu/mpi/comm/data-transfer.c:127-142 | what is left of the stride modulo 65536, so that it survives if and only if it fits 16 bits |
| MpiExec.AsInt | src/backend/cpu/mpi/comm/data-transfer.c:36-40 | the number of the range of `int` that is congruent to the byte count modulo 2^32 |
| MpiExec.AnnouncedSize | src/backend/cpu/mpi/comm/data-transfer.c:36-40 | the byte count named to a collective never exceeds the local buffer and is exact when it is an `int` |
| MpiExec.RankPhases | src/backend/cpu/mpi/mpi-exec.c:88-101 | with sound strides and counts a rank offers exactly its rows of the convolution to the gather |
| MpiExec.TransferableIfSmall | src/backend/cpu/mpi/utils/utils.c:230-268 | a bound on the picture's size and the rank count that suffices for the MPI modes |
| MpiExec.CountsAgreeIff | src/backend/cpu/mpi/mpi-exec.c:69-72 | in row mode the root and all ranks agree on the scatter sizes if and only if three times the width fits 16 bits |
| MpiExec.ReleaseRows | src/utils/threads-general.c:388-403 | freeing row pointers stays inside the array if and only if there are as many |
| MpiExec.ScatterFilterGather | src/backend/cpu/mpi/mpi-exec.c:74-110 | with the strides either mode leaves behind, the phases succeed if and only if the picture is transferable and the root frees no more row pointers than it has, and then give its convolution |
| MpiExec.ProcessByRows | src/backend/cpu/mpi/mpi-exec.c:31-119 | row mode equals the serial convolution, for every rank count, picture and kernel, exactly on transferable pictures |
| MpiExec.ProcessByColumns | src/backend/cpu/mpi/mpi-exec.c:143-249 | column mode gives the convolution with the transposed kernel, hence the serial one for symmetric kernels, exactly when the transposed picture is transferable and the picture is no wider than high |
| MpiExec.ExecuteMpi | src/backend/cpu/mpi/mpi-exec.c:251-280 | for every shipped linear kernel and rank count both modes give the serial engine's picture, and fail exactly for other modes, unknown names, pictures that are not transferable and, in column mode, pictures wider than high |
| MpiExec.AsymmetryShows | src/backend/cpu/mpi/mpi-exec.c:177-236 | a picture and an asymmetric kernel for which the transposed kernel writes other bytes |
| MpiExec.AsymmetryHides | src/backend/cpu/mpi/mpi-exec.c:177-236 | an asymmetric kernel for which it writes the same bytes on every picture |

## Left out

- The MPI median filter (`src/backend/cpu/mpi/compute/filter-comp.c:127-202`): it wraps with a local row index and is marked as unfinished; the name "mm" is excluded from `MpiExec.ExecuteMpi`.
- The GPU backend: OpenCL kernels in single precision that truncate instead of rounding.
- Floating point: the methods compute with exact integers and quotients. That doubles write the same bytes is proved in `DoubleRounding` from the standard model of rounding, one relative error for the factor and one for the product; what it takes as given is that sums of weighted bytes, which are integers far below 2^53, and scalings by powers of two are exact in doubles.
- Bitmaps of negative width or of a height below −1: the row index of the original underflows; reading such a header yields `OutsideModel`, and writing requires a consistent image.
- Zero-size images in queue mode: a worker takes them for a termination signal; `Pipeline.Batch.Ok` requires positive sizes that fit 16 bits.
- More than 255 files in one batch: the file count is passed as an 8-bit number.
- Failures of allocation, files, threads, mutexes, barriers and string copies, and memory ownership, except the release in column mode named above.
- The macOS branches, in which the reader barrier does nothing.
- File names and paths: an index stands for the name, so two equal names in one list are not distinguished from two files.
- Pixels held as row pointers: an output buffer is one two-dimensional array, and packed rows are sequences of bytes; aliasing of rows is not captured.
- `struct img_queue` as one object with its lock: `ImageQueue.RingQueue` is the data under the lock, and waiting and signalling are steps of `Pipeline`.
- `Pipeline` and `ThreadPool` are relations on values, not classes with threads; the loops of one thread are the methods of `BlockLoops`, `ImageQueue` and `BitmapFile`.
- The second broadcast of width and height, which fit 16 bits and arrive unchanged.
- The logging loop over ranks with an 8-bit index in `src/backend/cpu/mpi/comm/phases.c:85-90`.
- Rank counts and window sizes of the MPI modes that do not fit 8 bits; the shipped windows are at most 15 wide.
- Logging, timing, argument parsing, output paths, console display, plots and scripts.
