# Verified models of five programs

This project models the five algorithmic programs of the repository in Dafny and proves what they
compute, for all inputs and, where threads are involved, for all interleavings. Check it with
`dafny verify dfyconfig.toml`.

* **Determinant** (`Determinant`, `Elimination`, `Growth`, `Kernel`, `MatrixDet`). `Det` is the
  textbook Laplace expansion along the first column. The determinant is proved linear in each row
  and alternating, and from that every run of the elimination loop, whatever rows it picks among
  equal pivots, returns `Det`. The sequential loop and the OpenMP loop work in place on a matrix
  and are both proved against the same passes. In the parallel loop any thread may take any row of
  the search, threads pass the critical section in any order, and the elementary steps of the
  exchange and elimination iterations interleave in any order. Two consequences for the caller: the
  result is nonzero exactly when A x = 0 has only the zero solution, and partial pivoting bounds
  the entries and the result.
* **Allocator** (`Heap`, `FirstFit`, `AllocatorRuns`, `SmallAllocator`). The ordered set with
  negated keys, the search that jumps from block to block, and the lazily maintained first free
  index are modelled as they are, and every run agrees with a ledger from starts to sizes. `Alloc`
  looks only at the block before the returned index, so live blocks can overlap;
  `AllocatorRuns.OverlapReachable` shows four calls after which they do. Whether a call keeps
  disjoint blocks disjoint is decided before the call: `FirstFit.AllocDisjointIff` and
  `FirstFit.ReAllocDisjointIff` give the exact conditions. A reallocation can also copy between
  overlapping ranges although blocks stay disjoint (`AllocatorRuns.OverlappingCopyReachable`);
  `FirstFit.CopyApartIff` says exactly when it does not, and `SmallAllocator.CopyKeepsBlockIff`
  which other blocks the copy leaves alone. Two families of runs without overlap are
  `DescendingPoolsStayDisjoint` and last-in-first-out runs.
* **Polynomial differentiator** (`Decimal`, `Polynomial`, `Expression`, `Reading`, `Derivative`,
  `DerivativeExamples`). The scanner is proved to find the match that the regular expression
  prescribes. Every text consists of items, and the value of the printed derivative is the one
  number that fits every finite difference of their value; for well-formed text that is the value
  as one writes it, stars and carets present or not. The output is the only canonical text of the
  differentiated map. The five assertions of the program's main are proved.
* **Producer, consumer and counter threads** (`ProducerConsumer`, `MutexCounter`). Both are systems
  of small steps; a run is any sequence of enabled steps. The number of elements and threads is n
  instead of the constants 10 and 5. Lock calls may fail at any time.
* **Prefix sums** (`PrefixSum`). Rounds that double the summed window, with the cells of a round in
  ascending order or in any order.

Numbers: `float` is modelled by exact reals, `int` coefficients and sums by unbounded integers
(for the prefix sums it is also proved which values must fit an `int`), `size_t` and pointers into
the buffer by natural numbers. Exceptions are results: `None` for `bad_alloc`, `OutOfRange` for
`at(0)` of an empty string.

A call of a product by name (`Determinant.Times`, `Polynomial.Scale`) is ordinary multiplication;
the name keeps nonlinear terms out of proofs that only pass them along.

## Model

| member | source | states |
|---|---|---|
| MatrixDet.DetWithoutOmp | parallel_programming/matrix_det.cpp:9-42 | for every n >= 0 and every n by n matrix the function returns the Laplace determinant, early exit and row exchanges included |
| MatrixDet.DetWithOmp | parallel_programming/matrix_det.cpp:88-136 | the OpenMP loop returns the Laplace determinant of the matrix that was read, for every team size, assignment of rows, order of critical sections and interleaving of iterations |
| MatrixDet.FindPivot | parallel_programming/matrix_det.cpp:12-17 | the search finds the first row of greatest absolute value in the column |
| MatrixDet.ParallelFindPivot | parallel_programming/matrix_det.cpp:97-112 | whatever rows the threads take and in whatever order they pass the critical section, the chosen row has the greatest absolute value |
| MatrixDet.ExchangeRows | parallel_programming/matrix_det.cpp:24-29 | the two rows trade their columns from i on and nothing else changes |
| MatrixDet.ParallelExchangeRows | parallel_programming/matrix_det.cpp:119-125 | the same for every interleaving of the three steps of each column's swap |
| MatrixDet.EliminateBelow | parallel_programming/matrix_det.cpp:32-38 | every row below the pivot loses its multiple of the pivot row, and its entry in the pivot column becomes zero |
| MatrixDet.Reduce | parallel_programming/matrix_det.cpp:24-38 | the exchange, the change of sign, the factor and the elimination are one pass in place, and multiply the result by the pivot, negated when rows were exchanged |
| MatrixDet.ParallelEliminateBelow | parallel_programming/matrix_det.cpp:127-135 | the same for every interleaving of the division, subtraction and zeroing steps of the rows |
| MatrixDet.ParallelReduce | parallel_programming/matrix_det.cpp:119-135 | the parallel rest of a pass does the same |
| Determinant.BlockDetIsDet | parallel_programming/matrix_det.cpp:9-42 | the determinant of a trailing block, columns counted from c, is the textbook Laplace expansion of the cut matrix |
| Determinant.DetLinear | parallel_programming/matrix_det.cpp:32-37 | the determinant is linear in each row |
| Determinant.DetSwap | parallel_programming/matrix_det.cpp:24-29 | exchanging any two rows negates the determinant, which is why det changes sign |
| Determinant.DetAddMultiple | parallel_programming/matrix_det.cpp:32-37 | subtracting a multiple of the pivot row from another row keeps the determinant |
| Determinant.DetZeroTail | parallel_programming/matrix_det.cpp:31-38 | once the pivot column is zero below the pivot, the pivot splits off as a factor |
| Determinant.DetTriangular | parallel_programming/matrix_det.cpp:24-38 | the determinant of a triangular matrix, which the loop produces, is the product of its diagonal |
| Determinant.DetIdentity | parallel_programming/matrix_det.cpp:9-42 | the determinant of the identity matrix of any size is 1 |
| Determinant.DetTwo | parallel_programming/matrix_det.cpp:9-42 | the determinant of [[a, b], [c, d]] is ad - bc |
| Elimination.PassShape | parallel_programming/matrix_det.cpp:24-38 | a pass leaves earlier columns and upper rows alone, moves the pivot row up from column i on, and zeroes the column below it |
| Elimination.PassBlock | parallel_programming/matrix_det.cpp:24-38 | the determinant of the trailing block is the signed pivot times that of the next trailing block |
| Elimination.RunInvariant | parallel_programming/matrix_det.cpp:11-39 | after any number of passes the determinant of the input is det times the determinant of the trailing block |
| Elimination.RunComputesDet | parallel_programming/matrix_det.cpp:9-42 | every finished run returns the determinant, also when ties led to other pivot rows and when the zero-column exit was taken |
| Elimination.FinishRun | parallel_programming/matrix_det.cpp:11-39 | every run can be continued until it used all columns or meets a zero column |
| Growth.PassGrowth | parallel_programming/matrix_det.cpp:12-38 | with the greatest entry as pivot, one pass at most doubles the greatest absolute value of the trailing block |
| Growth.RunGrowth | parallel_programming/matrix_det.cpp:12-38 | after i passes every trailing entry is at most 2^i times the greatest initial one |
| Growth.DetBound | parallel_programming/matrix_det.cpp:9-42 | the determinant is at most M^n * 2^(n(n-1)/2) in absolute value |
| Kernel.RunKeepsSolutions | parallel_programming/matrix_det.cpp:24-38 | no pass changes the solutions of A x = 0 |
| Kernel.RunKeepsEchelon | parallel_programming/matrix_det.cpp:32-38 | finished columns are zero below the diagonal and nonzero on it |
| Kernel.BackSubstituteSolves | parallel_programming/matrix_det.cpp:19-22 | back substitution solves the rows above a column |
| Kernel.ZeroColumnSolution | parallel_programming/matrix_det.cpp:19-22 | at the zero-column exit a nonzero solution of A x = 0 is constructed |
| Kernel.DetNonzeroIffTrivialKernel | parallel_programming/matrix_det.cpp:9-42 | the result is nonzero exactly when A x = 0 has only the zero solution |
| Heap.LowerBound | containers_allocators/allocator.cpp:65-73 | lower_bound on the negated keys finds the block with the greatest start not above the index |
| Heap.InsertOrdered | containers_allocators/allocator.cpp:40 | insertion keeps the set ordered and adds at most the new block |
| Heap.FindsNearest | containers_allocators/allocator.cpp:65-73 | for any index the lookup finds exactly the block with the greatest start not above it, and nothing when all blocks start above it |
| Heap.FindsLive | containers_allocators/allocator.cpp:65-69 | find_occupied_block finds the block that starts at a live pointer |
| Heap.SearchJumps | containers_allocators/allocator.cpp:25-44 | from any ordered blocks, overlapping or not, the search jumps from block end to block end until the nearest block does not reach the index, which it returns, or until index plus Size is at least 262144, and then it fails |
| SmallAllocator.SmallAllocator.constructor | containers_allocators/allocator.cpp:76-81 | a new allocator has a zeroed buffer, no blocks and first free index 0 |
| SmallAllocator.SmallAllocator.Alloc | containers_allocators/allocator.cpp:22-48 | the loop terminates and returns what the search finds or throws; exactly the returned block is added unless a live block starts there, and the first free index moves to its end when the block was placed at it; nothing changes when it throws |
| SmallAllocator.SmallAllocator.Free | containers_allocators/allocator.cpp:58-62 | the block with the greatest start not above the pointer is erased, no other, and the first free index becomes the lower of its start and what it was |
| SmallAllocator.SmallAllocator.ReAlloc | containers_allocators/allocator.cpp:50-56 | block set and bytes are unchanged when Alloc throws; otherwise the first min(Size, old size) bytes of the block arrive at the returned pointer when the two ranges of that length are apart, and no byte outside that target changes in any case |
| SmallAllocator.SmallAllocator.MemCpy | containers_allocators/allocator.cpp:53 | the copy is exact for ranges that do not overlap and never writes outside its target |
| SmallAllocator.CopyKeepsBlockIff | containers_allocators/allocator.cpp:53 | the copy of a reallocation keeps every byte of another live block, for all contents, exactly when that block does not start inside the copied bytes |
| FirstFit.AllocKeepsSound | containers_allocators/allocator.cpp:22-48 | after every Alloc all bytes below the first free index still belong to live blocks, overlapping or not |
| FirstFit.FreeKeepsSound | containers_allocators/allocator.cpp:58-62 | the same after every Free |
| FirstFit.FreeKeepsGrounded | containers_allocators/allocator.cpp:58-62 | the same when empty blocks are present |
| FirstFit.AllocIsFirstFit | containers_allocators/allocator.cpp:22-48 | from disjoint blocks Alloc returns the lowest uncovered byte and throws exactly when that byte plus Size is at least 262144 |
| FirstFit.AllocAnywhere | containers_allocators/allocator.cpp:22-48 | from any state that is covered below its first free index, overlapping or not: the returned index is not below it, every byte below the returned index is covered and the nearest block ends at or before it; when the call throws, every byte where the request would fit is covered |
| FirstFit.NewAllocatorServes | containers_allocators/allocator.cpp:29 | a new allocator serves a request, at index 0, exactly when Size is below 262144 |
| FirstFit.PredecessorDecides | containers_allocators/allocator.cpp:33-34 | among disjoint blocks the test of the predecessor is the test whether the index is covered |
| FirstFit.MeetsIffStartsInside | containers_allocators/allocator.cpp:33-36 | a new block at a free byte meets a live block exactly when a live block starts inside it |
| FirstFit.AllocRecords | containers_allocators/allocator.cpp:40 | a call adds exactly its block, unless a live block starts at the returned index |
| FirstFit.AllocDisjointIff | containers_allocators/allocator.cpp:22-48 | Alloc of any size from disjoint blocks keeps them disjoint exactly when no live block starts in the Size bytes from the lowest free byte on, it throws, or an empty block there keeps the new one out |
| FirstFit.AllocRecordedIff | containers_allocators/allocator.cpp:36-41 | a request of at least one byte that fits is recorded exactly when no empty block starts at the lowest free byte |
| FirstFit.CoverageSurvivesIff | containers_allocators/allocator.cpp:36-41 | Alloc of any size keeps the bytes below the first free index covered, but for exactly one case: a request of at least one byte that fits at the first free index while an empty block starts there |
| FirstFit.FreeRemovesBlock | containers_allocators/allocator.cpp:58-62 | freeing a live pointer removes its block and no other |
| FirstFit.FreeLowersFirst | containers_allocators/allocator.cpp:60 | after Free of a live pointer the first free index is the pointer or what it was, and above neither |
| FirstFit.FreedIsNextFit | containers_allocators/allocator.cpp:58-62 | a freed start not above the first free index is where the next request that fits lands, overlapping blocks or not, exactly when the nearest remaining block, if any, ends at or before it |
| FirstFit.ReAllocReplacesBlock | containers_allocators/allocator.cpp:50-56 | a reallocation replaces the old block by the new one, which only a live block already starting there keeps out, or changes nothing when it throws |
| FirstFit.ReAllocDisjointIff | containers_allocators/allocator.cpp:50-56 | ReAlloc from disjoint blocks keeps them disjoint exactly when no block but the moved one starts in the new size counted from the lowest free byte, with the provisos of Alloc |
| FirstFit.CopyApartIff | containers_allocators/allocator.cpp:53 | the two ranges of the memcpy are apart exactly when the moved block does not start behind the first byte of the copied target |
| FirstFit.FreeUndoesAlloc | containers_allocators/allocator.cpp:22-62 | freeing the block just allocated restores the block set and the first free index, from any reachable state |
| AllocatorRuns.StepKeepsSound | containers_allocators/allocator.cpp:22-62 | every legal call keeps the bytes below the first free index covered |
| AllocatorRuns.Run | containers_allocators/allocator.cpp:22-62 | every state that legal calls reach is well formed and covered below its first free index |
| AllocatorRuns.RunMatches | containers_allocators/allocator.cpp:22-62 | at every moment of every run the ordered set holds exactly the blocks of a ledger from start to size that is entered from the calls and the pointers they returned, and the first free index is that of the ledger |
| AllocatorRuns.DescendingPoolsStayDisjoint | containers_allocators/allocator.cpp:22-62 | in any run whose sizes divide all earlier sizes, pools of one size included, live blocks stay disjoint and inside the buffer |
| AllocatorRuns.DescendingPoolMeetsNothing | containers_allocators/allocator.cpp:50-56 | in such a run the next block meets no live block, the moved one included, so the copy of a reallocation is exact |
| AllocatorRuns.OverlapReachable | containers_allocators/allocator.cpp:33-42 | disjointness fails in general: four legal calls make two live blocks overlap |
| AllocatorRuns.OverlappingCopyReachable | containers_allocators/allocator.cpp:50-56 | blocks that are disjoint in every state of a run do not make the memcpy defined: Alloc(2), Alloc(4), Free of the first and ReAlloc of the second to 8 bytes copies 4 bytes from 2 to 0 |
| AllocatorRuns.ZeroSizeLosesBlock | containers_allocators/allocator.cpp:36-41 | coverage fails after Alloc(0), Alloc(4): the second block is not recorded; the exact conditions are AllocRecordedIff and CoverageSurvivesIff |
| AllocatorRuns.StackStepKeeps | containers_allocators/allocator.cpp:22-69 | allocating, and freeing the block allocated last, keep live blocks tiling [0, first free index) in allocation order |
| AllocatorRuns.StackRun | containers_allocators/allocator.cpp:22-69 | hence in any last-in-first-out run, of any sizes, live blocks tile [0, first free index) in allocation order |
| AllocatorRuns.StackRunNeverMeets | containers_allocators/allocator.cpp:22-48 | in such a run a request of any size lands at the first free index and meets no live block, or throws |
| Decimal.ToNatOfNat | containers_allocators/containers.cpp:6-8 | stoi reads back what to_string printed |
| Decimal.ToNatBehind | containers_allocators/containers.cpp:6-8 | digits are read in base ten: a digit behind s makes ten times the number plus its distance from 0 |
| Decimal.OfNatUnique | containers_allocators/containers.cpp:55 | what to_string prints is the only text without leading zeros that reads as the number |
| Expression.ScannedCutAllowed | containers_allocators/containers.cpp:22 | what the scanner takes is one way to cut the text that the expression allows |
| Expression.ScannerIsGreedy | containers_allocators/containers.cpp:22 | of all ways to cut the text that the expression allows, the scanner finds the one that greedy matching prefers, so it never backtracks |
| Expression.CollectAppend | containers_allocators/containers.cpp:29-40 | adding up the matches of two lists is adding the two maps |
| Expression.ParseAppend | containers_allocators/containers.cpp:17-40 | reading p followed by q, where q starts with a sign, gives the pointwise sum of the two maps |
| Expression.ParseDenotes | containers_allocators/containers.cpp:17-40 | the map read from well-formed text has the value that was written; leading plus, star and caret may be present or not |
| Reading.EveryTextConsists | containers_allocators/containers.cpp:18-27 | every nonempty text is a sequence of items, each a sign, the greediest allowed cut and skipped text without a sign |
| Reading.Skipped | containers_allocators/containers.cpp:22 | text without a sign has no match |
| Reading.ItemReads | containers_allocators/containers.cpp:29-40 | an item adds its constant, 1 when digits are missing, to the power given by its last digits, or else to 1 or 0 as x is present or not |
| Reading.ParseIsTotal | containers_allocators/containers.cpp:17-40 | the map read from any text has an entry for exactly the powers of its items, and the entry is the sum of the constants of that power |
| Reading.ParseValue | containers_allocators/containers.cpp:17-40 | the map read from any text has the value of its items |
| Polynomial.DerivativeCharacterized | containers_allocators/containers.cpp:42-49 | a number fits p(x + h) - p(x) up to a multiple of h * h for every step h exactly when it is the value of the differentiated map |
| Polynomial.DifferentiatedSum | containers_allocators/containers.cpp:42-49 | differentiation of maps is linear, zero entries included |
| Polynomial.PowAdd | containers_allocators/containers.cpp:42-49 | the powers that give a map its value obey the laws of exponents |
| Derivative.CollectMatches | containers_allocators/containers.cpp:29-40 | the loop computes the map of the matches |
| Derivative.PrintEntry | containers_allocators/containers.cpp:48-60 | one turn of the printing loop appends the text of its entry |
| Derivative.Print | containers_allocators/containers.cpp:42-63 | the loop over the map from the highest power prints the differentiated map |
| Derivative.Derivative | containers_allocators/containers.cpp:17-64 | the empty string throws; any other input gives the text of the differentiated map |
| Derivative.DifferentiatedNoUnits | containers_allocators/containers.cpp:51-55 | a printed x never has coefficient 1 or -1, so the coefficient is never left out |
| Derivative.PrintedIsWritten | containers_allocators/containers.cpp:54-61 | the output is well-formed text |
| Derivative.TermsDescend | containers_allocators/containers.cpp:43 | the output lists its terms from the highest power down |
| Derivative.PrintThenParse | containers_allocators/containers.cpp:17-63 | reading a printed map gives the map back, zero entries included |
| Derivative.DerivativeReadsBack | containers_allocators/containers.cpp:17-64 | the output, read again, is exactly the differentiated map of the input; empty output denotes zero |
| Derivative.DerivativeIsWritten | containers_allocators/containers.cpp:42-63 | for every nonempty input the output is empty or well-formed text that writes the terms of the differentiated map |
| Derivative.DerivativeIsCorrect | containers_allocators/containers.cpp:17-64 | for well-formed input, with or without stars and carets, the value at x of the terms written in the output is the one number that fits every finite difference of the value written in the input |
| Derivative.DerivativeOfAnyText | containers_allocators/containers.cpp:17-64 | the same for every nonempty text, by the value of its items |
| Derivative.DerivativeOfConcatenation | containers_allocators/containers.cpp:17-64 | derivative is linear over concatenation of texts |
| Derivative.ResultIsCanonical | containers_allocators/containers.cpp:42-63 | the output is canonical: powers descend, and there is no leading plus, no leading zero, no coefficient 1 or power 1 written out, and no sign before a zero |
| Derivative.OnlyCanonicalResult | containers_allocators/containers.cpp:17-64 | a canonical text is the output exactly when it denotes the differentiated map of the input, so the output is determined character by character |
| DerivativeExamples.SquarePlusX | containers_allocators/containers.cpp:67 | the first assertion of main holds |
| DerivativeExamples.HundredthPower | containers_allocators/containers.cpp:68 | the second assertion of main holds |
| DerivativeExamples.HighPower | containers_allocators/containers.cpp:69 | the third assertion of main holds |
| DerivativeExamples.SquareThenCube | containers_allocators/containers.cpp:70 | the fourth assertion of main holds |
| DerivativeExamples.ManyXExample | containers_allocators/containers.cpp:17-64 | the derivative of x written n times is n in decimal, for every n > 0 |
| DerivativeExamples.TenX | containers_allocators/containers.cpp:71 | the last assertion of main holds |
| ProducerConsumer.StepKeepsInv | posix_threads/pthread_mutex.cpp:15-65 | every step of either thread keeps the invariant |
| ProducerConsumer.ReachableStates | posix_threads/pthread_mutex.cpp:15-65 | in every reachable state the threads exclude each other, the vector is increasing and below the next value, and pushed values are in the vector, in hand or consumed exactly once, failed locks notwithstanding |
| ProducerConsumer.FinalStates | posix_threads/pthread_mutex.cpp:85-115 | when both threads have returned, the vector is empty and 0 .. n-1 were each read once |
| ProducerConsumer.TakenIsStackOrder | posix_threads/pthread_mutex.cpp:40-63 | at every moment the values taken contain no greatest, least, middle in this order |
| ProducerConsumer.ConsumedOrders | posix_threads/pthread_mutex.cpp:15-65 | the orders in which complete runs consume the values are exactly the stack orders of 0 .. n-1 |
| ProducerConsumer.UsefulStep | posix_threads/pthread_mutex.cpp:19-63 | in every reachable state that is not final some step is enabled that brings the end closer |
| ProducerConsumer.EveryRunCanFinish | posix_threads/pthread_mutex.cpp:15-65 | every run can be continued until both threads have returned |
| ProducerConsumer.LocksExclude | posix_threads/pthread_mutex.cpp:20-44 | in every state of the invariant a lock call can succeed exactly when the other thread is not inside, and can fail at any time |
| ProducerConsumer.OnlyLocksWait | posix_threads/pthread_mutex.cpp:19-63 | every other step of a thread is enabled exactly when the thread has reached it, whatever the other thread does |
| ProducerConsumer.FailedWriteRound | posix_threads/pthread_mutex.cpp:20-24 | a failed write lock costs one turn of the loop and changes nothing, so the same value is tried again |
| ProducerConsumer.FailedReadRound | posix_threads/pthread_mutex.cpp:44-47 | a failed read lock changes nothing |
| ProducerConsumer.EmptyRound | posix_threads/pthread_mutex.cpp:42-62 | a turn on the empty vector takes and returns the lock, counts nothing and changes nothing |
| ProducerConsumer.PushRound | posix_threads/pthread_mutex.cpp:19-33 | a full turn of the producer appends its value and goes on to the next |
| ProducerConsumer.PopRound | posix_threads/pthread_mutex.cpp:41-62 | a full turn of the consumer moves the last element of the vector to those read |
| MutexCounter.StepKeepsInv | posix_threads/pthread_mutex.cpp:120-137 | every step of every thread keeps the invariant, with load and store of the increment as separate steps |
| MutexCounter.RunsAreInterleavings | posix_threads/pthread_mutex.cpp:120-137 | the runs are exactly the interleavings in which each thread locks, loads, stores and unlocks in this order or fails its lock and stops, and no thread locks while another is inside |
| MutexCounter.StatusOfThread | posix_threads/pthread_mutex.cpp:124-136 | at every moment of every run a thread has returned the bad status exactly when its lock failed, and the good one exactly when it unlocked |
| MutexCounter.UsedValues | posix_threads/pthread_mutex.cpp:129 | the values used by counter++ are 0, 1, ..., counter - 1 in this order, and at most one thread is inside |
| MutexCounter.FinalCounter | posix_threads/pthread_mutex.cpp:153-162 | when all threads have returned, the counter is the number of threads that returned the good status, which is n less the number of threads whose lock failed, and the values used are 0, 1, ... in order |
| MutexCounter.AllLocksSucceed | posix_threads/pthread_mutex.cpp:139-163 | without a failing lock the counter ends at n |
| MutexCounter.EveryRunCanFinish | posix_threads/pthread_mutex.cpp:120-137 | no reachable state is stuck: every run can be continued until all threads have returned |
| PrefixSum.WindowDoubles | parallel_programming/prefix_sum.cpp:15-17 | a window and the one before it make the window of twice the length |
| PrefixSum.Round | parallel_programming/prefix_sum.cpp:15-17 | one round turns the windows of length p into windows of length 2p |
| PrefixSum.ParallelRound | parallel_programming/prefix_sum.cpp:34-37 | the same for every order of the cells, storing the same values, each as often |
| PrefixSum.PrefSum | parallel_programming/prefix_sum.cpp:10-23 | the result is the running sums, after the least number of rounds k with 2^k >= n, and the stored values are exactly the window sums of these rounds |
| PrefixSum.PrefSumParallel | parallel_programming/prefix_sum.cpp:25-43 | the same for any order of the cells in each round; the stored values are the same, each as often |
| PrefixSum.RoundsUnique | parallel_programming/prefix_sum.cpp:14 | the number of rounds is determined by n |
| PrefixSum.StoredCount | parallel_programming/prefix_sum.cpp:14-20 | k rounds make exactly n * k - (2^k - 1) additions |
| PrefixSum.StoredFit | parallel_programming/prefix_sum.cpp:16 | no addition overflows when all window sums of the input fit an int |
| PrefixSum.ShiftFits | parallel_programming/prefix_sum.cpp:14 | for up to 2^30 elements the shifted one stays within the int range |

## Left out

- Floating-point rounding, NaN and infinities of the determinant: exact reals stand for float.
- Pointer representation and alignment in the allocator: a pointer is an offset into the buffer.
- Freeing or reallocating a pointer that is not live. Free models the block that the lookup finds for any pointer that has one.
- SmallAllocator.SmallAllocator.MemCpy: for overlapping ranges, which is undefined in C++, the contract promises only that nothing outside the target changes; FirstFit.CopyApartIff says when a reallocation gets there.
- AllocatorRuns.Legal: calls in a run ask for at least one byte; what a size of zero does is decided for single calls of Alloc by AllocDisjointIff, AllocRecordedIff and CoverageSurvivesIff.
- Range errors of stoi and overflow of int coefficients: integers are unbounded.
- Expression.ParseDenotes: text that is no sum of numbers and powers of x, such as 3^2 (read as coefficient 3 of power 2), is covered by Reading.ParseValue instead.
- The std::regex engine: only the one expression is modelled, as a scanner proved greedy.
- Failed unlock calls, failures of pthread_create and pthread_join, and scheduler fairness: completion is proved possible from every state, not inevitable.
- ProducerConsumer and MutexCounter are steps on values and not methods on shared memory, so that runs can be quantified over; the lock is its holders, and the printing of messages is not modelled.
- PrefixSum.PrefSum and PrefixSum.PrefSumParallel require at most 2^30 elements, beyond which the shift in the loop condition overflows.
- The network, socket, signal, process and IPC programs: their behaviour lies in the kernel or in libraries.
- The other thread demonstrations (wait_pthread, pthread_canceled, easy_pthreads): their order comes from sleeping.
- main functions other than the OpenMP loop: arguments, files, timing and printing.
