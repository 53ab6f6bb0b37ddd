# Error diffusion and reader/writer ranges, modelled in Dafny

This project models two parts of a small C systems-programming repository.

**Floyd–Steinberg dithering.** This covers `error_diffusion.c` and `thread.c`.
- A grayscale image is copied into an integer accumulator (`work`).
- Each pixel is thresholded at 128 to 0 or 255.
- Its error is pushed to four neighbours: 7/16 right, 3/16 down-left, 5/16 down and 1/16 down-right.
- Each share is rounded toward negative infinity by `floor_divide`.

`thread.c` has two engines:
- a sequential row-major engine;
- a multi-threaded "wavefront" engine. Worker `t` of `n` owns every anti-diagonal `d` with `d % n == t` and walks each diagonal by ascending row. Before reading a pixel it waits for its up-right and left neighbours to be marked processed.

`main` picks the wavefront engine only for two or more threads and images of at least 10000 pixels.

**Reader/writer ranges.** This covers `readers_writers.c` and `testrw.c`, which have the same routines:
- `main` draws 10 distinct writer positions among 1000 thread ids;
- `initialize_ranges` bubble-sorts them and lays out a table of ranges: one per non-empty reader gap, one per writer, and a final reader range when thread ids remain after the last writer;
- `determine_range_group` maps a thread id to its slot in that table.

The model is organised as follows:
- `FloorDivision`: C's truncating `/` (`CDiv`) and `floor_divide`, built on it.
- `Grids`: images as `seq<seq<int>>`, cells, and the row-major and wavefront orders on cells.
- `Kernel`: one kernel step on the `work`/`output` state. An engine is a fold (`Run`) of `Step` over an order of cells.
- `Reference`: an order-independent definition of what each cell holds when it is read. `Acc` pulls the floored shares from its four contributors. The central lemma, `RunMatches`, covers any duplicate-free order that puts every cell after its contributors: running the kernel over it reproduces the reference.
- `Sequential`: the row-major engine, as a function and as the nested loops of `dither_image`.
- `Wavefront`: the diagonal schedule, the wait rule, and executions. An execution is any interleaving of the workers' cell sequences that keeps each worker's program order and respects every wait. Each pixel's processing is one atomic step. In `thread.c` it is not: the accumulator is read without a lock (thread.c:222) and the pushes follow, each under its target pixel's lock. Atomic steps are faithful for images at least two wide and under the corrected rule, because every contributor of a pixel has finished its pushes and set its processed flag before that pixel is read. They are not faithful for one-column images under the rule as written (see `Wavefront.IsExecution` under "## Left out"). The proofs cover every execution of atomic steps.
- `Dispatch`: the engine choice in `main`, under the wait rule as written and under the corrected one.
- `Writers`: the writer-position loop. The values `rand()` returns are a parameter.
- `Sorting`: the bubble sort.
- `Ranges`: the two passes of `initialize_ranges` and the table they build.
- `RangeGroups`: `determine_range_group` and a corrected version.

In `thread.c` the up-right neighbour `(x+1, y-1)` of a pixel on diagonal `d` lies on the same diagonal `d`, one row higher, while the left neighbour lies on diagonal `d-1`. The same worker processes the up-right neighbour earlier in its own walk (`Wavefront.WaitTargetsPrecede`).

## Model

| member | source | states |
|---|---|---|
| FloorDivision.CDiv | thread.c:173-176 | C's `/` truncates toward zero: for a positive divisor the quotient is the floor of a non-negative numerator's exact quotient and the ceiling of a negative one's |
| FloorDivision.FloorDivide | thread.c:171-178 | `floor_divide(n, d)` for `d > 0` returns the `q` with `q*d <= n < q*d + d`, i.e. the floor of `n/d` |
| FloorDivision.FloorDivideIsFloor | error_diffusion.c:141-149 | the negative-numerator branch `(n - d + 1) / d` agrees with mathematical floor division for every `n` and every positive `d` |
| FloorDivision.FloorUnique | thread.c:175-176 | at most one integer satisfies the floor bounds, so the two branches cannot disagree on what they compute |
| FloorDivision.FloorDivideExamples | thread.c:171-178 | -49 over 16 floors to -4 where C's `/` gives -3; the shares of 700, 300, 500 and 100 over 16 are 43, 18, 31 and 6; -1092 gives -69 |
| Kernel.Init | thread.c:351-357 | the accumulator starts as an exact copy of the input |
| Kernel.Quantize | thread.c:223 | a pixel's output is 255 exactly when its accumulator exceeds 128, and 0 otherwise |
| Kernel.ErrorOf | thread.c:225 | the error a pixel pushes is its accumulator minus its thresholded output |
| Kernel.ErrorOfRange | thread.c:222-225 | the error is the accumulator less 255 for a white pixel and the accumulator itself for a black one; for accumulators in 0..255 it lies in -126..128 |
| Kernel.Share | thread.c:232 | a neighbour's share is `floor_divide(err * weight, 16)` |
| Kernel.ShareIsFloor | thread.c:365-372 | every share is `err * weight / 16` rounded toward negative infinity, for negative errors too |
| Kernel.Spread | thread.c:229-254 | the four guarded pushes add to every accumulator cell exactly its weighted floored share of the error: 7, 3, 5 or 1 sixteenths to the neighbours in bounds, nothing anywhere else |
| Kernel.Step | thread.c:361-374 | one pixel: its output becomes the thresholded accumulator, no other output changes, and every accumulator cell receives exactly its weighted share of the error `old - new` |
| Kernel.Run | thread.c:358-375 | an engine run applies the kernel step to each pixel of a processing order in turn, keeping the state well-formed |
| Kernel.RunAppend | thread.c:359-360 | running two orders one after the other is running their concatenation, so the nested loops compose row by row |
| Kernel.RunKeepsUnvisitedOutput | thread.c:224 | a run writes a pixel's output only when it processes that pixel |
| Kernel.TargetsFollowInRowMajor | error_diffusion.c:170-177 | every neighbour that receives error comes strictly after the pixel in row-major order |
| Kernel.StepKeepsVisitedCells | error_diffusion.c:162-178 | a step never alters the accumulator of the pixel itself or of any pixel before it in row-major order |
| Kernel.SingleRowPushesRightOnly | error_diffusion.c:172-178 | on a one-row image only the right neighbour receives error |
| Kernel.SinglePixelNoPropagation | thread.c:366-374 | on a 1x1 image the step leaves the accumulator unchanged |
| Kernel.KernelExamples | thread.c:229-254 | value 100 gives output 0 and shares 43/18/31/6; an error of -156 sends -69 (not -68) to the right; 200 gives 255 with error -55 |
| Reference.RunMatches | thread.c:222-255 | after running the kernel over distinct cells, each following its contributors, every processed cell's output is the threshold of its reference value, every other output is untouched, and every accumulator holds its input plus the shares of its processed contributors |
| Reference.PartialExtend | thread.c:229-254 | processing one more pixel adds exactly its weighted error share to the partial sum of every pixel |
| Reference.CompleteRunIsReference | thread.c:359-376 | a complete such order leaves the reference output on every pixel |
| Reference.ReferenceUnique | thread.c:350-382 | the reference state of an image is unique |
| Reference.ReferenceOutputIsBinary | error_diffusion.c:164-166 | every output pixel of the reference is 0 or 255 |
| Reference.OrdersAgree | thread.c:189-198 | any two valid processing orders give the same final state |
| Reference.SortedOrderPutsContributorsFirst | error_diffusion.c:162-163 | any order sorted by a relation under which every contributor precedes its target is a valid processing order |
| Sequential.RowMajor | thread.c:359-360 | the row-major loops visit exactly the in-bounds pixels, each once, in ascending row-major order |
| Sequential.RowMajorIsValidOrder | thread.c:359-376 | the row-major visit covers the image and puts every contributor first |
| Sequential.DitherSt | thread.c:350-382 | `dither_image_st` yields the reference state |
| Sequential.DitherRow | error_diffusion.c:163-178 | the inner loop processes the pixels of row `y` left to right from the state it is given, ending in the kernel fold over that row |
| Sequential.DitherImage | error_diffusion.c:151-186 | `dither_image` writes the sequential result: each pixel is the threshold of its reference value, so 0 or 255 |
| Wavefront.Owner | thread.c:191 | the worker owning a diagonal is a valid worker id |
| Wavefront.DiagonalInRange | thread.c:189 | every pixel lies on a diagonal below `width + height - 1` |
| Wavefront.DiagonalPrefix | thread.c:196-198 | a diagonal's walk visits exactly its in-bounds pixels, by ascending row |
| Wavefront.Schedule | thread.c:189-198 | a worker's walk over the first `D` diagonals visits exactly its own in-bounds pixels there, in wavefront order |
| Wavefront.WorkerCells | thread.c:183-198 | a worker visits exactly the in-bounds pixels whose diagonal it owns, sorted by diagonal then row |
| Wavefront.EachCellHasOneWorker | thread.c:191-193 | each pixel belongs to exactly one worker |
| Wavefront.TargetsFollowInWavefront | thread.c:229-254 | every pixel receiving error comes after the sender in wavefront order |
| Wavefront.WavefrontOrderIsValid | thread.c:189-198 | the single-worker walk covers the image and puts every contributor first |
| Wavefront.LinearisationMatchesSequential | thread.c:189-198 | processing the diagonals one after another, each by ascending row, gives exactly the row-major engine's state on every image |
| Wavefront.WaitsFor | thread.c:203-218 | a pixel waits for its up-right neighbour when it is not in the top row and not in the last column, and for its left neighbour when it is not in the first column; the corrected rule adds the pixel above when there is no up-right neighbour |
| Wavefront.IsExecution | thread.c:271-346 | the interleavings of `dither_image_mt` at the granularity of whole pixels: orders that cover the image once, keep each worker's walk in order and put every awaited pixel before its waiter |
| Wavefront.RulesAgreeOnWideImages | thread.c:203-218 | on images at least two wide the corrected rule admits exactly the executions of the rule as written |
| Wavefront.WaitTargetsPrecede | thread.c:203-218 | an awaited pixel is in bounds and earlier in wavefront order: the left one on diagonal `d-1`, the up-right one on diagonal `d` one row up |
| Wavefront.LinearisationIsExecution | thread.c:200-218 | the wavefront walk is an execution for any number of workers and either wait rule |
| Wavefront.WaitsOrderContributors | thread.c:203-218 | in every execution of images at least two wide, or with the corrected rule, each pixel's four contributors are processed before it |
| Wavefront.ExecutionsMatchSequential | thread.c:272-325 | under the same condition every execution of `dither_image_mt` yields exactly `dither_image_st`'s state |
| Wavefront.ConsecutiveOwnersDiffer | thread.c:191 | with two or more workers, consecutive diagonals have different owners |
| Wavefront.WidthOneLeavesAboveUnguarded | thread.c:203-218 | on a one-column image a pixel awaits nothing, while its upper neighbour belongs to another worker |
| Wavefront.RaceOrderCovers | thread.c:196-198 | the racy order visits each pixel of a column exactly once |
| Wavefront.RaceOrderNeverWaits | thread.c:203-218 | the racy order trivially respects the wait rule as written, since no pixel of a column waits |
| Wavefront.RaceOrderIsExecution | thread.c:183-269 | processing pixel `(0,1)` before `(0,0)` is a legal execution for any image height of at least 2 and any worker count of at least 2 |
| Wavefront.WidthOneRace | thread.c:244-247 | on that execution an all-100 column yields 0 at row 1 where the sequential engine yields 255 |
| Wavefront.CorrectedRuleForbidsRace | thread.c:203-209 | once a pixel with no up-right neighbour also awaits the pixel above it, that order is no longer an execution |
| Dispatch.UsesWavefront | thread.c:423 | `main` runs the wavefront engine exactly when more than one thread is requested and the image has at least 10000 pixels |
| Dispatch.DitherMain | thread.c:422-429 | `main` as written: the wavefront path outputs whatever execution of the as-written waits the scheduler produces; the sequential path, and the wavefront path on images at least two wide, give the sequential output, each pixel the threshold of its reference value |
| Dispatch.DitherMainCorrected | thread.c:422-429 | with the corrected wait rule, whichever engine `main` picks, the output is the sequential one |
| Dispatch.TallColumnMisdithered | thread.c:422-429 | on an all-100 column of at least 10000 rows with two or more threads, `main` can output 0 at row 1 where the sequential engine outputs 255 |
| Dispatch.TallColumnReachesWavefront | thread.c:423 | every one-column image of at least 10000 rows with two or more threads takes the wavefront path, where the racy execution exists and differs from the sequential result |
| Writers.Pick | testrw.c:66-84 | when enough draws exist the result holds the wanted number of positions, distinct, all thread ids, extending those already chosen |
| Writers.PickSucceedsIff | testrw.c:66-84 | the search finds its positions exactly when the draws, taken modulo 1000, hold enough distinct positions not yet chosen |
| Writers.PickWriterPositions | readers_writers.c:85-105 | the do/while-and-break loop computes `Pick` for ten writers: ten distinct thread ids |
| Sorting.Swap | readers_writers.c:205-210 | swapping neighbours exchanges them, keeps every other entry and keeps the multiset |
| Sorting.BubblePass | readers_writers.c:204-211 | one inner pass moves the largest of the prefix to its end, is a permutation and leaves the suffix alone |
| Sorting.BubbleSort | readers_writers.c:203-212 | the sort yields an ascending permutation of its input |
| Sorting.SortedDistinct | testrw.c:150-159 | sorted distinct positions are strictly ascending and still distinct |
| Sorting.SortedInRange | testrw.c:151-158 | sorting keeps every position a thread id |
| Ranges.LayoutLength | testrw.c:161-169 | the first pass's count equals the length of the table the second pass builds |
| Ranges.LayoutIds | readers_writers.c:247-273 | each range's `range_id` is its own slot in the table |
| Ranges.LayoutTiles | testrw.c:180-213 | the ranges are non-empty, consecutive and cover thread ids 0 to 999 exactly |
| Ranges.LayoutKinds | testrw.c:185-201 | a writer range is the single thread of its writer; a reader range holds no writer |
| Ranges.LayoutWriters | readers_writers.c:256-262 | the writer ranges list exactly the sorted writers, in order |
| Ranges.LayoutReadersApart | readers_writers.c:243-262 | a writer range separates every two reader ranges, so each reader gap is a single range |
| Ranges.LayoutIsRangeTable | readers_writers.c:239-274 | the table is a well-formed range table with `total_ranges` entries: tiling 0..999, ids equal to slots, kinds right, writers in order, no two reader ranges adjacent |
| Ranges.TilesDisjoint | readers_writers.c:243-265 | no thread id lies in two ranges |
| Ranges.CountPass | readers_writers.c:215-227 | the counting loop's `total_ranges` is exactly the number of entries the filling loop writes |
| Ranges.FillPass | readers_writers.c:239-274 | the filling loop, with its in-place slot counter, builds exactly the recursive layout of the sorted writers (the table whose properties `Ranges.LayoutIsRangeTable` states) |
| Ranges.InitializeRanges | readers_writers.c:196-274 | from distinct thread ids: the writers sorted strictly ascending as a permutation, `total_ranges` equal to the table length, and a well-formed table |
| RangeGroups.Scan | readers_writers.c:304-327 | the walk over the writers: an id before the current writer gets the gap's group, the writer itself the next one, and the counter advances by two per writer |
| RangeGroups.DetermineRangeGroup | readers_writers.c:299-328 | `determine_range_group` starts the walk at group 0 and thread 0 |
| RangeGroups.ScanFailsOnlyOutside | testrw.c:235-255 | the walk returns -1 exactly for ids outside 0..999 |
| RangeGroups.DetermineRangeGroupFails | readers_writers.c:322-327 | `determine_range_group` returns -1 exactly for ids that are not thread ids |
| RangeGroups.RangeGroupCorrect | readers_writers.c:295-298 | the corrected walk returns, for each thread id, the unique slot whose range contains it and whose `range_id` is that slot, and -1 otherwise |
| RangeGroups.ScansAgree | readers_writers.c:304-320 | with no empty reader gap the walk as written equals the corrected one |
| RangeGroups.EmptyGapMisgroups | readers_writers.c:308-317 | with an empty reader gap, some writer is placed in a later slot than its own |
| RangeGroups.RangeGroupsAgreeIff | readers_writers.c:299-328 | the walk as written agrees with the table for every id if and only if no writer is at 0 and no two writers are adjacent |
| RangeGroups.WriterAtZeroMisgrouped | testrw.c:238-245 | a writer at thread 0 owns slot 0 yet is sent to slot 1 |
| RangeGroups.CountBound | readers_writers.c:219-227 | the table has at most `2*writers + 1` entries, and at most `2*writers` once a reader gap is empty |
| RangeGroups.ScanPastWriters | readers_writers.c:322-325 | an id past every writer is sent to slot `2*writers` |
| RangeGroups.LastThreadOutOfTable | readers_writers.c:299-328 | with an empty reader gap and readers after the last writer, thread 999 is sent to a slot past the end of the table |
| RangeGroups.EvenWritersMisgroupFirst | testrw.c:231-256 | with writers at 0, 2, ..., 18, thread 0 is sent to slot 1 although the table puts it in slot 0 |
| RangeGroups.EvenWritersMisgroupLast | testrw.c:231-256 | with writers at 0, 2, ..., 18, thread 999 is sent to slot 20, but the table has at most 20 entries (slots 0-19) |

## Left out

- Loading and saving PNG files, command-line parsing and `printf` output: I/O outside the algorithms.
- `rgb_to_grayscale`: floating-point colour conversion. The model starts from the grayscale grid.
- pthread mutexes, condition variables, `pthread_create` and `pthread_join`: these are modelled by their effect. An execution is an interleaving of atomic per-pixel steps that respects the waits. The memory model below that level is not modelled.
- Wavefront.IsExecution: under-approximates the outcomes of one-column images under the rule as written. There the unlocked read at thread.c:222 can come before the pushes of the pixel above, which a whole-pixel step cannot express. For example, an all-100 one-column image of 3 rows with 2 threads can end with rows 1 and 2 both 0 in C, an outcome no execution has. For images at least two wide and under the corrected rule, every contributor has pushed before the read, and nothing is lost.
- `malloc` and `free`, including the allocation-failure exit: the model has no allocation.
- The prior contents of the output buffer: modelled as zeros. Every pixel is written anyway.
- 32-bit `int` arithmetic: the model's integers are unbounded, and it proves no bound on the accumulators, so an overflow of `work` is not modelled. `Kernel.ErrorOfRange` bounds the error only for accumulators within 0..255. The product `height * width` in `main`, which could overflow for huge images, is taken exactly.
- `thread_function`, the spin-lock and `nanosleep` timing, the range-turn protocol and `print_range_summary` in `readers_writers.c` and `testrw.c`: concurrency, timing and reporting around the range table. Only the table and `determine_range_group` are modelled.
- The `is_writer` flag loop in `main` (readers_writers.c:120-125): a membership test that needs no model.
- `srand` and `rand`: the drawn values are the parameter `draws`.
- Dispatch.DitherMain: on the wavefront path of a one-column image it promises only the output of the execution the scheduler produced, not the sequential output, because the waits as written allow the race under "## Findings". On that path its promise that the output is the run of an execution rests on atomic per-pixel steps, which under-approximate the C outcomes there (see `Wavefront.IsExecution`).
- Writers.PickWriterPositions: returns `None` when the draws run out before ten distinct positions are found, where the C loop would keep calling `rand()`.
- The writer count: `Ranges`, `Sorting` and `RangeGroups` take a writer sequence of any length, of which the source's fixed `WRITER_THREADS` of 10 is an instance.
- server.c, client.c, fork.c, analysis.c and plot.py: not part of this model.

## Findings

| source | as written | input that shows it | evidently intended | confidence | as-written member | corrected member |
|---|---|---|---|---|---|---|
| thread.c:203-218 | A pixel waits only for its up-right and left neighbours. In a one-column image it therefore waits for nothing, yet it receives 5/16 of the error of the pixel above, which another worker processes. | A 1x10000 image, all pixels 100, 2 threads: worker 1 may process `(0,1)` before worker 0 finishes `(0,0)`. Row 1 is then 0 instead of 255. | When there is no up-right neighbour, also wait for the pixel above. All executions then equal the sequential engine. | not executed | Dispatch.TallColumnMisdithered | Dispatch.DitherMainCorrected |
| readers_writers.c:308-317 | The group counter advances by two per writer, one of them for the reader gap before it. `initialize_ranges` leaves an empty gap out of the table. | Writers at 0, 2, ..., 18: thread 0 is given group 1 (slot 0 is its own range), and thread 999 group 20 in a table of 20 entries (slots 0-19). | Count the gap's slot only when the gap is non-empty. | not executed | RangeGroups.RangeGroupsAgreeIff | RangeGroups.RangeGroupCorrect |
| testrw.c:238-247 | The same two-per-writer counting as in readers_writers.c. | Any writer at position 0: that writer's thread is given group 1, while the table puts it in slot 0. | Count the gap's slot only when the gap is non-empty. | not executed | RangeGroups.WriterAtZeroMisgrouped | RangeGroups.RangeGroupCorrect |
