# Distributed Mandelbrot render: the integer bookkeeping, verified

This project models the core of an MPI Mandelbrot viewer, in which rank 0 drives a GUI and every rank renders a band of image rows. The modelled part is the bookkeeping that keeps the ranks in step although no sizes are ever exchanged:

- **Row partitioner** (`Partition`). Each rank works out its rows `[yStart, yEnd)` from the render height and the process count: `rowsPerProc = H / size` and `extraRows = H % size`. The start is `i * rowsPerProc + min(i, extraRows)`, and the first `extraRows` ranks get one row more.
- **Pixel buffers** (`Pixels`). Pixel colours are abstract: a render is a fixed, total function `Shade` from `(x, y)` to a packed colour. `Rows` and `FullRender` are the row-major buffers built from that function.
- **computeAndGather** (`Gather`):
  - `FillLocal` is the nested pixel loop, with its running index, writing into a fresh `localPixels` array.
  - `GatherTable` is rank 0's loop that fills `recvCounts` and `displs` with a running `offset`.
  - `Gatherv` is MPI's gather: each rank's buffer is copied into `allPixels` at that rank's displacement.
  - `ComputeAndGather` runs every rank's part, then the gather, and proves the result is the whole image.
- **Broadcast record** (`Protocol`). Rank 0 broadcasts six doubles: width, height, xMin, xMax, yMin, yMax. A negative first field is the shutdown signal. Workers read the record back through Java's `(int)` cast.
- **Escape loop** (`Escape`). `computePoint`'s loop control and its black/hue choice. The floating-point orbit test is left abstract.
- **Process object** (`Viewer.MandelbrotViewer`):
  - the `rendering` gate of `startRendering`;
  - the background render thread and `renderMandelbrot`;
  - `shutdown`;
  - the worker loop `runWorker`, proved against the specification function `RunWorkerSpec`.

Main results:
- The row ranges cover `[0, H)` exactly. They are contiguous, their sizes differ by at most one, and the displacements are prefix sums of the counts.
- Each rank's buffer length equals the count rank 0 expects from it, which is what MPI requires of `Gatherv`.
- The assembled buffer holds pixel `(x, y)` at `y * W + x`. It is the same for every process count, so it equals a one-process render.
- The worker loop does exactly one `computeAndGather` per ordinary broadcast. It stops at the sentinel without rendering, and stops at the first exception without retrying.
- `rendering` is set exactly while one launched render has not finished, and a request made meanwhile changes nothing. A render of a frame with zero width or height never finishes: building its `BufferedImage` throws `IllegalArgumentException`, which nothing catches, so the thread ends before clearing `rendering` and no later request starts a render.

The model follows the code:
- `MAX_ITER` is 100.
- The render state is the single boolean `rendering`.
- Viewport changes are not gated by `rendering`.
- Every accepted request (on rank 0, while `rendering` is clear) starts a new background thread.

## Model

| member | source | states |
|---|---|---|
| `Partition.RowsPerProc` | src/MandelbrotViewer.java:148 | `rowsPerProc = H / size`, the rows every rank gets at least (no contract: a definition) |
| `Partition.ExtraRows` | src/MandelbrotViewer.java:149 | `extraRows = H % size`, always below `size` |
| `Partition.YStart` | src/MandelbrotViewer.java:150 | `yStart = i * rowsPerProc + min(i, extraRows)`, the same expression rank 0 uses as `startRow` at line 169 (no contract: a definition; its properties are the lemmas below) |
| `Partition.YEnd` | src/MandelbrotViewer.java:151 | `yEnd = yStart + rowsPerProc + (i < extraRows ? 1 : 0)`, rank 0's `endRow` at line 170 (no contract: a definition) |
| `Partition.Ends` | src/MandelbrotViewer.java:148-151 | rank 0 starts at row 0, the last rank ends at `H`, and the closed-form start evaluated at `size` is `H` |
| `Partition.Contiguous` | src/MandelbrotViewer.java:148-151 | the end row of rank `i` is the start row of rank `i + 1` |
| `Partition.Ordered` | src/MandelbrotViewer.java:148-151 | every earlier rank's range ends at or before every later rank's range starts (no overlap) |
| `Partition.Balanced` | src/MandelbrotViewer.java:148-151 | every rank gets `rowsPerProc` or `rowsPerProc + 1` rows, and gets the extra row exactly when its index is below `extraRows` |
| `Partition.AtMostOneApart` | src/MandelbrotViewer.java:148-151 | any two ranks' row counts differ by at most one |
| `Partition.EmptyWhenOversubscribed` | src/MandelbrotViewer.java:148-151 | with more processes than rows, ranks from `H` on get the empty range `[H, H)` |
| `Partition.OwnerFrom` | src/MandelbrotViewer.java:148-151 | for every row below `H` there is a rank at or above the starting one whose range contains it |
| `Partition.ExactCover` | src/MandelbrotViewer.java:148-151 | every row in `[0, H)` belongs to exactly one rank |
| `Partition.StartIsPrefixSum` | src/MandelbrotViewer.java:166-175 | the closed-form start row of rank `i` equals the sum of the row counts of ranks `0 .. i-1` |
| `Pixels.RowsLength` | src/MandelbrotViewer.java:153 | the buffer of rows `a .. b-1` has `(b - a) * W` entries, the size of `localPixels` |
| `Pixels.NextRow` | src/MandelbrotViewer.java:155-160 | row `y` follows the rows before it in the block: the running index is one row further after it, stays inside the block, and pixel `x` of row `y` sits `x` past the rows before it |
| `Pixels.RowsAt` | src/MandelbrotViewer.java:155-159 | pixel `(x, y)` lies at index `(y - a) * W + x` of the rows from `a` on |
| `Pixels.RowsSplit` | src/MandelbrotViewer.java:177-179 | adjacent blocks of rows concatenate to the block spanning both |
| `Pixels.FullRenderAt` | src/MandelbrotViewer.java:183-184 | the full image holds the colour of `(x, y)` at `y * W + x`, the layout `setRGB` reads with scan size `W` |
| `Gather.FillLocal` | src/MandelbrotViewer.java:148-161 | a rank allocates `rowCount * W` slots and leaves in them exactly its own rows, row-major |
| `Gather.FillRows` | src/MandelbrotViewer.java:154-161 | the nested loops write every slot of the buffer once, through the running index, so that it ends up holding rows `yStart .. yEnd-1` in row-major order |
| `Gather.LocalAt` | src/MandelbrotViewer.java:153-161 | in a rank's local buffer, pixel `(x, y)` sits at `LocalIndex`, that is `(y - yStart) * W + x`, inside the buffer |
| `Gather.GatherTable` | src/MandelbrotViewer.java:163-175 | `recvCounts[i]` is rank `i`'s pixel count; `displs[0] = 0`; `displs[i+1] = displs[i] + recvCounts[i]`; `displs[i] = yStart(i) * W`; the final `offset` is `W * H` |
| `Gather.ScaledStep` | src/MandelbrotViewer.java:171-173 | in pixels, rank `i`'s block ends where rank `i + 1`'s begins |
| `Gather.ScaledTable` | src/MandelbrotViewer.java:166-175 | in pixels, the first block starts at 0, each block starts where the one before it ends, and the blocks end at `W * H` |
| `Gather.ScaledInside` | src/MandelbrotViewer.java:177-179 | every rank's block lies inside the `W * H` receive buffer |
| `Gather.Splice` | src/MandelbrotViewer.java:178-179 | copying a block at displacement `d` replaces exactly `[d, d + len)` and keeps the buffer's length |
| `Gather.Gatherv` | src/MandelbrotViewer.java:178-179 | the gather keeps the receive buffer's length; it is defined only when every rank sends exactly its count and every block lies inside the buffer |
| `Gather.RankFits` | src/MandelbrotViewer.java:150-171 | rank `i`'s own buffer length is the count `(endRow - startRow) * W` rank 0 computes for it, and its block ends inside the `W * H` buffer |
| `Gather.CountsTable` | src/MandelbrotViewer.java:166-175 | the `recvCounts` rank 0 builds, one entry per rank |
| `Gather.DisplsTable` | src/MandelbrotViewer.java:166-175 | the `displs` rank 0 builds, one entry per rank |
| `Gather.TablesAgree` | src/MandelbrotViewer.java:150-171 | each rank's own buffer length equals the count rank 0 computes for it, and the blocks fit, so the gather's arguments are valid without sizes being sent |
| `Gather.GatheredStep` | src/MandelbrotViewer.java:178-179 | placing rank `n - 1`'s buffer is one more copy at its displacement, which fits in the receive buffer |
| `Gather.SpliceAfterPrefix` | src/MandelbrotViewer.java:178-179 | copying a block right after a prefix of the buffer extends the prefix and keeps the rest |
| `Gather.SpliceRows` | src/MandelbrotViewer.java:178-179 | copying rows `a .. b-1` right after rows `0 .. a-1` yields rows `0 .. b-1` followed by the untouched rest |
| `Gather.GatherPrefix` | src/MandelbrotViewer.java:177-179 | after the first `n` ranks' blocks are placed, `allPixels` holds image rows `0 .. yStart(n)-1` followed by untouched zeros |
| `Gather.GatheredIsFullRender` | src/MandelbrotViewer.java:148-179 | the buffer rank 0 receives is exactly the full row-major image |
| `Gather.SizeIndependent` | src/MandelbrotViewer.java:148-179 | the assembled buffer is the same for any two process counts, and equals a one-process render |
| `Gather.ComputeAndGather` | src/MandelbrotViewer.java:144-179 | all ranks' loops plus the gather yield `allPixels` of length `W * H` that is exactly the one-process image `FullRender`, whatever the process count (so `allPixels[y * W + x]` is the colour of `(x, y)` by `Pixels.FullRenderAt`) |
| `Gather.AssembleFromTables` | src/MandelbrotViewer.java:166-179 | the counts and displacements built by rank 0, with the buffers built by the ranks, are valid gather arguments and assemble the full image |
| `Gather.NoIntOverflow` | src/MandelbrotViewer.java:148-177 | when `W * H` fits in a Java `int`, so do `rank * rowsPerProc`, every start row, count and displacement, and the running offset |
| `Protocol.IsShutdown` | src/MandelbrotViewer.java:235 | a record whose first field is negative is the shutdown signal (no contract: a definition) |
| `Protocol.Encode` | src/MandelbrotViewer.java:131 | the render record is never the shutdown sentinel |
| `Protocol.TruncToInt` | src/MandelbrotViewer.java:240-241 | the `(int)` cast rounds toward zero: the result is within one of the double, on the side of zero |
| `Protocol.Decode` | src/MandelbrotViewer.java:240-245 | a non-sentinel record decodes to a non-negative width |
| `Protocol.DecodeEncode` | src/MandelbrotViewer.java:131-245 | a worker decodes exactly the width, height and viewport rank 0 encoded |
| `Escape.EscapeIterations` | src/MandelbrotViewer.java:191-197 | the count is at most `MAX_ITER`, all iterates before it stay in the disc, and the iterate at it has left the disc unless the cap was reached |
| `Escape.Hue` | src/MandelbrotViewer.java:199 | the hue of an escaped point lies in `[0.7, 1.7)` |
| `Escape.ComputePoint` | src/MandelbrotViewer.java:191-200 | black exactly for points that stay in the disc for `MAX_ITER` iterates; otherwise the colour of the hue of the first escape index |
| `Viewer.RunWorkerSpec` | src/MandelbrotViewer.java:230-252 | the worker takes in at most the broadcasts on offer |
| `Viewer.Step` | src/MandelbrotViewer.java:231-251 | one iteration: anything but a completed render takes in one broadcast and stops with a failure or the sentinel; a completed render adds one job and one broadcast to the run that follows |
| `Viewer.RunFrom` | src/MandelbrotViewer.java:230-252 | the run from broadcast `k` on is one loop iteration on broadcast `k` followed by the run from `k + 1` on |
| `Viewer.Advance` | src/MandelbrotViewer.java:233-250 | broadcast `k` ends the run on a failed `Bcast`, on the sentinel (no job) or on a failed `Gatherv` (after its job), and otherwise adds its decoded job and carries on |
| `Viewer.WorkerJobs` | src/MandelbrotViewer.java:230-250 | one `computeAndGather` per non-sentinel broadcast taken in, in order, on the frame decoded from that broadcast |
| `Viewer.WorkerTakesRenders` | src/MandelbrotViewer.java:230-252 | every broadcast before the last one taken in was an ordinary render whose gather completed |
| `Viewer.WorkerExitReason` | src/MandelbrotViewer.java:230-252 | the loop stops with no render on the sentinel, with no retry on the first failed `Bcast` or `Gatherv`, and otherwise only because the broadcasts ran out |
| `Viewer.SentinelStopsWorker` | src/MandelbrotViewer.java:230-247 | after `k` ordinary renders and the sentinel, the worker has rendered exactly those `k` frames, has taken in `k + 1` broadcasts and has stopped |
| `Viewer.ShutdownBroadcast` | src/MandelbrotViewer.java:212-218 | only rank 0 broadcasts on shutdown, and what it sends is the sentinel |
| `Viewer.ShutdownStopsEveryWorker` | src/MandelbrotViewer.java:215-237 | a worker receiving rank 0's shutdown record stops at once, renders nothing and takes in nothing after it |
| `Viewer.MandelbrotViewer.constructor` | src/MandelbrotViewer.java:34-50 | a process starts with an 800 by 600 blank image and the default viewport; on rank 0 the first render is launched |
| `Viewer.MandelbrotViewer.StartRendering` | src/MandelbrotViewer.java:112-116 | on a worker or while rendering nothing changes; otherwise `rendering` is set and exactly one render is launched; at most one is ever in flight; after a crashed render nothing ever starts again |
| `Viewer.MandelbrotViewer.RenderThread` | src/MandelbrotViewer.java:119-121 | the launched render runs once; `rendering` is cleared afterwards even if an MPI call threw, and the image is then the full render of the current frame or, after an MPI exception, unchanged; if the frame has zero width or height the thread dies first, leaving `rendering` set and the image unchanged |
| `Viewer.MandelbrotViewer.RenderMandelbrot` | src/MandelbrotViewer.java:130-141 | broadcasts the encoded frame; the image becomes the full render only if neither collective call threw and the frame is non-empty; an empty frame whose collectives completed aborts with an exception the handler does not catch |
| `Viewer.MandelbrotViewer.Shutdown` | src/MandelbrotViewer.java:212-224 | sends what `ShutdownBroadcast` gives: the sentinel on rank 0, nothing on other ranks |
| `Viewer.MandelbrotViewer.RunWorker` | src/MandelbrotViewer.java:227-253 | rank 0 returns at once; a worker's run is `RunWorkerSpec` of its broadcasts, and its viewport fields hold the last frame it received |

## Left out

- The Swing surface is not modelled: `initGUI`, the key, resize and window listeners, `paint`, `repaint`, `dispose` and `promptAndSaveImage`. They are event and UI plumbing.
- Floating-point viewport maths is not modelled: `zoom`, `updatePanSpeed`, panning, and the mapping from pixel to complex point (lines 157-158). The colour of a pixel is the opaque total function `Colouring` of the frame and the pixel; it stands for `computePoint` of the mapped point.
- `Complex` and the orbit arithmetic are not modelled. `Escape` takes "the `k`-th iterate is still in the disc" as an abstract predicate.
- `Color.HSBtoRGB` is an abstract parameter. The hue `0.7f + (float) n / MAX_ITER` is computed in exact reals, not in `float`.
- The MPI runtime is not modelled: `MPI.Init`, `Finalize`, `Rank`, `Size` and the transports.
  - `Bcast` is modelled as every rank receiving the same record.
  - `Gatherv` is modelled as copying each rank's buffer at its displacement.
  - Whether a collective call throws is a parameter (`RenderComm`, `Event`), and every rank in the group sees the same outcome.
- Concurrency is not modelled. The background thread is the method `RenderThread`, run after `StartRendering`. `volatile`, the race between key handlers and an in-flight render, and the polling loop of headless mode are left out.
- Gather.ComputeAndGather: the ranks run in parallel in the program; the model runs their parts one after another. They share nothing but the gather, so the result is the same.
- Gather.FillLocal: the row range is computed by calling `YStart`/`YEnd` rather than by repeating the expression. The expression is the one at lines 150-151, and also the one rank 0 repeats at lines 169-170. The two nested loops are the separate method `Gather.FillRows`, which fills the buffer `FillLocal` has just allocated.
- Gather.GatherTable: the same applies; it calls `YStart`/`YEnd` instead of the inline expression at lines 169-170.
- Viewer.MandelbrotViewer.RunWorker: `while (true)` runs over a finite list of broadcasts. When the list runs out, the worker is reported as waiting for the next broadcast.
  - The `computeAndGather` calls are recorded as jobs; the render itself is `Gather.ComputeAndGather`.
  - A malformed record with a negative height is decoded but not rendered. Java's truncating division by a negative dividend is therefore never modelled.
- Protocol.TruncToInt: saturation at the `int` range and NaN are not modelled.
- Integers are unbounded. `Gather.NoIntOverflow` shows that nothing exceeds a Java `int` as long as `W * H` does not. Images with `W * H` above `2^31 - 1`, where Java's `new int[W * H]` would overflow, are not modelled.
- Timing and logging are left out: `System.currentTimeMillis`, the console output, and `runPerformanceTests` with its CSV file.
- The command-line flags `--nongui` and `--test`, and the dispatch in `main`, are left out.
