# SimplePathTracing: progressive chunk scheduler and seed buffer

SimplePathTracing is an interactive GPU path tracer. Its host program
(`SimplePathTracing.cpp`) sets up OpenGL and then runs a render loop.
Each loop turn traces one rectangular chunk of the output texture and
blends one more sample into it. As a result, one full pass over the image
takes `N_CHUNKS = CHUNKS_X * CHUNKS_Y` frames. Before the loop starts, the
program fills a per-pixel buffer of random seeds, which the compute kernel
then owns.

This project models those two pieces of integer logic, lifted out of the
graphics context, and proves what they promise:

- `settings.dfy` (module `Settings`): the compile-time constants WIDTH=1920,
  HEIGHT=1080, CHUNKS_X=CHUNKS_Y=2. The texture is the window size.
- `scheduler.dfy` (module `Scheduler`): the frame loop. The chunk cell, the
  `iteration` uniform (pass index), the `chunk` uniform (pixel origin), the
  dispatch extent and the status-line test are functions of the frame counter
  and a `Config` (texture size and grid). `RenderLoop` is the `while` loop
  itself, with the window's "should close" flag given as the value it reads
  at each loop head. The lemmas cover:
  - every pass visits every grid cell exactly once, in row-major order;
  - the pass index is monotone and steps once per pass;
  - every dispatch stays inside the texture and is exactly its chunk;
  - the chunks tile the texture exactly when the grid divides it;
  - status lines come right after the last chunk of a pass and count the passes;
  - the pass index equals the number of samples the frame's pixels already
    hold, and after p passes every pixel has exactly p samples.
- `seeds.dfy` (module `SeedBuffer`): the `init_rng` fill. It is a fresh
  array of `w*h` unsigned seeds filled by the two nested loops: column `i` outside
  (`InitSeeds`), row `j` inside (`FillColumn`). Each step writes the next value of
  the random engine into slot `j*w + i`. The engine is an input: `draws` is its
  output stream in call order. The proofs show three things. The slot map is in
  range and one-to-one. Pixel `(i, j)` receives draw number `i*h + j`. The
  recorded write order hits every slot exactly once.
- `arith.dfy` (module `Arith`): facts about division and remainder by a
  symbolic positive divisor, used by both.

Notes on what the code does:

- The pass index sent to the kernel is `iteration++ / N_CHUNKS` (line 221).
  In C++ that is the counter value from before the increment, the same value
  the chunk was chosen from. Reading it as the post-increment value would be
  off by one on the last chunk of every pass.
  `PassIndexCountsPriorSamples` shows the pre-increment value is the sample
  count the incremental mean needs.
- The chunk origin is `chunk_x * (TEX_W / CHUNKS_X)` (lines 208, 222), not
  `chunk_x * TEX_W / CHUNKS_X`. The two differ only when the grid does not
  divide the texture.
- The code never checks that the grid divides the texture. In the model,
  `Divisible` is a precondition of the tiling lemmas only. `IndivisibleLeavesGap`
  shows pixels are lost without it.
- The random engine is default-constructed (line 83), so it starts from its
  default seed on every run. The model takes the drawn values as a parameter.
- After 4000 frames the counter reads 4000. Frame 3999 sent pass index 999 and
  printed the status line for pass 1000. Every pixel then holds 1000 samples
  (`SourceScenario`).

## Model

| member | source | states |
|---|---|---|
| `Scheduler.NChunks` | SimplePathTracing.cpp:210 | N_CHUNKS is at least CHUNKS_X and at least CHUNKS_Y, so it is positive and a valid divisor |
| `Scheduler.ChunkW` | SimplePathTracing.cpp:208 | CHUNK_W is TEX_W split into CHUNKS_X parts rounded down: CHUNKS_X chunks fit in the width with less than CHUNKS_X pixels left over, and they fill it exactly if and only if CHUNKS_X divides TEX_W |
| `Scheduler.ChunkH` | SimplePathTracing.cpp:209 | CHUNK_H is TEX_H split into CHUNKS_Y parts rounded down: CHUNKS_Y chunks fit in the height with less than CHUNKS_Y pixels left over, and they fill it exactly if and only if CHUNKS_Y divides TEX_H |
| `Scheduler.ChunkX` | SimplePathTracing.cpp:217 | the chunk column `iteration % CHUNKS_X` lies in `[0, CHUNKS_X)` |
| `Scheduler.ChunkY` | SimplePathTracing.cpp:218 | the chunk row `(iteration / CHUNKS_X) % CHUNKS_Y` lies in `[0, CHUNKS_Y)` |
| `Scheduler.PassIndex` | SimplePathTracing.cpp:221 | the `iteration` uniform is the number of whole passes the frames before this one make up: N_CHUNKS times it is at most the pre-increment counter, and one more pass would exceed it |
| `Scheduler.TurnAt` | SimplePathTracing.cpp:216-241 | one loop turn at counter f: it dispatches exactly one chunk's extent, and when it prints the status line the pass count printed is one more than the pass index it sent |
| `Scheduler.OpenTurns` | SimplePathTracing.cpp:214 | the number of loop turns: every earlier loop head saw "do not close", and the head it stops at saw "close" (or the flags ran out) |
| `Scheduler.Schedule` | SimplePathTracing.cpp:205-243 | the trace of the first n turns from a zero counter has n entries, and entry k is the turn taken with the counter at k |
| `Scheduler.RenderLoop` | SimplePathTracing.cpp:205-243 | the loop runs exactly one turn per open loop head, the counter rises by one per turn starting at 0, and each turn sends the chunk, pass index, origin, extent and status line of its counter value |
| `Scheduler.CellIsResidue` | SimplePathTracing.cpp:215-221 | a frame's cell in row-major order (`chunk_y*CHUNKS_X + chunk_x`) is its position in its pass (`f % N_CHUNKS`), and pass index and cell together give back the frame |
| `Scheduler.CellIndexInjective` | SimplePathTracing.cpp:215-218 | distinct grid cells have distinct row-major positions |
| `Scheduler.CellIndexInRange` | SimplePathTracing.cpp:210-218 | every grid cell's row-major position is below N_CHUNKS |
| `Scheduler.SameChunkIffSameResidue` | SimplePathTracing.cpp:217-218 | two frames pick the same chunk if and only if they are congruent modulo N_CHUNKS, so any N_CHUNKS consecutive frames pick pairwise different chunks |
| `Scheduler.PassOrder` | SimplePathTracing.cpp:215-218 | frame k of pass p picks column `k % CHUNKS_X` and row `k / CHUNKS_X`: row-major order, left to right and then row by row |
| `Scheduler.PassVisitsCellOnce` | SimplePathTracing.cpp:215-221 | for every cell and every pass, the cell's slot frame lies in that pass, and a frame of the pass picks the cell if and only if it is that slot frame: every cell exactly once per pass |
| `Scheduler.PassIndexMonotone` | SimplePathTracing.cpp:221 | the pass index sent to the kernel never decreases as the counter grows |
| `Scheduler.PassIndexStep` | SimplePathTracing.cpp:221-238 | from one frame to the next the pass index grows by one exactly when the post-increment counter is a multiple of N_CHUNKS, which happens exactly when the frame drew the last grid cell |
| `Scheduler.PassIndexAdvance` | SimplePathTracing.cpp:221 | N_CHUNKS frames later the pass index is one higher and the same chunk is picked |
| `Scheduler.DispatchInBounds` | SimplePathTracing.cpp:208-223 | the dispatch extent `TEX_W/CHUNKS_X x TEX_H/CHUNKS_Y` equals the chunk extent `CHUNK_W x CHUNK_H`, and origin plus extent never exceeds the texture |
| `Scheduler.DispatchIsChunk` | SimplePathTracing.cpp:222-223 | the pixels a frame dispatches (origin plus local coordinates) are exactly the pixels of the chunk it picked |
| `Scheduler.PixelHasChunk` | SimplePathTracing.cpp:208-209 | with an evenly divided texture, chunks are non-empty and every pixel's owner `(px / CHUNK_W, py / CHUNK_H)` is a cell of the grid |
| `Scheduler.TilingExact` | SimplePathTracing.cpp:208-222 | with an evenly divided texture, a pixel lies in a cell's rectangle if and only if that cell is its owner: the chunks tile the texture with no gap and no overlap |
| `Scheduler.IndivisibleLeavesGap` | SimplePathTracing.cpp:208-209 | when the grid does not divide the texture (width 5, two columns), a pixel lies in no chunk |
| `Scheduler.ReportAfterLastChunk` | SimplePathTracing.cpp:238-241 | the status line is printed after a turn if and only if that turn drew the last cell of the grid, and it prints the pass count including the pass just finished |
| `Scheduler.ReportsCountPasses` | SimplePathTracing.cpp:238-241 | after n frames the status lines printed read 1, 2, ..., n / N_CHUNKS: one per completed pass, each with its own number |
| `Scheduler.PicksCellIffSlot` | SimplePathTracing.cpp:217-218 | a frame picks a given cell if and only if its position in its pass is that cell's row-major position |
| `Scheduler.SamplesPerCell` | SimplePathTracing.cpp:214-223 | after n frames a cell has been drawn `n / N_CHUNKS` times, plus once if the unfinished pass has already passed it |
| `Scheduler.PassIndexCountsPriorSamples` | SimplePathTracing.cpp:221 | the `iteration` uniform sent with a frame equals the number of times the frame's chunk was drawn before, the count the kernel's incremental mean needs |
| `Scheduler.PixelSamplesAreCellSamples` | SimplePathTracing.cpp:222-223 | with an evenly divided texture, a pixel is dispatched exactly as often as its owning chunk is drawn |
| `Scheduler.EveryPixelOncePerPass` | SimplePathTracing.cpp:214-223 | with an evenly divided texture, after p full passes every pixel has been dispatched exactly p times |
| `Scheduler.SourceScenario` | SimplePathTracing.cpp:12-16 | for 1920x1080 over 2x2: four 960x540 chunks visited as (0,0), (1,0), (0,1), (1,1); frame 3999 sends pass index 999 and prints pass 1000; after 4000 frames every pixel holds 1000 samples |
| `SeedBuffer.Slot` | SimplePathTracing.cpp:88 | the vector index `j*WIDTH + i` of pixel (i, j) lies in the part of the buffer that holds row j |
| `SeedBuffer.Call` | SimplePathTracing.cpp:86-88 | the number of draws made before pixel (i, j) is `i*HEIGHT + j`, which lies in the block of HEIGHT draws made for column i |
| `SeedBuffer.IndexInRange` | SimplePathTracing.cpp:85-88 | a row-major (or column-major) index of an in-range pair lies below the table size |
| `SeedBuffer.IndexInjective` | SimplePathTracing.cpp:88 | distinct in-range pairs have distinct indices |
| `SeedBuffer.IndexOnto` | SimplePathTracing.cpp:85-88 | every index below the table size is the index of an in-range pair |
| `SeedBuffer.SlotInRange` | SimplePathTracing.cpp:85-88 | slot `j*WIDTH + i` and draw number `i*HEIGHT + j` lie below `WIDTH*HEIGHT` for every pixel |
| `SeedBuffer.SlotUnshared` | SimplePathTracing.cpp:88 | no other pixel shares a pixel's slot |
| `SeedBuffer.WrittenSlot` | SimplePathTracing.cpp:86-88 | write number n of the nested loops goes to the slot of column `n / HEIGHT`, row `n % HEIGHT`; `NextWrite`, `WriteInRange` and `WritesDistinct` state its properties |
| `SeedBuffer.Writes` | SimplePathTracing.cpp:86-88 | the first n writes of the nested loops have n entries, write k going to the slot of column `k / HEIGHT`, row `k % HEIGHT` |
| `SeedBuffer.WriteInRange` | SimplePathTracing.cpp:85-88 | every write of the fill lands in the buffer |
| `SeedBuffer.WritesDistinct` | SimplePathTracing.cpp:86-88 | two different writes of the fill go to different slots |
| `SeedBuffer.SlotWritten` | SimplePathTracing.cpp:86-88 | slot k is written by the draw for pixel `(k % WIDTH, k / WIDTH)` |
| `SeedBuffer.WriteOrderExactlyOnce` | SimplePathTracing.cpp:85-88 | the fill writes `WIDTH*HEIGHT` times, always in range and never twice to one slot, and every slot is written: each slot exactly once |
| `SeedBuffer.NextWrite` | SimplePathTracing.cpp:86-88 | pixel (i, j) is write number `i*HEIGHT + j`, lands in the buffer and in no other pixel's slot |
| `SeedBuffer.AllSlotsInRange` | SimplePathTracing.cpp:85-88 | every pixel's slot and draw number lie below `WIDTH*HEIGHT` |
| `SeedBuffer.FillColumn` | SimplePathTracing.cpp:87-88 | the inner loop makes HEIGHT further draws, gives row j of column i the draw made for it, records its writes, and leaves every other column untouched |
| `SeedBuffer.InitSeeds` | SimplePathTracing.cpp:83-88 | the buffer is a freshly allocated array that aliases nothing else, has `WIDTH*HEIGHT` slots, pixel (i, j) holds draw number `i*HEIGHT + j` of the engine in slot `j*WIDTH + i`, and the recorded writes are the fill's write order |

## Left out

- Window, context and loader setup, with their failure returns (lines 23-45). This is platform I/O.
- Shader loading, the quad VAO/VBO, texture creation and image binding (lines 47-79), the SSBO uploads (lines 90-94, 188-192), the draw pass, buffer swap and cleanup. These are OpenGL calls.
- `glMemoryBarrier` (line 233): GPU ordering between compute and draw, not sequential logic.
- The compute kernel and shaders: foreign code doing floating-point shading. `glDispatchCompute` takes work-group counts, and the shader fixes the work-group size, which is not visible here. The model reads the dispatch extent as pixels, that is, as a work-group size of 1x1.
- The scene list (lines 97-186) and `Shape.h`, `Camera.h`, `Shader.h`. Those headers are not part of this model. As a result the Rect/Cube/Sphere record layout, the `obj.size() * sizeof(Sphere)` upload size and the camera math are not modelled.
- The statistical quality of `std::default_random_engine` and `uniform_int_distribution`. The drawn values are an input stream; only the fill pattern is modelled.
- The FPS and delta-time figures of the status line (line 241). These are wall-clock floats; the model keeps only whether the line is printed and its pass count.
- Key polling (lines 225-227). The only effect of polling is the close flag read at the next loop head, and that flag is an input of `RenderLoop`.
- Scheduler.RenderLoop: covers a finite prefix of the loop heads. `closeFlags` lists what the window reports at each head, and when the list runs out with every flag false the model stops, while the program would keep running until a later close request.
- Scheduler.RenderLoop: models the counter as an unbounded natural. The C++ `int` would overflow after 2^31 - 1 frames, which is undefined behaviour the program does not guard against.
- SeedBuffer.InitSeeds: receives the engine's unbounded output as a finite prefix of at least `w*h` values, which is all the fill consumes.
- SeedBuffer.InitSeeds: takes the image size as parameters. The program's one call uses 1920x1080, whose 2,073,600 slots fit in `int`; products that overflow `int` are not modelled.
