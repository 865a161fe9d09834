/** The progressive dispatch scheduler of the render loop in SimplePathTracing.cpp.

    One integer frame counter drives everything: each loop turn picks one chunk of
    a CHUNKS_X x CHUNKS_Y grid over the output texture (row-major), sends the kernel
    the number of full passes finished so far, dispatches one chunk's worth of work
    at the chunk's pixel origin, and prints a status line right after the last chunk
    of a pass. OpenGL, the shader and the wall clock are not modelled; the window's
    "should close" flag is an input observed at each loop head. */
module Scheduler {
  import opened Arith
  import opened Settings

  /** Texture size and chunk grid: TEX_W, TEX_H, CHUNKS_X, CHUNKS_Y. */
  datatype Config = Config(texW: nat, texH: nat, chunksX: nat, chunksY: nat)

  /** The configuration the program is built with. */
  const Source: Config := Config(Width, Height, ChunksX, ChunksY)

  /** A grid with at least one chunk each way (the divisions below need it). */
  predicate Valid(c: Config) {
    c.chunksX > 0 && c.chunksY > 0
  }

  /** The grid divides the texture evenly, as 1920/2 and 1080/2 do. */
  predicate Divisible(c: Config) {
    Valid(c) && c.texW % c.chunksX == 0 && c.texH % c.chunksY == 0
  }

  /** N_CHUNKS: the number of frames in one pass. */
  function NChunks(c: Config): (n: nat)
    requires Valid(c)
    ensures n >= c.chunksX && n >= c.chunksY
  {
    MulLe(1, c.chunksY, c.chunksX);
    MulLe(1, c.chunksX, c.chunksY);
    c.chunksX * c.chunksY
  }

  /** CHUNK_W: the texture width split into CHUNKS_X equal parts, rounded down;
      the parts cover the width exactly when the grid divides it. */
  function ChunkW(c: Config): (w: nat)
    requires Valid(c)
    ensures c.chunksX * w <= c.texW < c.chunksX * w + c.chunksX
    ensures c.texW % c.chunksX == 0 <==> c.chunksX * w == c.texW
  {
    c.texW / c.chunksX
  }

  /** CHUNK_H: the texture height split into CHUNKS_Y equal parts, rounded down. */
  function ChunkH(c: Config): (h: nat)
    requires Valid(c)
    ensures c.chunksY * h <= c.texH < c.chunksY * h + c.chunksY
    ensures c.texH % c.chunksY == 0 <==> c.chunksY * h == c.texH
  {
    c.texH / c.chunksY
  }

  /** The grid column chosen when the counter reads f. */
  function ChunkX(c: Config, f: nat): (x: nat)
    requires Valid(c)
    ensures x < c.chunksX
  {
    f % c.chunksX
  }

  /** The grid row chosen when the counter reads f. */
  function ChunkY(c: Config, f: nat): (y: nat)
    requires Valid(c)
    ensures y < c.chunksY
  {
    (f / c.chunksX) % c.chunksY
  }

  /** The `iteration` uniform sent to the kernel: the counter before the increment,
      divided by N_CHUNKS, that is, the number of whole passes the f frames before
      this one make up. */
  function PassIndex(c: Config, f: nat): (p: nat)
    requires Valid(c)
    ensures NChunks(c) * p <= f < NChunks(c) * p + NChunks(c)
  {
    f / NChunks(c)
  }

  /** Position of grid cell (x, y) in row-major order. */
  function CellIndex(c: Config, x: nat, y: nat): nat {
    y * c.chunksX + x
  }

  /** Pixel (px, py) lies in the rectangle of grid cell (x, y). */
  predicate InChunk(c: Config, x: nat, y: nat, px: nat, py: nat)
    requires Valid(c)
  {
    x * ChunkW(c) <= px < x * ChunkW(c) + ChunkW(c) &&
    y * ChunkH(c) <= py < y * ChunkH(c) + ChunkH(c)
  }

  /** What one loop turn hands to the compute kernel: the `iteration` uniform,
      the `chunk` uniform (pixel origin) and the dispatch extent. */
  datatype Dispatch = Dispatch(iteration: nat, originX: nat, originY: nat, groupsX: nat, groupsY: nat)

  /** Whether the turn ends with the status line, and the pass count it prints. */
  datatype Status = Silent | Report(passes: nat)

  datatype Turn = Turn(dispatch: Dispatch, status: Status)

  /** Pixel (px, py) is one of the work items of dispatch d. */
  predicate InDispatch(d: Dispatch, px: nat, py: nat) {
    d.originX <= px < d.originX + d.groupsX && d.originY <= py < d.originY + d.groupsY
  }

  /** The loop turn taken when the counter reads f at the loop head. It dispatches
      one chunk's extent, and a status line it prints counts one pass more than the
      pass index it sent. */
  function TurnAt(c: Config, f: nat): (t: Turn)
    requires Valid(c)
    ensures t.dispatch.groupsX == ChunkW(c) && t.dispatch.groupsY == ChunkH(c)
    ensures t.status.Report? ==> t.status.passes == t.dispatch.iteration + 1
  {
    Succ(f, NChunks(c));
    var d := Dispatch(PassIndex(c, f), ChunkX(c, f) * ChunkW(c), ChunkY(c, f) * ChunkH(c),
                      c.texW / c.chunksX, c.texH / c.chunksY);
    var next := f + 1;
    Turn(d, if next % NChunks(c) == 0 then Report(next / NChunks(c)) else Silent)
  }

  /** The turns of the first n frames, starting from a zero counter. */
  function Schedule(c: Config, n: nat): (t: seq<Turn>)
    requires Valid(c)
    ensures |t| == n
    ensures forall k :: 0 <= k < n ==> t[k] == TurnAt(c, k)
  {
    if n == 0 then [] else Schedule(c, n - 1) + [TurnAt(c, n - 1)]
  }

  /** The number of loop heads at which the window did not ask to close. */
  function OpenTurns(closeFlags: seq<bool>): (n: nat)
    ensures n <= |closeFlags|
    ensures forall k :: 0 <= k < n ==> !closeFlags[k]
    ensures n < |closeFlags| ==> closeFlags[n]
  {
    if closeFlags == [] || closeFlags[0] then 0 else 1 + OpenTurns(closeFlags[1..])
  }

  /** The render loop: `closeFlags[k]` is what the window reports at the k-th loop
      head; the loop stops at the first true flag (or when the flags run out). */
  method RenderLoop(c: Config, closeFlags: seq<bool>) returns (trace: seq<Turn>, iteration: nat)
    requires Valid(c)
    ensures iteration == OpenTurns(closeFlags)
    ensures trace == Schedule(c, iteration)
  {
    var nChunks := NChunks(c);
    var chunkW, chunkH := ChunkW(c), ChunkH(c);
    iteration := 0;
    trace := [];
    while iteration < |closeFlags| && !closeFlags[iteration]
      invariant iteration <= OpenTurns(closeFlags)
      invariant trace == Schedule(c, iteration)
    {
      ghost var f := iteration;
      var chunkX := ChunkX(c, iteration);
      var chunkY := ChunkY(c, iteration);
      var pass := PassIndex(c, iteration);
      iteration := iteration + 1;
      MulLe(0, chunkW, chunkX);
      MulLe(0, chunkH, chunkY);
      var originX: nat, originY: nat := chunkX * chunkW, chunkY * chunkH;
      var d := Dispatch(pass, originX, originY, c.texW / c.chunksX, c.texH / c.chunksY);
      var status := if iteration % nChunks == 0 then Report(iteration / nChunks) else Silent;
      assert d == TurnAt(c, f).dispatch;
      assert status == TurnAt(c, f).status;
      trace := trace + [Turn(d, status)];
    }
  }

  // ---------------------------------------------------------------------------
  // Chunk selection

  /** The grid cell of frame f, read in row-major order, is the frame's position
      within its pass; the pass and the cell together give back the frame. */
  lemma CellIsResidue(c: Config, f: nat)
    requires Valid(c)
    ensures CellIndex(c, ChunkX(c, f), ChunkY(c, f)) == f % NChunks(c)
    ensures f == NChunks(c) * PassIndex(c, f) + CellIndex(c, ChunkX(c, f), ChunkY(c, f))
  {
    var cx, cy := c.chunksX, c.chunksY;
    var x, q := f % cx, f / cx;
    var y, p := q % cy, q / cy;
    MulLe(y, cy - 1, cx);
    assert cx * (cy - 1) == cx * cy - cx;
    assert f == cx * cy * p + (cx * y + x) by {
      assert q == cy * p + y;
      assert cx * q == cx * (cy * p) + cx * y;
    }
    DivModUnique(f, cx * cy, p, cx * y + x);
  }

  /** Different row-major positions are different cells. */
  lemma CellIndexInjective(c: Config, x: nat, y: nat, x': nat, y': nat)
    requires Valid(c) && x < c.chunksX && x' < c.chunksX
    requires CellIndex(c, x, y) == CellIndex(c, x', y')
    ensures x == x' && y == y'
  {
    DivModUnique(CellIndex(c, x, y), c.chunksX, y, x);
    DivModUnique(CellIndex(c, x', y'), c.chunksX, y', x');
  }

  /** Every grid cell has a row-major position inside one pass. */
  lemma CellIndexInRange(c: Config, x: nat, y: nat)
    requires Valid(c) && x < c.chunksX && y < c.chunksY
    ensures CellIndex(c, x, y) < NChunks(c)
  {
    var cx, cy := c.chunksX, c.chunksY;
    MulLe(y, cy - 1, cx);
    assert cx * (cy - 1) == cx * cy - cx;
    assert y * cx == cx * y;
  }

  /** Two frames pick the same chunk exactly when they sit at the same position of their passes. */
  lemma SameChunkIffSameResidue(c: Config, f: nat, g: nat)
    requires Valid(c)
    ensures (ChunkX(c, f) == ChunkX(c, g) && ChunkY(c, f) == ChunkY(c, g)) <==> f % NChunks(c) == g % NChunks(c)
  {
    CellIsResidue(c, f);
    CellIsResidue(c, g);
    if f % NChunks(c) == g % NChunks(c) {
      CellIndexInjective(c, ChunkX(c, f), ChunkY(c, f), ChunkX(c, g), ChunkY(c, g));
    }
  }

  /** Within a pass the chunks come in row-major order: x varies fastest
      ("left_bottom -> right_bottom -> left_top -> right_top" for a 2x2 grid). */
  lemma PassOrder(c: Config, p: nat, k: nat)
    requires Valid(c) && k < NChunks(c)
    ensures ChunkX(c, NChunks(c) * p + k) == k % c.chunksX
    ensures ChunkY(c, NChunks(c) * p + k) == k / c.chunksX
    ensures PassIndex(c, NChunks(c) * p + k) == p
  {
    var f := NChunks(c) * p + k;
    DivModUnique(f, NChunks(c), p, k);
    CellIsResidue(c, f);
    DivModUnique(k, c.chunksX, ChunkY(c, f), ChunkX(c, f));
  }

  /** Pass p visits grid cell (x, y) at exactly one frame: frame f of pass p
      picks (x, y) if and only if f is the cell's row-major slot in that pass. */
  lemma PassVisitsCellOnce(c: Config, p: nat, x: nat, y: nat, f: nat)
    requires Valid(c) && x < c.chunksX && y < c.chunksY
    requires PassIndex(c, f) == p
    ensures PassIndex(c, NChunks(c) * p + CellIndex(c, x, y)) == p
    ensures (ChunkX(c, f) == x && ChunkY(c, f) == y) <==> f == NChunks(c) * p + CellIndex(c, x, y)
  {
    var slot := NChunks(c) * p + CellIndex(c, x, y);
    CellIndexInRange(c, x, y);
    PassOrder(c, p, CellIndex(c, x, y));
    DivModUnique(CellIndex(c, x, y), c.chunksX, y, x);
    CellIsResidue(c, f);
    if ChunkX(c, f) == x && ChunkY(c, f) == y {
      assert f == slot;
    }
  }

  // ---------------------------------------------------------------------------
  // Pass index

  /** The pass index never decreases as the counter grows. */
  lemma PassIndexMonotone(c: Config, f: nat, g: nat)
    requires Valid(c) && f <= g
    ensures PassIndex(c, f) <= PassIndex(c, g)
  {
    DivMonotone(f, g, NChunks(c));
  }

  /** From one frame to the next the pass index grows by one exactly when the
      frame that just ran picked the last cell of the grid, and stays put otherwise. */
  lemma PassIndexStep(c: Config, f: nat)
    requires Valid(c)
    ensures PassIndex(c, f + 1) == PassIndex(c, f) + (if (f + 1) % NChunks(c) == 0 then 1 else 0)
    ensures (f + 1) % NChunks(c) == 0 <==> (ChunkX(c, f) == c.chunksX - 1 && ChunkY(c, f) == c.chunksY - 1)
  {
    Succ(f, NChunks(c));
    CellIsResidue(c, f);
    var last := CellIndex(c, c.chunksX - 1, c.chunksY - 1);
    assert last == NChunks(c) - 1;
    if ChunkX(c, f) == c.chunksX - 1 && ChunkY(c, f) == c.chunksY - 1 {
    } else if f % NChunks(c) == NChunks(c) - 1 {
      CellIndexInjective(c, ChunkX(c, f), ChunkY(c, f), c.chunksX - 1, c.chunksY - 1);
    }
  }

  /** N_CHUNKS frames later the pass index is exactly one higher and the same chunk is picked. */
  lemma PassIndexAdvance(c: Config, f: nat)
    requires Valid(c)
    ensures PassIndex(c, f + NChunks(c)) == PassIndex(c, f) + 1
    ensures ChunkX(c, f + NChunks(c)) == ChunkX(c, f) && ChunkY(c, f + NChunks(c)) == ChunkY(c, f)
  {
    AddDivisor(f, NChunks(c));
    SameChunkIffSameResidue(c, f, f + NChunks(c));
  }

  // ---------------------------------------------------------------------------
  // Chunk geometry

  /** Every dispatch starts at its chunk's origin, is exactly one chunk large
      (assuming one work item per work group) and stays inside the texture. */
  lemma DispatchInBounds(c: Config, f: nat)
    requires Valid(c)
    ensures TurnAt(c, f).dispatch.groupsX == ChunkW(c) && TurnAt(c, f).dispatch.groupsY == ChunkH(c)
    ensures TurnAt(c, f).dispatch.originX + TurnAt(c, f).dispatch.groupsX <= c.texW
    ensures TurnAt(c, f).dispatch.originY + TurnAt(c, f).dispatch.groupsY <= c.texH
  {
    PartInside(c.texW, c.chunksX, ChunkX(c, f));
    PartInside(c.texH, c.chunksY, ChunkY(c, f));
  }

  /** The pixels a frame dispatches are exactly the pixels of the chunk it picked.
      This is a definitional bridge rather than a fact with a proof: `TurnAt` builds
      the dispatch from the same origin and extent `InChunk` uses, so both sides
      unfold to the same bounds. It connects `InDispatch`, the view the pixel-count
      lemmas take, with the chunk rectangles of the tiling lemmas. */
  lemma DispatchIsChunk(c: Config, f: nat, px: nat, py: nat)
    requires Valid(c)
    ensures InDispatch(TurnAt(c, f).dispatch, px, py) <==> InChunk(c, ChunkX(c, f), ChunkY(c, f), px, py)
  {
  }

  /** With an evenly divided texture, every pixel belongs to a chunk of the grid. */
  lemma PixelHasChunk(c: Config, px: nat, py: nat)
    requires Divisible(c) && px < c.texW && py < c.texH
    ensures ChunkW(c) > 0 && ChunkH(c) > 0
    ensures px / ChunkW(c) < c.chunksX && py / ChunkH(c) < c.chunksY
  {
    DivModUnique(c.texW, c.chunksX, ChunkW(c), 0);
    DivModUnique(c.texH, c.chunksY, ChunkH(c), 0);
    DivBelow(px, ChunkW(c), c.chunksX);
    DivBelow(py, ChunkH(c), c.chunksY);
  }

  /** With an evenly divided texture, the chunk rectangles tile it exactly: a pixel
      of the texture lies in grid cell (x, y) if and only if (x, y) is its owner
      (px / CHUNK_W, py / CHUNK_H), so it lies in one chunk and in no other. */
  lemma TilingExact(c: Config, px: nat, py: nat, x: nat, y: nat)
    requires Divisible(c) && px < c.texW && py < c.texH
    ensures InChunk(c, x, y, px, py) <==> (x == px / ChunkW(c) && y == py / ChunkH(c))
  {
    PixelHasChunk(c, px, py);
    if InChunk(c, x, y, px, py) {
      DivModUnique(px, ChunkW(c), x, px - x * ChunkW(c));
      DivModUnique(py, ChunkH(c), y, py - y * ChunkH(c));
    }
  }

  /** Without even division pixels are lost: at width 5 over 2 columns the last
      column of pixels lies in no chunk of the grid. */
  lemma IndivisibleLeavesGap()
    ensures Valid(Config(5, 1, 2, 1)) && !Divisible(Config(5, 1, 2, 1))
    ensures forall x: nat, y: nat :: x < 2 ==> !InChunk(Config(5, 1, 2, 1), x, y, 4, 0)
  {
  }

  // ---------------------------------------------------------------------------
  // Status reports

  /** The pass counts printed by a sequence of turns, in order. */
  function Reports(t: seq<Turn>): seq<nat> {
    if t == [] then []
    else Reports(t[..|t| - 1]) + (match t[|t| - 1].status
                                  case Report(p) => [p]
                                  case Silent => [])
  }

  /** The numbers 1 .. m. */
  function Upto(m: nat): (s: seq<nat>)
    ensures |s| == m && forall k :: 0 <= k < m ==> s[k] == k + 1
  {
    if m == 0 then [] else Upto(m - 1) + [m]
  }

  /** A status line follows the turn of frame f exactly when that turn drew the last
      chunk of a pass, and it prints the pass count including the one just finished. */
  lemma ReportAfterLastChunk(c: Config, f: nat)
    requires Valid(c)
    ensures TurnAt(c, f).status.Report? <==> (ChunkX(c, f) == c.chunksX - 1 && ChunkY(c, f) == c.chunksY - 1)
    ensures TurnAt(c, f).status.Report? ==> TurnAt(c, f).status.passes == PassIndex(c, f) + 1
  {
    PassIndexStep(c, f);
  }

  /** After n frames from a zero counter the status lines printed so far read
      1, 2, ..., n / N_CHUNKS: one per completed pass, each with its own number. */
  lemma {:induction false} ReportsCountPasses(c: Config, n: nat)
    requires Valid(c)
    ensures Reports(Schedule(c, n)) == Upto(n / NChunks(c))
  {
    if n == 0 {
    } else {
      var s := Schedule(c, n);
      assert s[..n - 1] == Schedule(c, n - 1);
      ReportsCountPasses(c, n - 1);
      PassIndexStep(c, n - 1);
    }
  }

  // ---------------------------------------------------------------------------
  // Samples per pixel

  /** How many of the first n frames picked grid cell (x, y). */
  function Samples(c: Config, n: nat, x: nat, y: nat): nat
    requires Valid(c)
  {
    if n == 0 then 0
    else Samples(c, n - 1, x, y) + (if ChunkX(c, n - 1) == x && ChunkY(c, n - 1) == y then 1 else 0)
  }

  /** Frame m picks cell (x, y) exactly when m sits at the cell's row-major slot of its pass. */
  lemma PicksCellIffSlot(c: Config, m: nat, x: nat, y: nat)
    requires Valid(c) && x < c.chunksX && y < c.chunksY
    ensures (ChunkX(c, m) == x && ChunkY(c, m) == y) <==> m % NChunks(c) == CellIndex(c, x, y)
  {
    CellIsResidue(c, m);
    if m % NChunks(c) == CellIndex(c, x, y) {
      CellIndexInjective(c, ChunkX(c, m), ChunkY(c, m), x, y);
    }
  }

  /** After n frames cell (x, y) has been drawn once per completed pass, plus once
      more if the unfinished pass has already reached it. */
  lemma {:induction false} SamplesPerCell(c: Config, n: nat, x: nat, y: nat)
    requires Valid(c) && x < c.chunksX && y < c.chunksY
    ensures Samples(c, n, x, y) == n / NChunks(c) + (if n % NChunks(c) > CellIndex(c, x, y) then 1 else 0)
  {
    var k, r := NChunks(c), CellIndex(c, x, y);
    if n == 0 {
      MulDiv(0, k);
    } else {
      var m := n - 1;
      SamplesPerCell(c, m, x, y);
      CellIndexInRange(c, x, y);
      PicksCellIffSlot(c, m, x, y);
      assert Samples(c, n, x, y) == Samples(c, m, x, y) + (if m % k == r then 1 else 0);
      CountStep(m, k, r, Samples(c, m, x, y));
    }
  }

  /** The `iteration` uniform sent with frame f equals the number of samples the
      frame's pixels already hold, so the kernel's incremental mean uses the right count. */
  lemma PassIndexCountsPriorSamples(c: Config, f: nat)
    requires Valid(c)
    ensures Samples(c, f, ChunkX(c, f), ChunkY(c, f)) == PassIndex(c, f)
  {
    SamplesPerCell(c, f, ChunkX(c, f), ChunkY(c, f));
    CellIsResidue(c, f);
  }

  /** How many of the first n frames dispatched pixel (px, py). */
  function PixelSamples(c: Config, n: nat, px: nat, py: nat): nat
    requires Valid(c)
  {
    if n == 0 then 0
    else PixelSamples(c, n - 1, px, py) + (if InDispatch(TurnAt(c, n - 1).dispatch, px, py) then 1 else 0)
  }

  /** A pixel is dispatched exactly when its owning chunk is picked. */
  lemma {:induction false} PixelSamplesAreCellSamples(c: Config, n: nat, px: nat, py: nat)
    requires Divisible(c) && px < c.texW && py < c.texH
    ensures PixelSamples(c, n, px, py) == Samples(c, n, px / ChunkW(c), py / ChunkH(c))
  {
    if n > 0 {
      PixelSamplesAreCellSamples(c, n - 1, px, py);
      DispatchIsChunk(c, n - 1, px, py);
      TilingExact(c, px, py, ChunkX(c, n - 1), ChunkY(c, n - 1));
    }
  }

  /** After p full passes every pixel of the texture has been dispatched exactly p times. */
  lemma EveryPixelOncePerPass(c: Config, p: nat, px: nat, py: nat)
    requires Divisible(c) && px < c.texW && py < c.texH
    ensures PixelSamples(c, NChunks(c) * p, px, py) == p
  {
    var n, x, y := NChunks(c) * p, px / ChunkW(c), py / ChunkH(c);
    PixelHasChunk(c, px, py);
    PixelSamplesAreCellSamples(c, n, px, py);
    SamplesPerCell(c, n, x, y);
    MulDiv(p, NChunks(c));
    assert n / NChunks(c) == p && n % NChunks(c) == 0;
  }

  // ---------------------------------------------------------------------------
  // The program's own configuration

  /** 1920x1080 over a 2x2 grid: four 960x540 chunks in the order (0,0), (1,0),
      (0,1), (1,1); frame 3999 sends pass index 999 and ends with the status line
      for pass 1000; after 4000 frames every pixel holds 1000 samples. */
  lemma SourceScenario()
    ensures Divisible(Source) && NChunks(Source) == 4
    ensures ChunkW(Source) == 960 && ChunkH(Source) == 540
    ensures [(ChunkX(Source, 0), ChunkY(Source, 0)), (ChunkX(Source, 1), ChunkY(Source, 1)),
             (ChunkX(Source, 2), ChunkY(Source, 2)), (ChunkX(Source, 3), ChunkY(Source, 3))]
            == [(0, 0), (1, 0), (0, 1), (1, 1)]
    ensures TurnAt(Source, 3999).dispatch.iteration == 999 && TurnAt(Source, 3999).status == Report(1000)
    ensures forall px: nat, py: nat :: px < Width && py < Height ==> PixelSamples(Source, 4000, px, py) == 1000
  {
    forall px: nat, py: nat | px < Width && py < Height
      ensures PixelSamples(Source, 4000, px, py) == 1000
    {
      EveryPixelOncePerPass(Source, 1000, px, py);
    }
  }
}
