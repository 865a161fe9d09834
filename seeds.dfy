/** The per-pixel random seed buffer of SimplePathTracing.cpp (`init_rng`).

    A vector of width*height unsigned seeds is filled by two nested loops, the
    column i outside and the row j inside, each pass drawing the next value of
    the host's random engine into the row-major slot j*width + i. The engine is
    an input here: `draws` is the stream of values it produces, in call order. */
module SeedBuffer {
  import opened Arith

  /** `unsigned int` / `uint32_t`: the seed values. */
  newtype uint32 = x: int | 0 <= x < 0x1_0000_0000

  /** Position of (major, minor) in a table stored major-by-major with the given stride. */
  function Index(stride: nat, major: nat, minor: nat): nat {
    major * stride + minor
  }

  /** The slot of pixel (i, j): row-major, j*width + i, so it lies in the part of
      the buffer that holds row j. */
  function Slot(w: nat, i: nat, j: nat): (s: nat)
    ensures i < w ==> w * j <= s < w * j + w
  {
    Index(w, j, i)
  }

  /** The number of random draws made before the one for pixel (i, j): the loops
      visit pixels column by column, so i*height + j, which lies in the block of
      draws made for column i. */
  function Call(h: nat, i: nat, j: nat): (n: nat)
    ensures j < h ==> h * i <= n < h * i + h
  {
    Index(h, i, j)
  }

  /** Every in-range pair has an in-range index. */
  lemma IndexInRange(stride: nat, count: nat, major: nat, minor: nat)
    requires minor < stride && major < count
    ensures Index(stride, major, minor) < count * stride
  {
    MulLe(major, count - 1, stride);
  }

  /** Distinct in-range pairs have distinct indices. */
  lemma IndexInjective(stride: nat, major: nat, minor: nat, major': nat, minor': nat)
    requires minor < stride && minor' < stride
    requires Index(stride, major, minor) == Index(stride, major', minor')
    ensures major == major' && minor == minor'
  {
    DivModUnique(Index(stride, major, minor), stride, major, minor);
    DivModUnique(Index(stride, major', minor'), stride, major', minor');
  }

  /** Every index below count*stride is the index of an in-range pair. */
  lemma IndexOnto(stride: nat, count: nat, k: nat)
    requires k < count * stride
    ensures stride > 0 && k % stride < stride && k / stride < count
    ensures Index(stride, k / stride, k % stride) == k
  {
    DivBelow(k, stride, count);
  }

  /** Slot j*width + i lies in the buffer for every pixel of the image. */
  lemma SlotInRange(w: nat, h: nat, i: nat, j: nat)
    requires i < w && j < h
    ensures Slot(w, i, j) < w * h && Call(h, i, j) < w * h
  {
    IndexInRange(w, h, j, i);
    IndexInRange(h, w, i, j);
  }

  /** No other pixel of the image shares the slot of pixel (i, j). */
  lemma SlotUnshared(w: nat, h: nat, i: nat, j: nat)
    requires i < w && j < h
    ensures forall i', j' :: 0 <= i' < w && 0 <= j' < h && (i' != i || j' != j) ==> Slot(w, i', j') != Slot(w, i, j)
  {
    forall i', j' | 0 <= i' < w && 0 <= j' < h && Slot(w, i', j') == Slot(w, i, j)
      ensures i' == i && j' == j
    {
      IndexInjective(w, j', i', j, i);
    }
  }

  /** The slot written by write number n of the fill: the pixel of column
      n / height, row n % height. */
  function WrittenSlot(w: nat, h: nat, n: nat): nat {
    if h == 0 then 0 else Slot(w, n / h, n % h)
  }

  /** The slots of the first n writes, in order. */
  function Writes(w: nat, h: nat, n: nat): (s: seq<nat>)
    ensures |s| == n && forall k :: 0 <= k < n ==> s[k] == WrittenSlot(w, h, k)
  {
    if n == 0 then [] else Writes(w, h, n - 1) + [WrittenSlot(w, h, n - 1)]
  }

  /** The slots in the order the whole fill writes them. */
  function WriteOrder(w: nat, h: nat): seq<nat> {
    Writes(w, h, w * h)
  }

  /** The n-th write of the fill is in range: it lands in the buffer. */
  lemma WriteInRange(w: nat, h: nat, n: nat)
    requires n < w * h
    ensures |WriteOrder(w, h)| == w * h && WriteOrder(w, h)[n] < w * h
  {
    IndexOnto(h, w, n);
    SlotInRange(w, h, n / h, n % h);
  }

  /** Two different writes of the fill go to different slots. */
  lemma WritesDistinct(w: nat, h: nat, n: nat, m: nat)
    requires n < w * h && m < w * h && n != m
    ensures |WriteOrder(w, h)| == w * h && WriteOrder(w, h)[n] != WriteOrder(w, h)[m]
  {
    IndexOnto(h, w, n);
    IndexOnto(h, w, m);
    if WrittenSlot(w, h, n) == WrittenSlot(w, h, m) {
      IndexInjective(w, n % h, n / h, m % h, m / h);
    }
  }

  /** Slot k is written, by the draw made for pixel (k % width, k / width). */
  lemma SlotWritten(w: nat, h: nat, k: nat)
    requires k < w * h
    ensures Call(h, k % w, k / w) < w * h && |WriteOrder(w, h)| == w * h
    ensures WriteOrder(w, h)[Call(h, k % w, k / w)] == k
  {
    IndexOnto(w, h, k);
    SlotInRange(w, h, k % w, k / w);
    DivModUnique(Call(h, k % w, k / w), h, k % w, k / w);
  }

  /** The fill writes every slot of the buffer exactly once: the write order has
      one entry per slot, its entries are in range and pairwise distinct, and
      every slot occurs in it. */
  lemma WriteOrderExactlyOnce(w: nat, h: nat)
    ensures |WriteOrder(w, h)| == w * h
    ensures forall n :: 0 <= n < w * h ==> WriteOrder(w, h)[n] < w * h
    ensures forall n, m :: 0 <= n < m < w * h ==> WriteOrder(w, h)[n] != WriteOrder(w, h)[m]
    ensures forall k :: 0 <= k < w * h ==> k in WriteOrder(w, h)
  {
    forall n | 0 <= n < w * h
      ensures WriteOrder(w, h)[n] < w * h
    {
      WriteInRange(w, h, n);
    }
    forall n, m | 0 <= n < m < w * h
      ensures WriteOrder(w, h)[n] != WriteOrder(w, h)[m]
    {
      WritesDistinct(w, h, n, m);
    }
    forall k | 0 <= k < w * h
      ensures k in WriteOrder(w, h)
    {
      SlotWritten(w, h, k);
    }
  }

  /** The write made for pixel (i, j) is write number i*height + j of the fill,
      lands in the buffer and in no other pixel's slot. */
  lemma NextWrite(w: nat, h: nat, i: nat, j: nat)
    requires i < w && j < h
    ensures Slot(w, i, j) < w * h && Call(h, i, j) < w * h
    ensures WrittenSlot(w, h, Call(h, i, j)) == Slot(w, i, j)
    ensures forall i', j' :: 0 <= i' < w && 0 <= j' < h && (i' != i || j' != j) ==> Slot(w, i', j') != Slot(w, i, j)
  {
    SlotInRange(w, h, i, j);
    SlotUnshared(w, h, i, j);
    DivModUnique(Call(h, i, j), h, i, j);
  }

  /** Every pixel's slot and draw number lie below width*height. */
  lemma AllSlotsInRange(w: nat, h: nat)
    ensures forall i, j :: 0 <= i < w && 0 <= j < h ==> Slot(w, i, j) < w * h && Call(h, i, j) < w * h
  {
    forall i, j | 0 <= i < w && 0 <= j < h
      ensures Slot(w, i, j) < w * h && Call(h, i, j) < w * h
    {
      SlotInRange(w, h, i, j);
    }
  }

  /** The inner loop of the fill for column i: rows 0 .. h-1 in turn, each taking
      the next draw. `calls` draws have been made before, one column's worth per
      earlier column, and `writes` lists the slots written so far. */
  method FillColumn(seeds: array<uint32>, w: nat, h: nat, i: nat, draws: seq<uint32>,
                    calls: nat, ghost writes: seq<nat>)
      returns (next: nat, ghost writes': seq<nat>)
    requires i < w && seeds.Length == w * h && |draws| >= w * h
    requires calls == Call(h, i, 0) && writes == Writes(w, h, calls)
    modifies seeds
    ensures next == calls + h && next <= w * h && writes' == Writes(w, h, next)
    ensures forall j :: 0 <= j < h ==>
      Slot(w, i, j) < seeds.Length && Call(h, i, j) < |draws| && seeds[Slot(w, i, j)] == draws[Call(h, i, j)]
    ensures forall i', j :: 0 <= i' < w && 0 <= j < h && i' != i ==>
      Slot(w, i', j) < seeds.Length && seeds[Slot(w, i', j)] == old(seeds[Slot(w, i', j)])
  {
    AllSlotsInRange(w, h);
    next, writes' := calls, writes;
    for j := 0 to h
      invariant next == Call(h, i, j) && next <= w * h
      invariant writes' == Writes(w, h, next)
      invariant forall j' :: 0 <= j' < j ==> seeds[Slot(w, i, j')] == draws[Call(h, i, j')]
      invariant forall i', j' :: 0 <= i' < w && 0 <= j' < h && i' != i ==> seeds[Slot(w, i', j')] == old(seeds[Slot(w, i', j')])
    {
      NextWrite(w, h, i, j);
      seeds[Slot(w, i, j)] := draws[next];
      writes' := writes' + [Slot(w, i, j)];
      next := next + 1;
    }
  }

  /** `init_rng`: a buffer of w*h seeds, where pixel (i, j) gets the draw the loops
      make for it. The ghost `writes` records every slot written, in order. */
  method InitSeeds(w: nat, h: nat, draws: seq<uint32>) returns (seeds: array<uint32>, ghost writes: seq<nat>)
    requires |draws| >= w * h
    ensures fresh(seeds) && seeds.Length == w * h
    ensures forall i, j :: 0 <= i < w && 0 <= j < h ==>
      Slot(w, i, j) < seeds.Length && Call(h, i, j) < |draws| && seeds[Slot(w, i, j)] == draws[Call(h, i, j)]
    ensures writes == WriteOrder(w, h)
  {
    AllSlotsInRange(w, h);
    seeds := new uint32[w * h];
    writes := [];
    var calls := 0;
    for i := 0 to w
      invariant calls == i * h && calls <= w * h
      invariant writes == Writes(w, h, calls)
      invariant forall i', j' :: 0 <= i' < i && 0 <= j' < h ==> seeds[Slot(w, i', j')] == draws[Call(h, i', j')]
    {
      calls, writes := FillColumn(seeds, w, h, i, draws, calls, writes);
      assert calls == (i + 1) * h;
    }
  }
}
