/**
 The abstract kernel heap: a sequence of major blocks in list order, each
 holding its live minor allocations in address order.  No pointers here; the
 linked headers of liballoc.c are tied to this picture in module Liballoc.
 */
module HeapLayout {
  import opened Words

  /** sizeof(struct liballoc_major) == sizeof(struct liballoc_minor). */
  const HEADER: int := 40
  /** ALIGNMENT + ALIGN_INFO, added to every request. */
  const SLACK: int := 32
  const PAGE: int := 4096
  const MIN_PAGES: int := 16
  /** Largest request whose block size survives the 32-bit arithmetic. */
  const MAX_REQUEST: int := TWO32 - PAGE - 2 * HEADER - SLACK

  /** A live minor: header at `at`, `size` bytes after it, `req` of them requested. */
  datatype Chunk = Chunk(at: int, size: int, req: int)

  /** A major block of `size` bytes starting with its own header. */
  datatype Block = Block(at: int, pages: int, size: int, chunks: seq<Chunk>)

  function End(c: Chunk): int { c.at + HEADER + c.size }

  function Limit(b: Block): int { b.at + b.size }

  // ----- Invariant -----

  ghost predicate ChunkOk(b: Block, c: Chunk) {
    && b.at + HEADER <= c.at && End(c) <= Limit(b)
    && 0 <= c.req && c.req + SLACK <= c.size
  }

  ghost predicate Ordered(b: Block, j: int, k: int)
    requires 0 <= j < |b.chunks| && 0 <= k < |b.chunks|
  {
    End(b.chunks[j]) <= b.chunks[k].at
  }

  ghost predicate BlockOk(b: Block) {
    && 0 < b.at && Limit(b) <= TWO64
    && b.size == b.pages * PAGE && HEADER <= b.size < TWO32
    && (forall j {:trigger ChunkOk(b, b.chunks[j])} | 0 <= j < |b.chunks| :: ChunkOk(b, b.chunks[j]))
    && (forall j, k | 0 <= j < k < |b.chunks| :: Ordered(b, j, k))
  }

  ghost predicate Apart(b: Block, c: Block) {
    Limit(b) <= c.at || Limit(c) <= b.at
  }

  /** Blocks are well formed and occupy pairwise disjoint address ranges. */
  ghost predicate LayoutOk(bs: seq<Block>) {
    && (forall i {:trigger BlockOk(bs[i])} | 0 <= i < |bs| :: BlockOk(bs[i]))
    && (forall i, j {:trigger Apart(bs[i], bs[j])} | 0 <= i < j < |bs| :: Apart(bs[i], bs[j]))
  }

  /** Between calls every linked major holds at least one minor. */
  ghost predicate NoEmptyBlock(bs: seq<Block>) {
    forall i | 0 <= i < |bs| :: bs[i].chunks != []
  }

  // ----- Bookkeeping -----

  function SizeSum(cs: seq<Chunk>): int {
    if cs == [] then 0 else SizeSum(cs[..|cs| - 1]) + cs[|cs| - 1].size
  }

  function ChunkBytes(b: Block): int { SizeSum(b.chunks) }

  /** The value the `usage` field must hold. */
  function Usage(b: Block): int {
    HEADER + ChunkBytes(b) + HEADER * |b.chunks|
  }

  /** The value l_inuse must hold. */
  function InUse(bs: seq<Block>): int {
    if bs == [] then 0 else InUse(bs[..|bs| - 1]) + ChunkBytes(bs[|bs| - 1])
  }

  /** The value l_allocated must hold. */
  function Allocated(bs: seq<Block>): int {
    if bs == [] then 0 else Allocated(bs[..|bs| - 1]) + bs[|bs| - 1].size
  }

  lemma {:induction false} SizeSumConcat(cs: seq<Chunk>, ds: seq<Chunk>)
    ensures SizeSum(cs + ds) == SizeSum(cs) + SizeSum(ds)
  {
    if ds == [] {
      assert cs + ds == cs;
    } else {
      var n := |ds| - 1;
      assert (cs + ds)[..|cs| + n] == cs + ds[..n];
      SizeSumConcat(cs, ds[..n]);
    }
  }

  lemma {:induction false} BlockSumsConcat(bs: seq<Block>, cs: seq<Block>)
    ensures InUse(bs + cs) == InUse(bs) + InUse(cs)
    ensures Allocated(bs + cs) == Allocated(bs) + Allocated(cs)
  {
    if cs == [] {
      assert bs + cs == bs;
    } else {
      var n := |cs| - 1;
      assert (bs + cs)[..|bs| + n] == bs + cs[..n];
      BlockSumsConcat(bs, cs[..n]);
    }
  }

  lemma SizeSumMiddle(cs: seq<Chunk>, c: Chunk, ds: seq<Chunk>)
    ensures SizeSum(cs + [c] + ds) == SizeSum(cs + ds) + c.size
  {
    SizeSumConcat(cs, ds);
    SizeSumConcat(cs + [c], ds);
    SizeSumConcat(cs, [c]);
  }

  lemma BlockSumsMiddle(bs: seq<Block>, b: Block, cs: seq<Block>)
    ensures InUse(bs + [b] + cs) == InUse(bs + cs) + ChunkBytes(b)
    ensures Allocated(bs + [b] + cs) == Allocated(bs + cs) + b.size
  {
    BlockSumsConcat(bs, cs);
    BlockSumsConcat(bs + [b], cs);
    BlockSumsConcat(bs, [b]);
  }

  // ----- Gaps -----

  /** First free address of gap k: gap 0 is in front of chunk 0, gap |chunks| behind the last. */
  function GapStart(b: Block, k: nat): int
    requires k <= |b.chunks|
  {
    if k == 0 then b.at + HEADER else End(b.chunks[k - 1])
  }

  function Gap(b: Block, k: nat): int
    requires k <= |b.chunks|
  {
    (if k == |b.chunks| then Limit(b) else b.chunks[k].at) - GapStart(b, k)
  }

  /** Bytes in the first k gaps. */
  function GapTotal(b: Block, k: nat): int
    requires k <= |b.chunks| + 1
  {
    if k == 0 then 0 else GapTotal(b, k - 1) + Gap(b, k - 1)
  }

  /** The first k gaps and the first k chunks tile the block up to the start of gap k. */
  lemma {:induction false} GapsTile(b: Block, k: nat)
    requires k <= |b.chunks|
    ensures b.at + HEADER + GapTotal(b, k) + SizeSum(b.chunks[..k]) + HEADER * k == GapStart(b, k)
  {
    if k > 0 {
      GapsTile(b, k - 1);
      assert b.chunks[..k][..k - 1] == b.chunks[..k - 1];
    }
  }

  lemma GapNonNegative(b: Block, k: nat)
    requires BlockOk(b) && k <= |b.chunks|
    ensures 0 <= Gap(b, k)
  {
    assert k == 0 || ChunkOk(b, b.chunks[k - 1]);
    assert k == |b.chunks| || ChunkOk(b, b.chunks[k]);
    assert 0 < k < |b.chunks| ==> Ordered(b, k - 1, k);
  }

  /** Every byte of a block is its header, a chunk or a gap: the gaps sum to size - usage. */
  lemma GapsSumToFree(b: Block)
    ensures GapTotal(b, |b.chunks| + 1) == b.size - Usage(b)
  {
    GapsTile(b, |b.chunks|);
    assert b.chunks[..|b.chunks|] == b.chunks;
  }

  lemma {:induction false} GapBelowTotal(b: Block, k: nat, n: nat)
    requires BlockOk(b) && k < n <= |b.chunks| + 1
    ensures 0 <= Gap(b, k) <= GapTotal(b, n)
    decreases n
  {
    GapNonNegative(b, k);
    if n > 1 {
      GapNonNegative(b, n - 1);
      GapBelowTotal(b, if k < n - 1 then k else 0, n - 1);
    }
  }

  lemma GapBelowFree(b: Block, k: nat)
    requires BlockOk(b) && k <= |b.chunks|
    ensures 0 <= Gap(b, k) <= b.size - Usage(b)
  {
    GapBelowTotal(b, k, |b.chunks| + 1);
    GapsSumToFree(b);
  }

  lemma {:induction false} SizeSumNonNegative(b: Block, k: nat)
    requires BlockOk(b) && k <= |b.chunks|
    ensures 0 <= SizeSum(b.chunks[..k])
  {
    if k > 0 {
      assert ChunkOk(b, b.chunks[k - 1]);
      SizeSumNonNegative(b, k - 1);
      assert b.chunks[..k][..k - 1] == b.chunks[..k - 1];
    }
  }

  lemma UsageBounds(b: Block)
    requires BlockOk(b)
    ensures HEADER <= Usage(b) <= b.size
    ensures 0 <= ChunkBytes(b)
  {
    GapBelowFree(b, 0);
    SizeSumNonNegative(b, |b.chunks|);
    assert b.chunks[..|b.chunks|] == b.chunks;
  }

  // ----- First fit -----

  /** Index of the first gap from k on that holds `need` bytes; |chunks| + 1 if there is none. */
  function FitFrom(b: Block, k: nat, need: int): (r: nat)
    requires k <= |b.chunks| + 1
    ensures k <= r <= |b.chunks| + 1
    ensures forall j | k <= j < r :: Gap(b, j) < need
    ensures r <= |b.chunks| ==> Gap(b, r) >= need
    decreases |b.chunks| + 1 - k
  {
    if k > |b.chunks| || Gap(b, k) >= need then k else FitFrom(b, k + 1, need)
  }

  ghost predicate Fits(b: Block, need: int) {
    FitFrom(b, 0, need) <= |b.chunks|
  }

  /** Case 1 is sound: a block with too little free space in all has no gap that is large enough. */
  lemma QuickRejectSound(b: Block, need: int)
    requires BlockOk(b) && b.size - Usage(b) < need
    ensures !Fits(b, need)
  {
    forall k | 0 <= k <= |b.chunks|
      ensures Gap(b, k) < need
    {
      GapBelowFree(b, k);
    }
  }

  /** Index of the first block from i on with a large enough gap; |bs| if there is none. */
  ghost function BlockFrom(bs: seq<Block>, i: nat, need: int): (r: nat)
    requires i <= |bs|
    ensures i <= r <= |bs|
    ensures forall j | i <= j < r :: !Fits(bs[j], need)
    ensures r < |bs| ==> Fits(bs[r], need)
    decreases |bs| - i
  {
    if i == |bs| || Fits(bs[i], need) then i else BlockFrom(bs, i + 1, need)
  }

  // ----- Addresses -----

  ghost predicate Located(bs: seq<Block>, i: int, j: int, at: int) {
    0 <= i < |bs| && 0 <= j < |bs[i].chunks| && bs[i].chunks[j].at == at
  }

  ghost predicate Live(bs: seq<Block>, at: int) {
    exists i, j :: Located(bs, i, j, at)
  }

  ghost predicate Linked(bs: seq<Block>, at: int) {
    exists i :: 0 <= i < |bs| && bs[i].at == at
  }

  /** Headers and payload areas of different live chunks do not overlap. */
  lemma ChunksApart(bs: seq<Block>, i: int, j: int, i': int, j': int)
    requires LayoutOk(bs)
    requires 0 <= i < |bs| && 0 <= j < |bs[i].chunks|
    requires 0 <= i' < |bs| && 0 <= j' < |bs[i'].chunks|
    requires i != i' || j != j'
    ensures End(bs[i].chunks[j]) <= bs[i'].chunks[j'].at || End(bs[i'].chunks[j']) <= bs[i].chunks[j].at
  {
    assert BlockOk(bs[i]) && BlockOk(bs[i']);
    assert ChunkOk(bs[i], bs[i].chunks[j]) && ChunkOk(bs[i'], bs[i'].chunks[j']);
    if i < i' {
      assert Apart(bs[i], bs[i']);
    } else if i' < i {
      assert Apart(bs[i'], bs[i]);
    } else if j < j' {
      assert Ordered(bs[i], j, j');
    } else {
      assert Ordered(bs[i], j', j);
    }
  }

  /** A live chunk is found at one place only. */
  lemma LocatedUnique(bs: seq<Block>, i: int, j: int, i': int, j': int, at: int)
    requires LayoutOk(bs) && Located(bs, i, j, at) && Located(bs, i', j', at)
    ensures i == i' && j == j'
  {
    assert BlockOk(bs[i]) && BlockOk(bs[i']);
    assert ChunkOk(bs[i], bs[i].chunks[j]) && ChunkOk(bs[i'], bs[i'].chunks[j']);
    if i != i' || j != j' {
      ChunksApart(bs, i, j, i', j');
    }
  }

  // ----- Counters cannot wrap -----

  ghost function Bytes(b: Block): set<int> { Range(b.at, Limit(b)) }

  ghost function Owned(bs: seq<Block>): set<int> {
    if bs == [] then {} else Owned(bs[..|bs| - 1]) + Bytes(bs[|bs| - 1])
  }

  lemma {:induction false} OwnedFrom(bs: seq<Block>, x: int)
    requires x in Owned(bs)
    ensures exists i :: 0 <= i < |bs| && x in Bytes(bs[i])
  {
    var n := |bs| - 1;
    if x in Bytes(bs[n]) {
    } else {
      OwnedFrom(bs[..n], x);
      var i :| 0 <= i < n && x in Bytes(bs[..n][i]);
      assert bs[i] == bs[..n][i];
    }
  }

  lemma OwnedApart(bs: seq<Block>, n: nat)
    requires LayoutOk(bs) && n < |bs|
    ensures Owned(bs[..n]) !! Bytes(bs[n])
  {
    forall x | x in Owned(bs[..n])
      ensures x !in Bytes(bs[n])
    {
      OwnedFrom(bs[..n], x);
      var i :| 0 <= i < n && x in Bytes(bs[..n][i]);
      assert Apart(bs[i], bs[n]);
    }
  }

  lemma {:induction false} AllocatedCountsBytes(bs: seq<Block>)
    requires LayoutOk(bs)
    ensures Allocated(bs) == |Owned(bs)|
  {
    if bs != [] {
      var n := |bs| - 1;
      AllocatedCountsBytes(bs[..n]);
      assert BlockOk(bs[n]);
      RangeSize(bs[n].at, Limit(bs[n]));
      OwnedApart(bs, n);
    }
  }

  lemma {:induction false} InUseBelowAllocated(bs: seq<Block>)
    requires LayoutOk(bs)
    ensures 0 <= InUse(bs) <= Allocated(bs)
  {
    if bs != [] {
      var n := |bs| - 1;
      InUseBelowAllocated(bs[..n]);
      UsageBounds(bs[n]);
    }
  }

  /** l_inuse and l_allocated stay below 2^64 in every well-formed heap, so neither counter wraps. */
  lemma CountersFit(bs: seq<Block>)
    requires LayoutOk(bs)
    ensures 0 <= InUse(bs) <= Allocated(bs) < TWO64
  {
    InUseBelowAllocated(bs);
    AllocatedCountsBytes(bs);
    RangeSize(1, TWO64);
    assert Owned(bs) <= Range(1, TWO64) by {
      forall x | x in Owned(bs)
        ensures x in Range(1, TWO64)
      {
        OwnedFrom(bs, x);
        var i :| 0 <= i < |bs| && x in Bytes(bs[i]);
        assert BlockOk(bs[i]);
      }
    }
    SubsetSize(Owned(bs), Range(1, TWO64));
  }

  lemma {:induction false} SubsetSize(a: set<int>, b: set<int>)
    requires a <= b
    ensures |a| <= |b|
  {
    assert b == a + (b - a);
  }
}
