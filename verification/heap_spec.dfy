/** What each heap operation does to the abstract layout, and what that keeps. */
module HeapSpec {
  import opened Words
  import opened HeapLayout

  // ----- Alignment of payloads (the ALIGN macro) -----

  function AlignUp(x: int): (r: int)
    ensures x <= r < x + 16 && r % 16 == 0
  {
    if x % 16 == 0 then x else x + 16 - x % 16
  }

  /** The pointer handed out for a chunk: 16 bytes of alignment information, then round up. */
  function Payload(c: Chunk): int { AlignUp(c.at + HEADER + 16) }

  /** The requested bytes lie inside their chunk, behind its header and its alignment byte. */
  lemma PayloadInside(b: Block, c: Chunk)
    requires ChunkOk(b, c)
    ensures Payload(c) % 16 == 0
    ensures c.at + HEADER <= Payload(c) - 16 < Payload(c) && Payload(c) + c.req <= End(c)
    ensures 16 <= Payload(c) - (c.at + HEADER) < SLACK
  {
  }

  // ----- Page supply -----

  function PagesNeeded(size: int): int {
    var n := (size + 2 * HEADER + PAGE - 1) / PAGE;
    if n < MIN_PAGES then MIN_PAGES else n
  }

  function FreshBlock(page: int, req: int): Block {
    var n := PagesNeeded(req + SLACK);
    Block(page, n, n * PAGE, [])
  }

  /** The hook contract: NULL, or a region that no block in use overlaps. */
  ghost predicate SupplyOk(bs: seq<Block>, page: int, req: int) {
    page == 0 || (0 < page && Limit(FreshBlock(page, req)) <= TWO64
                  && forall i | 0 <= i < |bs| :: Apart(bs[i], FreshBlock(page, req)))
  }

  /** The block size as allocate_new_page computes it, in `unsigned int` arithmetic. */
  function BlockBytes32(size: int): int {
    var st := U32(U32(U32(size) + HEADER) + HEADER);
    var n := if st % PAGE == 0 then st / PAGE else st / PAGE + 1;
    var pages := if n < MIN_PAGES then MIN_PAGES else n;
    U32(pages * PAGE)
  }

  /**
   A new block holds the request that caused it exactly up to MAX_REQUEST;
   above it the 32-bit block size falls short of the request.
   */
  lemma NewBlockFitsIffBounded(req: nat)
    ensures BlockBytes32(req + SLACK) >= req + SLACK + 2 * HEADER <==> req <= MAX_REQUEST
    ensures req <= MAX_REQUEST ==> BlockBytes32(req + SLACK) == PagesNeeded(req + SLACK) * PAGE
  {
    var size := req + SLACK;
    if req <= MAX_REQUEST {
      assert U32(U32(U32(size) + HEADER) + HEADER) == size + 80;
    } else if size + 80 >= TWO32 {
    } else {
      var st := size + 80;
      assert U32(U32(U32(size) + HEADER) + HEADER) == st;
      assert TWO32 - PAGE < st < TWO32 && st % PAGE != 0;
      assert (st / PAGE + 1) * PAGE == TWO32;
    }
  }

  // ----- kmalloc -----

  function InsertChunk(b: Block, k: nat, c: Chunk): Block
    requires k <= |b.chunks|
  {
    b.(chunks := b.chunks[..k] + [c] + b.chunks[k..])
  }

  function NewChunk(b: Block, k: nat, req: int): Chunk
    requires k <= |b.chunks|
  {
    Chunk(GapStart(b, k), req + SLACK, req)
  }

  /** Bytes a request takes out of a block. */
  function Need(req: int): int { req + SLACK + HEADER }

  function FirstFit(b: Block, req: int): nat { FitFrom(b, 0, Need(req)) }

  function PlacedChunk(b: Block, req: int): Chunk {
    if FirstFit(b, req) <= |b.chunks| then NewChunk(b, FirstFit(b, req), req) else Chunk(0, 0, 0)
  }

  /** First fit inside one block; the block unchanged when nothing fits. */
  function Place(b: Block, req: int): Block {
    if FirstFit(b, req) <= |b.chunks| then InsertChunk(b, FirstFit(b, req), PlacedChunk(b, req)) else b
  }

  /** Position of the block at an address; |bs| if there is none. */
  function IndexOf(bs: seq<Block>, at: int): (r: nat)
    ensures r <= |bs| && (r < |bs| ==> bs[r].at == at)
    ensures forall i | 0 <= i < r :: bs[i].at != at
  {
    if bs == [] || bs[0].at == at then 0 else 1 + IndexOf(bs[1..], at)
  }

  /** Where the search starts: at the best bet if that one has more than enough free bytes. */
  function StartAt(bs: seq<Block>, best: int, req: int): (r: nat)
    ensures r <= |bs| && (bs != [] ==> r < |bs|)
  {
    var i := IndexOf(bs, best);
    if best != 0 && i < |bs| && bs[i].size - Usage(bs[i]) > Need(req) then i else 0
  }

  ghost function FromOrRestart(bs: seq<Block>, i: nat, req: int): (r: nat)
    requires i <= |bs|
    ensures r <= |bs|
  {
    var j := BlockFrom(bs, i, Need(req));
    if j < |bs| then j else BlockFrom(bs, 0, Need(req))
  }

  ghost function ChosenBlock(bs: seq<Block>, best: int, req: int): (r: nat)
    ensures r <= |bs|
  {
    FromOrRestart(bs, StartAt(bs, best, req), req)
  }

  ghost function Malloc(bs: seq<Block>, best: int, req: int, page: int): seq<Block> {
    var i := ChosenBlock(bs, best, req);
    if i < |bs| then bs[i := Place(bs[i], req)]
    else if page == 0 then bs
    else bs + [Place(FreshBlock(page, req), req)]
  }

  ghost function MallocChunk(bs: seq<Block>, best: int, req: int, page: int): Chunk {
    var i := ChosenBlock(bs, best, req);
    PlacedChunk(if i < |bs| then bs[i] else FreshBlock(page, req), req)
  }

  ghost predicate MallocFails(bs: seq<Block>, req: int, page: int) {
    page == 0 && NoGapHolds(bs, Need(req))
  }

  ghost predicate NoGapHolds(bs: seq<Block>, need: int) {
    forall i, k | 0 <= i < |bs| && 0 <= k <= |bs[i].chunks| :: Gap(bs[i], k) < need
  }

  lemma NoFitNoGap(b: Block, need: int)
    ensures Fits(b, need) <==> exists k :: 0 <= k <= |b.chunks| && Gap(b, k) >= need
  {
    var r := FitFrom(b, 0, need);
    if r <= |b.chunks| {
      assert Gap(b, r) >= need;
    }
  }

  /**
   The search is complete whatever the hint is: a new block is asked for
   exactly when no gap of any block holds the request.
   */
  lemma SearchComplete(bs: seq<Block>, best: int, req: int)
    ensures ChosenBlock(bs, best, req) == |bs| <==> NoGapHolds(bs, Need(req))
    ensures ChosenBlock(bs, best, req) < |bs| ==> Fits(bs[ChosenBlock(bs, best, req)], Need(req))
  {
    forall i | 0 <= i < |bs|
      ensures Fits(bs[i], Need(req)) <==> exists k :: 0 <= k <= |bs[i].chunks| && Gap(bs[i], k) >= Need(req)
    {
      NoFitNoGap(bs[i], Need(req));
    }
  }

  lemma InsertSum(b: Block, k: nat, c: Chunk)
    requires k <= |b.chunks|
    ensures Usage(InsertChunk(b, k, c)) == Usage(b) + c.size + HEADER
    ensures ChunkBytes(InsertChunk(b, k, c)) == ChunkBytes(b) + c.size
  {
    SizeSumMiddle(b.chunks[..k], c, b.chunks[k..]);
    assert b.chunks[..k] + b.chunks[k..] == b.chunks;
  }

  lemma InsertOk(b: Block, k: nat, c: Chunk)
    requires BlockOk(b) && k <= |b.chunks| && ChunkOk(b, c)
    requires GapStart(b, k) <= c.at && End(c) <= GapStart(b, k) + Gap(b, k)
    ensures BlockOk(InsertChunk(b, k, c))
  {
    var d := InsertChunk(b, k, c);
    forall i | 0 <= i < |d.chunks|
      ensures ChunkOk(d, d.chunks[i])
    {
      assert ChunkOk(b, if i < k then b.chunks[i] else if i == k then c else b.chunks[i - 1]);
    }
    forall i, j | 0 <= i < j < |d.chunks|
      ensures Ordered(d, i, j)
    {
      InsertSorted(b, k, c, i, j);
    }
  }

  lemma InsertSorted(b: Block, k: nat, c: Chunk, i: int, j: int)
    requires BlockOk(b) && k <= |b.chunks| && 0 <= i < j <= |b.chunks|
    requires GapStart(b, k) <= c.at && End(c) <= GapStart(b, k) + Gap(b, k)
    ensures Ordered(InsertChunk(b, k, c), i, j)
  {
    var cs := b.chunks;
    var ds := InsertChunk(b, k, c).chunks;
    assert forall m | 0 <= m < |ds| :: ds[m] == if m < k then cs[m] else if m == k then c else cs[m - 1];
    if j == k {
      assert ChunkOk(b, cs[k - 1]);
      assert i == k - 1 || Ordered(b, i, k - 1);
    } else if i == k {
      assert ChunkOk(b, cs[k]);
      assert j - 1 == k || Ordered(b, k, j - 1);
    } else if j < k {
      assert Ordered(b, i, j);
    } else {
      assert Ordered(b, if i < k then i else i - 1, j - 1);
    }
  }

  lemma PlaceOk(b: Block, req: int)
    requires BlockOk(b) && 0 <= req && Fits(b, Need(req))
    ensures BlockOk(Place(b, req)) && Place(b, req).chunks != []
    ensures ChunkOk(b, PlacedChunk(b, req))
    ensures Usage(Place(b, req)) == Usage(b) + Need(req)
    ensures ChunkBytes(Place(b, req)) == ChunkBytes(b) + req + SLACK
  {
    var k := FirstFit(b, req);
    var c := PlacedChunk(b, req);
    assert k == 0 || ChunkOk(b, b.chunks[k - 1]);
    assert k == |b.chunks| || ChunkOk(b, b.chunks[k]);
    InsertOk(b, k, c);
    InsertSum(b, k, c);
  }

  lemma FreshOk(bs: seq<Block>, page: int, req: int)
    requires 0 <= req <= MAX_REQUEST && page != 0 && SupplyOk(bs, page, req)
    ensures BlockOk(FreshBlock(page, req)) && FirstFit(FreshBlock(page, req), req) == 0
    ensures Fits(FreshBlock(page, req), Need(req))
    ensures Usage(FreshBlock(page, req)) == HEADER && ChunkBytes(FreshBlock(page, req)) == 0
  {
    var b := FreshBlock(page, req);
    assert Gap(b, 0) >= Need(req);
  }

  /** Replacing a block in place, with the same range, keeps the layout. */
  lemma UpdateOk(bs: seq<Block>, i: nat, b: Block)
    requires LayoutOk(bs) && i < |bs| && BlockOk(b) && b.at == bs[i].at && b.size == bs[i].size
    ensures LayoutOk(bs[i := b])
  {
    var cs := bs[i := b];
    forall p, q | 0 <= p < q < |cs|
      ensures Apart(cs[p], cs[q])
    {
      assert Apart(bs[p], bs[q]);
    }
  }

  lemma UpdateSums(bs: seq<Block>, i: nat, b: Block)
    requires i < |bs| && b.size == bs[i].size
    ensures Allocated(bs[i := b]) == Allocated(bs)
    ensures InUse(bs[i := b]) == InUse(bs) - ChunkBytes(bs[i]) + ChunkBytes(b)
  {
    BlockSumsMiddle(bs[..i], bs[i], bs[i + 1..]);
    BlockSumsMiddle(bs[..i], b, bs[i + 1..]);
    SplitAround(bs, i);
    UpdateAround(bs, i, b);
  }

  lemma AppendOk(bs: seq<Block>, b: Block)
    requires LayoutOk(bs) && BlockOk(b) && forall i | 0 <= i < |bs| :: Apart(bs[i], b)
    ensures LayoutOk(bs + [b])
  {
  }

  lemma AppendSums(bs: seq<Block>, b: Block)
    ensures Allocated(bs + [b]) == Allocated(bs) + b.size
    ensures InUse(bs + [b]) == InUse(bs) + ChunkBytes(b)
  {
    assert (bs + [b])[..|bs|] == bs;
  }

  /** kmalloc keeps the layout well formed and leaves no block empty. */
  lemma MallocKeeps(bs: seq<Block>, best: int, req: int, page: int)
    requires LayoutOk(bs) && 0 <= req <= MAX_REQUEST && SupplyOk(bs, page, req)
    ensures LayoutOk(Malloc(bs, best, req, page))
    ensures NoEmptyBlock(bs) ==> NoEmptyBlock(Malloc(bs, best, req, page))
  {
    SearchComplete(bs, best, req);
    var i := ChosenBlock(bs, best, req);
    if i < |bs| {
      PlaceOk(bs[i], req);
      UpdateOk(bs, i, Place(bs[i], req));
    } else if page != 0 {
      FreshOk(bs, page, req);
      PlaceOk(FreshBlock(page, req), req);
      AppendOk(bs, Place(FreshBlock(page, req), req));
    }
  }

  /** kmalloc accounts for every byte it takes: req + 32 in use, and a whole block only if it added one. */
  lemma MallocCounts(bs: seq<Block>, best: int, req: int, page: int)
    requires LayoutOk(bs) && 0 <= req <= MAX_REQUEST && SupplyOk(bs, page, req)
    ensures InUse(Malloc(bs, best, req, page))
         == InUse(bs) + (if MallocFails(bs, req, page) then 0 else req + SLACK)
    ensures Allocated(Malloc(bs, best, req, page))
         == Allocated(bs) + (if page != 0 && NoGapHolds(bs, Need(req)) then FreshBlock(page, req).size else 0)
  {
    SearchComplete(bs, best, req);
    var i := ChosenBlock(bs, best, req);
    if i < |bs| {
      PlaceOk(bs[i], req);
      UpdateSums(bs, i, Place(bs[i], req));
    } else if page != 0 {
      FreshOk(bs, page, req);
      PlaceOk(FreshBlock(page, req), req);
      AppendSums(bs, Place(FreshBlock(page, req), req));
    }
  }

  /** Where the chunk of a successful kmalloc sits in the new layout. */
  lemma MallocLocated(bs: seq<Block>, best: int, req: int, page: int) returns (i: nat, k: nat)
    requires LayoutOk(bs) && 0 <= req <= MAX_REQUEST && SupplyOk(bs, page, req)
    requires !MallocFails(bs, req, page)
    ensures i == ChosenBlock(bs, best, req)
    ensures k == FirstFit(if i < |bs| then bs[i] else FreshBlock(page, req), req)
    ensures var cs := Malloc(bs, best, req, page);
            && i < |cs| && k < |cs[i].chunks|
            && cs[i].chunks[k] == MallocChunk(bs, best, req, page)
            && Located(cs, i, k, MallocChunk(bs, best, req, page).at)
            && MallocChunk(bs, best, req, page).req == req
  {
    SearchComplete(bs, best, req);
    i := ChosenBlock(bs, best, req);
    if i == |bs| {
      FreshOk(bs, page, req);
    }
    k := FirstFit(if i < |bs| then bs[i] else FreshBlock(page, req), req);
  }

  /** Every chunk that was live before a kmalloc is live after it, unchanged. */
  lemma MallocKeepsChunks(bs: seq<Block>, best: int, req: int, page: int, i: int, j: int)
    requires LayoutOk(bs) && 0 <= req && 0 <= i < |bs| && 0 <= j < |bs[i].chunks|
    ensures var cs := Malloc(bs, best, req, page);
            exists j' :: 0 <= i < |cs| && 0 <= j' < |cs[i].chunks| && cs[i].chunks[j'] == bs[i].chunks[j]
  {
    var cs := Malloc(bs, best, req, page);
    if i == ChosenBlock(bs, best, req) && FirstFit(bs[i], req) <= j {
      var j' := if FirstFit(bs[i], req) <= |bs[i].chunks| then j + 1 else j;
      assert cs[i].chunks[j'] == bs[i].chunks[j];
    } else {
      assert cs[i].chunks[j] == bs[i].chunks[j];
    }
  }

  /** Where the new chunk and an old one are after a kmalloc, and that they are two. */
  lemma AfterMalloc(bs: seq<Block>, best: int, req: int, page: int, i: nat, j: nat)
    returns (a: nat, k: nat, j': nat)
    requires LayoutOk(bs) && 0 <= req <= MAX_REQUEST && SupplyOk(bs, page, req) && !MallocFails(bs, req, page)
    requires i < |bs| && j < |bs[i].chunks|
    ensures var cs := Malloc(bs, best, req, page);
            && a < |cs| && k < |cs[a].chunks| && cs[a].chunks[k] == MallocChunk(bs, best, req, page)
            && cs[a].chunks[k].req == req
            && i < |cs| && j' < |cs[i].chunks| && cs[i].chunks[j'] == bs[i].chunks[j] && (a != i || k != j')
  {
    a, k := MallocLocated(bs, best, req, page);
    j' := if a == i && k <= j then j + 1 else j;
  }

  // ----- The hint -----

  /** Free bytes of a block in all. */
  function Room(b: Block): int { b.size - Usage(b) }

  /** Free bytes of the block the hint names, 0 for no hint. */
  function HintRoom(bs: seq<Block>, best: int): int {
    var h := IndexOf(bs, best);
    if best != 0 && h < |bs| then Room(bs[h]) else 0
  }

  /** The hint has `room` free bytes, at least `floor` and at least as many as each of the blocks lo, ..., hi - 1. */
  ghost predicate Noted(bs: seq<Block>, lo: int, hi: int, best: int, room: int, floor: int) {
    && 0 <= lo && room == HintRoom(bs, best) && room >= floor && (best == 0 || Linked(bs, best))
    && forall j | lo <= j < hi && j < |bs| :: Room(bs[j]) <= room
  }

  /** The hint when the search has ended: it has seen the chosen block, or all of them. */
  ghost predicate Settled(bs: seq<Block>, extra: Block, chosen: int, lo: int, best: int, room: int, floor: int) {
    && lo <= chosen
    && (Noted(bs, lo, chosen + 1, best, room, floor) || Noted(bs + [extra], lo, chosen + 1, best, room, floor))
  }

  lemma NotedBlock(bs: seq<Block>, lo: int, i: int, best: int, room: int, floor: int, best': int, room': int)
    requires LayoutOk(bs) && 0 <= lo <= i < |bs| && Noted(bs, lo, i, best, room, floor)
    requires best' == if room < Room(bs[i]) then bs[i].at else best
    requires room' == if room < Room(bs[i]) then Room(bs[i]) else room
    ensures Noted(bs, lo, i + 1, best', room', floor)
  {
    if room < Room(bs[i]) {
      assert BlockOk(bs[i]);
      var h := IndexOf(bs, best');
      if h < i {
        BlocksDistinct(bs, h, i);
      }
    }
  }

  lemma NotedGrows(bs: seq<Block>, b: Block, lo: int, best: int, room: int, floor: int)
    requires Noted(bs, lo, |bs|, best, room, floor)
    ensures Noted(bs + [b], lo, |bs|, best, room, floor)
  {
    if best != 0 {
      IndexOfPrefix(bs, b, best);
      var i :| 0 <= i < |bs| && bs[i].at == best;
      assert (bs + [b])[i].at == best;
    }
  }

  lemma {:induction false} IndexOfPrefix(bs: seq<Block>, b: Block, at: int)
    requires Linked(bs, at)
    ensures IndexOf(bs + [b], at) == IndexOf(bs, at) < |bs|
  {
    var i :| 0 <= i < |bs| && bs[i].at == at;
    if bs[0].at != at {
      assert (bs + [b])[1..] == bs[1..] + [b];
      assert bs[1..][i - 1].at == at;
      IndexOfPrefix(bs[1..], b, at);
    }
  }

  /**
   kfree gives up a hint to the block it gives back, and moves it to a block it
   leaves with more room than the hint has.
   */
  ghost predicate HintFreed(bs: seq<Block>, i: int, now: seq<Block>, best: int, hint: int)
    requires 0 <= i < |bs|
  {
    && (|bs[i].chunks| == 1 ==> hint == if best == bs[i].at then 0 else best)
    && (|bs[i].chunks| > 1 && best == 0 ==> hint == 0)
    && (|bs[i].chunks| > 1 ==> forall h | 0 <= h < |now| && i < |now| && now[h].at == best ::
          hint == if I32(Room(now[i])) > I32(Room(now[h])) then now[i].at else best)
  }

  // ----- kmalloc in terms of gaps -----

  ghost predicate HasGap(b: Block, need: int) {
    exists k :: 0 <= k <= |b.chunks| && Gap(b, k) >= need
  }

  /** Block i is the first from block `from` on with a gap of that size. */
  ghost predicate FirstFrom(bs: seq<Block>, from: int, i: int, need: int) {
    && 0 <= from <= i < |bs| && HasGap(bs[i], need)
    && forall j | from <= j < i :: !HasGap(bs[j], need)
  }

  ghost predicate NoneFrom(bs: seq<Block>, from: int, need: int) {
    forall j | 0 <= from <= j < |bs| :: !HasGap(bs[j], need)
  }

  /** Gap k is the first of the block of that size. */
  ghost predicate FirstGap(b: Block, k: int, need: int) {
    && 0 <= k <= |b.chunks| && Gap(b, k) >= need
    && forall j | 0 <= j < k :: Gap(b, j) < need
  }

  /** c is the block b with one more chunk, at the start of its first gap that holds it; p is the pointer to it. */
  ghost predicate GainsChunk(b: Block, c: Block, req: int, p: int) {
    exists k :: FirstGap(b, k, req + 72)
                && c == b.(chunks := b.chunks[..k] + [Chunk(GapStart(b, k), req + 32, req)] + b.chunks[k..])
                && p % 16 == 0 && GapStart(b, k) + 56 <= p < GapStart(b, k) + 72
  }

  /** The best bet is block h, and it has more than enough free bytes in all. */
  ghost predicate Promises(bs: seq<Block>, best: int, req: int, h: int) {
    best != 0 && 0 <= h < |bs| && bs[h].at == best && Room(bs[h]) > req + 72
  }

  /** The whole outcome goes into block i. */
  ghost predicate GoesTo(bs: seq<Block>, i: int, req: int, now: seq<Block>, p: int) {
    0 <= i < |bs| && |now| == |bs| && now == bs[i := now[i]] && GainsChunk(bs[i], now[i], req, p)
  }

  /** n pages are what a request needs besides two headers, rounded up, and at least 16. */
  ghost predicate Rounded(n: int, req: int) {
    n >= 16 && 4096 * n >= req + 112 && (n > 16 ==> 4096 * (n - 1) < req + 112)
  }

  /** The search begins at block s: at a best bet that promises enough, else at the root. */
  ghost predicate Begins(bs: seq<Block>, best: int, req: int, s: int) {
    Promises(bs, best, req, s) || (s == 0 && forall h :: !Promises(bs, best, req, h))
  }

  /** Block i is the first with a gap that holds the request, from where the search begins, then from the root. */
  ghost predicate Wins(bs: seq<Block>, best: int, req: int, i: int) {
    exists s :: Begins(bs, best, req, s) && FirstOrRestart(bs, s, i, req + 72)
  }

  ghost predicate FirstOrRestart(bs: seq<Block>, s: int, i: int, need: int) {
    FirstFrom(bs, s, i, need) || (NoneFrom(bs, s, need) && FirstFrom(bs, 0, i, need))
  }

  /**
   What kmalloc does, in gaps: the chunk goes to the winning block, or to a new
   one if there is none and pages are.
   */
  ghost predicate Allocates(bs: seq<Block>, best: int, req: int, page: int, now: seq<Block>, p: int) {
    && (forall i | Wins(bs, best, req, i) :: GoesTo(bs, i, req, now, p))
    && (NoneFrom(bs, 0, req + 72) && page == 0 ==> now == bs && p == 0)
    && (NoneFrom(bs, 0, req + 72) && page != 0 ==>
          && |now| == |bs| + 1 && now[..|bs|] == bs && Rounded(now[|bs|].pages, req)
          && GainsChunk(Block(page, now[|bs|].pages, 4096 * now[|bs|].pages, []), now[|bs|], req, p))
  }

  /** The search looks at block j: it begins at s and ends at i, past the last block and on from the first if i < s. */
  ghost predicate Visits(s: int, i: int, j: int) { if s <= i then s <= j <= i else j <= i || s <= j }

  /**
   kmalloc's hint never gets worse: with it comes at least as much room as the
   hint had before and as every block had that the search looked at, which are
   all of them if none takes the chunk.
   */
  ghost predicate HintLearns(bs: seq<Block>, best: int, req: int, extra: Block, hint: int) {
    exists room :: HintHas(bs, extra, hint, room) && room >= HintRoom(bs, best)
                   && (forall s, i, j | Begins(bs, best, req, s) && Wins(bs, best, req, i) && Visits(s, i, j)
                                        && 0 <= j < |bs| :: Room(bs[j]) <= room)
                   && (NoneFrom(bs, 0, req + 72) ==> forall j | 0 <= j < |bs| :: Room(bs[j]) <= room)
  }

  ghost predicate HintHas(bs: seq<Block>, extra: Block, hint: int, room: int) {
    room == HintRoom(bs, hint) || room == HintRoom(bs + [extra], hint)
  }

  lemma EmptyLearns(bs: seq<Block>, req: int, extra: Block)
    requires bs == []
    ensures HintLearns(bs, 0, req, extra, 0)
  {
    assert HintHas(bs, extra, 0, 0);
  }

  /** The search has gone from block lo on, or past the last block and on from the first; the floor only rises. */
  ghost predicate Onward(bs: seq<Block>, lo: int, floor: int, lo': int, floor': int) {
    floor <= floor' && (lo' == lo || (lo' == 0 && RoomBelow(bs, lo, floor')))
  }

  ghost predicate RoomBelow(bs: seq<Block>, lo: int, floor: int) {
    forall j | 0 <= j < |bs| && lo <= j :: Room(bs[j]) <= floor
  }

  lemma OnwardTwice(bs: seq<Block>, lo: int, floor: int, lo1: int, floor1: int, lo2: int, floor2: int)
    requires Onward(bs, lo, floor, lo1, floor1) && Onward(bs, lo1, floor1, lo2, floor2)
    ensures Onward(bs, lo, floor, lo2, floor2)
  {}

  lemma SettledLearns(bs: seq<Block>, best: int, req: int, extra: Block, lo: int, hint: int, room: int, floor: int)
    requires LayoutOk(bs) && Settled(bs, extra, ChosenBlock(bs, best, req), lo, hint, room, floor)
    requires Onward(bs, StartAt(bs, best, req), HintRoom(bs, best), lo, floor)
    requires ChosenBlock(bs, best, req) == |bs| ==> lo == 0
    ensures HintLearns(bs, best, req, extra, hint)
  {
    assert HintHas(bs, extra, hint, room);
    var chosen := ChosenBlock(bs, best, req);
    forall j | 0 <= j < |bs| && lo <= j <= chosen
      ensures Room(bs[j]) <= room
    {
      assert (bs + [extra])[j] == bs[j];
    }
    forall s, i, j | Begins(bs, best, req, s) && Wins(bs, best, req, i) && Visits(s, i, j) && 0 <= j < |bs|
      ensures Room(bs[j]) <= room
    {
      WinsIs(bs, best, req, i);
      StartAtIs(bs, best, req, s);
    }
    if NoneFrom(bs, 0, req + 72) {
      NothingChosen(bs, best, req);
    }
  }

  lemma HasGapIsFits(b: Block, need: int)
    ensures HasGap(b, need) <==> Fits(b, need)
  {
    NoFitNoGap(b, need);
  }

  lemma FirstFromIs(bs: seq<Block>, from: nat, i: int, req: int)
    requires from <= |bs| && FirstFrom(bs, from, i, req + 72)
    ensures BlockFrom(bs, from, Need(req)) == i
  {
    forall j | from <= j <= i
      ensures Fits(bs[j], Need(req)) <==> j == i
    {
      HasGapIsFits(bs[j], Need(req));
    }
  }

  lemma NoneFromIs(bs: seq<Block>, from: nat, req: int)
    requires from <= |bs| && NoneFrom(bs, from, req + 72)
    ensures BlockFrom(bs, from, Need(req)) == |bs|
  {
    forall j | from <= j < |bs|
      ensures !Fits(bs[j], Need(req))
    {
      HasGapIsFits(bs[j], Need(req));
    }
  }

  /** First fit in a block, as a gain of one chunk. */
  lemma PlaceGains(b: Block, req: int)
    requires Fits(b, Need(req))
    ensures GainsChunk(b, Place(b, req), req, Payload(PlacedChunk(b, req)))
  {
    assert FirstGap(b, FirstFit(b, req), req + 72);
  }

  lemma BlocksDistinct(bs: seq<Block>, p: int, q: int)
    requires LayoutOk(bs) && 0 <= p < |bs| && 0 <= q < |bs| && p != q
    ensures bs[p].at != bs[q].at
  {
    assert BlockOk(bs[p]) && BlockOk(bs[q]);
    if p < q {
      assert Apart(bs[p], bs[q]);
    } else {
      assert Apart(bs[q], bs[p]);
    }
  }

  /** A promising best bet is where the search starts, and nothing else is. */
  lemma StartAtIs(bs: seq<Block>, best: int, req: int, s: int)
    requires LayoutOk(bs) && Begins(bs, best, req, s)
    ensures StartAt(bs, best, req) == s
  {
    var i := IndexOf(bs, best);
    if Promises(bs, best, req, s) {
      if i < s {
        BlocksDistinct(bs, i, s);
      }
    } else if i < |bs| {
      assert !Promises(bs, best, req, i);
    }
  }

  lemma WinsIs(bs: seq<Block>, best: int, req: int, i: int)
    requires LayoutOk(bs) && Wins(bs, best, req, i)
    ensures ChosenBlock(bs, best, req) == i < |bs|
  {
    var s :| Begins(bs, best, req, s) && FirstOrRestart(bs, s, i, req + 72);
    StartAtIs(bs, best, req, s);
    if FirstFrom(bs, s, i, req + 72) {
      FirstFromIs(bs, s, i, req);
    } else {
      NoneFromIs(bs, s, req);
      FirstFromIs(bs, 0, i, req);
    }
  }

  /** Unless no block has a gap that holds the request, exactly one wins. */
  lemma SomeWins(bs: seq<Block>, best: int, req: int)
    requires LayoutOk(bs) && !NoneFrom(bs, 0, req + 72)
    ensures exists i :: Wins(bs, best, req, i) && forall j | Wins(bs, best, req, j) :: j == i
  {
    var s := StartAt(bs, best, req);
    BeginsThere(bs, best, req);
    var i := ChosenBlock(bs, best, req);
    ChosenIsFirst(bs, s, req);
    assert Wins(bs, best, req, i);
    forall j | Wins(bs, best, req, j)
      ensures j == i
    {
      WinsIs(bs, best, req, j);
    }
  }

  lemma BeginsThere(bs: seq<Block>, best: int, req: int)
    requires LayoutOk(bs)
    ensures Begins(bs, best, req, StartAt(bs, best, req))
  {
    if h :| Promises(bs, best, req, h) {
      StartAtIs(bs, best, req, h);
    } else {
      StartAtIs(bs, best, req, 0);
    }
  }

  lemma ChosenIsFirst(bs: seq<Block>, s: nat, req: int)
    requires s <= |bs| && !NoneFrom(bs, 0, req + 72)
    ensures FirstOrRestart(bs, s, FromOrRestart(bs, s, req), req + 72)
  {
    forall j | 0 <= j < |bs|
      ensures HasGap(bs[j], req + 72) <==> Fits(bs[j], Need(req))
    {
      HasGapIsFits(bs[j], Need(req));
    }
  }

  lemma MallocGoesTo(bs: seq<Block>, best: int, req: int, page: int, i: int)
    requires 0 <= i < |bs| && ChosenBlock(bs, best, req) == i
    ensures GoesTo(bs, i, req, Malloc(bs, best, req, page), Payload(MallocChunk(bs, best, req, page)))
    ensures !MallocFails(bs, req, page)
  {
    SearchComplete(bs, best, req);
    PlaceGains(bs[i], req);
  }

  lemma MallocAdds(bs: seq<Block>, best: int, req: int, page: int)
    requires ChosenBlock(bs, best, req) == |bs| && page != 0 && 0 <= req <= MAX_REQUEST && SupplyOk(bs, page, req)
    ensures var now := Malloc(bs, best, req, page);
            && |now| == |bs| + 1 && now[..|bs|] == bs && Rounded(now[|bs|].pages, req)
            && GainsChunk(Block(page, now[|bs|].pages, 4096 * now[|bs|].pages, []), now[|bs|], req,
                          Payload(MallocChunk(bs, best, req, page)))
  {
    FreshOk(bs, page, req);
    PlaceGains(FreshBlock(page, req), req);
    PagesAreRounded(req);
  }

  lemma PagesAreRounded(req: int)
    requires 0 <= req
    ensures Rounded(PagesNeeded(req + SLACK), req)
  {}

  lemma MallocPlaces(bs: seq<Block>, best: int, req: int, page: int)
    requires LayoutOk(bs) && 0 <= req <= MAX_REQUEST && SupplyOk(bs, page, req)
    ensures Allocates(bs, best, req, page, Malloc(bs, best, req, page),
                      if MallocFails(bs, req, page) then 0 else Payload(MallocChunk(bs, best, req, page)))
  {
    forall i | Wins(bs, best, req, i)
      ensures GoesTo(bs, i, req, Malloc(bs, best, req, page), Payload(MallocChunk(bs, best, req, page)))
      ensures !MallocFails(bs, req, page)
    {
      WinsIs(bs, best, req, i);
      MallocGoesTo(bs, best, req, page, i);
    }
    if NoneFrom(bs, 0, req + 72) {
      NothingChosen(bs, best, req);
      if page != 0 {
        MallocAdds(bs, best, req, page);
      }
    }
  }

  lemma NothingChosen(bs: seq<Block>, best: int, req: int)
    requires NoneFrom(bs, 0, req + 72)
    ensures ChosenBlock(bs, best, req) == |bs| && NoGapHolds(bs, Need(req))
  {
    NoneFromIs(bs, 0, req);
    NoneFromIs(bs, StartAt(bs, best, req), req);
    SearchComplete(bs, best, req);
  }

  // ----- kfree -----

  function RemoveChunk(b: Block, j: nat): Block
    requires j < |b.chunks|
  {
    b.(chunks := b.chunks[..j] + b.chunks[j + 1..])
  }

  /** Unlink chunk j of block i, and the block with it if that was its last chunk. */
  function Free(bs: seq<Block>, i: nat, j: nat): seq<Block>
    requires i < |bs| && j < |bs[i].chunks|
  {
    if |bs[i].chunks| == 1 then bs[..i] + bs[i + 1..] else bs[i := RemoveChunk(bs[i], j)]
  }

  lemma RemoveOk(b: Block, j: nat)
    requires BlockOk(b) && j < |b.chunks|
    ensures BlockOk(RemoveChunk(b, j))
  {
    var ds := RemoveChunk(b, j).chunks;
    assert forall i | 0 <= i < |ds| :: ds[i] == b.chunks[if i < j then i else i + 1];
    forall i | 0 <= i < |ds|
      ensures ChunkOk(RemoveChunk(b, j), ds[i])
    {
      assert ChunkOk(b, b.chunks[if i < j then i else i + 1]);
    }
    forall p, q | 0 <= p < q < |ds|
      ensures Ordered(RemoveChunk(b, j), p, q)
    {
      assert Ordered(b, if p < j then p else p + 1, if q < j then q else q + 1);
    }
  }

  lemma RemoveSum(b: Block, j: nat)
    requires j < |b.chunks|
    ensures Usage(RemoveChunk(b, j)) == Usage(b) - b.chunks[j].size - HEADER
    ensures ChunkBytes(RemoveChunk(b, j)) == ChunkBytes(b) - b.chunks[j].size
  {
    SizeSumMiddle(b.chunks[..j], b.chunks[j], b.chunks[j + 1..]);
    SplitAround(b.chunks, j);
  }

  lemma DropOk(bs: seq<Block>, i: nat)
    requires LayoutOk(bs) && i < |bs|
    ensures LayoutOk(bs[..i] + bs[i + 1..])
  {
    var cs := bs[..i] + bs[i + 1..];
    assert forall p | 0 <= p < |cs| :: cs[p] == bs[if p < i then p else p + 1];
    forall p, q | 0 <= p < q < |cs|
      ensures Apart(cs[p], cs[q])
    {
      assert Apart(bs[if p < i then p else p + 1], bs[if q < i then q else q + 1]);
    }
  }

  lemma DropSums(bs: seq<Block>, i: nat)
    requires i < |bs|
    ensures Allocated(bs[..i] + bs[i + 1..]) == Allocated(bs) - bs[i].size
    ensures InUse(bs[..i] + bs[i + 1..]) == InUse(bs) - ChunkBytes(bs[i])
  {
    SplitAround(bs, i);
    BlockSumsMiddle(bs[..i], bs[i], bs[i + 1..]);
  }

  /** kfree keeps the layout well formed. */
  lemma FreeKeeps(bs: seq<Block>, i: nat, j: nat)
    requires LayoutOk(bs) && i < |bs| && j < |bs[i].chunks|
    ensures LayoutOk(Free(bs, i, j))
    ensures NoEmptyBlock(bs) ==> NoEmptyBlock(Free(bs, i, j))
  {
    if |bs[i].chunks| == 1 {
      DropOk(bs, i);
    } else {
      RemoveOk(bs[i], j);
      UpdateOk(bs, i, RemoveChunk(bs[i], j));
    }
  }

  /** kfree returns exactly the bytes of the chunk, and the block's bytes with its last chunk. */
  lemma FreeCounts(bs: seq<Block>, i: nat, j: nat)
    requires i < |bs| && j < |bs[i].chunks|
    ensures InUse(Free(bs, i, j)) == InUse(bs) - bs[i].chunks[j].size
    ensures Allocated(Free(bs, i, j)) == Allocated(bs) - (if |bs[i].chunks| == 1 then bs[i].size else 0)
  {
    RemoveSum(bs[i], j);
    if |bs[i].chunks| == 1 {
      DropSums(bs, i);
    } else {
      UpdateSums(bs, i, RemoveChunk(bs[i], j));
    }
  }

  lemma FreeKeepsOthers(bs: seq<Block>, i: nat, j: nat, p: int, q: int, at: int)
    requires LayoutOk(bs) && i < |bs| && j < |bs[i].chunks|
    requires Located(bs, p, q, at) && at != bs[i].chunks[j].at
    ensures Live(Free(bs, i, j), at)
  {
    var p' := if |bs[i].chunks| == 1 && p > i then p - 1 else p;
    var q' := if p == i && q > j then q - 1 else q;
    assert Located(Free(bs, i, j), p', q', at);
  }

  lemma FreeAddsNothing(bs: seq<Block>, i: nat, j: nat, p: int, q: int, at: int)
    requires LayoutOk(bs) && i < |bs| && j < |bs[i].chunks|
    requires Located(Free(bs, i, j), p, q, at)
    ensures Live(bs, at) && at != bs[i].chunks[j].at
  {
    var dropped := |bs[i].chunks| == 1;
    var p' := if dropped && p >= i then p + 1 else p;
    var q' := if !dropped && p == i && q >= j then q + 1 else q;
    assert Located(bs, p', q', at);
    if at == bs[i].chunks[j].at {
      LocatedUnique(bs, p', q', i, j, at);
    }
  }

  /** kfree ends the life of exactly one chunk. */
  lemma FreeEndsOne(bs: seq<Block>, i: nat, j: nat, at: int)
    requires LayoutOk(bs) && i < |bs| && j < |bs[i].chunks|
    ensures Live(Free(bs, i, j), at) <==> Live(bs, at) && at != bs[i].chunks[j].at
  {
    if Live(bs, at) && at != bs[i].chunks[j].at {
      var p, q :| Located(bs, p, q, at);
      FreeKeepsOthers(bs, i, j, p, q, at);
    }
    if Live(Free(bs, i, j), at) {
      var p, q :| Located(Free(bs, i, j), p, q, at);
      FreeAddsNothing(bs, i, j, p, q, at);
    }
  }

  lemma RemoveUndoesInsert(b: Block, k: nat, c: Chunk)
    requires k <= |b.chunks|
    ensures RemoveChunk(InsertChunk(b, k, c), k) == b
  {
    assert RemoveChunk(InsertChunk(b, k, c), k).chunks == b.chunks;
  }

  lemma FreeUndoesPlace(bs: seq<Block>, i: nat, req: int)
    requires i < |bs| && bs[i].chunks != [] && FirstFit(bs[i], req) <= |bs[i].chunks|
    ensures Free(bs[i := Place(bs[i], req)], i, FirstFit(bs[i], req)) == bs
  {
    RemoveUndoesInsert(bs[i], FirstFit(bs[i], req), PlacedChunk(bs[i], req));
    assert bs[i := Place(bs[i], req)][i := bs[i]] == bs;
  }

  lemma FreeUndoesAppend(bs: seq<Block>, b: Block)
    requires |b.chunks| == 1
    ensures Free(bs + [b], |bs|, 0) == bs
  {
  }

  /**
   Freeing what kmalloc just returned restores the layout exactly, also when
   kmalloc had to add a block; with it come back both counters.
   */
  lemma FreeUndoesMalloc(bs: seq<Block>, best: int, req: int, page: int, i: nat, k: nat)
    requires LayoutOk(bs) && NoEmptyBlock(bs) && 0 <= req <= MAX_REQUEST && SupplyOk(bs, page, req)
    requires !MallocFails(bs, req, page)
    requires Located(Malloc(bs, best, req, page), i, k, MallocChunk(bs, best, req, page).at)
    ensures Free(Malloc(bs, best, req, page), i, k) == bs
  {
    var i', k' := MallocLocated(bs, best, req, page);
    assert i == i' && k == k' by {
      MallocKeeps(bs, best, req, page);
      LocatedUnique(Malloc(bs, best, req, page), i, k, i', k', MallocChunk(bs, best, req, page).at);
    }
    if i < |bs| {
      FreeUndoesPlace(bs, i, req);
    } else {
      FreshOk(bs, page, req);
      FreeUndoesAppend(bs, Place(FreshBlock(page, req), req));
    }
  }

  // ----- krealloc in place -----

  function ResizeChunk(b: Block, j: nat, req: int): Block
    requires j < |b.chunks|
  {
    b.(chunks := b.chunks[j := b.chunks[j].(req := req)])
  }

  function Resize(bs: seq<Block>, i: nat, j: nat, req: int): seq<Block>
    requires i < |bs| && j < |bs[i].chunks|
  {
    bs[i := ResizeChunk(bs[i], j, req)]
  }

  /** Of all the blocks and chunks only the recorded request of chunk (i, j) is another one, namely req. */
  ghost predicate Resized(bs: seq<Block>, i: nat, j: nat, req: int, now: seq<Block>)
    requires i < |bs| && j < |bs[i].chunks|
  {
    && |now| == |bs| && (forall p | 0 <= p < |bs| && p != i :: now[p] == bs[p])
    && now[i].at == bs[i].at && now[i].pages == bs[i].pages && now[i].size == bs[i].size
    && |now[i].chunks| == |bs[i].chunks|
    && (forall q | 0 <= q < |bs[i].chunks| && q != j :: now[i].chunks[q] == bs[i].chunks[q])
    && now[i].chunks[j] == Chunk(bs[i].chunks[j].at, bs[i].chunks[j].size, req)
  }

  lemma ResizeIs(bs: seq<Block>, i: nat, j: nat, req: int)
    requires i < |bs| && j < |bs[i].chunks|
    ensures Resized(bs, i, j, req, Resize(bs, i, j, req))
  {}

  lemma ResizeSum(b: Block, j: nat, req: int)
    requires j < |b.chunks|
    ensures ChunkBytes(ResizeChunk(b, j, req)) == ChunkBytes(b)
  {
    var c := b.chunks[j].(req := req);
    SizeSumMiddle(b.chunks[..j], b.chunks[j], b.chunks[j + 1..]);
    SizeSumMiddle(b.chunks[..j], c, b.chunks[j + 1..]);
    SplitAround(b.chunks, j);
    UpdateAround(b.chunks, j, c);
  }

  lemma ResizeOk(b: Block, j: nat, req: int)
    requires BlockOk(b) && j < |b.chunks| && 0 <= req <= b.chunks[j].req
    ensures BlockOk(ResizeChunk(b, j, req))
    ensures Usage(ResizeChunk(b, j, req)) == Usage(b) && ChunkBytes(ResizeChunk(b, j, req)) == ChunkBytes(b)
  {
    var d := ResizeChunk(b, j, req);
    forall p | 0 <= p < |d.chunks|
      ensures ChunkOk(d, d.chunks[p])
    {
      assert ChunkOk(b, b.chunks[p]);
    }
    ResizeSum(b, j, req);
    forall p, q | 0 <= p < q < |d.chunks|
      ensures Ordered(d, p, q)
    {
      assert Ordered(b, p, q);
    }
  }

  /** Shrinking in place changes one recorded request size and no byte of bookkeeping. */
  lemma ResizeKeeps(bs: seq<Block>, i: nat, j: nat, req: int)
    requires LayoutOk(bs) && i < |bs| && j < |bs[i].chunks| && 0 <= req <= bs[i].chunks[j].req
    ensures LayoutOk(Resize(bs, i, j, req))
    ensures NoEmptyBlock(bs) ==> NoEmptyBlock(Resize(bs, i, j, req))
    ensures InUse(Resize(bs, i, j, req)) == InUse(bs) && Allocated(Resize(bs, i, j, req)) == Allocated(bs)
  {
    ResizeOk(bs[i], j, req);
    UpdateOk(bs, i, ResizeChunk(bs[i], j, req));
    UpdateSums(bs, i, ResizeChunk(bs[i], j, req));
  }
}
