/**
 Whole runs of the heap.  A run is any sequence of layouts in which each one
 follows from the one before by a kmalloc, a kfree of a live chunk or an
 in-place krealloc, or by a caller's write into its own payload.  A krealloc
 that moves is a kmalloc, writes into the new payload and a kfree, and a
 kcalloc is a kmalloc and writes.  The hint l_bestBet may move to any linked
 block.
 */
module HeapRuns {
  import opened Words
  import opened HeapLayout
  import opened HeapSpec
  import opened HeapLinks

  datatype State = State(blocks: seq<Block>, best: int, mem: Memory)

  datatype Op =
    | Alloc(req: nat, page: int)
    | Release(i: nat, j: nat)
    | Shrink(i: nat, j: nat, req: nat)
    | Write(i: nat, j: nat, x: int, v: Byte)

  ghost predicate Inv(s: State) {
    && LayoutOk(s.blocks) && NoEmptyBlock(s.blocks) && (s.best == 0 || Linked(s.blocks, s.best))
    && TagsOk(s.blocks, s.mem)
  }

  /** What the code asks of its caller and of the page hook. */
  ghost predicate Enabled(s: State, op: Op) {
    match op
    case Alloc(req, page) => req <= MAX_REQUEST && SupplyOk(s.blocks, page, req)
    case Release(i, j) => i < |s.blocks| && j < |s.blocks[i].chunks|
    case Shrink(i, j, req) => i < |s.blocks| && j < |s.blocks[i].chunks| && req <= s.blocks[i].chunks[j].req
    case Write(i, j, x, v) => i < |s.blocks| && j < |s.blocks[i].chunks| && InPayload(s.blocks[i].chunks[j], x)
  }

  ghost function After(s: State, op: Op): seq<Block>
    requires Enabled(s, op)
  {
    match op
    case Alloc(req, page) => Malloc(s.blocks, s.best, req, page)
    case Release(i, j) => Free(s.blocks, i, j)
    case Shrink(i, j, req) => Resize(s.blocks, i, j, req)
    case Write(_, _, _, _) => s.blocks
  }

  /** What an operation does to memory: a kmalloc writes its alignment byte, a caller the byte it names. */
  ghost predicate MemoryAfter(s: State, op: Op, now: Memory) {
    match op
    case Alloc(req, page) =>
      if MallocFails(s.blocks, req, page) then now == s.mem
      else Tagged(MallocChunk(s.blocks, s.best, req, page), s.mem, now)
    case Release(_, _) => now == s.mem
    case Shrink(_, _, _) => now == s.mem
    case Write(_, _, x, v) => now == s.mem[x := v]
  }

  /** The alignment byte of c is written, and no other byte. */
  ghost predicate Tagged(c: Chunk, was: Memory, now: Memory) {
    TagOk(c, now) && forall x {:trigger Load(now, x)} | x != Payload(c) - 16 :: Load(now, x) == Load(was, x)
  }

  ghost predicate Next(s: State, op: Op, t: State) {
    && Enabled(s, op) && t.blocks == After(s, op) && (t.best == 0 || Linked(t.blocks, t.best))
    && MemoryAfter(s, op, t.mem)
  }

  ghost predicate Run(ss: seq<State>, ops: seq<Op>) {
    && |ss| == |ops| + 1
    && forall k | 0 <= k < |ops| :: Step(ss, ops, k)
  }

  ghost predicate Step(ss: seq<State>, ops: seq<Op>, k: int)
    requires |ss| == |ops| + 1 && 0 <= k < |ops|
  {
    Next(ss[k], ops[k], ss[k + 1])
  }

  /** Bytes an operation adds to what is in use. */
  ghost function Charge(s: State, op: Op): int
    requires Enabled(s, op)
  {
    match op
    case Alloc(req, page) => if MallocFails(s.blocks, req, page) then 0 else req + SLACK
    case Release(i, j) => -s.blocks[i].chunks[j].size
    case Shrink(_, _, _) => 0
    case Write(_, _, _, _) => 0
  }

  lemma NextKeeps(s: State, op: Op, t: State)
    requires Inv(s) && Next(s, op, t)
    ensures Inv(t) && InUse(t.blocks) == InUse(s.blocks) + Charge(s, op)
  {
    match op
    case Alloc(req, page) =>
      MallocKeeps(s.blocks, s.best, req, page);
      MallocCounts(s.blocks, s.best, req, page);
      MallocTags(s, op, t);
    case Release(i, j) =>
      FreeKeeps(s.blocks, i, j);
      FreeCounts(s.blocks, i, j);
      TagsAfterFree(s.blocks, i, j, s.mem);
    case Shrink(i, j, req) =>
      ResizeKeeps(s.blocks, i, j, req);
      ResizeTags(s.blocks, i, j, req, s.mem);
    case Write(i, j, x, v) =>
      WriteTags(s.blocks, i, j, x, v, s.mem);
  }

  lemma ResizeTags(bs: seq<Block>, i: nat, j: nat, req: int, mem: Memory)
    requires i < |bs| && j < |bs[i].chunks| && TagsOk(bs, mem)
    ensures TagsOk(Resize(bs, i, j, req), mem)
  {
    var cs := Resize(bs, i, j, req);
    forall p, q | 0 <= p < |cs| && 0 <= q < |cs[p].chunks|
      ensures TagOk(cs[p].chunks[q], mem)
    {
      assert TagOk(bs[p].chunks[q], mem);
    }
  }

  lemma WriteTags(bs: seq<Block>, i: nat, j: nat, x: int, v: Byte, mem: Memory)
    requires LayoutOk(bs) && i < |bs| && j < |bs[i].chunks| && TagsOk(bs, mem) && InPayload(bs[i].chunks[j], x)
    ensures TagsOk(bs, mem[x := v])
  {
    TagsAfterWrite(bs, i, j, mem, mem[x := v]);
  }

  /** After a kmalloc every chunk is the new one or an old one, and the old ones keep their alignment bytes. */
  lemma MallocTags(s: State, op: Op, t: State)
    requires Inv(s) && op.Alloc? && Next(s, op, t)
    ensures TagsOk(t.blocks, t.mem)
  {
    SearchComplete(s.blocks, s.best, op.req);
    if !MallocFails(s.blocks, op.req, op.page) {
      MallocKeeps(s.blocks, s.best, op.req, op.page);
      var a, k := MallocLocated(s.blocks, s.best, op.req, op.page);
      forall p, q | 0 <= p < |t.blocks| && 0 <= q < |t.blocks[p].chunks|
        ensures TagOk(t.blocks[p].chunks[q], t.mem)
      {
        if p != a || q != k {
          OldTag(s, op, t, a, k, p, q);
        }
      }
    }
  }

  lemma OldTag(s: State, op: Op, t: State, a: nat, k: nat, p: nat, q: nat)
    requires Inv(s) && op.Alloc? && Next(s, op, t) && !MallocFails(s.blocks, op.req, op.page) && LayoutOk(t.blocks)
    requires a == ChosenBlock(s.blocks, s.best, op.req)
    requires k == FirstFit(if a < |s.blocks| then s.blocks[a] else FreshBlock(op.page, op.req), op.req)
    requires a < |t.blocks| && k < |t.blocks[a].chunks|
    requires t.blocks[a].chunks[k] == MallocChunk(s.blocks, s.best, op.req, op.page)
    requires p < |t.blocks| && q < |t.blocks[p].chunks| && (p != a || q != k)
    ensures TagOk(t.blocks[p].chunks[q], t.mem)
  {
    var q' := if p == a && q > k then q - 1 else q;
    var c, d := t.blocks[a].chunks[k], t.blocks[p].chunks[q];
    assert d == s.blocks[p].chunks[q'] && TagOk(s.blocks[p].chunks[q'], s.mem);
    ChunksApart(t.blocks, a, k, p, q);
    assert BlockOk(t.blocks[a]) && BlockOk(t.blocks[p]) && ChunkOk(t.blocks[a], c) && ChunkOk(t.blocks[p], d);
  }

  /** The invariant holds in every state of every run. */
  lemma {:induction false} RunKeeps(ss: seq<State>, ops: seq<Op>, k: nat)
    requires Run(ss, ops) && Inv(ss[0]) && k < |ss|
    ensures Inv(ss[k])
  {
    if k > 0 {
      RunKeeps(ss, ops, k - 1);
      assert Step(ss, ops, k - 1);
      NextKeeps(ss[k - 1], ops[k - 1], ss[k]);
    }
  }

  /** Bytes charged and given back by the first k operations of a run. */
  ghost function Charged(ss: seq<State>, ops: seq<Op>, k: nat): int
    requires Run(ss, ops) && k <= |ops|
  {
    if k == 0 then 0
    else assert Step(ss, ops, k - 1); Charged(ss, ops, k - 1) + Charge(ss[k - 1], ops[k - 1])
  }

  /** l_inuse is conserved: what it holds is what the run charged minus what it gave back, and never wraps. */
  lemma {:induction false} RunConserves(ss: seq<State>, ops: seq<Op>, k: nat)
    requires Run(ss, ops) && Inv(ss[0]) && k <= |ops|
    ensures InUse(ss[k].blocks) == InUse(ss[0].blocks) + Charged(ss, ops, k)
    ensures 0 <= InUse(ss[k].blocks) <= Allocated(ss[k].blocks) < TWO64
  {
    RunKeeps(ss, ops, k);
    CountersFit(ss[k].blocks);
    if k > 0 {
      RunKeeps(ss, ops, k - 1);
      RunConserves(ss, ops, k - 1);
      assert Step(ss, ops, k - 1);
      NextKeeps(ss[k - 1], ops[k - 1], ss[k]);
    }
  }

  /** A live chunk as its owner sees it: where it is and how much room it has. */
  ghost predicate Holds(bs: seq<Block>, at: int, size: int) {
    exists i, j :: Located(bs, i, j, at) && bs[i].chunks[j].size == size
  }

  ghost predicate Frees(s: State, op: Op, at: int) {
    op.Release? && Located(s.blocks, op.i, op.j, at)
  }

  lemma NextHolds(s: State, op: Op, t: State, at: int, size: int)
    requires Inv(s) && Next(s, op, t) && Holds(s.blocks, at, size) && !Frees(s, op, at)
    ensures Holds(t.blocks, at, size)
  {
    var i, j :| Located(s.blocks, i, j, at) && s.blocks[i].chunks[j].size == size;
    match op
    case Alloc(req, page) =>
      MallocKeepsChunks(s.blocks, s.best, req, page, i, j);
      var j' :| 0 <= j' < |t.blocks[i].chunks| && t.blocks[i].chunks[j'] == s.blocks[i].chunks[j];
      assert Located(t.blocks, i, j', at);
    case Release(p, q) =>
      var i' := if |s.blocks[p].chunks| == 1 && i > p then i - 1 else i;
      var j' := if i == p && j > q then j - 1 else j;
      assert Located(t.blocks, i', j', at) && t.blocks[i'].chunks[j'].size == size;
    case Shrink(p, q, req) =>
      assert Located(t.blocks, i, j, at) && t.blocks[i].chunks[j].size == size;
    case Write(_, _, _, _) =>
  }

  /** No operation moves, resizes or drops a chunk but the kfree of that chunk. */
  lemma {:induction false} RunHolds(ss: seq<State>, ops: seq<Op>, k: nat, at: int, size: int)
    requires Run(ss, ops) && Inv(ss[0]) && k < |ss| && Holds(ss[0].blocks, at, size)
    requires forall m | 0 <= m < k :: !Frees(ss[m], ops[m], at)
    ensures Holds(ss[k].blocks, at, size)
  {
    if k > 0 {
      RunKeeps(ss, ops, k - 1);
      RunHolds(ss, ops, k - 1, at, size);
      assert Step(ss, ops, k - 1);
      NextHolds(ss[k - 1], ops[k - 1], ss[k], at, size);
    }
  }

  ghost predicate Writes(s: State, op: Op, at: int) {
    op.Write? && Located(s.blocks, op.i, op.j, at)
  }

  /** x is a byte of the chunk at `at`, its alignment byte or slack included. */
  ghost predicate Owns(at: int, size: int, x: int) { at + HEADER <= x < at + HEADER + size }

  lemma NextKeepsByte(s: State, op: Op, t: State, at: int, size: int, x: int)
    requires Inv(s) && Next(s, op, t) && Holds(s.blocks, at, size) && Owns(at, size, x) && !Writes(s, op, at)
    ensures Load(t.mem, x) == Load(s.mem, x)
  {
    var i, j :| Located(s.blocks, i, j, at) && s.blocks[i].chunks[j].size == size;
    match op
    case Alloc(req, page) =>
      if !MallocFails(s.blocks, req, page) {
        MallocKeeps(s.blocks, s.best, req, page);
        NewChunkHolds(s.blocks, s.best, req, page);
        var a, k, j' := AfterMalloc(s.blocks, s.best, req, page, i, j);
        ChunksApart(t.blocks, a, k, i, j');
      }
    case Release(_, _) =>
    case Shrink(_, _, _) =>
    case Write(p, q, y, v) =>
      assert p != i || q != j;
      ChunksApart(s.blocks, p, q, i, j);
      assert BlockOk(s.blocks[p]) && ChunkOk(s.blocks[p], s.blocks[p].chunks[q]);
      PayloadInside(s.blocks[p], s.blocks[p].chunks[q]);
  }

  /** Over every run: no byte of a live chunk changes but by a write of its owner. */
  lemma {:induction false} RunKeepsByte(ss: seq<State>, ops: seq<Op>, k: nat, at: int, size: int, x: int)
    requires Run(ss, ops) && Inv(ss[0]) && k < |ss| && Holds(ss[0].blocks, at, size) && Owns(at, size, x)
    requires forall m | 0 <= m < k :: !Frees(ss[m], ops[m], at) && !Writes(ss[m], ops[m], at)
    ensures Load(ss[k].mem, x) == Load(ss[0].mem, x)
  {
    if k > 0 {
      RunKeeps(ss, ops, k - 1);
      RunHolds(ss, ops, k - 1, at, size);
      RunKeepsByte(ss, ops, k - 1, at, size, x);
      assert Step(ss, ops, k - 1);
      NextKeepsByte(ss[k - 1], ops[k - 1], ss[k], at, size, x);
    }
  }

  /** In every state of every run UNALIGN leads from each payload back to its header. */
  lemma RunUnaligns(ss: seq<State>, ops: seq<Op>, k: nat, i: nat, j: nat)
    requires Run(ss, ops) && Inv(ss[0]) && k < |ss| && i < |ss[k].blocks| && j < |ss[k].blocks[i].chunks|
    ensures Unalign(ss[k].mem, Payload(ss[k].blocks[i].chunks[j])) - HEADER == ss[k].blocks[i].chunks[j].at
  {
    RunKeeps(ss, ops, k);
    assert TagOk(ss[k].blocks[i].chunks[j], ss[k].mem);
    UnalignRecovers(ss[k].blocks[i].chunks[j], ss[k].mem);
  }

  /**
   In every state of every run each payload is 16-aligned and inside its own
   chunk, behind the block's header, its own and the alignment byte.
   */
  lemma RunPayloadInside(ss: seq<State>, ops: seq<Op>, m: nat, i: nat, j: nat)
    requires Run(ss, ops) && Inv(ss[0]) && m < |ss| && i < |ss[m].blocks| && j < |ss[m].blocks[i].chunks|
    ensures var b, c := ss[m].blocks[i], ss[m].blocks[i].chunks[j];
            && Payload(c) % 16 == 0
            && b.at + HEADER <= c.at && c.at + HEADER <= Payload(c) - 16
            && Payload(c) + c.req <= End(c) <= Limit(b)
  {
    RunKeeps(ss, ops, m);
    var bs := ss[m].blocks;
    assert BlockOk(bs[i]) && ChunkOk(bs[i], bs[i].chunks[j]);
    PayloadInside(bs[i], bs[i].chunks[j]);
  }

  /**
   In every state of every run any two live chunks are apart, and so are any
   two blocks: no payload reaches a header, an alignment byte or another
   payload.
   */
  lemma RunPayloadsApart(ss: seq<State>, ops: seq<Op>, m: nat, i: nat, j: nat, i': nat, j': nat)
    requires Run(ss, ops) && Inv(ss[0]) && m < |ss|
    requires i < |ss[m].blocks| && j < |ss[m].blocks[i].chunks|
    requires i' < |ss[m].blocks| && j' < |ss[m].blocks[i'].chunks| && (i != i' || j != j')
    ensures var c, d := ss[m].blocks[i].chunks[j], ss[m].blocks[i'].chunks[j'];
            && (End(c) <= d.at || End(d) <= c.at)
            && (i != i' ==> Apart(ss[m].blocks[i], ss[m].blocks[i']))
  {
    RunKeeps(ss, ops, m);
    var bs := ss[m].blocks;
    ChunksApart(bs, i, j, i', j');
    assert i < i' ==> Apart(bs[i], bs[i']);
    assert i' < i ==> Apart(bs[i'], bs[i]);
  }

  lemma FirstIsLive(bs: seq<Block>)
    requires NoEmptyBlock(bs)
    ensures bs != [] ==> bs[0].chunks != [] && Live(bs, bs[0].chunks[0].at)
  {
    if bs != [] {
      assert bs[0].chunks != [];
      assert Located(bs, 0, 0, bs[0].chunks[0].at);
    }
  }

  /** Nothing leaks: a heap with no live chunk has no block, and both counters are 0. */
  lemma AllFreedAllReturned(ss: seq<State>, ops: seq<Op>, k: nat)
    requires Run(ss, ops) && Inv(ss[0]) && k < |ss|
    requires forall at :: !Live(ss[k].blocks, at)
    ensures ss[k].blocks == [] && ss[k].best == 0 && InUse(ss[k].blocks) == 0 && Allocated(ss[k].blocks) == 0
  {
    RunKeeps(ss, ops, k);
    var bs := ss[k].blocks;
    FirstIsLive(bs);
  }
}
