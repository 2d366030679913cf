/** kernel/src/memory/liballoc.c: the kernel heap over linked headers in memory. */
module Liballoc {
  import opened Words
  import opened HeapLayout
  import opened HeapSpec
  import opened HeapLinks

  function EmptyMajor(b: Block): Major { Major(0, 0, b.pages, b.size, HEADER, 0) }

  ghost function LinkBehind(majors: map<int, Major>, last: int, b: Block): map<int, Major>
    requires last in majors
  {
    var m0 := majors[b.at := EmptyMajor(b)];
    var m1 := m0[last := m0[last].(next := b.at)];
    m1[b.at := m1[b.at].(prev := last)]
  }

  /** The headers represent the layout, and every counter agrees with it. */
  ghost predicate Consistent(bs: seq<Block>, majors: map<int, Major>, minors: map<int, Minor>, mem: Memory,
                             root: int, best: int, inuse: int, held: int) {
    && LayoutOk(bs)
    && MajorsLinked(bs, majors) && MinorsLinked(bs, minors) && TagsOk(bs, mem)
    && root == BlockAddress(bs, 0)
    && (best == 0 || Linked(bs, best))
    && inuse == InUse(bs) && held == Allocated(bs)
  }

  /** A linked, still empty block joins the layout. */
  lemma BlockJoins(bs: seq<Block>, b: Block, majors: map<int, Major>, minors: map<int, Minor>, mem: Memory,
                   root: int, best: int, inuse: int, held: int)
    requires Consistent(bs, majors, minors, mem, root, best, inuse, held)
    requires LayoutOk(bs + [b]) && b.chunks == []
    ensures Consistent(bs + [b], Appended(majors, bs, b), minors, mem, if bs == [] then b.at else root, best,
                       inuse, U64(held + b.size))
  {
    AppendedMajors(bs, b, majors);
    AppendedMinors(bs, b, minors);
    AppendSums(bs, b);
    CountersFit(bs + [b]);
    LinkedAfterAppend(bs, b, best);
    TagsAfterAppend(bs, b, mem);
  }

  lemma LinkedAfterAppend(bs: seq<Block>, b: Block, at: int)
    ensures Linked(bs, at) ==> Linked(bs + [b], at)
  {
    if Linked(bs, at) {
      var i :| 0 <= i < |bs| && bs[i].at == at;
      assert (bs + [b])[i].at == at;
    }
  }

  lemma TagsAfterAppend(bs: seq<Block>, b: Block, mem: Memory)
    requires TagsOk(bs, mem) && b.chunks == []
    ensures TagsOk(bs + [b], mem)
  {
  }

  /** The three header writes that link a new block behind the last one keep the heap consistent. */
  lemma FreshJoins(bs: seq<Block>, page: int, req: int, majors: map<int, Major>, minors: map<int, Minor>,
                   mem: Memory, root: int, best: int, inuse: int, held: int)
    requires Consistent(bs, majors, minors, mem, root, best, inuse, held) && bs != []
    requires page != 0 && 0 <= req <= MAX_REQUEST && SupplyOk(bs, page, req)
    ensures bs[|bs| - 1].at in majors
    ensures Consistent(bs + [FreshBlock(page, req)], LinkBehind(majors, bs[|bs| - 1].at, FreshBlock(page, req)),
                       minors, mem, root, best, inuse, U64(held + FreshBlock(page, req).size))
  {
    var b := FreshBlock(page, req);
    assert MajorLinked(bs, majors, |bs| - 1);
    FreshOk(bs, page, req);
    AppendOk(bs, b);
    BlockJoins(bs, b, majors, minors, mem, root, best, inuse, held);
    LinkBehindLast(bs, b, majors);
  }

  lemma LinkBehindLast(bs: seq<Block>, b: Block, majors: map<int, Major>)
    requires LayoutOk(bs + [b]) && bs != [] && MajorsLinked(bs, majors) && b.chunks == []
    ensures bs[|bs| - 1].at in majors
    ensures LinkBehind(majors, bs[|bs| - 1].at, b) == Appended(majors, bs, b)
  {
    assert MajorLinked(bs, majors, |bs| - 1);
    BlocksDistinct(bs + [b], |bs| - 1, |bs|);
    assert MajorOf(bs + [b], |bs|) == EmptyMajor(b).(prev := bs[|bs| - 1].at);
  }

  lemma LinkedAfterUpdate(bs: seq<Block>, i: nat, b: Block, at: int)
    requires i < |bs| && b.at == bs[i].at
    ensures Linked(bs, at) ==> Linked(bs[i := b], at)
  {
    if Linked(bs, at) {
      var p :| 0 <= p < |bs| && bs[p].at == at;
      assert bs[i := b][p].at == at;
    }
  }

  /** The block's own header after a placement; its 32-bit usage does not wrap. */
  lemma InsertedMajor(bs: seq<Block>, i: nat, k: nat, c: Chunk)
    requires LayoutOk(bs) && i < |bs| && InGap(bs[i], k, c)
    ensures MajorOf(bs[i := InsertChunk(bs[i], k, c)], i)
         == MajorOf(bs, i).(usage := U32(Usage(bs[i]) + c.size + HEADER),
                            first := if k == 0 then c.at else ChunkAddress(bs[i], 0))
  {
    assert BlockOk(bs[i]);
    InsertOk(bs[i], k, c);
    InsertSum(bs[i], k, c);
    UsageBounds(InsertChunk(bs[i], k, c));
    UsageBounds(bs[i]);
  }

  /** Placing a chunk keeps the heap consistent. */
  lemma ChunkJoins(bs: seq<Block>, i: nat, k: nat, c: Chunk, majors: map<int, Major>, minors: map<int, Minor>,
                   mem: Memory, mem': Memory, root: int, best: int, inuse: int, held: int)
    requires Consistent(bs, majors, minors, mem, root, best, inuse, held)
    requires i < |bs| && InGap(bs[i], k, c) && TagOk(c, mem')
    requires forall x :: x != Payload(c) - 16 ==> Load(mem', x) == Load(mem, x)
    ensures Consistent(bs[i := InsertChunk(bs[i], k, c)],
                       majors[bs[i].at := MajorOf(bs[i := InsertChunk(bs[i], k, c)], i)],
                       Relinked(minors, bs[i], k, c), mem', root, best, U64(inuse + c.size), held)
  {
    var d := InsertChunk(bs[i], k, c);
    assert BlockOk(bs[i]);
    InsertOk(bs[i], k, c);
    InsertSum(bs[i], k, c);
    UpdateOk(bs, i, d);
    UpdateSums(bs, i, d);
    CountersFit(bs[i := d]);
    RelinkedMinors(bs, i, k, c, minors);
    RelinkedMajor(bs, i, d, majors);
    TagsAfterPlace(bs, i, k, c, mem, mem');
    LinkedAfterUpdate(bs, i, d, best);
  }

  lemma FirstFitInGap(b: Block, req: int)
    requires BlockOk(b) && 0 <= req && Fits(b, Need(req))
    ensures InGap(b, FirstFit(b, req), PlacedChunk(b, req))
    ensures Place(b, req) == InsertChunk(b, FirstFit(b, req), PlacedChunk(b, req))
    ensures PlacedChunk(b, req) == Chunk(GapStart(b, FirstFit(b, req)), req + SLACK, req)
  {
    PlaceOk(b, req);
  }

  /** Facts about the block the search is looking at. */
  lemma SearchBlockOk(bs: seq<Block>, now: seq<Block>, page: int, req: int, grown: bool, i: nat)
    requires LayoutOk(now) && i < |now| && NoEmptyBlock(bs) && 0 <= req <= MAX_REQUEST && SupplyOk(bs, page, req)
    requires !grown ==> now == bs
    requires grown ==> page != 0 && now == bs + [FreshBlock(page, req)] && i == |bs|
    ensures BlockOk(now[i])
    ensures now[i].chunks == [] ==> grown
    ensures grown ==> now[i].size - Usage(now[i]) >= Need(req) && Fits(now[i], Need(req))
  {
    assert BlockOk(now[i]);
    if grown {
      FreshOk(bs, page, req);
    }
  }

  /** What the search ends with, given the block it had to find. */
  ghost predicate Outcome(bs: seq<Block>, chosen: nat, req: int, page: int, now: seq<Block>, p: int) {
    if chosen < |bs| then now == bs[chosen := Place(bs[chosen], req)] && p == Payload(PlacedChunk(bs[chosen], req))
    else if page == 0 then now == bs && p == 0
    else && now == bs + [Place(FreshBlock(page, req), req)]
         && p == Payload(PlacedChunk(FreshBlock(page, req), req))
  }

  /**
   From block i of `now` on, the search still has the chosen block of bs ahead
   of it, or stands at a block just added.
   */
  ghost predicate Ahead(bs: seq<Block>, now: seq<Block>, chosen: nat, req: int, page: int, startedBet: bool,
                        grown: bool, i: int) {
    && 0 <= i < |now|
    && (!grown ==> && now == bs
                   && chosen == (if startedBet then FromOrRestart(bs, i, req) else BlockFrom(bs, i, Need(req))))
    && (grown ==> page != 0 && now == bs + [FreshBlock(page, req)] && i == |bs| && chosen == |bs| && !startedBet)
  }

  /** The outcome at the chosen block is the specified kmalloc. */
  lemma OutcomeIs(bs: seq<Block>, best: int, req: int, page: int, now: seq<Block>, p: int)
    requires Outcome(bs, ChosenBlock(bs, best, req), req, page, now, p)
    ensures now == Malloc(bs, best, req, page)
    ensures p == if MallocFails(bs, req, page) then 0 else Payload(MallocChunk(bs, best, req, page))
    ensures ChosenBlock(bs, best, req) == |bs| && page == 0 <==> MallocFails(bs, req, page)
  {
    SearchComplete(bs, best, req);
  }

  lemma StartAhead(bs: seq<Block>, best: int, req: int, page: int, startedBet: bool, i: nat)
    requires i == StartAt(bs, best, req) && (!startedBet ==> i == 0) && bs != []
    ensures Ahead(bs, bs, ChosenBlock(bs, best, req), req, page, startedBet, false, i)
  {}

  lemma RootAhead(bs: seq<Block>, best: int, req: int, page: int, now: seq<Block>)
    requires bs == [] && page != 0 && now == [FreshBlock(page, req)]
    ensures Ahead(bs, now, ChosenBlock(bs, best, req), req, page, false, true, 0)
    ensures StartAt(now, 0, req) == 0
  {}

  lemma HereIsChosen(bs: seq<Block>, chosen: int, req: int, startedBet: bool, i: nat)
    requires i < |bs| && Fits(bs[i], Need(req))
    requires chosen == if startedBet then FromOrRestart(bs, i, req) else BlockFrom(bs, i, Need(req))
    ensures chosen == i
  {}

  /** The hint at the end of a search that noted block i last. */
  lemma NowSettled(bs: seq<Block>, now: seq<Block>, extra: Block, grown: bool, chosen: int, lo: int, i: int, best: int,
                   room: int, floor: int)
    requires Noted(now, lo, i + 1, best, room, floor) && lo <= i && chosen <= |bs|
    requires now == if grown then bs + [extra] else bs
    requires chosen == i || (chosen == |bs| == i + 1 && !grown)
    ensures Settled(bs, extra, chosen, lo, best, room, floor)
  {}

  lemma RemovedMajor(bs: seq<Block>, i: nat, j: nat)
    requires LayoutOk(bs) && i < |bs| && j < |bs[i].chunks|
    ensures MajorOf(bs[i := RemoveChunk(bs[i], j)], i)
         == MajorOf(bs, i).(usage := U32(Usage(bs[i]) - (bs[i].chunks[j].size + HEADER)),
                            first := ChunkAddress(bs[i], if j == 0 then 1 else 0))
  {
    assert BlockOk(bs[i]);
    RemoveOk(bs[i], j);
    RemoveSum(bs[i], j);
    UsageBounds(RemoveChunk(bs[i], j));
    UsageBounds(bs[i]);
  }

  /** Unlinking one of several chunks keeps the heap consistent; the hint may move to this block. */
  lemma ChunkLeaves(bs: seq<Block>, i: nat, j: nat, majors: map<int, Major>, minors: map<int, Minor>, mem: Memory,
                    root: int, best: int, inuse: int, held: int, hint: int)
    requires Consistent(bs, majors, minors, mem, root, best, inuse, held)
    requires i < |bs| && j < |bs[i].chunks| && |bs[i].chunks| > 1
    requires hint == best || hint == bs[i].at
    ensures bs[i].chunks[j].at in minors
    ensures Consistent(Free(bs, i, j), majors[bs[i].at := MajorOf(Free(bs, i, j), i)],
                       Unlinked(minors, bs[i], j), mem, root, hint, U64(inuse - bs[i].chunks[j].size), held)
  {
    var d := RemoveChunk(bs[i], j);
    assert BlockOk(bs[i]);
    FreeKeeps(bs, i, j);
    FreeCounts(bs, i, j);
    CountersFit(Free(bs, i, j));
    UnlinkedMinors(bs, i, j, minors);
    RelinkedMajor(bs, i, d, majors);
    TagsAfterFree(bs, i, j, mem);
    LinkedAfterUpdate(bs, i, d, best);
    assert Free(bs, i, j)[i].at == bs[i].at;
  }

  lemma HintIsFreed(bs: seq<Block>, i: nat, j: nat, majors: map<int, Major>, best: int, hint: int)
    requires LayoutOk(bs) && i < |bs| && j < |bs[i].chunks| && |bs[i].chunks| > 1
    requires MajorsLinked(Free(bs, i, j), majors) && bs[i].at in majors && (best == 0 || best in majors)
    requires hint == if best != 0 && I32(majors[bs[i].at].size - majors[bs[i].at].usage)
                                     > I32(majors[best].size - majors[best].usage)
                     then bs[i].at else best
    ensures HintFreed(bs, i, Free(bs, i, j), best, hint)
  {
    var now := Free(bs, i, j);
    assert MajorLinked(now, majors, i);
    forall h | 0 <= h < |now| && now[h].at == best
      ensures hint == if I32(Room(now[i])) > I32(Room(now[h])) then now[i].at else best
    {
      assert MajorLinked(now, majors, h) && BlockOk(bs[h]);
    }
  }

  lemma LinkedAfterDrop(bs: seq<Block>, i: nat, at: int)
    requires i < |bs| && at != bs[i].at
    ensures Linked(bs, at) ==> Linked(bs[..i] + bs[i + 1..], at)
  {
    if Linked(bs, at) {
      var p :| 0 <= p < |bs| && bs[p].at == at;
      assert (bs[..i] + bs[i + 1..])[if p < i then p else p - 1].at == at;
    }
  }

  /** Unlinking the last chunk of a block takes the block out of the list. */
  lemma BlockLeaves(bs: seq<Block>, i: nat, majors: map<int, Major>, minors: map<int, Minor>, mem: Memory,
                    root: int, best: int, inuse: int, held: int)
    requires Consistent(bs, majors, minors, mem, root, best, inuse, held)
    requires i < |bs| && |bs[i].chunks| == 1
    ensures bs[i].chunks[0].at in minors
    ensures Consistent(Free(bs, i, 0), Bypassed(majors, bs, i),
                       Forget(Unlinked(minors, bs[i], 0), bs[i].at, Limit(bs[i])), mem,
                       if root == bs[i].at then BlockAddress(bs, i + 1) else root,
                       if best == bs[i].at then 0 else best,
                       U64(inuse - bs[i].chunks[0].size), U64(held - bs[i].size))
  {
    FreeKeeps(bs, i, 0);
    FreeCounts(bs, i, 0);
    CountersFit(Free(bs, i, 0));
    ReleasedMinors(bs, i, minors);
    BypassedMajors(bs, i, majors);
    TagsAfterFree(bs, i, 0, mem);
    assert BlockOk(bs[i]);
    LinkedAfterDrop(bs, i, if best == bs[i].at then 0 else best);
    if i > 0 {
      BlocksDistinct(bs, 0, i);
    }
  }

  /** The major header writes that take a block out of the list. */
  ghost function BypassWrites(majors: map<int, Major>, at: int, h: Major): map<int, Major>
    requires h.prev != 0 ==> h.prev in majors
    requires h.next != 0 ==> h.next in majors
  {
    var m0 := if h.prev != 0 then majors[h.prev := majors[h.prev].(next := h.next)] else majors;
    var m1 := if h.next != 0 then m0[h.next := m0[h.next].(prev := h.prev)] else m0;
    m1 - {at}
  }

  lemma BypassWritesBypass(bs: seq<Block>, i: nat, majors: map<int, Major>, h: Major)
    requires LayoutOk(bs) && i < |bs| && MajorsLinked(bs, majors)
    requires h.prev == BlockAddress(bs, i - 1) && h.next == BlockAddress(bs, i + 1)
    ensures i > 0 <==> h.prev != 0
    ensures i + 1 < |bs| <==> h.next != 0
    ensures h.prev != 0 ==> h.prev in majors && h.prev != bs[i].at
    ensures h.next != 0 ==> h.next in majors && h.next != bs[i].at
    ensures BypassWrites(majors[bs[i].at := h], bs[i].at, h) == Bypassed(majors, bs, i)
  {
    if i > 0 {
      assert MajorLinked(bs, majors, i - 1) && BlockOk(bs[i - 1]);
      BlocksDistinct(bs, i - 1, i);
    }
    if i + 1 < |bs| {
      assert MajorLinked(bs, majors, i + 1) && BlockOk(bs[i + 1]);
      BlocksDistinct(bs, i + 1, i);
      if i > 0 {
        BlocksDistinct(bs, i - 1, i + 1);
      }
    }
  }

  /** kfree's test for a magic number whose low bytes survived. */
  predicate LooksOverrun(magic: int) {
    || magic % 0x100_0000 == MAGIC % 0x100_0000
    || magic % 0x1_0000 == MAGIC % 0x1_0000
    || magic % 0x100 == MAGIC % 0x100
  }

  /** A freed header stays behind marked dead, unless its whole block was given back. */
  ghost predicate Marked(bs: seq<Block>, i: int, minors: map<int, Minor>, at: int)
    requires 0 <= i < |bs|
  {
    |bs[i].chunks| > 1 ==> at in minors && minors[at].magic == DEAD
  }

  /** All three tests come down to the lowest byte; the mark of a freed header does not pass. */
  lemma LooksOverrunIs(magic: int)
    ensures LooksOverrun(magic) <==> magic % 256 == 0xde
    ensures !LooksOverrun(DEAD)
  {
    LowByte(magic);
    LowByte(MAGIC);
  }

  lemma LowByte(magic: int)
    ensures magic % 0x100_0000 % 0x100 == magic % 0x100 && magic % 0x1_0000 % 0x100 == magic % 0x100
  {
    var r, s := magic % 0x100_0000, magic % 0x1_0000;
    LowByteIs(magic, 0x1_0000 * (magic / 0x100_0000) + r / 0x100, r % 0x100);
    LowByteIs(magic, 0x100 * (magic / 0x1_0000) + s / 0x100, s % 0x100);
  }

  lemma LowByteIs(magic: int, t: int, low: int)
    requires magic == 0x100 * t + low && 0 <= low < 0x100
    ensures magic % 0x100 == low
  {}

  lemma LiveHasMagic(bs: seq<Block>, minors: map<int, Minor>, i: int, j: int, at: int)
    requires MinorsLinked(bs, minors) && Located(bs, i, j, at)
    ensures at in minors && minors[at] == MinorOf(bs[i], j)
  {
    assert ChunksLinked(bs[i], minors) && MinorLinked(bs[i], minors, j);
  }

  /** A readable header carries the magic number exactly if its chunk is live. */
  lemma MagicIffLive(bs: seq<Block>, minors: map<int, Minor>, at: int)
    requires MinorsLinked(bs, minors) && at in minors
    ensures minors[at].magic == MAGIC <==> Live(bs, at)
  {
    if Live(bs, at) {
      var i, j :| Located(bs, i, j, at);
      LiveHasMagic(bs, minors, i, j, at);
    }
  }

  lemma OnlyPlace(bs: seq<Block>, i: int, j: int, at: int)
    requires LayoutOk(bs) && Located(bs, i, j, at)
    ensures forall i', j' | Located(bs, i', j', at) :: i' == i && j' == j
  {
    forall i', j' | Located(bs, i', j', at)
      ensures i' == i && j' == j
    {
      LocatedUnique(bs, i, j, i', j', at);
    }
  }

  /** The n bytes from dst on hold c, and nothing else changed. */
  ghost predicate Filled(was: Memory, now: Memory, dst: int, c: Byte, n: int) {
    && (forall x {:trigger Load(now, x)} | dst <= x < dst + n :: Load(now, x) == c)
    && (forall x {:trigger Load(now, x)} | !(dst <= x < dst + n) :: Load(now, x) == Load(was, x))
  }

  lemma FillByte(was: Memory, now: Memory, dst: int, c: Byte, n: nat)
    requires Filled(was, now, dst, c, n)
    ensures Filled(was, now[dst + n := c], dst, c, n + 1)
  {
    var after := now[dst + n := c];
    forall x
      ensures Load(after, x) == if x == dst + n then c else Load(now, x)
    {
    }
    assert forall x | dst <= x < dst + n + 1 :: x == dst + n || Load(now, x) == c;
    assert forall x | !(dst <= x < dst + n + 1) :: Load(after, x) == Load(now, x);
  }

  /** The first n bytes from src are at dst, and nothing else changed. */
  ghost predicate Copied(was: Memory, now: Memory, dst: int, src: int, n: int) {
    && (forall x {:trigger Load(now, x)} | dst <= x < dst + n :: Load(now, x) == Load(was, x - dst + src))
    && (forall x {:trigger Load(now, x)} | !(dst <= x < dst + n) :: Load(now, x) == Load(was, x))
  }

  lemma SourceIntact(was: Memory, now: Memory, dst: int, src: int, done: int, n: int, k: int)
    requires dst + n <= src || src + n <= dst
    requires 0 <= done <= k < n && Copied(was, now, dst, src, done)
    ensures Load(now, src + k) == Load(was, src + k)
  {
  }

  lemma CopyByte(was: Memory, now: Memory, dst: int, src: int, done: int, v: Byte)
    requires 0 <= done && v == Load(was, src + done) && Copied(was, now, dst, src, done)
    ensures Copied(was, now[dst + done := v], dst, src, done + 1)
  {
    var after := now[dst + done := v];
    forall x | dst <= x < dst + done + 1
      ensures Load(after, x) == Load(was, x - dst + src)
    {
      assert x < dst + done ==> Load(now, x) == Load(was, x - dst + src);
      assert x == dst + done ==> x - dst + src == src + done;
    }
    forall x | !(dst <= x < dst + done + 1)
      ensures Load(after, x) == Load(was, x)
    {
      assert Load(after, x) == Load(now, x);
    }
  }

  lemma FourBytes(was: Memory, now: Memory, dst: int, src: int, done: int, b0: Byte, b1: Byte, b2: Byte, b3: Byte)
    requires 0 <= done && Copied(was, now, dst, src, done)
    requires b0 == Load(was, src + done) && b1 == Load(was, src + done + 1)
    requires b2 == Load(was, src + done + 2) && b3 == Load(was, src + done + 3)
    ensures var d := dst + done;
            Copied(was, now[d := b0][d + 1 := b1][d + 2 := b2][d + 3 := b3], dst, src, done + 4)
  {
    var d := dst + done;
    var half := now[d := b0][d + 1 := b1];
    TwoBytes(was, now, dst, src, done, b0, b1);
    TwoBytes(was, half, dst, src, done + 2, b2, b3);
    assert half[d + 2 := b2][d + 3 := b3] == half[dst + (done + 2) := b2][dst + (done + 2) + 1 := b3];
  }

  lemma TwoBytes(was: Memory, now: Memory, dst: int, src: int, done: int, b0: Byte, b1: Byte)
    requires 0 <= done && Copied(was, now, dst, src, done)
    requires b0 == Load(was, src + done) && b1 == Load(was, src + done + 1)
    ensures var d := dst + done;
            Copied(was, now[d := b0][d + 1 := b1], dst, src, done + 2)
  {
    CopyByte(was, now, dst, src, done, b0);
    CopyByte(was, now[dst + done := b0], dst, src, done + 1, b1);
  }

  lemma ChunkResizes(bs: seq<Block>, i: nat, j: nat, req: int, majors: map<int, Major>, minors: map<int, Minor>,
                     mem: Memory, root: int, best: int, inuse: int, held: int)
    requires Consistent(bs, majors, minors, mem, root, best, inuse, held)
    requires i < |bs| && j < |bs[i].chunks| && 0 <= req <= bs[i].chunks[j].req
    ensures bs[i].chunks[j].at in minors
    ensures Consistent(Resize(bs, i, j, req), majors,
                       minors[bs[i].chunks[j].at := minors[bs[i].chunks[j].at].(req := req)], mem, root, best,
                       inuse, held)
  {
    var d := ResizeChunk(bs[i], j, req);
    assert BlockOk(bs[i]) && MajorLinked(bs, majors, i);
    ResizeOk(bs[i], j, req);
    ResizeKeeps(bs, i, j, req);
    ResizedMinors(bs, i, j, req, minors);
    RelinkedMajor(bs, i, d, majors);
    assert MajorOf(bs[i := d], i) == MajorOf(bs, i);
    assert majors[d.at := MajorOf(bs[i := d], i)] == majors;
    LinkedAfterUpdate(bs, i, d, best);
    forall p, q | 0 <= p < |bs| && 0 <= q < |bs[p].chunks|
      ensures TagOk(Resize(bs, i, j, req)[p].chunks[q], mem)
    {
      assert TagOk(bs[p].chunks[q], mem);
    }
  }

  /** The chunk of a new allocation and any other live chunk: neither reaches into the other. */
  lemma NewApart(bs: seq<Block>, i: nat, j: nat, i': nat, j': nat)
    requires LayoutOk(bs) && i < |bs| && j < |bs[i].chunks| && i' < |bs| && j' < |bs[i'].chunks|
    requires i != i' || j != j'
    ensures var c, d := bs[i].chunks[j], bs[i'].chunks[j'];
            && (End(c) <= d.at || End(d) <= c.at)
            && c.at + HEADER <= Payload(c) - 16 && Payload(c) + c.req <= End(c)
            && d.at + HEADER <= Payload(d) - 16 && Payload(d) + d.req <= End(d)
  {
    assert BlockOk(bs[i]) && BlockOk(bs[i']);
    PayloadInside(bs[i], bs[i].chunks[j]);
    PayloadInside(bs[i'], bs[i'].chunks[j']);
    assert ChunkOk(bs[i], bs[i].chunks[j]) && ChunkOk(bs[i'], bs[i'].chunks[j']);
    ChunksApart(bs, i, j, i', j');
  }

  /** A failing kmalloc leaves the layout; what a successful one did is undone by freeing its chunk (i, k). */
  lemma ThereAndBack(bs: seq<Block>, best: int, req: int, page: int) returns (i: nat, k: nat)
    requires LayoutOk(bs) && NoEmptyBlock(bs) && 0 <= req <= MAX_REQUEST && SupplyOk(bs, page, req)
    ensures MallocFails(bs, req, page) ==> Malloc(bs, best, req, page) == bs
    ensures !MallocFails(bs, req, page) ==>
              var cs := Malloc(bs, best, req, page);
              && i < |cs| && k < |cs[i].chunks| && cs[i].chunks[k] == MallocChunk(bs, best, req, page)
              && Payload(cs[i].chunks[k]) > 0 && Free(cs, i, k) == bs
  {
    SearchComplete(bs, best, req);
    i, k := 0, 0;
    if !MallocFails(bs, req, page) {
      MallocKeeps(bs, best, req, page);
      i, k := MallocLocated(bs, best, req, page);
      var b := Malloc(bs, best, req, page)[i];
      assert BlockOk(b) && ChunkOk(b, b.chunks[k]);
      FreeUndoesMalloc(bs, best, req, page, i, k);
    }
  }

  /** A kmalloc writes the alignment byte of its own chunk and no other. */
  lemma TagOnly(bs: seq<Block>, best: int, req: int, page: int, was: Memory, now: Memory, p: int)
    requires LayoutOk(bs) && 0 <= req <= MAX_REQUEST && SupplyOk(bs, page, req)
    requires p == if MallocFails(bs, req, page) then 0 else Payload(MallocChunk(bs, best, req, page))
    requires (forall x :: x != p - 16 ==> Load(now, x) == Load(was, x)) && (p == 0 ==> now == was)
    ensures PayloadsKept(bs, was, now)
  {
    if !MallocFails(bs, req, page) {
      NewChunkHolds(bs, best, req, page);
      NewChunkOnly(bs, best, req, page, was, now);
    }
  }

  /** n bytes from src are now at dst; besides them only the alignment byte in front of dst changed. */
  ghost predicate Moved(was: Memory, now: Memory, dst: int, src: int, n: int) {
    && (forall x {:trigger Load(now, x)} | dst <= x < dst + n :: Load(now, x) == Load(was, x - dst + src))
    && (forall x {:trigger Load(now, x)} | !(dst <= x < dst + n) && x != dst - 16 :: Load(now, x) == Load(was, x))
  }

  lemma TaggedThenCopied(was: Memory, tagged: Memory, now: Memory, dst: int, src: int, n: int)
    requires forall x :: x != dst - 16 ==> Load(tagged, x) == Load(was, x)
    requires Copied(tagged, now, dst, src, n) && !(src <= dst - 16 < src + n)
    ensures Moved(was, now, dst, src, n)
  {}

  /** p is a pointer whose header is not, or no longer, that of a live chunk. */
  ghost predicate IsDead(bs: seq<Block>, mem: Memory, p: int) { p != 0 && !Live(bs, Unalign(mem, p) - HEADER) }

  /** The layout after allocating `size` bytes and then freeing the chunk at `at`. */
  ghost predicate Regrown(bs: seq<Block>, best: int, size: int, page: int, at: int, now: seq<Block>) {
    exists i, j :: Located(Malloc(bs, best, size, page), i, j, at) && now == Free(Malloc(bs, best, size, page), i, j)
  }

  class Heap {
    /** Headers by address. */
    var majors: map<int, Major>
    var minors: map<int, Minor>
    /** All other bytes: payloads and alignment bytes. */
    var mem: Memory

    var root: int
    var best: int
    var allocatedBytes: int
    var inuseBytes: int
    var warnings: int
    var errors: int
    var overruns: int

    ghost var blocks: seq<Block>

    ghost predicate Shape()
      reads this
    {
      Consistent(blocks, majors, minors, mem, root, best, inuseBytes, allocatedBytes)
    }

    /** The invariant between calls. */
    ghost predicate Valid()
      reads this
    {
      Shape() && NoEmptyBlock(blocks)
    }

    constructor (contents: Memory)
      ensures Valid() && blocks == [] && mem == contents
      ensures warnings == errors == overruns == 0
    {
      majors, minors, mem := map[], map[], contents;
      root, best, allocatedBytes, inuseBytes := 0, 0, 0, 0;
      warnings, errors, overruns := 0, 0, 0;
      blocks := [];
    }

    /** The ALIGN macro: step over the alignment information, round up, record the distance. */
    method Align(raw: int) returns (p: int)
      modifies this`mem
      ensures p == AlignUp(raw + 16)
      ensures Load(mem, p - 16) == p - raw
      ensures forall x :: x != p - 16 ==> Load(mem, x) == Load(old(mem), x)
    {
      p := raw + 16;
      var diff := p % 16;
      if diff != 0 {
        diff := 16 - diff;
        p := p + diff;
      }
      mem := mem[p - 16 := diff + 16];
    }

    /** Page supply. `page` is what liballoc_alloc answers; the block size is 32-bit arithmetic. */
    method AllocateNewPage(size: int, page: int) returns (maj: int)
      requires SLACK <= size <= MAX_REQUEST + SLACK
      modifies this`majors, this`allocatedBytes, this`warnings
      ensures maj == page
      ensures page == 0 ==>
                majors == old(majors) && allocatedBytes == old(allocatedBytes) && warnings == old(warnings) + 1
      ensures page != 0 ==>
                && majors == old(majors)[page := EmptyMajor(FreshBlock(page, size - SLACK))]
                && allocatedBytes == U64(old(allocatedBytes) + FreshBlock(page, size - SLACK).size)
                && warnings == old(warnings)
    {
      NewBlockFitsIffBounded(size - SLACK);
      var st := U32(U32(size) + HEADER);
      st := U32(st + HEADER);
      if st % PAGE == 0 {
        st := st / PAGE;
      } else {
        st := st / PAGE + 1;
      }
      if st < MIN_PAGES { st := MIN_PAGES; }
      maj := page;
      if maj == 0 {
        warnings := warnings + 1;
        return;
      }
      majors := majors[maj := Major(0, 0, st, U32(st * PAGE), HEADER, 0)];
      allocatedBytes := U64(allocatedBytes + U32(st * PAGE));
    }

    /** `maj->next = allocate_new_page(size)` and its back link, at the last block. */
    method Extend(maj: int, size: int, page: int) returns (added: int)
      requires Shape() && blocks != [] && maj == blocks[|blocks| - 1].at
      requires SLACK <= size <= MAX_REQUEST + SLACK && SupplyOk(blocks, page, size - SLACK)
      modifies this`majors, this`allocatedBytes, this`warnings, this`blocks
      ensures Shape() && added == page
      ensures blocks == old(blocks) + (if page == 0 then [] else [FreshBlock(page, size - SLACK)])
      ensures warnings == old(warnings) + (if page == 0 then 1 else 0)
    {
      assert MajorLinked(blocks, majors, |blocks| - 1);
      ghost var b := FreshBlock(page, size - SLACK);
      if page != 0 {
        FreshJoins(blocks, page, size - SLACK, majors, minors, mem, root, best, inuseBytes, allocatedBytes);
      }
      added := AllocateNewPage(size, page);
      majors := majors[maj := majors[maj].(next := added)];
      if added == 0 {
        assert majors == old(majors);
        return;
      }
      majors := majors[added := majors[added].(prev := maj)];
      assert majors == LinkBehind(old(majors), maj, b);
      blocks := blocks + [b];
    }

    /** The end of every placement case: charge the block, charge the heap, align the pointer. */
    method Finish(maj: int, first: int, at: int, size: int, ghost i: nat, ghost k: nat, ghost c: Chunk,
                  ghost was: map<int, Minor>)
      returns (p: int)
      requires Consistent(blocks, majors, was, mem, root, best, inuseBytes, allocatedBytes)
      requires i < |blocks| && maj == blocks[i].at && InGap(blocks[i], k, c) && at == c.at && size == c.size
      requires first == if k == 0 then at else ChunkAddress(blocks[i], 0)
      requires minors == Relinked(was, blocks[i], k, c)
      modifies this`majors, this`mem, this`inuseBytes, this`blocks
      ensures Shape() && blocks == old(blocks)[i := InsertChunk(old(blocks)[i], k, c)]
      ensures p == Payload(c)
      ensures forall x :: x != p - 16 ==> Load(mem, x) == Load(old(mem), x)
    {
      assert MajorLinked(blocks, majors, i);
      InsertedMajor(blocks, i, k, c);
      majors := majors[maj := majors[maj].(usage := U32(majors[maj].usage + size + HEADER), first := first)];
      assert majors == old(majors)[maj := MajorOf(blocks[i := InsertChunk(blocks[i], k, c)], i)];
      inuseBytes := U64(inuseBytes + size);
      p := Align(at + HEADER);
      ChunkJoins(blocks, i, k, c, old(majors), was, old(mem), mem, root, best, old(inuseBytes), allocatedBytes);
      blocks := blocks[i := InsertChunk(blocks[i], k, c)];
    }

    /** Cases 2 and 3: the new header goes right behind the block header. */
    method PlaceFirst(maj: int, size: int, req: int, ghost i: nat) returns (p: int)
      requires Shape() && i < |blocks| && maj == blocks[i].at && 0 <= req <= MAX_REQUEST && size == req + SLACK
      requires FirstFit(blocks[i], req) == 0
      modifies this`majors, this`minors, this`mem, this`inuseBytes, this`blocks
      ensures Shape() && blocks == old(blocks)[i := Place(old(blocks)[i], req)]
      ensures p == Payload(PlacedChunk(old(blocks)[i], req))
      ensures forall x :: x != p - 16 ==> Load(mem, x) == Load(old(mem), x)
    {
      ghost var b, c := blocks[i], PlacedChunk(blocks[i], req);
      assert MajorLinked(blocks, majors, i) && BlockOk(b) && ChunksLinked(b, minors);
      assert b.chunks != [] ==> ChunkOk(b, b.chunks[0]);
      FirstFitInGap(b, req);
      RelinkedFront(b, c, minors);
      var at := maj + HEADER;
      var first := majors[maj].first;
      minors := Emplace(minors, at, Minor(0, first, maj, MAGIC, U32(size), U32(req)));
      if first != 0 {
        minors := minors[first := minors[first].(prev := at)];
      }
      p := Finish(maj, at, at, size, i, 0, c, old(minors));
    }

    /** Case 4: the new header goes right behind `min`, in front of whatever follows it. */
    method PlaceBehind(maj: int, min: int, size: int, req: int, ghost i: nat) returns (p: int)
      requires Shape() && i < |blocks| && maj == blocks[i].at && 0 <= req <= MAX_REQUEST && size == req + SLACK
      requires 0 < FirstFit(blocks[i], req) <= |blocks[i].chunks|
      requires min == blocks[i].chunks[FirstFit(blocks[i], req) - 1].at
      modifies this`majors, this`minors, this`mem, this`inuseBytes, this`blocks
      ensures Shape() && blocks == old(blocks)[i := Place(old(blocks)[i], req)]
      ensures p == Payload(PlacedChunk(old(blocks)[i], req))
      ensures forall x :: x != p - 16 ==> Load(mem, x) == Load(old(mem), x)
    {
      ghost var b, k, c := blocks[i], FirstFit(blocks[i], req), PlacedChunk(blocks[i], req);
      assert MajorLinked(blocks, majors, i) && BlockOk(b) && ChunksLinked(b, minors);
      assert MinorLinked(b, minors, k - 1);
      assert k < |b.chunks| ==> ChunkOk(b, b.chunks[k]);
      FirstFitInGap(b, req);
      RelinkedBehind(b, k, c, minors);
      var at := min + HEADER + minors[min].size;
      var next := minors[min].next;
      minors := Emplace(minors, at, Minor(min, next, maj, MAGIC, U32(size), U32(req)));
      if next != 0 {
        minors := minors[next := minors[next].(prev := at)];
      }
      minors := minors[min := minors[min].(next := at)];
      p := Finish(maj, majors[maj].first, at, size, i, k, c, old(minors));
    }

    /** Cases 2 to 4 on one block: first fit, or 0 if no gap of the block is large enough. */
    method PlaceIn(maj: int, size: int, req: int, ghost i: nat) returns (p: int)
      requires Shape() && i < |blocks| && maj == blocks[i].at && 0 <= req <= MAX_REQUEST && size == req + SLACK
      requires blocks[i].chunks == [] ==> Fits(blocks[i], Need(req))
      modifies this`majors, this`minors, this`mem, this`inuseBytes, this`blocks
      ensures Shape() && blocks == old(blocks)[i := Place(old(blocks)[i], req)]
      ensures old(Fits(blocks[i], Need(req))) ==> 0 < p == Payload(PlacedChunk(old(blocks)[i], req))
      ensures !old(Fits(blocks[i], Need(req))) ==> p == 0 && blocks == old(blocks) && mem == old(mem)
      ensures forall x :: x != p - 16 ==> Load(mem, x) == Load(old(mem), x)
    {
      ghost var b := blocks[i];
      assert MajorLinked(blocks, majors, i) && BlockOk(b) && ChunksLinked(b, minors);
      assert b.chunks != [] ==> ChunkOk(b, b.chunks[0]);
      if Fits(b, Need(req)) {
        FirstFitInGap(b, req);
      }
      // CASE 2: a brand new block
      if majors[maj].first == 0 {
        p := PlaceFirst(maj, size, req, i);
        return;
      }
      // CASE 3: enough space at the start of the block
      var diff := majors[maj].first - maj - HEADER;
      if diff >= size + HEADER {
        p := PlaceFirst(maj, size, req, i);
        return;
      }
      // CASE 4: between two minors, or behind the last one
      var min := FindGap(maj, size, req, i);
      p := 0;
      if min != 0 {
        p := PlaceBehind(maj, min, size, req, i);
      }
    }

    /** The loop of case 4: the first minor with enough space behind it, or NULL. */
    method FindGap(maj: int, size: int, req: int, ghost i: nat) returns (min: int)
      requires Shape() && i < |blocks| && maj == blocks[i].at && 0 <= req <= MAX_REQUEST && size == req + SLACK
      requires blocks[i].chunks != [] && Gap(blocks[i], 0) < Need(req)
      ensures min == 0 <==> !Fits(blocks[i], Need(req))
      ensures min != 0 ==> 0 < FirstFit(blocks[i], req) && min == blocks[i].chunks[FirstFit(blocks[i], req) - 1].at
    {
      ghost var b := blocks[i];
      assert MajorLinked(blocks, majors, i) && BlockOk(b) && ChunksLinked(b, minors);
      assert ChunkOk(b, b.chunks[0]);
      min := majors[maj].first;
      ghost var j := 0;
      while min != 0
        invariant 0 <= j <= |b.chunks| && min == ChunkAddress(b, j) && (min == 0 ==> j == |b.chunks|)
        invariant FirstFit(b, req) == FitFrom(b, j + 1, Need(req))
        decreases |b.chunks| - j
      {
        assert MinorLinked(b, minors, j) && ChunkOk(b, b.chunks[j]);
        assert j + 1 < |b.chunks| ==> ChunkOk(b, b.chunks[j + 1]);
        if minors[min].next == 0 {
          var diff := maj + majors[maj].size - min - HEADER - minors[min].size;
          if diff >= size + HEADER {
            return;
          }
        }
        if minors[min].next != 0 {
          var diff := minors[min].next - min - HEADER - minors[min].size;
          if diff >= size + HEADER {
            return;
          }
        }
        min := minors[min].next;
        j := j + 1;
      }
    }

    /** The first block: `l_memRoot = allocate_new_page(size)`. */
    method NewRoot(size: int, page: int)
      requires Shape() && blocks == []
      requires SLACK <= size <= MAX_REQUEST + SLACK && SupplyOk(blocks, page, size - SLACK)
      modifies this`majors, this`allocatedBytes, this`warnings, this`blocks, this`root
      ensures Shape()
      ensures blocks == if page == 0 then [] else [FreshBlock(page, size - SLACK)]
      ensures warnings == old(warnings) + (if page == 0 then 1 else 0)
    {
      ghost var b := FreshBlock(page, size - SLACK);
      if page != 0 {
        FreshOk(blocks, page, size - SLACK);
        AppendOk(blocks, b);
        BlockJoins(blocks, b, majors, minors, mem, root, best, inuseBytes, allocatedBytes);
        assert [] + [b] == [b];
        assert MajorOf([b], 0) == EmptyMajor(b);
      }
      root := AllocateNewPage(size, page);
      if root != 0 {
        blocks := [b];
      }
    }

    /**
     Where the search stands: at block i of the original layout `bs`, with the
     answer still ahead of it, or at a block just added because no gap was found.
     */
    ghost predicate Searching(bs: seq<Block>, chosen: nat, req: int, page: int, startedBet: bool, grown: bool, i: int)
      reads this
    {
      Shape() && Ahead(bs, blocks, chosen, req, page, startedBet, grown, i)
    }

    /** The hint and the blocks seen so far, on the way to block i. */
    ghost predicate NotedTo(lo: int, i: int, room: int, floor: int, startedBet: bool)
      reads this
    {
      Noted(blocks, lo, i, best, room, floor) && lo <= i && (!startedBet ==> lo == 0)
    }

    /**
     Nothing fits in block i: hop to the next block; at the end start over at
     the root if the search began at the best bet, else ask for a new block.
     */
    method NextBlock(maj: int, startedBet: bool, req: nat, page: int,
                     ghost bs: seq<Block>, ghost chosen: nat, ghost i: nat)
      returns (next: int, bet: bool, extended: bool, ghost i': nat)
      requires req <= MAX_REQUEST && SupplyOk(bs, page, req)
      requires Searching(bs, chosen, req, page, startedBet, false, i)
      requires maj == bs[i].at && !Fits(bs[i], Need(req))
      modifies this`majors, this`allocatedBytes, this`warnings, this`blocks
      ensures next == 0 ==> Shape() && blocks == bs && chosen == |bs| && page == 0 && warnings == old(warnings) + 1
      ensures next != 0 ==> Searching(bs, chosen, req, page, bet, extended, i') && next == blocks[i'].at
                            && warnings == old(warnings)
      ensures next != 0 ==> if bet == startedBet then i' == i + 1
                            else startedBet && !bet && i' == 0 && !extended && i + 1 == |bs|
      ensures next == 0 || extended ==> i + 1 == |bs| && !startedBet && !bet
    {
      bet := false;
      assert MajorLinked(blocks, majors, i);
      assert i + 1 < |blocks| ==> BlockOk(blocks[i + 1]);
      assert BlockOk(blocks[0]);
      if majors[maj].next != 0 {
        return majors[maj].next, startedBet, false, i + 1;
      }
      if startedBet {
        return root, false, false, 0;
      }
      next := Extend(maj, req + SLACK, page);
      bet, extended, i' := false, true, i + 1;
    }

    /** Cases 2 to 4 on the block the search is at; a block just added always takes the request. */
    method TryPlace(maj: int, req: nat, page: int,
                    ghost bs: seq<Block>, ghost chosen: nat, ghost bet: bool, ghost grown: bool, ghost i: nat)
      returns (p: int)
      requires req <= MAX_REQUEST && SupplyOk(bs, page, req) && chosen <= |bs| && NoEmptyBlock(bs)
      requires Searching(bs, chosen, req, page, bet, grown, i) && maj == blocks[i].at
      modifies this`majors, this`minors, this`mem, this`inuseBytes, this`blocks
      ensures p != 0 ==> Shape() && Outcome(bs, chosen, req, page, blocks, p) && (chosen < |bs| || page != 0)
                         && (!grown ==> Fits(bs[i], Need(req)))
      ensures p == 0 ==> && Searching(bs, chosen, req, page, bet, false, i) && !Fits(bs[i], Need(req))
                         && mem == old(mem) && !grown
      ensures forall x :: x != p - 16 ==> Load(mem, x) == Load(old(mem), x)
    {
      SearchBlockOk(bs, blocks, page, req, grown, i);
      p := PlaceIn(maj, req + SLACK, req, i);
      assert grown ==> blocks == bs + [Place(FreshBlock(page, req), req)];
    }

    /** The free bytes of the block the search is at; more than the best bet has make it the best bet. */
    method NoteRoom(maj: int, bestSize: int, req: nat, page: int, ghost bs: seq<Block>, ghost chosen: nat,
                    ghost startedBet: bool, ghost grown: bool, ghost i: nat, ghost lo: int, ghost floor: int)
      returns (room: int, diff: int)
      requires req <= MAX_REQUEST && SupplyOk(bs, page, req) && chosen <= |bs| && NoEmptyBlock(bs)
      requires Searching(bs, chosen, req, page, startedBet, grown, i) && maj == blocks[i].at
      requires NotedTo(lo, i, bestSize, floor, startedBet)
      modifies this`best
      ensures Searching(bs, chosen, req, page, startedBet, grown, i) && diff == Room(blocks[i])
      ensures NotedTo(lo, i + 1, room, floor, startedBet)
      ensures grown ==> Settled(bs, FreshBlock(page, req), chosen, lo, best, room, floor)
    {
      ghost var hint := best;
      assert MajorLinked(blocks, majors, i);
      SearchBlockOk(bs, blocks, page, req, grown, i);
      diff := majors[maj].size - majors[maj].usage;
      room := bestSize;
      if bestSize < diff {
        best := maj;
        room := diff;
      }
      NotedBlock(blocks, lo, i, hint, bestSize, floor, best, room);
      if grown {
        NowSettled(bs, blocks, FreshBlock(page, req), true, chosen, lo, i, best, room, floor);
      }
    }

    /**
     One turn of the search loop: place the request in block i (or in a block
     added behind it), give up, or move on to the next block.
     */
    method Turn(maj: int, startedBet: bool, bestSize: int, req: nat, page: int,
                ghost bs: seq<Block>, ghost chosen: nat, ghost grown: bool, ghost i: nat, ghost lo: int,
                ghost floor: int)
      returns (done: bool, p: int, next: int, bet: bool, room: int, ghost grown': bool, ghost i': nat, ghost lo': int,
               ghost floor': int)
      requires req <= MAX_REQUEST && SupplyOk(bs, page, req) && chosen <= |bs| && NoEmptyBlock(bs)
      requires Searching(bs, chosen, req, page, startedBet, grown, i) && maj == blocks[i].at
      requires NotedTo(lo, i, bestSize, floor, startedBet)
      modifies this`majors, this`minors, this`mem, this`inuseBytes, this`allocatedBytes, this`warnings, this`best,
               this`blocks
      ensures done ==> Shape() && Outcome(bs, chosen, req, page, blocks, p)
      ensures done ==> warnings == old(warnings) + (if chosen == |bs| && page == 0 then 1 else 0)
      ensures forall x :: x != p - 16 ==> Load(mem, x) == Load(old(mem), x)
      ensures p == 0 ==> mem == old(mem)
      ensures !done ==> Searching(bs, chosen, req, page, bet, grown', i') && next == blocks[i'].at
                        && p == 0 && warnings == old(warnings)
                        && if bet == startedBet then i' == i + 1 else startedBet && !bet
      ensures !done ==> NotedTo(lo', i', room, floor', bet)
      ensures done ==> Settled(bs, FreshBlock(page, req), chosen, lo', best, room, floor')
                       && (chosen == |bs| ==> lo' == 0)
      ensures Onward(bs, lo, floor, lo', floor')
    {
      done, p, next, bet, room, grown', i', lo', floor' := true, 0, maj, startedBet, bestSize, grown, i, lo, floor;
      var diff: int;
      room, diff := NoteRoom(maj, bestSize, req, page, bs, chosen, startedBet, grown, i, lo, floor);
      SearchBlockOk(bs, blocks, page, req, grown, i);
      if diff < req + SLACK + HEADER {
        QuickRejectSound(blocks[i], Need(req));
        done, p, next, bet, grown', i', lo', floor' :=
          CaseOne(maj, startedBet, req, page, bs, chosen, i, lo, room, floor);
      } else {
        done, p, next, bet, grown', i', lo', floor' :=
          PlaceOrNext(maj, startedBet, req, page, bs, chosen, grown, i, lo, room, floor);
      }
    }

    /** Not enough space in block i: on to the next one, and into it at once if it is a new one. */
    method CaseOne(maj: int, startedBet: bool, req: nat, page: int,
                   ghost bs: seq<Block>, ghost chosen: nat, ghost i: nat, ghost lo: int, ghost room: int,
                   ghost floor: int)
      returns (done: bool, p: int, next: int, bet: bool, ghost grown': bool, ghost i': nat, ghost lo': int,
               ghost floor': int)
      requires req <= MAX_REQUEST && SupplyOk(bs, page, req) && chosen <= |bs| && NoEmptyBlock(bs)
      requires Searching(bs, chosen, req, page, startedBet, false, i)
      requires maj == bs[i].at && !Fits(bs[i], Need(req)) && NotedTo(lo, i + 1, room, floor, startedBet) && lo <= i
      modifies this`majors, this`minors, this`mem, this`inuseBytes, this`allocatedBytes, this`warnings, this`blocks
      ensures done ==> Shape() && Outcome(bs, chosen, req, page, blocks, p)
      ensures done ==> warnings == old(warnings) + (if chosen == |bs| && page == 0 then 1 else 0)
      ensures forall x :: x != p - 16 ==> Load(mem, x) == Load(old(mem), x)
      ensures p == 0 ==> mem == old(mem)
      ensures !done ==> Searching(bs, chosen, req, page, bet, grown', i') && next == blocks[i'].at
                        && p == 0 && warnings == old(warnings)
                        && if bet == startedBet then i' == i + 1 else startedBet && !bet
      ensures !done ==> NotedTo(lo', i', room, floor', bet)
      ensures done ==> Settled(bs, FreshBlock(page, req), chosen, lo', best, room, floor')
      ensures done ==> (chosen == |bs| ==> lo' == 0)
      ensures Onward(bs, lo, floor, lo', floor')
    {
      var extended: bool;
      p := 0;
      next, bet, extended, i', lo', floor' := Reject(maj, startedBet, req, page, bs, chosen, i, lo, room, floor);
      done, grown' := next == 0, extended;
      if extended && next != 0 {
        ghost var lo1, floor1 := lo', floor';
        done, p, next, bet, grown', i', lo', floor' :=
          PlaceOrNext(next, bet, req, page, bs, chosen, true, i', lo1, room, floor1);
        OnwardTwice(bs, lo, floor, lo1, floor1, lo', floor');
      }
    }

    /** Case 1 on block i: go on, and if that is by a new block or not at all, the hint is settled. */
    method Reject(maj: int, startedBet: bool, req: nat, page: int,
                  ghost bs: seq<Block>, ghost chosen: nat, ghost i: nat, ghost lo: int, ghost room: int,
                  ghost floor: int)
      returns (next: int, bet: bool, extended: bool, ghost i': nat, ghost lo': int, ghost floor': int)
      requires req <= MAX_REQUEST && SupplyOk(bs, page, req)
      requires Searching(bs, chosen, req, page, startedBet, false, i)
      requires maj == bs[i].at && !Fits(bs[i], Need(req)) && NotedTo(lo, i + 1, room, floor, startedBet) && lo <= i
      modifies this`majors, this`allocatedBytes, this`warnings, this`blocks
      ensures next == 0 ==> Shape() && blocks == bs && chosen == |bs| && page == 0 && warnings == old(warnings) + 1
      ensures next != 0 ==> Searching(bs, chosen, req, page, bet, extended, i') && next == blocks[i'].at
                            && warnings == old(warnings)
      ensures next != 0 ==> if bet == startedBet then i' == i + 1 else startedBet && !bet
      ensures next != 0 ==> NotedTo(lo', i', room, floor', bet)
      ensures next == 0 || extended ==> Settled(bs, FreshBlock(page, req), chosen, lo', best, room, floor')
                                        && lo' == 0 && !bet
      ensures Onward(bs, lo, floor, lo', floor')
    {
      next, bet, extended, i' := NextBlock(maj, startedBet, req, page, bs, chosen, i);
      lo', floor' := lo, floor;
      if bet != startedBet && next != 0 {
        // every block from the start on has been seen
        lo', floor' := 0, room;
      }
      if next == 0 || extended {
        NowSettled(bs, bs, FreshBlock(page, req), false, chosen, lo, i, best, room, floor);
        NotedGrows(bs, FreshBlock(page, req), lo, best, room, floor);
      }
    }

    /** Cases 2 to 5 on block i: place the request there, or move on. */
    method PlaceOrNext(maj: int, startedBet: bool, req: nat, page: int,
                       ghost bs: seq<Block>, ghost chosen: nat, ghost grown: bool, ghost i: nat,
                       ghost lo: int, ghost room: int, ghost floor: int)
      returns (done: bool, p: int, next: int, bet: bool, ghost grown': bool, ghost i': nat, ghost lo': int,
               ghost floor': int)
      requires req <= MAX_REQUEST && SupplyOk(bs, page, req) && chosen <= |bs| && NoEmptyBlock(bs)
      requires Searching(bs, chosen, req, page, startedBet, grown, i) && maj == blocks[i].at
      requires !grown ==> Noted(bs, lo, i + 1, best, room, floor) && lo <= i
      requires grown ==> Settled(bs, FreshBlock(page, req), chosen, lo, best, room, floor)
      requires !startedBet ==> lo == 0
      modifies this`majors, this`minors, this`mem, this`inuseBytes, this`allocatedBytes, this`warnings, this`blocks
      ensures done ==> Shape() && Outcome(bs, chosen, req, page, blocks, p)
      ensures done ==> warnings == old(warnings) + (if chosen == |bs| && page == 0 then 1 else 0)
      ensures forall x :: x != p - 16 ==> Load(mem, x) == Load(old(mem), x)
      ensures p == 0 ==> mem == old(mem)
      ensures !done ==> Searching(bs, chosen, req, page, bet, grown', i') && next == blocks[i'].at && !grown
                        && p == 0 && warnings == old(warnings)
                        && if bet == startedBet then i' == i + 1 else startedBet && !bet
      ensures !done ==> NotedTo(lo', i', room, floor', bet)
      ensures done ==> Settled(bs, FreshBlock(page, req), chosen, lo', best, room, floor')
      ensures done ==> (chosen == |bs| ==> lo' == 0)
      ensures Onward(bs, lo, floor, lo', floor')
    {
      done, next, bet, grown', i', lo', floor' := true, maj, startedBet, grown, i, lo, floor;
      if !grown && Fits(bs[i], Need(req)) {
        HereIsChosen(bs, chosen, req, startedBet, i);
        NowSettled(bs, bs, FreshBlock(page, req), false, chosen, lo, i, best, room, floor);
      }
      // CASES 2 to 4
      p := TryPlace(maj, req, page, bs, chosen, startedBet, grown, i);
      if p != 0 {
        return;
      }
      // CASE 5: block full
      var extended: bool;
      next, bet, extended, i', lo', floor' := Reject(maj, startedBet, req, page, bs, chosen, i, lo, room, floor);
      grown' := extended;
      done := next == 0;
    }

    /** The search loop of kmalloc, from block `from` on. */
    method Search(from: int, bet: bool, room: int, req: nat, page: int,
                  ghost bs: seq<Block>, ghost chosen: nat, ghost added: bool, ghost at: nat, ghost floor: int)
      returns (p: int, ghost lo: int, ghost roomNow: int, ghost floorNow: int)
      requires req <= MAX_REQUEST && SupplyOk(bs, page, req) && chosen <= |bs| && NoEmptyBlock(bs)
      requires Searching(bs, chosen, req, page, bet, added, at) && from == blocks[at].at
      requires NotedTo(if bet then at else 0, at, room, floor, bet)
      modifies this`majors, this`minors, this`mem, this`inuseBytes, this`allocatedBytes, this`warnings, this`best,
               this`blocks
      ensures Shape() && Outcome(bs, chosen, req, page, blocks, p)
      ensures forall x :: x != p - 16 ==> Load(mem, x) == Load(old(mem), x)
      ensures p == 0 ==> mem == old(mem)
      ensures warnings == old(warnings) + (if chosen == |bs| && page == 0 then 1 else 0)
      ensures Settled(bs, FreshBlock(page, req), chosen, lo, best, roomNow, floorNow) && (chosen == |bs| ==> lo == 0)
      ensures Onward(bs, if bet then at else 0, floor, lo, floorNow)
    {
      ghost var start := if bet then at else 0;
      var done, maj, startedBet, bestSize := false, from, bet, room;
      p, lo, floorNow := 0, start, floor;
      ghost var grown, i := added, at;
      while !done
        invariant !done ==> Searching(bs, chosen, req, page, startedBet, grown, i) && maj == blocks[i].at
                            && p == 0 && warnings == old(warnings)
        invariant done ==> Shape() && Outcome(bs, chosen, req, page, blocks, p)
                           && warnings == old(warnings) + (if chosen == |bs| && page == 0 then 1 else 0)
        invariant forall x :: x != p - 16 ==> Load(mem, x) == Load(old(mem), x)
        invariant p == 0 ==> mem == old(mem)
        invariant !done ==> NotedTo(lo, i, bestSize, floorNow, startedBet)
        invariant done ==> Settled(bs, FreshBlock(page, req), chosen, lo, best, bestSize, floorNow)
                           && (chosen == |bs| ==> lo == 0)
        invariant Onward(bs, start, floor, lo, floorNow)
        decreases !done, if startedBet then 1 else 0, |bs| + 1 - i
      {
        ghost var lo1, floor1 := lo, floorNow;
        done, p, maj, startedBet, bestSize, grown, i, lo, floorNow :=
          Turn(maj, startedBet, bestSize, req, page, bs, chosen, grown, i, lo1, floor1);
        OnwardTwice(bs, start, floor, lo1, floor1, lo, floorNow);
      }
      roomNow := bestSize;
    }

    /**
     kmalloc. `page` is what the page hook answers if it is asked.  The new
     layout is the first-fit placement in the first fitting block, from the
     best bet on and then from the root, or a new block at the end.
     */
    method Kmalloc(req: nat, page: int) returns (p: int)
      requires Valid() && req <= MAX_REQUEST && SupplyOk(blocks, page, req)
      modifies this
      ensures Valid()
      ensures blocks == Malloc(old(blocks), old(best), req, page)
      ensures p == if MallocFails(old(blocks), req, page) then 0
                   else Payload(MallocChunk(old(blocks), old(best), req, page))
      ensures forall x :: x != p - 16 ==> Load(mem, x) == Load(old(mem), x)
      ensures p == 0 ==> mem == old(mem)
      ensures PayloadsKept(old(blocks), old(mem), mem)
      ensures Allocates(old(blocks), old(best), req, page, blocks, p)
      ensures HintLearns(old(blocks), old(best), req, FreshBlock(page, req), best)
      ensures warnings == old(warnings) + (if MallocFails(old(blocks), req, page) then 1 else 0)
      ensures errors == old(errors) && overruns == old(overruns)
    {
      ghost var bs, hint := blocks, best;
      MallocKeeps(bs, hint, req, page);
      p := Allocate(req, page, ChosenBlock(bs, hint, req));
      OutcomeIs(bs, hint, req, page, blocks, p);
      MallocPlaces(bs, hint, req, page);
      TagOnly(bs, hint, req, page, old(mem), mem, p);
    }

    /** kmalloc up to the choice of the block. */
    method Allocate(req: nat, page: int, ghost chosen: nat) returns (p: int)
      requires Valid() && req <= MAX_REQUEST && SupplyOk(blocks, page, req) && chosen == ChosenBlock(blocks, best, req)
      modifies this`majors, this`minors, this`mem, this`inuseBytes, this`allocatedBytes, this`warnings, this`best,
               this`blocks, this`root
      ensures Shape() && Outcome(old(blocks), chosen, req, page, blocks, p)
      ensures forall x :: x != p - 16 ==> Load(mem, x) == Load(old(mem), x)
      ensures p == 0 ==> mem == old(mem)
      ensures warnings == old(warnings) + (if chosen == |old(blocks)| && page == 0 then 1 else 0)
      ensures HintLearns(old(blocks), old(best), req, FreshBlock(page, req), best)
    {
      ghost var bs, hint := blocks, best;
      ghost var lo, room, floor;
      if root == 0 {
        assert bs != [] ==> BlockOk(bs[0]);
        NewRoot(req + SLACK, page);
        if root == 0 {
          EmptyLearns(bs, req, FreshBlock(page, req));
          return 0;
        }
        // there was no block, so there is no best bet either
        RootAhead(bs, best, req, page, blocks);
        p, lo, room, floor := Search(root, false, 0, req, page, bs, chosen, true, 0, 0);
        SettledLearns(bs, hint, req, FreshBlock(page, req), lo, best, room, floor);
        return;
      }
      var maj, startedBet, bestSize;
      ghost var i;
      maj, startedBet, bestSize, i := ChooseStart(req);
      StartAhead(bs, best, req, page, startedBet, i);
      p, lo, room, floor := Search(maj, startedBet, bestSize, req, page, bs, chosen, false, i, HintRoom(bs, hint));
      SettledLearns(bs, hint, req, FreshBlock(page, req), lo, best, room, floor);
    }

    /** Where the search begins: at the best bet if it promises enough, else at the root. */
    method ChooseStart(req: nat) returns (maj: int, startedBet: bool, bestSize: int, ghost i: nat)
      requires Shape() && blocks != [] && req <= MAX_REQUEST
      ensures i == StartAt(blocks, best, req) && i < |blocks| && maj == blocks[i].at
      ensures !startedBet ==> i == 0
      ensures bestSize == HintRoom(blocks, best)
    {
      maj, startedBet, bestSize, i := root, false, 0, 0;
      if best != 0 {
        ghost var h := IndexOf(blocks, best);
        assert MajorLinked(blocks, majors, h);
        assert BlockOk(blocks[h]);
        UsageBounds(blocks[h]);
        bestSize := majors[best].size - majors[best].usage;
        if bestSize > req + SLACK + HEADER {
          maj, startedBet := best, true;
          i := h;
        }
      }
    }

    /** Root and best bet let go of a block. */
    method Unroot(maj: int, next: int)
      modifies this`root, this`best
      ensures root == if old(root) == maj then next else old(root)
      ensures best == if old(best) == maj then 0 else old(best)
    {
      if root == maj {
        root := next;
      }
      if best == maj {
        best := 0;
      }
    }

    /** The neighbours of a block are linked past it, and its header is given up. */
    method Bypass(maj: int, h: Major)
      requires h.prev != 0 ==> h.prev in majors
      requires h.next != 0 ==> h.next in majors
      modifies this`majors
      ensures majors == BypassWrites(old(majors), maj, h)
    {
      if h.prev != 0 {
        majors := majors[h.prev := majors[h.prev].(next := h.next)];
      }
      if h.next != 0 {
        majors := majors[h.next := majors[h.next].(prev := h.prev)];
      }
      majors := majors - {maj};
    }

    /** kfree on an unused block: unlink it and hand it back to the page hook. */
    method ReleaseBlock(maj: int, ghost bs: seq<Block>, ghost i: nat, ghost was: map<int, Major>,
                        ghost had: map<int, Minor>, ghost used: int)
      requires Consistent(bs, was, had, mem, root, best, used, allocatedBytes)
      requires i < |bs| && |bs[i].chunks| == 1 && maj == bs[i].at
      requires bs[i].chunks[0].at in had && minors == Unlinked(had, bs[i], 0)
      requires inuseBytes == U64(used - bs[i].chunks[0].size)
      requires maj in majors && majors == was[maj := majors[maj]]
      requires majors[maj].prev == BlockAddress(bs, i - 1) && majors[maj].next == BlockAddress(bs, i + 1)
      requires majors[maj].size == bs[i].size
      modifies this`majors, this`minors, this`root, this`best, this`allocatedBytes, this`blocks
      ensures Shape() && blocks == Free(bs, i, 0) && best == if old(best) == maj then 0 else old(best)
    {
      var h := majors[maj];
      BlockLeaves(bs, i, was, had, mem, root, best, used, allocatedBytes);
      BypassWritesBypass(bs, i, was, h);
      Unroot(maj, h.next);
      Bypass(maj, h);
      allocatedBytes := U64(allocatedBytes - h.size);
      minors := Forget(minors, maj, maj + h.size);
      blocks := Free(bs, i, 0);
    }

    /** The hint moves to a block that now has more room, by a signed comparison. */
    method Rehint(maj: int)
      requires maj in majors && (best == 0 || best in majors)
      modifies this`best
      ensures best == if old(best) != 0 && I32(majors[maj].size - majors[maj].usage)
                                           > I32(majors[old(best)].size - majors[old(best)].usage)
                      then maj else old(best)
    {
      if best != 0 {
        var bestSize := I32(majors[best].size - majors[best].usage);
        var majSize := I32(majors[maj].size - majors[maj].usage);
        if majSize > bestSize { best := maj; }
      }
    }

    /** The header writes of kfree: mark dead, give the bytes back, close the gap in the list. */
    method Detach(min: int, ghost i: nat, ghost j: nat) returns (maj: int)
      requires LayoutOk(blocks) && MajorsLinked(blocks, majors) && MinorsLinked(blocks, minors)
      requires Located(blocks, i, j, min)
      modifies this`majors, this`minors, this`inuseBytes
      ensures maj == blocks[i].at && min in old(minors) && minors == Unlinked(old(minors), blocks[i], j)
      ensures majors == old(majors)[maj := MajorOf(blocks[i := RemoveChunk(blocks[i], j)], i)]
      ensures inuseBytes == U64(old(inuseBytes) - blocks[i].chunks[j].size)
    {
      assert BlockOk(blocks[i]) && ChunksLinked(blocks[i], minors) && MajorLinked(blocks, majors, i);
      UnlinkWritesUnlink(blocks[i], j, minors);
      RemovedMajor(blocks, i, j);
      var m := minors[min];
      maj := m.block;
      inuseBytes := U64(inuseBytes - m.size);
      majors := majors[maj := majors[maj].(usage := U32(majors[maj].usage - (m.size + HEADER)))];
      minors := minors[min := m.(magic := DEAD)];
      minors := if m.next != 0 then minors[m.next := minors[m.next].(prev := m.prev)] else minors;
      minors := if m.prev != 0 then minors[m.prev := minors[m.prev].(next := m.next)] else minors;
      majors := if m.prev == 0 then majors[maj := majors[maj].(first := m.next)] else majors;
      assert minors == UnlinkWrites(old(minors), min);
    }

    /** kfree on a block that stays in use. */
    method KeepBlock(maj: int, ghost bs: seq<Block>, ghost i: nat, ghost j: nat, ghost was: map<int, Major>,
                     ghost had: map<int, Minor>, ghost used: int)
      requires Consistent(bs, was, had, mem, root, best, used, allocatedBytes)
      requires i < |bs| && j < |bs[i].chunks| && |bs[i].chunks| > 1 && maj == bs[i].at
      requires bs[i].chunks[j].at in had && minors == Unlinked(had, bs[i], j)
      requires inuseBytes == U64(used - bs[i].chunks[j].size)
      requires majors == was[maj := MajorOf(bs[i := RemoveChunk(bs[i], j)], i)]
      modifies this`best, this`blocks
      ensures Shape() && blocks == Free(bs, i, j) && HintFreed(bs, i, blocks, old(best), best)
    {
      ghost var hint := best;
      if best != 0 { assert MajorLinked(bs, was, IndexOf(bs, best)); }
      Rehint(maj);
      ChunkLeaves(bs, i, j, was, had, mem, root, hint, used, allocatedBytes, best);
      HintIsFreed(bs, i, j, majors, hint, best);
      blocks := Free(bs, i, j);
    }

    /** kfree once the header has been recognised. */
    method Release(min: int, ghost i: nat, ghost j: nat)
      requires Shape() && Located(blocks, i, j, min)
      modifies this`majors, this`minors, this`root, this`best, this`inuseBytes, this`allocatedBytes, this`blocks
      ensures Shape() && blocks == Free(old(blocks), i, j) && Marked(old(blocks), i, minors, min)
      ensures HintFreed(old(blocks), i, blocks, old(best), best)
    {
      ghost var b := blocks[i];
      assert BlockOk(b) && |b.chunks| > 1 ==> ChunkOk(b, b.chunks[0]) && ChunkOk(b, b.chunks[1]);
      var maj := Detach(min, i, j);
      UnlinkedMark(b, j, old(minors));
      if majors[maj].first == 0 {
        ReleaseBlock(maj, blocks, i, old(majors), old(minors), old(inuseBytes));
      } else {
        KeepBlock(maj, blocks, i, j, old(majors), old(minors), old(inuseBytes));
      }
    }

    /**
     kfree. The header is the one UNALIGN leads to; it has to be readable.  A
     live header ends exactly that chunk's life, any other is only counted.
     */
    method Kfree(ptr: int)
      requires Valid()
      requires ptr == 0 || Unalign(mem, ptr) - HEADER in minors
      modifies this
      ensures Valid() && mem == old(mem)
      ensures warnings == old(warnings) + (if ptr == 0 then 1 else 0)
      ensures ptr == 0 ==> blocks == old(blocks) && errors == old(errors) && overruns == old(overruns)
      ensures ptr != 0 ==>
                var at := Unalign(mem, ptr) - HEADER;
                var live := Live(old(blocks), at);
                && errors == old(errors) + (if live then 0 else 1)
                && overruns == old(overruns) + (if !live && old(minors)[at].magic % 256 == 0xde then 1 else 0)
                && (!live ==> blocks == old(blocks) && minors == old(minors))
                && (forall i, j | Located(old(blocks), i, j, at) ::
                      && blocks == Free(old(blocks), i, j) && Marked(old(blocks), i, minors, at)
                      && HintFreed(old(blocks), i, blocks, old(best), best))
    {
      if ptr == 0 {
        warnings := warnings + 1;
        return;
      }
      var min := Unalign(mem, ptr) - HEADER;
      MagicIffLive(blocks, minors, min);
      if minors[min].magic != MAGIC {
        errors := errors + 1;
        LooksOverrunIs(minors[min].magic);
        if LooksOverrun(minors[min].magic) { overruns := overruns + 1; }
        return;
      }
      ghost var i, j :| Located(blocks, i, j, min);
      OnlyPlace(blocks, i, j, min);
      FreeKeeps(blocks, i, j);
      Release(min, i, j);
    }

    /** kfree of the pointer a live chunk was handed out with. */
    method FreeChunk(p: int, ghost i: nat, ghost j: nat)
      requires Valid() && i < |blocks| && j < |blocks[i].chunks| && p == Payload(blocks[i].chunks[j])
      modifies this
      ensures Valid() && mem == old(mem) && blocks == Free(old(blocks), i, j)
      ensures Marked(old(blocks), i, minors, Unalign(mem, p) - HEADER)
      ensures errors == old(errors) && overruns == old(overruns) && warnings == old(warnings)
    {
      ghost var c := blocks[i].chunks[j];
      assert BlockOk(blocks[i]) && ChunkOk(blocks[i], c) && TagOk(c, mem);
      UnalignRecovers(c, mem);
      assert Located(blocks, i, j, c.at) && Live(blocks, c.at);
      LiveHasMagic(blocks, minors, i, j, c.at);
      Kfree(p);
    }

    /** Freeing a chunk twice: the second time is an error, but no overrun, and changes nothing else. */
    method FreeTwice(p: int, ghost i: nat, ghost j: nat)
      requires Valid() && i < |blocks| && j < |blocks[i].chunks| && p == Payload(blocks[i].chunks[j])
      requires |blocks[i].chunks| > 1
      modifies this
      ensures Valid() && mem == old(mem) && blocks == Free(old(blocks), i, j)
      ensures errors == old(errors) + 1 && overruns == old(overruns) && warnings == old(warnings)
    {
      ghost var at := blocks[i].chunks[j].at;
      assert BlockOk(blocks[i]) && ChunkOk(blocks[i], blocks[i].chunks[j]) && TagOk(blocks[i].chunks[j], mem);
      UnalignRecovers(blocks[i].chunks[j], mem);
      FreeEndsOne(blocks, i, j, at);
      FreeChunk(p, i, j);
      LooksOverrunIs(DEAD);
      Kfree(p);
    }

    /** kfree(kmalloc(req)): the heap is as before, and only the hint and the warning count may differ. */
    method MallocFree(req: nat, page: int) returns (p: int)
      requires Valid() && req <= MAX_REQUEST && SupplyOk(blocks, page, req)
      modifies this
      ensures Valid() && blocks == old(blocks) && root == old(root)
      ensures inuseBytes == old(inuseBytes) && allocatedBytes == old(allocatedBytes)
      ensures PayloadsKept(blocks, old(mem), mem)
      ensures errors == old(errors) && overruns == old(overruns)
    {
      ghost var i, k := ThereAndBack(blocks, best, req, page);
      p := Kmalloc(req, page);
      if p != 0 {
        FreeChunk(p, i, k);
      }
    }

    /** liballoc_memset; its counter is an unsigned int, so a larger n would never be reached. */
    method MemSet(dst: int, c: Byte, n: nat)
      requires n < TWO32
      modifies this`mem
      ensures Filled(old(mem), mem, dst, c, n)
    {
      for i := 0 to n
        invariant Filled(old(mem), mem, dst, c, i)
      {
        FillByte(old(mem), mem, dst, c, i);
        mem := mem[dst + i := c];
      }
    }

    /** liballoc_memcpy: four bytes at a time, then single bytes; on disjoint ranges a plain copy. */
    method MemCpy(dst: int, src: int, n: nat)
      requires dst + n <= src || src + n <= dst
      modifies this`mem
      ensures Copied(old(mem), mem, dst, src, n)
    {
      var done := 0;
      while n - done >= 4
        invariant 0 <= done <= n && Copied(old(mem), mem, dst, src, done)
      {
        var s, d := src + done, dst + done;
        var b0, b1, b2, b3 := Load(mem, s), Load(mem, s + 1), Load(mem, s + 2), Load(mem, s + 3);
        SourceIntact(old(mem), mem, dst, src, done, n, done);
        SourceIntact(old(mem), mem, dst, src, done, n, done + 1);
        SourceIntact(old(mem), mem, dst, src, done, n, done + 2);
        SourceIntact(old(mem), mem, dst, src, done, n, done + 3);
        FourBytes(old(mem), mem, dst, src, done, b0, b1, b2, b3);
        mem := mem[d := b0][d + 1 := b1][d + 2 := b2][d + 3 := b3];
        done := done + 4;
      }
      while n - done > 0
        invariant 0 <= done <= n && Copied(old(mem), mem, dst, src, done)
      {
        SourceIntact(old(mem), mem, dst, src, done, n, done);
        CopyByte(old(mem), mem, dst, src, done, Load(mem, src + done));
        mem := mem[dst + done := Load(mem, src + done)];
        done := done + 1;
      }
    }

    /** kcalloc, for products that fit an int and a kmalloc that succeeds. */
    method Kcalloc(nobj: nat, size: nat, page: int) returns (p: int)
      requires Valid() && nobj * size < TWO32 / 2 && SupplyOk(blocks, page, nobj * size)
      requires !MallocFails(blocks, nobj * size, page)
      modifies this
      ensures Valid()
      ensures blocks == Malloc(old(blocks), old(best), nobj * size, page)
      ensures p == Payload(MallocChunk(old(blocks), old(best), nobj * size, page))
      ensures forall x | p <= x < p + nobj * size :: Load(mem, x) == 0
      ensures forall x | !(p <= x < p + nobj * size) && x != p - 16 :: Load(mem, x) == Load(old(mem), x)
      ensures PayloadsKept(old(blocks), old(mem), mem)
      ensures errors == old(errors) && overruns == old(overruns) && warnings == old(warnings)
    {
      var realSize := I32(nobj * size);
      ghost var i, k := MallocLocated(blocks, best, realSize, page);
      p := Kmalloc(realSize, page);
      ghost var was := mem;
      MemSet(p, 0, realSize);
      TagsAfterWrite(blocks, i, k, was, mem);
      NewChunkHolds(old(blocks), old(best), realSize, page);
      NewChunkOnly(old(blocks), old(best), realSize, page, old(mem), mem);
    }

    /** krealloc in place: a request that is not larger only changes the recorded size. */
    method Shrink(min: int, size: nat, ghost i: nat, ghost j: nat)
      requires Valid() && Located(blocks, i, j, min) && size <= blocks[i].chunks[j].req && size < TWO32
      modifies this`minors, this`blocks
      ensures Valid() && blocks == Resize(old(blocks), i, j, size) && Resized(old(blocks), i, j, size, blocks)
    {
      ResizeIs(blocks, i, j, size);
      LiveHasMagic(blocks, minors, i, j, min);
      ChunkResizes(blocks, i, j, size, majors, minors, mem, root, best, inuseBytes, allocatedBytes);
      ResizeKeeps(blocks, i, j, size);
      minors := minors[min := minors[min].(req := U32(size))];
      blocks := Resize(blocks, i, j, size);
    }

    /** The first half of growing: a new chunk holding the old bytes, the old chunk still live at (i, j'). */
    method CopyOut(p: int, realSize: nat, size: nat, page: int, ghost i: nat, ghost j: nat)
      returns (r: int, ghost j': nat)
      requires Valid() && i < |blocks| && j < |blocks[i].chunks|
      requires p == Payload(blocks[i].chunks[j]) && realSize == blocks[i].chunks[j].req < size <= MAX_REQUEST
      requires SupplyOk(blocks, page, size) && !MallocFails(blocks, size, page)
      modifies this
      ensures Valid() && blocks == Malloc(old(blocks), old(best), size, page)
      ensures r == Payload(MallocChunk(old(blocks), old(best), size, page))
      ensures i < |blocks| && j' < |blocks[i].chunks| && blocks[i].chunks[j'] == old(blocks)[i].chunks[j]
      ensures Moved(old(mem), mem, r, p, realSize) && PayloadsKept(old(blocks), old(mem), mem)
      ensures errors == old(errors) && overruns == old(overruns) && warnings == old(warnings)
    {
      ghost var c := blocks[i].chunks[j];
      ghost var a, k;
      a, k, j' := AfterMalloc(blocks, best, size, page, i, j);
      r := Kmalloc(size, page);
      ghost var tagged := mem;
      CopyChunk(r, p, realSize, a, k, i, j');
      TaggedThenCopied(old(mem), tagged, mem, r, p, realSize);
      NewChunkHolds(old(blocks), old(best), size, page);
      NewChunkOnly(old(blocks), old(best), size, page, old(mem), mem);
    }

    /** The bytes of chunk (i, j) go to the new chunk (a, k). */
    method CopyChunk(r: int, p: int, realSize: nat, ghost a: nat, ghost k: nat, ghost i: nat, ghost j: nat)
      requires Valid() && a < |blocks| && k < |blocks[a].chunks| && i < |blocks| && j < |blocks[i].chunks|
      requires (a != i || k != j) && r == Payload(blocks[a].chunks[k]) && p == Payload(blocks[i].chunks[j])
      requires realSize == blocks[i].chunks[j].req < blocks[a].chunks[k].req
      modifies this`mem
      ensures Valid() && Copied(old(mem), mem, r, p, realSize) && !(p <= r - 16 < p + realSize)
    {
      NewApart(blocks, a, k, i, j);
      MemCpy(r, p, realSize);
      TagsAfterWrite(blocks, a, k, old(mem), mem);
    }

    /** krealloc to a larger size: allocate, copy the old bytes, free the old chunk. */
    method Grow(p: int, realSize: nat, size: nat, page: int, ghost i: nat, ghost j: nat) returns (r: int)
      requires Valid() && i < |blocks| && j < |blocks[i].chunks|
      requires p == Payload(blocks[i].chunks[j]) && realSize == blocks[i].chunks[j].req < size <= MAX_REQUEST
      requires SupplyOk(blocks, page, size) && !MallocFails(blocks, size, page)
      modifies this
      ensures Valid()
      ensures r == Payload(MallocChunk(old(blocks), old(best), size, page))
      ensures Regrown(old(blocks), old(best), size, page, old(blocks)[i].chunks[j].at, blocks)
      ensures Moved(old(mem), mem, r, p, realSize) && PayloadsKept(old(blocks), old(mem), mem)
      ensures errors == old(errors) && overruns == old(overruns) && warnings == old(warnings)
    {
      ghost var at := blocks[i].chunks[j].at;
      ghost var j';
      assert BlockOk(blocks[i]) && ChunkOk(blocks[i], blocks[i].chunks[j]);
      r, j' := CopyOut(p, realSize, size, page, i, j);
      assert Located(blocks, i, j', at);
      FreeChunk(p, i, j');
    }

    /**
     krealloc. Size 0 frees, NULL allocates, a dead header is refused, a
     request that is not larger stays in place, and a larger one moves with its
     bytes; that last case needs its kmalloc to succeed.
     */
    method Krealloc(p: int, size: nat, page: int) returns (r: int)
      requires Valid() && size <= MAX_REQUEST && SupplyOk(blocks, page, size)
      requires p == 0 || Unalign(mem, p) - HEADER in minors
      requires p != 0 ==>
                 forall i, j | Located(blocks, i, j, Unalign(mem, p) - HEADER) ::
                   && p == Payload(blocks[i].chunks[j])
                   && (blocks[i].chunks[j].req < size ==> !MallocFails(blocks, size, page))
      modifies this
      ensures Valid()
      ensures errors == old(errors) + (if IsDead(old(blocks), old(mem), p) then 1 else 0)
      ensures overruns == old(overruns)
                        + (if IsDead(old(blocks), old(mem), p)
                              && old(minors)[Unalign(old(mem), p) - HEADER].magic % 256 == 0xde
                           then 1 else 0)
      ensures warnings == old(warnings)
                        + (if p == 0 && (size == 0 || MallocFails(old(blocks), size, page)) then 1 else 0)
      ensures PayloadsKept(old(blocks), old(mem), mem)
      ensures size == 0 ==> r == 0 && mem == old(mem)
      ensures size == 0 && p == 0 ==> blocks == old(blocks)
      ensures size == 0 && p != 0 ==>
                forall i, j | Located(old(blocks), i, j, Unalign(old(mem), p) - HEADER) ::
                  blocks == Free(old(blocks), i, j)
      ensures size > 0 && p == 0 ==> blocks == Malloc(old(blocks), old(best), size, page)
      ensures size > 0 && p == 0 ==> r == if MallocFails(old(blocks), size, page) then 0
                                          else Payload(MallocChunk(old(blocks), old(best), size, page))
      ensures size > 0 && p == 0 ==> forall x :: x != r - 16 ==> Load(mem, x) == Load(old(mem), x)
      ensures size > 0 && p == 0 && r == 0 ==> mem == old(mem)
      ensures IsDead(old(blocks), old(mem), p) ==> r == 0 && blocks == old(blocks) && mem == old(mem)
      ensures size > 0 && p != 0 ==>
                forall i, j | Located(old(blocks), i, j, Unalign(old(mem), p) - HEADER) ::
                  var c := old(blocks)[i].chunks[j];
                  if c.req >= size then && r == p && mem == old(mem) && blocks == Resize(old(blocks), i, j, size)
                                        && Resized(old(blocks), i, j, size, blocks)
                  else && r == Payload(MallocChunk(old(blocks), old(best), size, page))
                       && Regrown(old(blocks), old(best), size, page, c.at, blocks)
                       && Moved(old(mem), mem, r, p, c.req)
    {
      if size == 0 {
        Kfree(p);
        return 0;
      }
      if p == 0 {
        r := Kmalloc(size, page);
        return;
      }
      var min := Unalign(mem, p) - HEADER;
      MagicIffLive(blocks, minors, min);
      if minors[min].magic != MAGIC {
        errors := errors + 1;
        LooksOverrunIs(minors[min].magic);
        if LooksOverrun(minors[min].magic) { overruns := overruns + 1; }
        return 0;
      }
      ghost var i, j :| Located(blocks, i, j, min);
      OnlyPlace(blocks, i, j, min);
      LiveHasMagic(blocks, minors, i, j, min);
      var realSize := minors[min].req;
      assert BlockOk(blocks[i]) && ChunkOk(blocks[i], blocks[i].chunks[j]);
      if realSize >= size {
        Shrink(min, size, i, j);
        r := p;
      } else {
        r := Grow(p, realSize, size, page, i, j);
      }
    }

    /** A client writes into memory it owns: any byte of a live payload. */
    method Store(x: int, v: Byte, ghost i: nat, ghost j: nat)
      requires Valid() && i < |blocks| && j < |blocks[i].chunks|
      requires Payload(blocks[i].chunks[j]) <= x < Payload(blocks[i].chunks[j]) + blocks[i].chunks[j].req
      modifies this`mem
      ensures Valid() && mem == old(mem)[x := v]
    {
      mem := mem[x := v];
      TagsAfterWrite(blocks, i, j, old(mem), mem);
    }
  }
}
