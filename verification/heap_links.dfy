/** The doubly linked headers that represent a layout, and how relinking follows it. */
module HeapLinks {
  import opened HeapLayout
  import opened HeapSpec

  const MAGIC: int := 0xc001c0de
  const DEAD: int := 0xdeaddead

  type Byte = x: int | 0 <= x < 256

  /** Memory contents by address; cells nobody mentions read as 0. */
  type Memory = map<int, Byte>

  function Load(mem: Memory, x: int): Byte { if x in mem then mem[x] else 0 }

  /** struct liballoc_major; pointers are addresses and 0 is NULL. */
  datatype Major = Major(prev: int, next: int, pages: int, size: int, usage: int, first: int)

  /** struct liballoc_minor. */
  datatype Minor = Minor(prev: int, next: int, block: int, magic: int, size: int, req: int)

  ghost function BlockAddress(bs: seq<Block>, i: int): int {
    if 0 <= i < |bs| then bs[i].at else 0
  }

  ghost function ChunkAddress(b: Block, j: int): int {
    if 0 <= j < |b.chunks| then b.chunks[j].at else 0
  }

  ghost function MajorOf(bs: seq<Block>, i: int): Major
    requires 0 <= i < |bs|
  {
    Major(BlockAddress(bs, i - 1), BlockAddress(bs, i + 1), bs[i].pages, bs[i].size, Usage(bs[i]),
          ChunkAddress(bs[i], 0))
  }

  ghost function MinorOf(b: Block, j: int): Minor
    requires 0 <= j < |b.chunks|
  {
    Minor(ChunkAddress(b, j - 1), ChunkAddress(b, j + 1), b.at, MAGIC, b.chunks[j].size, b.chunks[j].req)
  }

  ghost predicate MajorLinked(bs: seq<Block>, majors: map<int, Major>, i: int)
    requires 0 <= i < |bs|
  {
    bs[i].at in majors && majors[bs[i].at] == MajorOf(bs, i)
  }

  ghost predicate MinorLinked(b: Block, minors: map<int, Minor>, j: int)
    requires 0 <= j < |b.chunks|
  {
    b.chunks[j].at in minors && minors[b.chunks[j].at] == MinorOf(b, j)
  }

  ghost predicate MajorsLinked(bs: seq<Block>, majors: map<int, Major>) {
    forall i | 0 <= i < |bs| :: MajorLinked(bs, majors, i)
  }

  ghost predicate ChunksLinked(b: Block, minors: map<int, Minor>) {
    forall j | 0 <= j < |b.chunks| :: MinorLinked(b, minors, j)
  }

  /** Only headers of live chunks carry the magic number. */
  ghost predicate MagicIsLive(bs: seq<Block>, minors: map<int, Minor>) {
    forall a {:trigger Live(bs, a)} | a in minors && minors[a].magic == MAGIC :: Live(bs, a)
  }

  ghost predicate MinorsLinked(bs: seq<Block>, minors: map<int, Minor>) {
    && (forall i | 0 <= i < |bs| :: ChunksLinked(bs[i], minors))
    && MagicIsLive(bs, minors)
  }

  /** The alignment byte in front of every live payload leads back to the raw pointer. */
  ghost predicate TagsOk(bs: seq<Block>, mem: Memory) {
    forall i, j {:trigger TagOk(bs[i].chunks[j], mem)} | 0 <= i < |bs| && 0 <= j < |bs[i].chunks| ::
      TagOk(bs[i].chunks[j], mem)
  }

  ghost predicate TagOk(c: Chunk, mem: Memory) {
    Load(mem, Payload(c) - 16) == Payload(c) - (c.at + HEADER)
  }

  // ----- Payload bytes -----

  ghost predicate InPayload(c: Chunk, x: int) { Payload(c) <= x < Payload(c) + c.req }

  /** Every byte of every payload is as it was. */
  ghost predicate PayloadsKept(bs: seq<Block>, was: Memory, now: Memory) {
    forall i, j, x {:trigger InPayload(bs[i].chunks[j], x)} |
      0 <= i < |bs| && 0 <= j < |bs[i].chunks| && InPayload(bs[i].chunks[j], x) :: Load(now, x) == Load(was, x)
  }

  /** No other memory than the range of chunk c changed. */
  ghost predicate OnlyIn(c: Chunk, was: Memory, now: Memory) {
    forall x {:trigger Load(now, x)} | !(c.at + HEADER <= x < End(c)) :: Load(now, x) == Load(was, x)
  }

  /** Whatever happens inside the chunk of a new allocation reaches no payload that was live before it. */
  lemma NewChunkOnly(bs: seq<Block>, best: int, req: int, page: int, was: Memory, now: Memory)
    requires LayoutOk(bs) && 0 <= req <= MAX_REQUEST && SupplyOk(bs, page, req) && !MallocFails(bs, req, page)
    requires OnlyIn(MallocChunk(bs, best, req, page), was, now)
    ensures PayloadsKept(bs, was, now)
  {
    MallocKeeps(bs, best, req, page);
    forall i, j, x | 0 <= i < |bs| && 0 <= j < |bs[i].chunks| && InPayload(bs[i].chunks[j], x)
      ensures Load(now, x) == Load(was, x)
    {
      var a, k, j' := AfterMalloc(bs, best, req, page, i, j);
      var cs := Malloc(bs, best, req, page);
      ChunksApart(cs, a, k, i, j');
      assert BlockOk(bs[i]) && ChunkOk(bs[i], bs[i].chunks[j]);
      PayloadInside(bs[i], bs[i].chunks[j]);
    }
  }

  /** The alignment byte and the payload of a new allocation lie inside its chunk. */
  lemma NewChunkHolds(bs: seq<Block>, best: int, req: int, page: int)
    requires LayoutOk(bs) && 0 <= req <= MAX_REQUEST && SupplyOk(bs, page, req) && !MallocFails(bs, req, page)
    ensures var c := MallocChunk(bs, best, req, page);
            c.req == req && c.at + HEADER <= Payload(c) - 16 && Payload(c) + req <= End(c)
  {
    MallocKeeps(bs, best, req, page);
    var i, k := MallocLocated(bs, best, req, page);
    var cs := Malloc(bs, best, req, page);
    assert BlockOk(cs[i]) && ChunkOk(cs[i], cs[i].chunks[k]);
    PayloadInside(cs[i], cs[i].chunks[k]);
  }

  /** Writing inside one live payload touches no alignment byte. */
  lemma TagsAfterWrite(bs: seq<Block>, i: nat, k: nat, mem: Memory, mem': Memory)
    requires LayoutOk(bs) && i < |bs| && k < |bs[i].chunks| && TagsOk(bs, mem)
    requires var c := bs[i].chunks[k];
             forall x | !(Payload(c) <= x < Payload(c) + c.req) :: Load(mem', x) == Load(mem, x)
    ensures TagsOk(bs, mem')
  {
    var c := bs[i].chunks[k];
    assert BlockOk(bs[i]) && ChunkOk(bs[i], c);
    forall p, q | 0 <= p < |bs| && 0 <= q < |bs[p].chunks|
      ensures TagOk(bs[p].chunks[q], mem')
    {
      var o := bs[p].chunks[q];
      assert BlockOk(bs[p]) && ChunkOk(bs[p], o) && TagOk(o, mem);
      if p != i || q != k {
        ChunksApart(bs, i, k, p, q);
      }
    }
  }

  /** Memory given to a new chunk no longer holds the dead headers it used to. */
  function Forget(minors: map<int, Minor>, lo: int, hi: int): map<int, Minor> {
    map a | a in minors && (a + HEADER <= lo || hi <= a) :: minors[a]
  }

  /** Writing the header of a new chunk. */
  function Emplace(minors: map<int, Minor>, at: int, m: Minor): map<int, Minor> {
    Forget(minors, at, at + HEADER + m.size)[at := m]
  }

  /** The UNALIGN macro. */
  function Unalign(mem: Memory, ptr: int): int {
    var diff := Load(mem, ptr - 16);
    if diff < SLACK then ptr - diff else ptr
  }

  /** Whatever the memory holds: a byte below 32 is the distance to the pointer it leads to, any other leads nowhere. */
  lemma UnalignIs(mem: Memory, ptr: int, q: int)
    ensures Unalign(mem, ptr) == q <==> if Load(mem, ptr - 16) < 32 then Load(mem, ptr - 16) == ptr - q else ptr == q
  {}

  lemma UnalignRecovers(c: Chunk, mem: Memory)
    requires TagOk(c, mem)
    ensures Unalign(mem, Payload(c)) == c.at + HEADER
  {
  }

  // ----- Placing a chunk -----

  ghost predicate InGap(b: Block, k: nat, c: Chunk) {
    && k <= |b.chunks| && ChunkOk(b, c)
    && GapStart(b, k) <= c.at && End(c) <= GapStart(b, k) + Gap(b, k)
  }

  /** The minor headers after linking c in front of chunk k. */
  ghost function Relinked(minors: map<int, Minor>, b: Block, k: nat, c: Chunk): map<int, Minor>
    requires k <= |b.chunks|
  {
    var d := InsertChunk(b, k, c);
    var m0 := Forget(minors, c.at, End(c))[c.at := MinorOf(d, k)];
    var m1 := if k < |b.chunks| then m0[b.chunks[k].at := MinorOf(d, k + 1)] else m0;
    if k > 0 then m1[b.chunks[k - 1].at := MinorOf(d, k - 1)] else m1
  }

  /** Chunks of one block keep their distance from a chunk placed in one of its gaps. */
  lemma GapApart(b: Block, k: nat, c: Chunk, j: int)
    requires BlockOk(b) && InGap(b, k, c) && 0 <= j < |b.chunks|
    ensures j < k ==> End(b.chunks[j]) <= c.at
    ensures k <= j ==> End(c) <= b.chunks[j].at
  {
    if j < k {
      assert ChunkOk(b, b.chunks[k - 1]);
      assert j == k - 1 || Ordered(b, j, k - 1);
    } else {
      assert ChunkOk(b, b.chunks[k]);
      assert j == k || Ordered(b, k, j);
    }
  }

  lemma RelinkedSelf(b: Block, k: nat, c: Chunk, minors: map<int, Minor>)
    requires BlockOk(b) && InGap(b, k, c) && ChunksLinked(b, minors)
    ensures ChunksLinked(InsertChunk(b, k, c), Relinked(minors, b, k, c))
  {
    var d := InsertChunk(b, k, c);
    var ms := Relinked(minors, b, k, c);
    forall j | 0 <= j < |d.chunks|
      ensures MinorLinked(d, ms, j)
    {
      RelinkedSelfAt(b, k, c, minors, j);
    }
  }

  lemma DistinctAddresses(b: Block, p: int, q: int)
    requires BlockOk(b) && 0 <= p < |b.chunks| && 0 <= q < |b.chunks| && p != q
    ensures b.chunks[p].at != b.chunks[q].at
  {
    assert ChunkOk(b, b.chunks[p]) && ChunkOk(b, b.chunks[q]);
    if p < q {
      assert Ordered(b, p, q);
    } else {
      assert Ordered(b, q, p);
    }
  }

  lemma NearDistinct(b: Block, k: nat, c: Chunk)
    requires BlockOk(b) && InGap(b, k, c)
    ensures k > 0 ==> b.chunks[k - 1].at != c.at
    ensures k < |b.chunks| ==> b.chunks[k].at != c.at
    ensures 0 < k < |b.chunks| ==> b.chunks[k - 1].at != b.chunks[k].at
  {
    if k > 0 {
      GapApart(b, k, c, k - 1);
      assert ChunkOk(b, b.chunks[k - 1]);
    }
    if k < |b.chunks| {
      GapApart(b, k, c, k);
    }
  }

  /** The three headers next to the new chunk. */
  lemma RelinkedNear(b: Block, k: nat, c: Chunk, minors: map<int, Minor>, j: int)
    requires BlockOk(b) && InGap(b, k, c)
    requires 0 <= j <= |b.chunks| && k - 1 <= j <= k + 1
    ensures var d, ms := InsertChunk(b, k, c), Relinked(minors, b, k, c);
            MinorLinked(d, ms, j)
  {
    NearDistinct(b, k, c);
    assert j == k - 1 ==> InsertChunk(b, k, c).chunks[j] == b.chunks[k - 1];
    assert j == k + 1 ==> InsertChunk(b, k, c).chunks[j] == b.chunks[k];
  }

  /** Headers that are neither touched nor covered by the new chunk stay as they were. */
  lemma RelinkedFar(b: Block, k: nat, c: Chunk, minors: map<int, Minor>, a: int)
    requires BlockOk(b) && InGap(b, k, c) && a in minors
    requires a + HEADER <= c.at || End(c) <= a
    requires k > 0 ==> a != b.chunks[k - 1].at
    requires k < |b.chunks| ==> a != b.chunks[k].at
    ensures a in Relinked(minors, b, k, c) && Relinked(minors, b, k, c)[a] == minors[a]
  {
  }

  lemma RelinkedSelfAt(b: Block, k: nat, c: Chunk, minors: map<int, Minor>, j: int)
    requires BlockOk(b) && InGap(b, k, c) && ChunksLinked(b, minors)
    requires 0 <= j <= |b.chunks|
    ensures var d, ms := InsertChunk(b, k, c), Relinked(minors, b, k, c);
            MinorLinked(d, ms, j)
  {
    if k - 1 <= j <= k + 1 {
      RelinkedNear(b, k, c, minors, j);
    } else {
      var m := if j < k then j else j - 1;
      FarUnchanged(b, k, c, j, m);
      FarApart(b, k, c, m);
      assert MinorLinked(b, minors, m);
      RelinkedFar(b, k, c, minors, b.chunks[m].at);
    }
  }

  lemma FarUnchanged(b: Block, k: nat, c: Chunk, j: int, m: int)
    requires k <= |b.chunks| && 0 <= j <= |b.chunks| && (j < k - 1 || k + 1 < j)
    requires m == if j < k then j else j - 1
    ensures InsertChunk(b, k, c).chunks[j] == b.chunks[m]
    ensures MinorOf(InsertChunk(b, k, c), j) == MinorOf(b, m)
  {
  }

  lemma FarApart(b: Block, k: nat, c: Chunk, m: int)
    requires BlockOk(b) && InGap(b, k, c) && 0 <= m < |b.chunks| && m != k - 1 && m != k
    ensures b.chunks[m].at + HEADER <= c.at || End(c) <= b.chunks[m].at
    ensures k > 0 ==> b.chunks[m].at != b.chunks[k - 1].at
    ensures k < |b.chunks| ==> b.chunks[m].at != b.chunks[k].at
  {
    GapApart(b, k, c, m);
    assert ChunkOk(b, b.chunks[m]);
    if k > 0 { DistinctAddresses(b, m, k - 1); }
    if k < |b.chunks| { DistinctAddresses(b, m, k); }
  }

  lemma RelinkedOther(b: Block, k: nat, c: Chunk, o: Block, minors: map<int, Minor>)
    requires BlockOk(b) && InGap(b, k, c) && BlockOk(o) && Apart(b, o)
    requires ChunksLinked(o, minors)
    ensures ChunksLinked(o, Relinked(minors, b, k, c))
  {
    var ms := Relinked(minors, b, k, c);
    forall j | 0 <= j < |o.chunks|
      ensures MinorLinked(o, ms, j)
    {
      var a := o.chunks[j].at;
      assert MinorLinked(o, minors, j) && ChunkOk(o, o.chunks[j]);
      assert k == 0 || ChunkOk(b, b.chunks[k - 1]);
      assert k == |b.chunks| || ChunkOk(b, b.chunks[k]);
      RelinkedFar(b, k, c, minors, a);
    }
  }

  lemma LiveAfterInsert(bs: seq<Block>, i: nat, k: nat, c: Chunk, at: int)
    requires i < |bs| && k <= |bs[i].chunks| && Live(bs, at)
    ensures Live(bs[i := InsertChunk(bs[i], k, c)], at)
  {
    var p, q :| Located(bs, p, q, at);
    var q' := if p == i && q >= k then q + 1 else q;
    assert Located(bs[i := InsertChunk(bs[i], k, c)], p, q', at);
  }

  /** Whatever carries the magic number after relinking is the new chunk or was live before. */
  lemma RelinkedMagicFrom(bs: seq<Block>, i: nat, k: nat, c: Chunk, minors: map<int, Minor>, a: int)
    requires i < |bs| && k <= |bs[i].chunks| && MagicIsLive(bs, minors)
    requires a in Relinked(minors, bs[i], k, c) && Relinked(minors, bs[i], k, c)[a].magic == MAGIC
    ensures a == c.at || Live(bs, a)
  {
    if k > 0 && a == bs[i].chunks[k - 1].at {
      assert Located(bs, i, k - 1, a);
    } else if k < |bs[i].chunks| && a == bs[i].chunks[k].at {
      assert Located(bs, i, k, a);
    }
  }

  lemma RelinkedMagic(bs: seq<Block>, i: nat, k: nat, c: Chunk, minors: map<int, Minor>)
    requires i < |bs| && k <= |bs[i].chunks| && MagicIsLive(bs, minors)
    ensures MagicIsLive(bs[i := InsertChunk(bs[i], k, c)], Relinked(minors, bs[i], k, c))
  {
    var cs := bs[i := InsertChunk(bs[i], k, c)];
    var ms := Relinked(minors, bs[i], k, c);
    forall a | a in ms && ms[a].magic == MAGIC
      ensures Live(cs, a)
    {
      RelinkedMagicFrom(bs, i, k, c, minors, a);
      if a == c.at {
        assert Located(cs, i, k, a);
      } else {
        LiveAfterInsert(bs, i, k, c, a);
      }
    }
  }

  lemma RelinkedMinors(bs: seq<Block>, i: nat, k: nat, c: Chunk, minors: map<int, Minor>)
    requires LayoutOk(bs) && i < |bs| && InGap(bs[i], k, c) && MinorsLinked(bs, minors)
    ensures MinorsLinked(bs[i := InsertChunk(bs[i], k, c)], Relinked(minors, bs[i], k, c))
  {
    var cs := bs[i := InsertChunk(bs[i], k, c)];
    var ms := Relinked(minors, bs[i], k, c);
    forall p | 0 <= p < |cs|
      ensures ChunksLinked(cs[p], ms)
    {
      if p == i {
        RelinkedSelf(bs[i], k, c, minors);
      } else {
        assert Apart(bs[i], bs[p]) by {
          assert if p < i then Apart(bs[p], bs[i]) else Apart(bs[i], bs[p]);
        }
        RelinkedOther(bs[i], k, c, bs[p], minors);
      }
    }
    RelinkedMagic(bs, i, k, c, minors);
  }

  lemma MajorOfOther(bs: seq<Block>, i: nat, b: Block, p: int)
    requires i < |bs| && 0 <= p < |bs| && p != i && b.at == bs[i].at
    ensures MajorOf(bs[i := b], p) == MajorOf(bs, p)
  {
  }

  lemma RelinkedMajor(bs: seq<Block>, i: nat, b: Block, majors: map<int, Major>)
    requires LayoutOk(bs) && i < |bs| && MajorsLinked(bs, majors)
    requires b.at == bs[i].at
    ensures MajorsLinked(bs[i := b], majors[b.at := MajorOf(bs[i := b], i)])
  {
    var cs := bs[i := b];
    var ms := majors[b.at := MajorOf(cs, i)];
    forall p | 0 <= p < |cs|
      ensures MajorLinked(cs, ms, p)
    {
      if p != i {
        assert MajorLinked(bs, majors, p);
        BlocksDistinct(bs, p, i);
        MajorOfOther(bs, i, b, p);
      }
    }
  }

  /** Writing the alignment byte of a new chunk disturbs no other live tag. */
  lemma TagsAfterPlace(bs: seq<Block>, i: nat, k: nat, c: Chunk, mem: Memory, mem': Memory)
    requires LayoutOk(bs) && i < |bs| && InGap(bs[i], k, c) && TagsOk(bs, mem)
    requires TagOk(c, mem')
    requires forall x :: x != Payload(c) - 16 ==> Load(mem', x) == Load(mem, x)
    ensures TagsOk(bs[i := InsertChunk(bs[i], k, c)], mem')
  {
    var cs := bs[i := InsertChunk(bs[i], k, c)];
    forall p, q | 0 <= p < |cs| && 0 <= q < |cs[p].chunks|
      ensures TagOk(cs[p].chunks[q], mem')
    {
      if p != i || q != k {
        var q' := if p == i && q > k then q - 1 else q;
        var o := bs[p].chunks[q'];
        assert cs[p].chunks[q] == o && TagOk(o, mem);
        assert BlockOk(bs[p]) && BlockOk(bs[i]) && ChunkOk(bs[p], o);
        if p == i {
          GapApart(bs[i], k, c, q');
        } else {
          assert if p < i then Apart(bs[p], bs[i]) else Apart(bs[i], bs[p]);
        }
      }
    }
  }

  /** Linking in front: one new header and the back link of the old first chunk. */
  lemma RelinkedFront(b: Block, c: Chunk, minors: map<int, Minor>)
    requires BlockOk(b) && InGap(b, 0, c) && ChunksLinked(b, minors)
    ensures var m0 := Emplace(minors, c.at, Minor(0, ChunkAddress(b, 0), b.at, MAGIC, c.size, c.req));
            && (b.chunks == [] ==> m0 == Relinked(minors, b, 0, c))
            && (b.chunks != [] ==>
                  && b.chunks[0].at in m0
                  && m0[b.chunks[0].at := m0[b.chunks[0].at].(prev := c.at)] == Relinked(minors, b, 0, c))
  {
    var d := InsertChunk(b, 0, c);
    var m0 := Emplace(minors, c.at, Minor(0, ChunkAddress(b, 0), b.at, MAGIC, c.size, c.req));
    assert d.chunks[0] == c;
    assert MinorOf(d, 0) == Minor(0, ChunkAddress(b, 0), b.at, MAGIC, c.size, c.req);
    if b.chunks != [] {
      assert MinorLinked(b, minors, 0) && ChunkOk(b, b.chunks[0]);
      assert d.chunks[1] == b.chunks[0];
      assert m0[b.chunks[0].at] == MinorOf(b, 0);
      assert MinorOf(d, 1) == MinorOf(b, 0).(prev := c.at);
    }
  }

  /** Linking behind chunk k - 1: one new header, the forward link of k - 1, the back link of k. */
  lemma RelinkedBehind(b: Block, k: nat, c: Chunk, minors: map<int, Minor>)
    requires BlockOk(b) && 0 < k && InGap(b, k, c) && ChunksLinked(b, minors)
    ensures var prev := b.chunks[k - 1].at;
            var m0 := Emplace(minors, c.at, Minor(prev, ChunkAddress(b, k), b.at, MAGIC, c.size, c.req));
            && (k < |b.chunks| ==> b.chunks[k].at in m0)
            && var m1 := if k == |b.chunks| then m0
                         else m0[b.chunks[k].at := m0[b.chunks[k].at].(prev := c.at)];
            prev in m1 && m1[prev := m1[prev].(next := c.at)] == Relinked(minors, b, k, c)
  {
    var d := InsertChunk(b, k, c);
    NearDistinct(b, k, c);
    GapApart(b, k, c, k - 1);
    assert ChunkOk(b, b.chunks[k - 1]) && MinorLinked(b, minors, k - 1);
    assert d.chunks[k] == c && d.chunks[k - 1] == b.chunks[k - 1];
    assert MinorOf(d, k - 1) == MinorOf(b, k - 1).(next := c.at);
    assert MinorOf(d, k) == Minor(b.chunks[k - 1].at, ChunkAddress(b, k), b.at, MAGIC, c.size, c.req);
    if k < |b.chunks| {
      GapApart(b, k, c, k);
      assert ChunkOk(b, b.chunks[k]) && MinorLinked(b, minors, k);
      assert d.chunks[k + 1] == b.chunks[k];
      assert MinorOf(d, k + 1) == MinorOf(b, k).(prev := c.at);
    }
  }

  // ----- Removing a chunk -----

  /** The minor headers after unlinking chunk j and marking it dead. */
  ghost function Unlinked(minors: map<int, Minor>, b: Block, j: nat): map<int, Minor>
    requires j < |b.chunks| && b.chunks[j].at in minors
  {
    var d := RemoveChunk(b, j);
    var m0 := minors[b.chunks[j].at := minors[b.chunks[j].at].(magic := DEAD)];
    var m1 := if j + 1 < |b.chunks| then m0[b.chunks[j + 1].at := MinorOf(d, j)] else m0;
    if j > 0 then m1[b.chunks[j - 1].at := MinorOf(d, j - 1)] else m1
  }

  lemma UnlinkedMark(b: Block, j: nat, minors: map<int, Minor>)
    requires BlockOk(b) && j < |b.chunks| && b.chunks[j].at in minors
    ensures b.chunks[j].at in Unlinked(minors, b, j) && Unlinked(minors, b, j)[b.chunks[j].at].magic == DEAD
  {
    assert j > 0 ==> Ordered(b, j - 1, j) && ChunkOk(b, b.chunks[j - 1]);
    assert j + 1 < |b.chunks| ==> Ordered(b, j, j + 1) && ChunkOk(b, b.chunks[j]);
  }

  lemma UnlinkedFar(b: Block, j: nat, minors: map<int, Minor>, a: int)
    requires j < |b.chunks| && b.chunks[j].at in minors
    requires a != b.chunks[j].at
    requires j > 0 ==> a != b.chunks[j - 1].at
    requires j + 1 < |b.chunks| ==> a != b.chunks[j + 1].at
    ensures a in Unlinked(minors, b, j) <==> a in minors
    ensures a in minors ==> Unlinked(minors, b, j)[a] == minors[a]
  {
  }

  lemma RemovedUnchanged(b: Block, j: nat, m: int, p: int)
    requires j < |b.chunks| && 0 <= p < |b.chunks| && (p < j - 1 || j + 1 < p)
    requires m == if p < j then p else p - 1
    ensures RemoveChunk(b, j).chunks[m] == b.chunks[p]
    ensures MinorOf(RemoveChunk(b, j), m) == MinorOf(b, p)
  {
  }

  /** The neighbours of the removed chunk now point past it. */
  lemma UnlinkedNear(b: Block, j: nat, minors: map<int, Minor>)
    requires j < |b.chunks| && b.chunks[j].at in minors
    requires 0 < j && j + 1 < |b.chunks| ==> b.chunks[j - 1].at != b.chunks[j + 1].at
    ensures var d, ms := RemoveChunk(b, j), Unlinked(minors, b, j);
            && (j > 0 ==> MinorLinked(d, ms, j - 1))
            && (j + 1 < |b.chunks| ==> MinorLinked(d, ms, j))
  {
  }

  lemma UnlinkedSelf(b: Block, j: nat, minors: map<int, Minor>)
    requires BlockOk(b) && j < |b.chunks| && b.chunks[j].at in minors && ChunksLinked(b, minors)
    ensures ChunksLinked(RemoveChunk(b, j), Unlinked(minors, b, j))
  {
    var d := RemoveChunk(b, j);
    var ms := Unlinked(minors, b, j);
    if 0 < j && j + 1 < |b.chunks| { DistinctAddresses(b, j - 1, j + 1); }
    UnlinkedNear(b, j, minors);
    forall m | 0 <= m < |d.chunks| && m != j - 1 && m != j
      ensures MinorLinked(d, ms, m)
    {
      UnlinkedSelfAt(b, j, minors, m);
    }
  }

  lemma UnlinkedSelfAt(b: Block, j: nat, minors: map<int, Minor>, m: int)
    requires BlockOk(b) && j < |b.chunks| && b.chunks[j].at in minors && ChunksLinked(b, minors)
    requires 0 <= m < |b.chunks| - 1 && m != j - 1 && m != j
    ensures var d, ms := RemoveChunk(b, j), Unlinked(minors, b, j);
            MinorLinked(d, ms, m)
  {
    var p := if m < j then m else m + 1;
    RemovedUnchanged(b, j, m, p);
    assert MinorLinked(b, minors, p);
    DistinctAddresses(b, p, j);
    if j > 0 { DistinctAddresses(b, p, j - 1); }
    if j + 1 < |b.chunks| { DistinctAddresses(b, p, j + 1); }
    UnlinkedFar(b, j, minors, b.chunks[p].at);
  }

  lemma UnlinkedOther(b: Block, j: nat, o: Block, minors: map<int, Minor>)
    requires BlockOk(b) && j < |b.chunks| && b.chunks[j].at in minors
    requires BlockOk(o) && Apart(b, o) && ChunksLinked(o, minors)
    ensures ChunksLinked(o, Unlinked(minors, b, j))
  {
    var ms := Unlinked(minors, b, j);
    forall m | 0 <= m < |o.chunks|
      ensures MinorLinked(o, ms, m)
    {
      assert MinorLinked(o, minors, m) && ChunkOk(o, o.chunks[m]) && ChunkOk(b, b.chunks[j]);
      assert j == 0 || ChunkOk(b, b.chunks[j - 1]);
      assert j + 1 == |b.chunks| || ChunkOk(b, b.chunks[j + 1]);
      UnlinkedFar(b, j, minors, o.chunks[m].at);
    }
  }

  /** Whatever still carries the magic number was live and is not the removed chunk. */
  lemma UnlinkedMagicFrom(bs: seq<Block>, i: nat, j: nat, minors: map<int, Minor>, a: int)
    requires i < |bs| && j < |bs[i].chunks| && bs[i].chunks[j].at in minors && MagicIsLive(bs, minors)
    requires j > 0 ==> bs[i].chunks[j - 1].at != bs[i].chunks[j].at
    requires j + 1 < |bs[i].chunks| ==> bs[i].chunks[j + 1].at != bs[i].chunks[j].at
    requires a in Unlinked(minors, bs[i], j) && Unlinked(minors, bs[i], j)[a].magic == MAGIC
    ensures Live(bs, a) && a != bs[i].chunks[j].at
  {
    if j > 0 && a == bs[i].chunks[j - 1].at {
      assert Located(bs, i, j - 1, a);
    } else if j + 1 < |bs[i].chunks| && a == bs[i].chunks[j + 1].at {
      assert Located(bs, i, j + 1, a);
    }
  }

  lemma UnlinkedMagic(bs: seq<Block>, i: nat, j: nat, minors: map<int, Minor>)
    requires LayoutOk(bs) && i < |bs| && j < |bs[i].chunks| && bs[i].chunks[j].at in minors
    requires MagicIsLive(bs, minors)
    ensures MagicIsLive(Free(bs, i, j), Unlinked(minors, bs[i], j))
  {
    if j > 0 { DistinctAddresses(bs[i], j - 1, j); }
    if j + 1 < |bs[i].chunks| { DistinctAddresses(bs[i], j + 1, j); }
    forall a | a in Unlinked(minors, bs[i], j) && Unlinked(minors, bs[i], j)[a].magic == MAGIC
      ensures Live(Free(bs, i, j), a)
    {
      UnlinkedMagicFrom(bs, i, j, minors, a);
      FreeEndsOne(bs, i, j, a);
    }
  }

  lemma ApartEitherWay(bs: seq<Block>, p: int, q: int)
    requires LayoutOk(bs) && 0 <= p < |bs| && 0 <= q < |bs| && p != q
    ensures Apart(bs[p], bs[q])
  {
    assert if p < q then Apart(bs[p], bs[q]) else Apart(bs[q], bs[p]);
  }

  lemma UnlinkedMinors(bs: seq<Block>, i: nat, j: nat, minors: map<int, Minor>)
    requires LayoutOk(bs) && i < |bs| && j < |bs[i].chunks| && MinorsLinked(bs, minors)
    ensures bs[i].chunks[j].at in minors
    ensures |bs[i].chunks| > 1 ==> MinorsLinked(Free(bs, i, j), Unlinked(minors, bs[i], j))
  {
    assert ChunksLinked(bs[i], minors) && MinorLinked(bs[i], minors, j);
    UnlinkedMagic(bs, i, j, minors);
    if |bs[i].chunks| > 1 {
      forall p | 0 <= p < |bs|
        ensures ChunksLinked(Free(bs, i, j)[p], Unlinked(minors, bs[i], j))
      {
        if p == i {
          UnlinkedSelf(bs[i], j, minors);
        } else {
          ApartEitherWay(bs, i, p);
          UnlinkedOther(bs[i], j, bs[p], minors);
        }
      }
    }
  }

  /** The header writes of kfree, in the order it makes them. */
  ghost function UnlinkWrites(minors: map<int, Minor>, at: int): map<int, Minor>
    requires at in minors
  {
    var m := minors[at];
    var m0 := minors[at := m.(magic := DEAD)];
    var m1 := if m.next != 0 && m.next in m0 then m0[m.next := m0[m.next].(prev := m.prev)] else m0;
    if m.prev != 0 && m.prev in m1 then m1[m.prev := m1[m.prev].(next := m.next)] else m1
  }

  lemma UnlinkWritesUnlink(b: Block, j: nat, minors: map<int, Minor>)
    requires BlockOk(b) && j < |b.chunks| && ChunksLinked(b, minors)
    ensures b.chunks[j].at in minors && minors[b.chunks[j].at] == MinorOf(b, j)
    ensures j > 0 ==> b.chunks[j - 1].at > 0 && b.chunks[j - 1].at in minors
    ensures j + 1 < |b.chunks| ==> b.chunks[j + 1].at > 0 && b.chunks[j + 1].at in minors
    ensures UnlinkWrites(minors, b.chunks[j].at) == Unlinked(minors, b, j)
  {
    assert MinorLinked(b, minors, j);
    var d := RemoveChunk(b, j);
    if j > 0 {
      assert MinorLinked(b, minors, j - 1) && ChunkOk(b, b.chunks[j - 1]);
      DistinctAddresses(b, j - 1, j);
      assert MinorOf(d, j - 1) == MinorOf(b, j - 1).(next := ChunkAddress(b, j + 1));
    }
    if j + 1 < |b.chunks| {
      assert MinorLinked(b, minors, j + 1) && ChunkOk(b, b.chunks[j + 1]);
      DistinctAddresses(b, j + 1, j);
      assert MinorOf(d, j) == MinorOf(b, j + 1).(prev := ChunkAddress(b, j - 1));
      if j > 0 {
        DistinctAddresses(b, j - 1, j + 1);
      }
    }
  }

  // ----- Removing a block -----

  /** Handing a block back takes its headers out of memory. */
  lemma ReleasedMinors(bs: seq<Block>, i: nat, minors: map<int, Minor>)
    requires LayoutOk(bs) && i < |bs| && |bs[i].chunks| == 1 && MinorsLinked(bs, minors)
    ensures bs[i].chunks[0].at in minors
    ensures MinorsLinked(Free(bs, i, 0), Forget(Unlinked(minors, bs[i], 0), bs[i].at, Limit(bs[i])))
  {
    var cs := Free(bs, i, 0);
    assert ChunksLinked(bs[i], minors) && MinorLinked(bs[i], minors, 0);
    UnlinkedMagic(bs, i, 0, minors);
    var ms := Unlinked(minors, bs[i], 0);
    var left := Forget(ms, bs[i].at, Limit(bs[i]));
    forall p | 0 <= p < |cs|
      ensures ChunksLinked(cs[p], left)
    {
      var o := if p < i then p else p + 1;
      ApartEitherWay(bs, i, o);
      UnlinkedOther(bs[i], 0, bs[o], minors);
      ForgottenOther(bs[i], bs[o], ms);
    }
  }

  lemma ForgottenOther(b: Block, o: Block, minors: map<int, Minor>)
    requires BlockOk(o) && Apart(b, o) && ChunksLinked(o, minors)
    ensures ChunksLinked(o, Forget(minors, b.at, Limit(b)))
  {
    forall m | 0 <= m < |o.chunks|
      ensures MinorLinked(o, Forget(minors, b.at, Limit(b)), m)
    {
      assert MinorLinked(o, minors, m);
      assert ChunkOk(o, o.chunks[m]);
    }
  }

  /** The major headers after unlinking block i. */
  ghost function Bypassed(majors: map<int, Major>, bs: seq<Block>, i: nat): map<int, Major>
    requires i < |bs| && MajorsLinked(bs, majors)
  {
    assert i > 0 ==> MajorLinked(bs, majors, i - 1);
    assert i + 1 < |bs| ==> MajorLinked(bs, majors, i + 1);
    var m0 := if i > 0 then majors[bs[i - 1].at := majors[bs[i - 1].at].(next := BlockAddress(bs, i + 1))] else majors;
    var m1 := if i + 1 < |bs| then m0[bs[i + 1].at := majors[bs[i + 1].at].(prev := BlockAddress(bs, i - 1))] else m0;
    m1 - {bs[i].at}
  }

  lemma MajorOfDropped(bs: seq<Block>, i: nat, p: int, o: int)
    requires i < |bs| && 0 <= p < |bs| - 1 && o == if p < i then p else p + 1
    ensures var cs := bs[..i] + bs[i + 1..];
            && cs[p] == bs[o]
            && MajorOf(cs, p) == MajorOf(bs, o).(
                 prev := if o == i + 1 then BlockAddress(bs, i - 1) else BlockAddress(bs, o - 1),
                 next := if o == i - 1 then BlockAddress(bs, i + 1) else BlockAddress(bs, o + 1))
  {
  }

  lemma BypassedAt(bs: seq<Block>, i: nat, majors: map<int, Major>, o: int)
    requires i < |bs| && MajorsLinked(bs, majors) && 0 <= o < |bs| && o != i
    requires bs[o].at != bs[i].at
    requires i > 0 && o != i - 1 ==> bs[o].at != bs[i - 1].at
    requires i + 1 < |bs| && o != i + 1 ==> bs[o].at != bs[i + 1].at
    ensures bs[o].at in Bypassed(majors, bs, i)
    ensures Bypassed(majors, bs, i)[bs[o].at] == MajorOf(bs, o).(
              prev := if o == i + 1 then BlockAddress(bs, i - 1) else BlockAddress(bs, o - 1),
              next := if o == i - 1 then BlockAddress(bs, i + 1) else BlockAddress(bs, o + 1))
  {
    assert MajorLinked(bs, majors, o);
  }

  lemma BypassedMajors(bs: seq<Block>, i: nat, majors: map<int, Major>)
    requires LayoutOk(bs) && i < |bs| && MajorsLinked(bs, majors)
    ensures MajorsLinked(bs[..i] + bs[i + 1..], Bypassed(majors, bs, i))
  {
    var cs := bs[..i] + bs[i + 1..];
    var ms := Bypassed(majors, bs, i);
    forall p | 0 <= p < |cs|
      ensures MajorLinked(cs, ms, p)
    {
      var o := if p < i then p else p + 1;
      MajorOfDropped(bs, i, p, o);
      BlocksDistinct(bs, o, i);
      if i > 0 && o != i - 1 { BlocksDistinct(bs, o, i - 1); }
      if i + 1 < |bs| && o != i + 1 { BlocksDistinct(bs, o, i + 1); }
      BypassedAt(bs, i, majors, o);
    }
  }

  lemma TagsAfterFree(bs: seq<Block>, i: nat, j: nat, mem: Memory)
    requires i < |bs| && j < |bs[i].chunks| && TagsOk(bs, mem)
    ensures TagsOk(Free(bs, i, j), mem)
  {
    var cs := Free(bs, i, j);
    forall p, q | 0 <= p < |cs| && 0 <= q < |cs[p].chunks|
      ensures TagOk(cs[p].chunks[q], mem)
    {
      var dropped := |bs[i].chunks| == 1;
      var p' := if dropped && p >= i then p + 1 else p;
      var q' := if !dropped && p == i && q >= j then q + 1 else q;
      assert cs[p].chunks[q] == bs[p'].chunks[q'];
    }
  }

  // ----- Adding an empty block -----

  ghost function Appended(majors: map<int, Major>, bs: seq<Block>, b: Block): map<int, Major>
    requires MajorsLinked(bs, majors)
  {
    assert bs != [] ==> MajorLinked(bs, majors, |bs| - 1);
    var m0 := majors[b.at := MajorOf(bs + [b], |bs|)];
    if bs == [] then m0 else m0[bs[|bs| - 1].at := majors[bs[|bs| - 1].at].(next := b.at)]
  }

  lemma MajorOfAppended(bs: seq<Block>, b: Block, p: int)
    requires 0 <= p < |bs|
    ensures MajorOf(bs + [b], p) == MajorOf(bs, p).(next := if p == |bs| - 1 then b.at else BlockAddress(bs, p + 1))
  {
  }

  lemma AppendedAt(bs: seq<Block>, b: Block, majors: map<int, Major>, p: int)
    requires MajorsLinked(bs, majors) && 0 <= p <= |bs|
    requires bs != [] ==> b.at != bs[|bs| - 1].at
    requires p < |bs| ==> bs[p].at != b.at
    requires p < |bs| - 1 ==> bs[p].at != bs[|bs| - 1].at
    ensures MajorLinked(bs + [b], Appended(majors, bs, b), p)
  {
    if p < |bs| {
      assert (bs + [b])[p] == bs[p] && MajorLinked(bs, majors, p);
      MajorOfAppended(bs, b, p);
    }
  }

  lemma AppendedMajors(bs: seq<Block>, b: Block, majors: map<int, Major>)
    requires LayoutOk(bs + [b]) && MajorsLinked(bs, majors)
    ensures MajorsLinked(bs + [b], Appended(majors, bs, b))
  {
    var n := |bs|;
    var cs := bs + [b];
    forall p | 0 <= p < |cs|
      ensures MajorLinked(cs, Appended(majors, bs, b), p)
    {
      if n > 0 { BlocksDistinct(cs, n, n - 1); }
      if p < n { BlocksDistinct(cs, p, n); }
      if p < n - 1 { BlocksDistinct(cs, p, n - 1); }
      AppendedAt(bs, b, majors, p);
    }
  }

  lemma AppendedMinors(bs: seq<Block>, b: Block, minors: map<int, Minor>)
    requires MinorsLinked(bs, minors) && b.chunks == []
    ensures MinorsLinked(bs + [b], minors)
  {
    var cs := bs + [b];
    forall a | a in minors && minors[a].magic == MAGIC
      ensures Live(cs, a)
    {
      assert Live(bs, a);
      var p, q :| Located(bs, p, q, a);
      assert Located(cs, p, q, a);
    }
  }

  // ----- Shrinking in place -----

  lemma ResizedAt(bs: seq<Block>, i: nat, j: nat, req: int, minors: map<int, Minor>, p: int, q: int)
    requires LayoutOk(bs) && i < |bs| && j < |bs[i].chunks| && bs[i].chunks[j].at in minors
    requires 0 <= p < |bs| && 0 <= q < |bs[p].chunks|
    requires MinorLinked(bs[p], minors, q)
    ensures var at, cs := bs[i].chunks[j].at, Resize(bs, i, j, req);
            MinorLinked(cs[p], minors[at := minors[at].(req := req)], q)
  {
    if p != i || q != j {
      assert bs[p].chunks[q].at != bs[i].chunks[j].at by {
        ChunksApart(bs, i, j, p, q);
        assert BlockOk(bs[i]) && BlockOk(bs[p]);
        assert ChunkOk(bs[i], bs[i].chunks[j]) && ChunkOk(bs[p], bs[p].chunks[q]);
      }
    }
  }

  lemma ResizedBlock(bs: seq<Block>, i: nat, j: nat, req: int, minors: map<int, Minor>, p: int)
    requires LayoutOk(bs) && i < |bs| && j < |bs[i].chunks| && bs[i].chunks[j].at in minors
    requires 0 <= p < |bs| && ChunksLinked(bs[p], minors)
    ensures ChunksLinked(Resize(bs, i, j, req)[p],
                         minors[bs[i].chunks[j].at := minors[bs[i].chunks[j].at].(req := req)])
  {
    var d := Resize(bs, i, j, req)[p];
    var ms := minors[bs[i].chunks[j].at := minors[bs[i].chunks[j].at].(req := req)];
    forall q | 0 <= q < |d.chunks|
      ensures MinorLinked(d, ms, q)
    {
      assert MinorLinked(bs[p], minors, q);
      ResizedAt(bs, i, j, req, minors, p, q);
    }
  }

  lemma ResizedMagic(bs: seq<Block>, i: nat, j: nat, req: int, minors: map<int, Minor>)
    requires i < |bs| && j < |bs[i].chunks| && bs[i].chunks[j].at in minors && MagicIsLive(bs, minors)
    ensures MagicIsLive(Resize(bs, i, j, req),
                        minors[bs[i].chunks[j].at := minors[bs[i].chunks[j].at].(req := req)])
  {
    var at := bs[i].chunks[j].at;
    forall a | a in minors && minors[a].magic == MAGIC
      ensures Live(Resize(bs, i, j, req), a)
    {
      assert Live(bs, a);
      var p, q :| Located(bs, p, q, a);
      assert Located(Resize(bs, i, j, req), p, q, a);
    }
  }

  lemma ResizedMinors(bs: seq<Block>, i: nat, j: nat, req: int, minors: map<int, Minor>)
    requires LayoutOk(bs) && i < |bs| && j < |bs[i].chunks| && MinorsLinked(bs, minors)
    ensures bs[i].chunks[j].at in minors
    ensures MinorsLinked(Resize(bs, i, j, req),
                         minors[bs[i].chunks[j].at := minors[bs[i].chunks[j].at].(req := req)])
  {
    var at := bs[i].chunks[j].at;
    assert ChunksLinked(bs[i], minors) && MinorLinked(bs[i], minors, j);
    var cs := Resize(bs, i, j, req);
    forall p | 0 <= p < |cs|
      ensures ChunksLinked(cs[p], minors[at := minors[at].(req := req)])
    {
      ResizedBlock(bs, i, j, req, minors, p);
    }
    ResizedMagic(bs, i, j, req, minors);
  }
}
