/** kernel/src/memory/liballoc_helper.c: the kernel heap grows by mapping fresh pages at its top. */
module KernelHeap {
  import opened Words
  import opened PageTables
  import opened Mapping
  import opened MappingLaws
  import opened Pmm
  import opened Vmm
  import opened PagingRuns

  const HEAP_START: int := 0xFFFF_FFFF_C000_0000
  /** The number of the page behind it. */
  const FIRST_PAGE: int := 0xF_FFFF_FFFC_0001
  /** PTE_PRESENT | PTE_READWRITE. */
  const HEAP_FLAGS: int := 3

  /** Address w lies in the page of frame i, the page behind HEAP_START being number 0. */
  ghost predicate InPage(w: int, i: int) { w / 0x1000 == FIRST_PAGE + i }

  /** w is mapped into the frame, not for user code, and for writing if `rw`. */
  ghost predicate Backed(m: Tables, root: int, w: int, frame: int, rw: bool) {
    var t := Translate(m, root, w);
    t.Mapped? && t.phys == frame + w % 0x1000 && !t.user && (rw ==> t.writable)
  }

  ghost predicate FrameOk(m: Tables, free: set<int>, usable: set<int>, frame: int) {
    frame % 4096 == 0 && frame / 4096 in usable && frame / 4096 !in free && frame / 4096 !in TablePages(m)
  }

  /** Every heap page is mapped to its own frame; no frame is free, a table, or used twice. */
  ghost predicate HeapMapped(m: Tables, root: int, free: set<int>, usable: set<int>, frames: seq<int>,
                             rw: bool) {
    && (forall w, i | 0 <= i < |frames| && Canonical(w) && InPage(w, i) :: Backed(m, root, w, frames[i], rw))
    && (forall i | 0 <= i < |frames| :: FrameOk(m, free, usable, frames[i]))
    && (forall i, j | 0 <= i < j < |frames| :: frames[i] != frames[j])
  }

  predicate InWindow(w: int) { HEAP_START <= w < TWO64 }

  /** No large page in the 1 GiB heap window, and writable tables if `rw`. */
  ghost predicate WindowOk(m: Tables, root: int, rw: bool) {
    forall w | InWindow(w) :: PathOk(m, root, 4, w, 1) && (rw ==> WritablePath(m, root, 4, w))
  }

  /** No address of the window misses more tables than before. */
  ghost predicate MissesLess(m: Tables, m': Tables, root: int) {
    forall w | InWindow(w) :: MissingAt(m', root, w, 4, 1) <= MissingAt(m, root, w, 4, 1)
  }

  lemma WindowStays(m: Tables, root: int, free: set<int>, usable: set<int>, v: int, p: int, m': Tables, free': set<int>,
                    rw: bool)
    requires IsTree(m, root) && TablesHeld(m, free, usable) && TargetOk(p, 1) && PathOk(m, root, 4, v, 1)
    requires Drawn(m, root, v, p, 1, HEAP_FLAGS, free, m', free') && WindowOk(m, root, rw)
    ensures WindowOk(m', root, rw) && MissesLess(m, m', root)
  {
    var n := MissingAt(m, root, v, 4, 1);
    PoolFromFree(m, free, usable, n);
    var h :| TreeOk(m, root, h);
    assert TableOk(m, h, root);
    forall w | InWindow(w)
      ensures PathOk(m', root, 4, w, 1) && MissingAt(m', root, w, 4, 1) <= MissingAt(m, root, w, 4, 1)
      ensures rw ==> WritablePath(m', root, 4, w)
    {
      assert PathOk(m, root, 4, w, 1);
      InstallKeepsPath(m, root, h, 4, v, LeafEntry(p, HEAP_FLAGS, 1), HEAP_FLAGS, NextPages(free, n), w);
    }
  }

  /** One more page at the top, backed by a frame that was taken from the free pages before. */
  lemma HeapGrows(m: Tables, root: int, free: set<int>, usable: set<int>, frames: seq<int>, v: int, p: int,
                  m': Tables, free': set<int>, rw: bool)
    requires IsTree(m, root) && TablesHeld(m, free, usable) && HeapMapped(m, root, free, usable, frames, rw)
    requires FrameOk(m, free, usable, p) && p !in frames && TargetOk(p, 1)
    requires Canonical(v) && InPage(v, |frames|) && PathOk(m, root, 4, v, 1)
    requires Drawn(m, root, v, p, 1, HEAP_FLAGS, free, m', free') && Remapped(m, m', root, v, p, 1, HEAP_FLAGS)
    requires rw ==> WritablePath(m, root, 4, v)
    ensures HeapMapped(m', root, free', usable, frames + [p], rw)
  {
    var taken := MapKeepsTree(m, root, free, usable, 1, v, p, HEAP_FLAGS, m', free');
    var now := frames + [p];
    if rw {
      NewPageWritable(m, root, v);
    }
    forall i | 0 <= i < |now|
      ensures FrameOk(m', free', usable, now[i])
    {
      assert FrameOk(m, free, usable, now[i]);
    }
    forall w, i | 0 <= i < |now| && Canonical(w) && InPage(w, i)
      ensures Backed(m', root, w, now[i], rw)
    {
      if i < |frames| {
        assert Backed(m, root, w, frames[i], rw);
        OtherPage(m, m', root, v, p, |frames|, w, i);
      } else {
        SamePage(m, m', root, v, p, i, w, rw);
      }
    }
  }

  lemma NewPageWritable(m: Tables, root: int, v: int)
    requires IsTree(m, root) && WritablePath(m, root, 4, v)
    ensures Rights(m, root, v, 1).0
  {
    var h :| TreeOk(m, root, h);
    NullIsNoTable(m, root, h);
    WritableRights(m, root, v, 1);
  }

  lemma OtherPage(m: Tables, m': Tables, root: int, v: int, p: int, n: int, w: int, i: int)
    requires Remapped(m, m', root, v, p, 1, HEAP_FLAGS) && InPage(v, n) && InPage(w, i) && i < n
    ensures Translate(m', root, w) == Translate(m, root, w)
  {}

  lemma SamePage(m: Tables, m': Tables, root: int, v: int, p: int, n: int, w: int, rw: bool)
    requires Remapped(m, m', root, v, p, 1, HEAP_FLAGS) && InPage(v, n) && InPage(w, n) && Canonical(w)
    requires rw ==> Rights(m, root, v, 1).0
    ensures Backed(m', root, w, p, rw)
  {}

  // ----- How many pages a growing heap takes -----

  /** Tables to be created when the heap enters a new 2M region at v, the upper tables being there. */
  ghost function AtBoundary(m: Tables, root: int, v: int): nat {
    if v % 0x20_0000 == 0 && MissingAt(m, root, v, 4, 1) > 0 then 1 else 0
  }

  ghost function Later(m: Tables, root: int, v: int, n: nat): nat
    decreases n
  {
    if n == 0 then 0 else AtBoundary(m, root, v) + Later(m, root, v + 0x1000, n - 1)
  }

  /** Tables to be created for n heap pages from v on: those the first misses, and one for each region entered later. */
  ghost function Shortage(m: Tables, root: int, v: int, n: nat): nat {
    if n == 0 then 0 else MissingAt(m, root, v, 4, 1) + Later(m, root, v + 0x1000, n - 1)
  }

  lemma {:induction false} LaterLess(m: Tables, m': Tables, root: int, v: int, n: nat)
    requires MissesLess(m, m', root) && HEAP_START <= v && v + 0x1000 * n <= TWO64
    ensures Later(m', root, v, n) <= Later(m, root, v, n)
    decreases n
  {
    if n > 0 {
      assert InWindow(v);
      LaterLess(m, m', root, v + 0x1000, n - 1);
    }
  }

  /** The page behind a mapped one misses at most its own last table, and that only in a new region. */
  lemma NextMisses(m: Tables, root: int, free: set<int>, usable: set<int>, v: int, p: int, m': Tables, free': set<int>)
    requires IsTree(m, root) && TablesHeld(m, free, usable) && TargetOk(p, 1) && PathOk(m, root, 4, v, 1)
    requires Drawn(m, root, v, p, 1, HEAP_FLAGS, free, m', free') && InWindow(v) && InWindow(v + 0x1000)
    requires v % 0x1000 == 0
    ensures MissingAt(m', root, v + 0x1000, 4, 1) <= (if (v + 0x1000) % 0x20_0000 == 0 then 1 else 0)
  {
    var n := MissingAt(m, root, v, 4, 1);
    PoolFromFree(m, free, usable, n);
    var h :| TreeOk(m, root, h);
    assert TableOk(m, h, root);
    LeafEntryIs(p, HEAP_FLAGS, 1);
    var h' := InstallTree(m, root, h, 4, v, 1, LeafEntry(p, HEAP_FLAGS, 1), HEAP_FLAGS, NextPages(free, n));
    PathThere(m', root, h', v, 1, 2);
    Neighbours(v);
    if (v + 0x1000) % 0x20_0000 == 0 {
      MissingShared(m', root, h', v, v + 0x1000, 2);
    } else {
      MissingShared(m', root, h', v, v + 0x1000, 1);
    }
  }

  lemma Neighbours(v: int)
    requires InWindow(v) && InWindow(v + 0x1000) && v % 0x1000 == 0
    ensures SameSlot(v, v + 0x1000, 3)
    ensures (v + 0x1000) % 0x20_0000 != 0 ==> SameSlot(v, v + 0x1000, 2)
  {
    SlotIsPage(v, v + 0x1000, 3);
    SlotIsPage(v, v + 0x1000, 2);
    SameRegion(v);
  }

  lemma SameRegion(v: int)
    requires v % 0x1000 == 0
    ensures (v + 0x1000) % 0x20_0000 != 0 ==> (v + 0x1000) / 0x20_0000 == v / 0x20_0000
  {}

  /** What is missing for the rest of the pages was counted before the first was mapped. */
  lemma ShortageStep(m: Tables, m': Tables, root: int, v: int, n: nat)
    requires MissesLess(m, m', root) && HEAP_START <= v && v + 0x1000 * (n + 1) <= TWO64
    requires n > 0 ==> MissingAt(m', root, v + 0x1000, 4, 1) <= (if (v + 0x1000) % 0x20_0000 == 0 then 1 else 0)
    ensures Shortage(m', root, v + 0x1000, n) + MissingAt(m, root, v, 4, 1) <= Shortage(m, root, v, n + 1)
  {
    if n > 0 {
      LaterLess(m, m', root, v + 0x2000, n - 1);
      CountedBefore(m, m', root, v + 0x1000, n);
    }
  }

  lemma CountedBefore(m: Tables, m': Tables, root: int, v: int, n: nat)
    requires n > 0 && InWindow(v) && MissesLess(m, m', root)
    requires MissingAt(m', root, v, 4, 1) <= (if v % 0x20_0000 == 0 then 1 else 0)
    requires Later(m', root, v + 0x1000, n - 1) <= Later(m, root, v + 0x1000, n - 1)
    ensures Shortage(m', root, v, n) <= Later(m, root, v, n)
  {
    assert MissingAt(m', root, v, 4, 1) <= MissingAt(m, root, v, 4, 1);
  }

  /** A mapping call takes a page for each table it creates. */
  lemma DrawnTakes(m: Tables, root: int, v: int, p: nat, free: set<int>, m': Tables, free': set<int>)
    requires Drawn(m, root, v, p, 1, HEAP_FLAGS, free, m', free')
    ensures |free'| >= |free| - MissingAt(m, root, v, 4, 1)
  {
    var n := MissingAt(m, root, v, 4, 1);
    NextPagesAre(free, n);
    var pool := NextPages(free, n);
    FewNumbers(pool);
    assert |free| == |free'| + |PageNumbers(pool)| by {
      assert free == free' + PageNumbers(pool);
    }
  }

  lemma {:induction false} FewNumbers(pool: seq<nat>)
    ensures |PageNumbers(pool)| <= |pool|
  {
    if pool == [] {
      assert PageNumbers(pool) == {};
    } else {
      PageNumbersTail(pool);
      FewNumbers(pool[1..]);
    }
  }

  /** liballoc_alloc hands back phys_to_hh_data(kernel_heap_top): never a canonical address. */
  lemma ReturnedPointerFaults(m: Tables, root: int, top: int)
    requires HEAP_START <= top < TWO64
    ensures !Canonical(PhysToHh(top)) && Translate(m, root, PhysToHh(top)) == Fault
  {
  }

  /** Besides `frames` pages there is one for each table that n heap pages from v on miss. */
  ghost predicate Affords(m: Tables, root: int, free: set<int>, frames: int, v: int, n: nat) {
    |free| >= frames + Shortage(m, root, v, n)
  }

  lemma AffordsSome(m: Tables, root: int, free: set<int>, frames: int, v: int, n: nat)
    requires Affords(m, root, free, frames, v, n)
    ensures |free| >= frames
  {}

  lemma AffordsFrame(m: Tables, root: int, free: set<int>, free': set<int>, frames: int, v: int, n: nat)
    requires Affords(m, root, free, frames + 1, v, n) && |free'| == |free| - 1
    ensures Affords(m, root, free', frames, v, n)
  {}

  lemma AffordsFirst(m: Tables, root: int, free: set<int>, spare: int, v: int, n: nat, rw: bool)
    requires WindowOk(m, root, rw) && InWindow(v) && Affords(m, root, free, spare + n, v, n + 1)
    ensures PathOk(m, root, 4, v, 1) && MissingAt(m, root, v, 4, 1) + spare <= |free|
  {}

  /** The heap after one more page was mapped at v, with pages left for n more. */
  ghost predicate Grown(m: Tables, root: int, free: set<int>, usable: set<int>, frames: seq<int>, v: int, spare: int,
                        n: nat, rw: bool) {
    && HeapMapped(m, root, free, usable, frames, rw) && WindowOk(m, root, rw)
    && Affords(m, root, free, spare + n, v + 0x1000, n)
  }

  /** The heap before frame p is mapped at v, with pages left for n more. */
  ghost predicate CanGrow(m: Tables, root: int, free: set<int>, usable: set<int>, frames: seq<int>, v: int, p: int,
                          spare: int, n: nat, rw: bool) {
    && IsTree(m, root) && TablesHeld(m, free, usable) && HeapMapped(m, root, free, usable, frames, rw)
    && FrameOk(m, free, usable, p) && p !in frames && TargetOk(p, 1) && WindowOk(m, root, rw)
    && InWindow(v) && v % 0x1000 == 0 && v + 0x1000 * (n + 1) <= TWO64 && InPage(v, |frames|)
    && Affords(m, root, free, spare + n, v, n + 1)
  }

  lemma TopMapped(m: Tables, root: int, free: set<int>, usable: set<int>, frames: seq<int>, v: int, p: int,
                  m': Tables, free': set<int>, spare: int, n: nat, rw: bool)
    requires CanGrow(m, root, free, usable, frames, v, p, spare, n, rw)
    requires Drawn(m, root, v, p, 1, HEAP_FLAGS, free, m', free') && Remapped(m, m', root, v, p, 1, HEAP_FLAGS)
    ensures Grown(m', root, free', usable, frames + [p], v, spare, n, rw)
  {
    assert PathOk(m, root, 4, v, 1);
    HeapGrows(m, root, free, usable, frames, v, p, m', free', rw);
    WindowStays(m, root, free, usable, v, p, m', free', rw);
    DrawnTakes(m, root, v, p, free, m', free');
    if n > 0 {
      NextMisses(m, root, free, usable, v, p, m', free');
    }
    ShortageStep(m, m', root, v, n);
  }

  /** The heap pages in addresses. */
  lemma AllBacked(m: Tables, root: int, free: set<int>, usable: set<int>, frames: seq<int>, rw: bool, top: int)
    requires HeapMapped(m, root, free, usable, frames, rw) && top == HEAP_START + 0x1000 * |frames| < TWO64 - 0x1000 + 1
    ensures forall w | 0xFFFF_FFFF_C000_1000 <= w < top + 0x1000 ::
              var t := Translate(m, root, w);
              && t.Mapped? && t.phys == frames[(w - 0xFFFF_FFFF_C000_1000) / 0x1000] + w % 0x1000
              && !t.user && (rw ==> t.writable)
  {
    forall w | 0xFFFF_FFFF_C000_1000 <= w < top + 0x1000
      ensures var t := Translate(m, root, w);
              && t.Mapped? && t.phys == frames[(w - 0xFFFF_FFFF_C000_1000) / 0x1000] + w % 0x1000
              && !t.user && (rw ==> t.writable)
    {
      var i := (w - 0xFFFF_FFFF_C000_1000) / 0x1000;
      PageIndex(w, i);
      assert Backed(m, root, w, frames[i], rw);
    }
  }

  lemma PageIndex(w: int, i: int)
    requires 0xFFFF_FFFF_C000_1000 <= w < TWO64 && i == (w - 0xFFFF_FFFF_C000_1000) / 0x1000
    ensures InPage(w, i) && Canonical(w)
  {}

  class Helper {
    const space: AddressSpace
    /** kernel_heap_top. */
    var top: int
    ghost var frames: seq<int>
    /** The tables of the window are writable. */
    ghost const rw: bool

    ghost predicate Valid()
      reads this, space, space.pmm, space.pmm.bitmap
    {
      && space.Valid() && WindowOk(space.tables, space.root, rw)
      && top == HEAP_START + 0x1000 * |frames| && top < TWO64
      && HeapMapped(space.tables, space.root, space.pmm.free, space.pmm.usable, frames, rw)
    }

    constructor (s: AddressSpace, ghost writable: bool)
      requires s.Valid() && WindowOk(s.tables, s.root, writable)
      ensures Valid() && space == s && frames == [] && top == HEAP_START && rw == writable
    {
      space, top, frames, rw := s, HEAP_START, [], writable;
    }

    /** Pages enough for n more heap pages: their frames and the tables they miss. */
    ghost predicate Enough(n: nat)
      reads this, space, space.pmm
    {
      && top + 0x1000 * n + 0x1000 <= TWO64
      && Affords(space.tables, space.root, space.pmm.free, space.pmm.spare + n, top + 0x1000, n)
    }

    /** pmm_allocpage for the heap: a page nothing else uses. */
    method TakeFrame(ghost n: nat) returns (page: int)
      requires Valid() && Enough(n + 1)
      modifies space.pmm`usedpages, space.pmm`free, space.pmm.bitmap
      ensures space.Valid()
      ensures CanGrow(space.tables, space.root, space.pmm.free, space.pmm.usable, frames, top + 0x1000, page,
                      space.pmm.spare, n, rw)
    {
      ghost var free := space.pmm.free;
      AffordsSome(space.tables, space.root, free, space.pmm.spare + n + 1, top + 0x1000, n + 1);
      page := space.pmm.AllocPage();
      NewFrame(space.tables, space.root, free, space.pmm.usable, frames, page, rw);
      TopIsCanonical(top, |frames|);
      OneLess(free, page / 4096);
      AffordsFrame(space.tables, space.root, free, space.pmm.free, space.pmm.spare + n, top + 0x1000, n + 1);
    }

    /** vmm_map_4Kpage(RootPageDirectory, v, page, flags) */
    method MapAt(v: nat, page: nat, ghost n: nat)
      requires space.Valid()
      requires CanGrow(space.tables, space.root, space.pmm.free, space.pmm.usable, frames, v, page, space.pmm.spare, n,
                       rw)
      modifies space`tables, space.pmm`usedpages, space.pmm`free, space.pmm.bitmap
      ensures space.Valid()
      ensures Grown(space.tables, space.root, space.pmm.free, space.pmm.usable, frames + [page], v, space.pmm.spare,
                    n, rw)
    {
      ghost var m, free := space.tables, space.pmm.free;
      AffordsFirst(m, space.root, free, space.pmm.spare, v, n, rw);
      space.Map4K(v, page, HEAP_FLAGS);
      TopMapped(m, space.root, free, space.pmm.usable, frames, v, page, space.tables, space.pmm.free,
                space.pmm.spare, n, rw);
    }

    /** One turn of the loop in liballoc_alloc: a fresh frame, mapped behind the top. */
    method GrowOne(ghost n: nat)
      requires Valid() && Enough(n + 1)
      modifies this`top, this`frames, space`tables, space.pmm`usedpages, space.pmm`free, space.pmm.bitmap
      ensures Valid() && |frames| == |old(frames)| + 1 && old(frames) <= frames && Enough(n)
    {
      var page := TakeFrame(n);
      var v := top + 0x1000;
      MapAt(v, page, n);
      frames := frames + [page];
      top := v;
    }

    /**
     liballoc_alloc: `count` more pages of the window are mapped, each to its
     own frame, and the earlier ones keep theirs.
     */
    method Grow(count: nat) returns (ptr: int)
      requires Valid() && Enough(count)
      modifies this`top, this`frames, space`tables, space.pmm`usedpages, space.pmm`free, space.pmm.bitmap
      ensures Valid() && |frames| == |old(frames)| + count && old(frames) <= frames
      ensures top == old(top) + 0x1000 * count == 0xFFFF_FFFF_C000_0000 + 0x1000 * |frames|
      ensures forall w | 0xFFFF_FFFF_C000_1000 <= w < top + 0x1000 ::
                var t := Translate(space.tables, space.root, w);
                && t.Mapped? && t.phys == frames[(w - 0xFFFF_FFFF_C000_1000) / 0x1000] + w % 0x1000
                && !t.user && (rw ==> t.writable)
      ensures forall i, j | 0 <= i < j < |frames| :: frames[i] != frames[j]
      ensures ptr == PhysToHh(top)
    {
      for i := 0 to count
        invariant Valid() && |frames| == |old(frames)| + i && old(frames) <= frames && Enough(count - i)
      {
        GrowOne(count - i - 1);
      }
      AllBacked(space.tables, space.root, space.pmm.free, space.pmm.usable, frames, rw, top);
      ptr := PhysToHh(top);
    }
  }

  /** A page just taken from the free ones may back a heap page. */
  lemma NewFrame(m: Tables, root: int, free: set<int>, usable: set<int>, frames: seq<int>, page: int, rw: bool)
    requires TablesHeld(m, free, usable) && HeapMapped(m, root, free, usable, frames, rw)
    requires page % 4096 == 0 && page / 4096 in free
    ensures TablesHeld(m, free - {page / 4096}, usable) && TargetOk(page, 1)
    ensures FrameOk(m, free - {page / 4096}, usable, page) && page !in frames
    ensures HeapMapped(m, root, free - {page / 4096}, usable, frames, rw)
  {
    forall t | t in m
      ensures t / 4096 != page / 4096
    {
      assert t / 4096 !in free;
    }
    forall i | 0 <= i < |frames|
      ensures frames[i] != page && FrameOk(m, free - {page / 4096}, usable, frames[i])
    {
      assert FrameOk(m, free, usable, frames[i]);
    }
    assert page / 4096 in usable;
  }

  lemma TopIsCanonical(top: int, n: nat)
    requires top == HEAP_START + 0x1000 * n && top + 0x2000 <= TWO64
    ensures Canonical(top + 0x1000) && InPage(top + 0x1000, n) && InWindow(top + 0x1000) && top % 0x1000 == 0
  {
  }
}
