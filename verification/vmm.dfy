/** kernel/src/memory/vmm.c over kernel/src/memory/pmm.c: page tables updated in place. */
module Vmm {
  import opened Words
  import opened PageTables
  import opened Mapping
  import opened MappingLaws
  import opened Pmm

  const HIGHER_HALF: int := 0xFFFF_8000_0000_0000

  // ----- The pages the allocator hands out next -----

  lemma Inhabited(s: set<int>)
    requires s != {}
    ensures exists x :: x in s
  {
    assert (forall x :: x !in s) ==> s == {};
  }

  lemma {:induction false} LowestExists(s: set<int>)
    requires s != {}
    ensures exists p :: IsLowest(s, p)
    decreases |s|
  {
    Inhabited(s);
    var x :| x in s;
    var rest := s - {x};
    if rest == {} {
      assert forall q | q in s :: q == x || q in rest;
      assert IsLowest(s, x);
    } else {
      LowestExists(rest);
      var y :| IsLowest(rest, y);
      assert forall q | q in s :: q == x || q in rest;
      assert IsLowest(s, if x < y then x else y);
    }
  }

  ghost function Lowest(s: set<int>): (p: int)
    requires s != {}
    ensures IsLowest(s, p)
  {
    LowestExists(s);
    var p :| IsLowest(s, p);
    p
  }

  /** Physical addresses of the n lowest free pages, in order. */
  ghost function NextPages(free: set<int>, n: nat): seq<nat>
    requires n <= |free| && forall p | p in free :: 0 <= p
  {
    if n == 0 then [] else [4096 * Lowest(free)] + NextPages(free - {Lowest(free)}, n - 1)
  }

  ghost function PageNumbers(pool: seq<nat>): set<int> { set i | 0 <= i < |pool| :: pool[i] / 4096 }

  lemma {:induction false} NextPagesAre(free: set<int>, n: nat)
    requires n <= |free| && forall p | p in free :: 0 <= p
    ensures var pool := NextPages(free, n);
            && |pool| == n && PageNumbers(pool) <= free
            && (forall i | 0 <= i < n :: pool[i] % 4096 == 0 && pool[i] / 4096 in free)
            && (forall i, j | 0 <= i < j < n :: pool[i] != pool[j])
    decreases n
  {
    if n > 0 {
      var p := Lowest(free);
      var rest := NextPages(free - {p}, n - 1);
      NextPagesAre(free - {p}, n - 1);
      var pool := NextPages(free, n);
      assert forall i | 1 <= i < n :: pool[i] == rest[i - 1];
      assert forall i | 1 <= i < n :: pool[i] / 4096 != p;
    }
  }

  lemma LowestUnique(s: set<int>, p: int, q: int)
    requires IsLowest(s, p) && IsLowest(s, q)
    ensures p == q
  {
  }

  /**
   No table lies in a free page, and every page a table could be put in is
   addressable.  A table need not lie in usable memory: those vmm_init takes
   over from the bootloader do not.
   */
  ghost predicate TablesHeld(m: Tables, free: set<int>, usable: set<int>) {
    && (forall t | t in m :: t / 4096 !in free)
    && (forall p | p in usable :: 0 < p < 0x100_0000_0000)
    && free <= usable
  }

  /** The pages handed out next may serve as tables. */
  lemma PoolFromFree(m: Tables, free: set<int>, usable: set<int>, n: nat)
    requires TablesHeld(m, free, usable) && n <= |free|
    ensures |NextPages(free, n)| == n && PoolOk(m, NextPages(free, n))
  {
    NextPagesAre(free, n);
    var pool := NextPages(free, n);
    forall i | 0 <= i < n
      ensures PageOk(pool[i]) && pool[i] !in m
    {
      assert pool[i] / 4096 in free && pool[i] / 4096 in usable;
    }
  }

  /** What is left to do of a mapping call at level l, and which pages it will still take. */
  ghost predicate Pending(m: Tables, root: int, free: set<int>, l: int, v: int, leafLevel: int, leaf: int, flags: nat,
                          goal: Tables, rest: set<int>) {
    var n := MissingAt(m, root, v, l, leafLevel);
    && n <= |free| && (forall p | p in free :: 0 <= p)
    && var pool := NextPages(free, n);
    && (exists h :: Ready(m, root, h, l, v, leafLevel, flags, pool))
    && goal == Install(m, TableAt(m, root, v, l), l, v, leafLevel, leaf, flags, pool)
    && rest == free - PageNumbers(pool)
  }

  lemma PendingStart(m: Tables, root: int, free: set<int>, usable: set<int>, v: int, leafLevel: int, leaf: int,
                     flags: nat)
    requires IsTree(m, root) && TablesHeld(m, free, usable)
    requires 1 <= leafLevel <= 3 && FlagsOk(flags) && PathOk(m, root, 4, v, leafLevel)
    requires MissingAt(m, root, v, 4, leafLevel) <= |free|
    ensures var pool := NextPages(free, MissingAt(m, root, v, 4, leafLevel));
            Pending(m, root, free, 4, v, leafLevel, leaf, flags,
                    Install(m, root, 4, v, leafLevel, leaf, flags, pool), free - PageNumbers(pool))
  {
    var n := MissingAt(m, root, v, 4, leafLevel);
    PoolFromFree(m, free, usable, n);
    var h :| TreeOk(m, root, h);
    assert TableOk(m, h, root);
    assert Ready(m, root, h, 4, v, leafLevel, flags, NextPages(free, n));
  }

  lemma PendingDown(m: Tables, root: int, free: set<int>, l: int, v: int, leafLevel: int, leaf: int, flags: nat,
                    goal: Tables, rest: set<int>)
    requires Pending(m, root, free, l, v, leafLevel, leaf, flags, goal, rest) && l > leafLevel
    requires Present(Entry(m, TableAt(m, root, v, l), l, v))
    ensures TableAt(m, root, v, l) in m && |m[TableAt(m, root, v, l)]| == ENTRIES
    ensures TablePointer(Entry(m, TableAt(m, root, v, l), l, v)) == TableAt(m, root, v, l - 1)
    ensures Pending(m, root, free, l - 1, v, leafLevel, leaf, flags, goal, rest)
  {
    var pool := NextPages(free, MissingAt(m, root, v, l, leafLevel));
    var h :| Ready(m, root, h, l, v, leafLevel, flags, pool);
    ReadyDown(m, root, h, l, v, leafLevel, leaf, flags, pool);
    var t := TableAt(m, root, v, l);
    TableAtLevel(m, root, h, v, l);
    assert TableOk(m, h, t) && LinkOk(m, h, t, Index(v, l));
    LinkPointer(Entry(m, t, l, v));
  }

  lemma PendingLink(m: Tables, root: int, free: set<int>, l: int, v: int, leafLevel: int, leaf: int, flags: nat,
                    goal: Tables, rest: set<int>)
    requires Pending(m, root, free, l, v, leafLevel, leaf, flags, goal, rest) && l > leafLevel
    requires !Present(Entry(m, TableAt(m, root, v, l), l, v))
    ensures TableAt(m, root, v, l) in m && |m[TableAt(m, root, v, l)]| == ENTRIES
    ensures free != {} && 4096 * Lowest(free) !in m
    ensures var page := 4096 * Lowest(free);
            var m' := LinkTable(m, TableAt(m, root, v, l), Index(v, l), page, BitOr(page, flags));
            && TablePointer(BitOr(page, flags)) == page == TableAt(m', root, v, l - 1)
            && MissingAt(m, root, v, l, leafLevel) == MissingAt(m', root, v, l - 1, leafLevel) + 1
            && Pending(m', root, free - {Lowest(free)}, l - 1, v, leafLevel, leaf, flags, goal, rest)
  {
    var n := MissingAt(m, root, v, l, leafLevel);
    var pool := NextPages(free, n);
    var h :| Ready(m, root, h, l, v, leafLevel, flags, pool);
    var t, page := TableAt(m, root, v, l), 4096 * Lowest(free);
    TableAtLevel(m, root, h, v, l);
    assert TableOk(m, h, t);
    ReadyLink(m, root, h, l, v, leafLevel, leaf, flags, pool);
    NextPagesTail(free, n);
    LinkEntry(page, flags);
    var m' := LinkTable(m, t, Index(v, l), page, BitOr(page, flags));
    assert MissingAt(m', root, v, l - 1, leafLevel) == n - 1;
    assert Ready(m', root, Extended(h, t, Index(v, l), page), l - 1, v, leafLevel, flags, pool[1..]);
  }

  lemma NextPagesTail(free: set<int>, n: nat)
    requires 0 < n <= |free| && forall p | p in free :: 0 <= p
    ensures var pool, p := NextPages(free, n), Lowest(free);
            && |pool| == n && pool[0] == 4096 * p && pool[1..] == NextPages(free - {p}, n - 1)
            && free - PageNumbers(pool) == free - {p} - PageNumbers(pool[1..])
  {
    NextPagesAre(free, n);
    PageNumbersTail(NextPages(free, n));
  }

  lemma PageNumbersTail(pool: seq<nat>)
    requires pool != []
    ensures PageNumbers(pool) == {pool[0] / 4096} + PageNumbers(pool[1..])
  {
    forall x | x in PageNumbers(pool)
      ensures x == pool[0] / 4096 || x in PageNumbers(pool[1..])
    {
      var i :| 0 <= i < |pool| && x == pool[i] / 4096;
      assert i > 0 ==> pool[1..][i - 1] / 4096 == x;
    }
    forall x | x in PageNumbers(pool[1..])
      ensures x in PageNumbers(pool)
    {
      var i :| 0 <= i < |pool| - 1 && x == pool[1..][i] / 4096;
      assert pool[i + 1] / 4096 == x;
    }
  }

  /** The last step of a mapping call. */
  lemma LeafPending(m: Tables, root: int, free: set<int>, v: int, l: int, leaf: int, flags: nat,
                    goal: Tables, rest: set<int>)
    requires Pending(m, root, free, l, v, l, leaf, flags, goal, rest) && !IsLink(leaf, l)
    ensures var t := TableAt(m, root, v, l);
            && t in m && |m[t]| == ENTRIES && goal == SetEntry(m, t, Index(v, l), leaf) && rest == free
            && IsTree(goal, root)
  {
    var pool := NextPages(free, 0);
    var h :| Ready(m, root, h, l, v, l, flags, pool);
    InstallLeaf(m, root, h, v, l, leaf);
    assert PageNumbers(pool) == {};
  }

  /** A mapping call whose missing tables are the lowest free pages. */
  ghost predicate Drawn(m: Tables, root: int, v: int, p: nat, l: int, flags: nat, free: set<int>,
                        m': Tables, free': set<int>) {
    var n := MissingAt(m, root, v, 4, l);
    && n <= |free| && (forall q | q in free :: 0 <= q)
    && m' == Map(m, root, v, p, l, flags, NextPages(free, n))
    && free' == free - PageNumbers(NextPages(free, n))
  }

  /** Every address of the l-page of v goes to p with the granted rights; every other translates as before. */
  ghost predicate Remapped(m: Tables, m': Tables, root: int, v: int, p: int, l: int, flags: int) {
    forall w :: Translate(m', root, w) == MapSpec(Translate(m, root, w), v, p, l, Granted(m, root, v, l, flags), w)
  }

  /** The indices as the mapping calls shift them out. */
  lemma Indices(v: nat)
    ensures v / 0x1000 % 512 == Index(v, 1) && v / 0x1000 / 512 % 512 == Index(v, 2)
    ensures v / 0x1000 / 512 / 512 % 512 == Index(v, 3) && v / 0x1000 / 512 / 512 / 512 % 512 == Index(v, 4)
  {
    Coarser(v);
  }

  lemma DrawnTranslates(m: Tables, root: int, v: int, p: int, l: int, flags: int, free: set<int>, usable: set<int>)
    requires IsTree(m, root) && TablesHeld(m, free, usable) && Canonical(v) && 1 <= l <= 3
    requires TargetOk(p, l) && FlagsOk(flags) && PathOk(m, root, 4, v, l) && MissingAt(m, root, v, 4, l) <= |free|
    ensures Remapped(m, Map(m, root, v, p, l, flags, NextPages(free, MissingAt(m, root, v, 4, l))), root, v, p, l,
                     flags)
  {
    var n := MissingAt(m, root, v, 4, l);
    PoolFromFree(m, free, usable, n);
    var h :| TreeOk(m, root, h);
    assert TableOk(m, h, root);
    forall w {
      MapTranslates(m, root, h, v, p, l, flags, NextPages(free, n), w);
    }
  }

  // ----- The higher-half view of physical memory -----

  function PhysToHh(a: int): int { (HIGHER_HALF + a) % TWO64 }

  function HhToPhys(a: int): int { (a - HIGHER_HALF) % TWO64 }

  /** Following an entry through the higher half and back gives the page it names. */
  lemma ThroughHigherHalf(e: int)
    requires 0 <= e < TWO64
    ensures HhToPhys(PhysToHh(e) / 4096 * 4096) == e / 4096 * 4096
  {
    var q, r := e / 4096, e % 4096;
    assert e == 4096 * q + r;
    var base := HIGHER_HALF / 4096;
    assert HIGHER_HALF == 4096 * base;
    if HIGHER_HALF + e < TWO64 {
      assert PhysToHh(e) == 4096 * (base + q) + r;
      assert PhysToHh(e) / 4096 == base + q;
    } else {
      assert PhysToHh(e) == 4096 * (base + q - TWO64 / 4096) + r;
      assert PhysToHh(e) / 4096 == base + q - TWO64 / 4096;
    }
  }

  lemma RootThroughHigherHalf(t: int)
    requires 0 <= t < TWO64
    ensures HhToPhys(PhysToHh(t)) == t
  {
  }

  // ----- Walking by hand -----

  lemma RootHeld(m: Tables, root: int)
    requires IsTree(m, root)
    ensures root in m && |m[root]| == ENTRIES && 0 < root < TWO64
  {
    var h :| TreeOk(m, root, h);
    assert TableOk(m, h, root);
  }

  /** One level of vmm_unmap_page: a present entry on a path without large pages leads to the next table. */
  lemma UnmapLevel(m: Tables, root: int, l: nat, v: int)
    requires IsTree(m, root) && 2 <= l <= 4 && TableAt(m, root, v, l) != 0
    requires PathOk(m, TableAt(m, root, v, l), l, v, 1) && Present(Entry(m, TableAt(m, root, v, l), l, v))
    ensures var t := Entry(m, TableAt(m, root, v, l), l, v) / 4096 * 4096;
            && t == TableAt(m, root, v, l - 1) && t in m && |m[t]| == ENTRIES && t != 0
            && PathOk(m, t, l - 1, v, 1)
  {
    var h :| TreeOk(m, root, h);
    var t := TableAt(m, root, v, l);
    TableAtLevel(m, root, h, v, l);
    assert TableOk(m, h, t) && LinkOk(m, h, t, Index(v, l));
    LinkPointer(Entry(m, t, l, v));
    assert TableOk(m, h, Frame(Entry(m, t, l, v)));
  }

  lemma UnmapOutcome(m: Tables, root: int, v: int)
    requires IsTree(m, root) && PathOk(m, root, 4, v, 1) && Canonical(v)
    ensures IsTree(Unmap(m, root, 4, v), root) && Unmap(m, root, 4, v).Keys == m.Keys
    ensures forall w :: Translate(Unmap(m, root, 4, v), root, w)
              == if Canonical(w) && w / 0x1000 == v / 0x1000 then Fault else Translate(m, root, w)
  {
    var h :| TreeOk(m, root, h);
    UnmapTranslates(m, root, h, v, v);
    forall w {
      UnmapTranslates(m, root, h, v, w);
    }
  }

  /** The walk of v ends in a present 4K entry that holds no address bits above 52. */
  ghost predicate MappedAt4K(m: Tables, root: int, v: int) {
    && TableAt(m, root, v, 1) != 0 && Present(Entry(m, TableAt(m, root, v, 1), 1, v))
    && 0 <= Entry(m, TableAt(m, root, v, 1), 1, v) < 0x10_0000_0000_0000
  }

  /** Each load of vmm_pagewalk finds the table the hardware would use. */
  lemma LoadLevel(m: Tables, root: int, h: Shape, l: nat, v: int)
    requires TreeOk(m, root, h) && 2 <= l <= 4 && TableAt(m, root, v, l - 1) != 0
    ensures var t := TableAt(m, root, v, l);
            && t in m && |m[t]| == ENTRIES
            && HhToPhys(PhysToHh(m[t][Index(v, l)]) / 4096 * 4096) == TableAt(m, root, v, l - 1)
  {
    PathThere(m, root, h, v, l - 1, l);
    TableAtLevel(m, root, h, v, l);
    var t := TableAt(m, root, v, l);
    assert TableOk(m, h, t) && LinkOk(m, h, t, Index(v, l));
    LinkPointer(m[t][Index(v, l)]);
    ThroughHigherHalf(m[t][Index(v, l)]);
  }

  lemma LeafLoad(e: int)
    requires 0 <= e < 0x10_0000_0000_0000
    ensures HhToPhys(PhysToHh(e) / 4096 * 4096) / 4096 * 4096 == Frame(e)
  {
    ThroughHigherHalf(e);
    assert e / 4096 < 0x100_0000_0000;
    assert e / 4096 * 4096 / 4096 == e / 4096;
  }

  lemma WalkLoads(m: Tables, root: int, v: int)
    requires IsTree(m, root) && Canonical(v) && MappedAt4K(m, root, v)
    ensures forall l | 2 <= l <= 4 ::
              var t := TableAt(m, root, v, l);
              && t in m && |m[t]| == ENTRIES
              && HhToPhys(PhysToHh(m[t][Index(v, l)]) / 4096 * 4096) == TableAt(m, root, v, l - 1)
    ensures var t := TableAt(m, root, v, 1);
            && t in m && |m[t]| == ENTRIES
            && HhToPhys(PhysToHh(m[t][Index(v, 1)]) / 4096 * 4096) / 4096 * 4096 == Frame(Entry(m, t, 1, v))
            && Translate(m, root, v).Mapped? && Translate(m, root, v).phys == Frame(Entry(m, t, 1, v)) + v % 0x1000
  {
    var h :| TreeOk(m, root, h);
    forall l | 2 <= l <= 4
      ensures var t := TableAt(m, root, v, l);
              && t in m && |m[t]| == ENTRIES
              && HhToPhys(PhysToHh(m[t][Index(v, l)]) / 4096 * 4096) == TableAt(m, root, v, l - 1)
    {
      PathThere(m, root, h, v, 1, l - 1);
      LoadLevel(m, root, h, l, v);
    }
    var t := TableAt(m, root, v, 1);
    TableAtLevel(m, root, h, v, 1);
    assert TableOk(m, h, t);
    LeafLoad(Entry(m, t, 1, v));
    WalkFromPath(m, root, h, v, 1);
    FrameAligned(Entry(m, t, 1, v));
  }

  /** After vmm_map_4Kpage(v, p), the walk by hand of v ends at p. */
  lemma WalkAfterMap(m: Tables, root: int, h: Shape, v: int, p: int, flags: int, pool: seq<nat>)
    requires CanMap(m, root, h, v, p, 1, flags, pool)
    ensures var m' := Map(m, root, v, p, 1, flags, pool);
            IsTree(m', root) && MappedAt4K(m', root, v) && Frame(Entry(m', TableAt(m', root, v, 1), 1, v)) == p
  {
    var leaf := LeafEntry(p, flags, 1);
    LeafEntryIs(p, flags, 1);
    TargetAligned(p, 1);
    SmallLeaf(p / 4096, flags);
    var h' := InstallTree(m, root, h, 4, v, 1, leaf, flags, pool);
  }

  lemma FrameAligned(e: int)
    ensures Frame(e) % 0x1000 == 0
  {
  }

  // ----- The address space -----

  /** A single empty table is a tree that translates nothing. */
  lemma EmptyTree(root: int)
    requires PageOk(root)
    ensures IsTree(map[root := ZeroPage()], root)
    ensures forall v :: Translate(map[root := ZeroPage()], root, v) == Fault
  {
    var m, h := map[root := ZeroPage()], Shape(map[root := 4], map[]);
    assert TreeOk(m, root, h);
    forall v
      ensures Translate(m, root, v) == Fault
    {
      assert Entry(m, root, 4, v) == 0;
    }
  }

  /** The four indices, shifted out of an address one after the other. */
  method ShiftOut(v: nat) returns (index1: nat, index2: nat, index3: nat, index4: nat)
    ensures index1 == Index(v, 1) && index2 == Index(v, 2) && index3 == Index(v, 3) && index4 == Index(v, 4)
  {
    Indices(v);
    var vaddr := v / 0x1000;
    index1 := vaddr % 512;
    vaddr := vaddr / 512;
    index2 := vaddr % 512;
    vaddr := vaddr / 512;
    index3 := vaddr % 512;
    vaddr := vaddr / 512;
    index4 := vaddr % 512;
  }

  class AddressSpace {
    const pmm: Allocator
    /** The page tables in physical memory. */
    var tables: Tables
    /** RootPageDirectory. */
    var root: int

    ghost predicate Valid()
      reads this, pmm, pmm.bitmap
    {
      && pmm.Valid() && TablesHeld(tables, pmm.free, pmm.usable)
      && IsTree(tables, root)
    }

    /** A new address space: one empty root table, nothing mapped. */
    constructor (allocator: Allocator)
      requires allocator.Valid() && |allocator.free| > allocator.spare
      requires forall p | p in allocator.usable :: 0 < p < 0x100_0000_0000
      modifies allocator`usedpages, allocator`free, allocator.bitmap
      ensures Valid() && pmm == allocator && tables == map[root := ZeroPage()]
      ensures root == 4096 * Lowest(old(allocator.free)) && pmm.free == old(allocator.free) - {root / 4096}
      ensures pmm.usable == old(allocator.usable) && pmm.spare == old(allocator.spare)
    {
      pmm, tables, root := allocator, map[], 0;
      new;
      root := CreatePageTable();
      EmptyTree(root);
    }

    /** An address space that is there already, such as the kernel's own after vmm_init. */
    constructor Existing(allocator: Allocator, m: Tables, r: int)
      requires allocator.Valid() && TablesHeld(m, allocator.free, allocator.usable) && IsTree(m, r)
      ensures Valid() && pmm == allocator && tables == m && root == r
    {
      pmm, tables, root := allocator, m, r;
    }

    /** The allocator can supply a page for every level that is missing. */
    ghost predicate Supplied(v: int, leafLevel: int)
      reads this, pmm
    {
      MissingAt(tables, root, v, 4, leafLevel) + pmm.spare <= |pmm.free|
    }

    /** vmm_create_page_table: a cleared page, out of those that are free. */
    method CreatePageTable() returns (page: int)
      requires pmm.Valid() && |pmm.free| > pmm.spare && TablesHeld(tables, pmm.free, pmm.usable)
      modifies this`tables, pmm`usedpages, pmm`free, pmm.bitmap
      ensures pmm.Valid() && page == 4096 * Lowest(old(pmm.free)) && page !in old(tables)
      ensures tables == old(tables)[page := ZeroPage()] && pmm.free == old(pmm.free) - {page / 4096}
      ensures TablesHeld(tables, pmm.free, pmm.usable)
    {
      ghost var lowest := Lowest(pmm.free);
      page := pmm.AllocPage();
      LowestUnique(old(pmm.free), lowest, page / 4096);
      tables := tables[page := ZeroPage()];
    }

    /** vmm_get_pagemap: the table behind an entry, created if the entry is not present. */
    method GetPagemap(pagemap: int, index: int, flags: nat) returns (table: int)
      requires pmm.Valid() && TablesHeld(tables, pmm.free, pmm.usable)
      requires pagemap in tables && 0 <= index < |tables[pagemap]|
      requires !Present(tables[pagemap][index]) ==> |pmm.free| > pmm.spare
      modifies this`tables, pmm`usedpages, pmm`free, pmm.bitmap
      ensures pmm.Valid() && TablesHeld(tables, pmm.free, pmm.usable)
      ensures old(Present(tables[pagemap][index])) ==>
                && tables == old(tables) && pmm.free == old(pmm.free)
                && table == TablePointer(old(tables[pagemap][index]))
      ensures !old(Present(tables[pagemap][index])) ==>
                var page := 4096 * Lowest(old(pmm.free));
                && page !in old(tables) && pmm.free == old(pmm.free) - {page / 4096}
                && tables == LinkTable(old(tables), pagemap, index, page, BitOr(page, flags))
                && table == TablePointer(BitOr(page, flags))
    {
      if Present(tables[pagemap][index]) {
        table := TablePointer(tables[pagemap][index]);
      } else {
        var newentry := CreatePageTable();
        tables := SetEntry(tables, pagemap, index, BitOr(newentry, flags));
        table := TablePointer(tables[pagemap][index]);
      }
    }

    /** One level of a mapping call: follow or create the next table. */
    method Descend(t: int, index: int, flags: nat, ghost l: int, ghost v: int, ghost leafLevel: int, ghost leaf: int,
                   ghost goal: Tables, ghost rest: set<int>) returns (child: int)
      requires pmm.Valid() && TablesHeld(tables, pmm.free, pmm.usable)
      requires Pending(tables, root, pmm.free, l, v, leafLevel, leaf, flags, goal, rest) && l > leafLevel
      requires t == TableAt(tables, root, v, l) && index == Index(v, l)
      requires MissingAt(tables, root, v, l, leafLevel) + pmm.spare <= |pmm.free|
      modifies this`tables, pmm`usedpages, pmm`free, pmm.bitmap
      ensures pmm.Valid() && TablesHeld(tables, pmm.free, pmm.usable)
      ensures Pending(tables, root, pmm.free, l - 1, v, leafLevel, leaf, flags, goal, rest)
      ensures child == TableAt(tables, root, v, l - 1)
      ensures MissingAt(tables, root, v, l - 1, leafLevel) + pmm.spare <= |pmm.free|
    {
      if Present(Entry(tables, t, l, v)) {
        PendingDown(tables, root, pmm.free, l, v, leafLevel, leaf, flags, goal, rest);
      } else {
        PendingLink(tables, root, pmm.free, l, v, leafLevel, leaf, flags, goal, rest);
        OneLess(pmm.free, Lowest(pmm.free));
      }
      child := GetPagemap(t, index, flags);
    }

    /** The first two levels of a mapping call. */
    method DescendTwice(index4: int, index3: int, flags: nat, ghost v: int, ghost leafLevel: int, ghost leaf: int,
                        ghost goal: Tables, ghost rest: set<int>) returns (PML2: int)
      requires pmm.Valid() && TablesHeld(tables, pmm.free, pmm.usable) && leafLevel <= 2
      requires Pending(tables, root, pmm.free, 4, v, leafLevel, leaf, flags, goal, rest)
      requires index4 == Index(v, 4) && index3 == Index(v, 3)
      requires MissingAt(tables, root, v, 4, leafLevel) + pmm.spare <= |pmm.free|
      modifies this`tables, pmm`usedpages, pmm`free, pmm.bitmap
      ensures pmm.Valid() && TablesHeld(tables, pmm.free, pmm.usable)
      ensures Pending(tables, root, pmm.free, 2, v, leafLevel, leaf, flags, goal, rest)
      ensures PML2 == TableAt(tables, root, v, 2)
      ensures MissingAt(tables, root, v, 2, leafLevel) + pmm.spare <= |pmm.free|
    {
      var PML3 := Descend(root, index4, flags, 4, v, leafLevel, leaf, goal, rest);
      PML2 := Descend(PML3, index3, flags, 3, v, leafLevel, leaf, goal, rest);
    }

    /** The leaf write that ends a mapping call. */
    method WriteLeaf(t: int, index: int, ghost flags: nat, ghost v: int, ghost leafLevel: int, leaf: int,
                     ghost goal: Tables, ghost rest: set<int>)
      requires pmm.Valid() && TablesHeld(tables, pmm.free, pmm.usable)
      requires Pending(tables, root, pmm.free, leafLevel, v, leafLevel, leaf, flags, goal, rest)
      requires t == TableAt(tables, root, v, leafLevel) && index == Index(v, leafLevel) && !IsLink(leaf, leafLevel)
      modifies this`tables
      ensures Valid() && tables == goal && pmm.free == rest
    {
      LeafPending(tables, root, pmm.free, v, leafLevel, leaf, flags, goal, rest);
      tables := SetEntry(tables, t, index, leaf);
    }

    /** The walk and the write of vmm_map_4Kpage. */
    method Put1(v: nat, p: nat, flags: nat, ghost goal: Tables, ghost rest: set<int>)
      requires pmm.Valid() && TablesHeld(tables, pmm.free, pmm.usable) && TargetOk(p, 1) && FlagsOk(flags)
      requires Pending(tables, root, pmm.free, 4, v, 1, LeafEntry(p, flags, 1), flags, goal, rest)
      requires MissingAt(tables, root, v, 4, 1) + pmm.spare <= |pmm.free|
      modifies this`tables, pmm`usedpages, pmm`free, pmm.bitmap
      ensures Valid() && tables == goal && pmm.free == rest
    {
      ghost var leaf := LeafEntry(p, flags, 1);
      LeafEntryIs(p, flags, 1);
      var index1, index2, index3, index4 := ShiftOut(v);
      var PML2 := DescendTwice(index4, index3, flags, v, 1, leaf, goal, rest);
      var PML1 := Descend(PML2, index2, flags, 2, v, 1, leaf, goal, rest);
      WriteLeaf(PML1, index1, flags, v, 1, BitOr(p, flags), goal, rest);
    }

    /**
     vmm_map_4Kpage: the pages for missing levels are the lowest free ones, and the
     hardware translation changes at exactly the page of v.
     */
    method Map4K(v: nat, p: nat, flags: nat)
      requires Valid() && Canonical(v) && TargetOk(p, 1) && FlagsOk(flags)
      requires PathOk(tables, root, 4, v, 1) && Supplied(v, 1)
      modifies this`tables, pmm`usedpages, pmm`free, pmm.bitmap
      ensures Valid() && Drawn(old(tables), root, v, p, 1, flags, old(pmm.free), tables, pmm.free)
      ensures Remapped(old(tables), tables, root, v, p, 1, flags)
    {
      ghost var pool := NextPages(pmm.free, MissingAt(tables, root, v, 4, 1));
      PendingStart(tables, root, pmm.free, pmm.usable, v, 1, LeafEntry(p, flags, 1), flags);
      DrawnTranslates(tables, root, v, p, 1, flags, pmm.free, pmm.usable);
      Put1(v, p, flags, Map(tables, root, v, p, 1, flags, pool), pmm.free - PageNumbers(pool));
    }

    /** The walk and the write of vmm_map_2Mpage. */
    method Put2(v: nat, p: nat, flags: nat, ghost goal: Tables, ghost rest: set<int>)
      requires pmm.Valid() && TablesHeld(tables, pmm.free, pmm.usable) && TargetOk(p, 2) && FlagsOk(flags)
      requires Pending(tables, root, pmm.free, 4, v, 2, LeafEntry(p, flags, 2), flags, goal, rest)
      requires MissingAt(tables, root, v, 4, 2) + pmm.spare <= |pmm.free|
      modifies this`tables, pmm`usedpages, pmm`free, pmm.bitmap
      ensures Valid() && tables == goal && pmm.free == rest
    {
      ghost var leaf := LeafEntry(p, flags, 2);
      LeafEntryIs(p, flags, 2);
      TargetAligned(p, 2);
      var paddr := p / 4096 * 4096;
      assert paddr == p;
      var _, index2, index3, index4 := ShiftOut(v);
      var PML2 := DescendTwice(index4, index3, flags, v, 2, leaf, goal, rest);
      WriteLeaf(PML2, index2, flags, v, 2, BitOr(BitOr(paddr, flags), 128), goal, rest);
    }

    /** vmm_map_2Mpage. */
    method Map2M(v: nat, p: nat, flags: nat)
      requires Valid() && Canonical(v) && TargetOk(p, 2) && FlagsOk(flags)
      requires PathOk(tables, root, 4, v, 2) && Supplied(v, 2)
      modifies this`tables, pmm`usedpages, pmm`free, pmm.bitmap
      ensures Valid() && Drawn(old(tables), root, v, p, 2, flags, old(pmm.free), tables, pmm.free)
      ensures Remapped(old(tables), tables, root, v, p, 2, flags)
    {
      ghost var pool := NextPages(pmm.free, MissingAt(tables, root, v, 4, 2));
      PendingStart(tables, root, pmm.free, pmm.usable, v, 2, LeafEntry(p, flags, 2), flags);
      DrawnTranslates(tables, root, v, p, 2, flags, pmm.free, pmm.usable);
      Put2(v, p, flags, Map(tables, root, v, p, 2, flags, pool), pmm.free - PageNumbers(pool));
    }

    /** The walk and the write of vmm_map_1Gpage. */
    method Put3(v: nat, p: nat, flags: nat, ghost goal: Tables, ghost rest: set<int>)
      requires pmm.Valid() && TablesHeld(tables, pmm.free, pmm.usable) && TargetOk(p, 3) && FlagsOk(flags)
      requires Pending(tables, root, pmm.free, 4, v, 3, LeafEntry(p, flags, 3), flags, goal, rest)
      requires MissingAt(tables, root, v, 4, 3) + pmm.spare <= |pmm.free|
      modifies this`tables, pmm`usedpages, pmm`free, pmm.bitmap
      ensures Valid() && tables == goal && pmm.free == rest
    {
      ghost var leaf := LeafEntry(p, flags, 3);
      LeafEntryIs(p, flags, 3);
      var _, _, index3, index4 := ShiftOut(v);
      var PML3 := Descend(root, index4, flags, 4, v, 3, leaf, goal, rest);
      WriteLeaf(PML3, index3, flags, v, 3, BitOr(BitOr(p, flags), 128), goal, rest);
    }

    /** vmm_map_1Gpage. */
    method Map1G(v: nat, p: nat, flags: nat)
      requires Valid() && Canonical(v) && TargetOk(p, 3) && FlagsOk(flags)
      requires PathOk(tables, root, 4, v, 3) && Supplied(v, 3)
      modifies this`tables, pmm`usedpages, pmm`free, pmm.bitmap
      ensures Valid() && Drawn(old(tables), root, v, p, 3, flags, old(pmm.free), tables, pmm.free)
      ensures Remapped(old(tables), tables, root, v, p, 3, flags)
    {
      ghost var pool := NextPages(pmm.free, MissingAt(tables, root, v, 4, 3));
      PendingStart(tables, root, pmm.free, pmm.usable, v, 3, LeafEntry(p, flags, 3), flags);
      DrawnTranslates(tables, root, v, p, 3, flags, pmm.free, pmm.usable);
      Put3(v, p, flags, Map(tables, root, v, p, 3, flags, pool), pmm.free - PageNumbers(pool));
    }

    /** vmm_unmap_page: the translation of exactly the page of v goes away; no table is freed. */
    method UnmapPage(v: nat)
      requires Valid() && Canonical(v) && PathOk(tables, root, 4, v, 1)
      modifies this`tables
      ensures Valid() && tables == Unmap(old(tables), root, 4, v)
      ensures forall w :: Translate(tables, root, w)
                == if Canonical(w) && w / 0x1000 == v / 0x1000 then Fault else Translate(old(tables), root, w)
    {
      UnmapOutcome(tables, root, v);
      RootHeld(tables, root);
      RootThroughHigherHalf(root);
      var PML4 := HhToPhys(PhysToHh(root));
      var index1, index2, index3, index4 := ShiftOut(v);
      if Present(tables[PML4][index4]) {
        var PML3 := tables[PML4][index4] / 4096 * 4096;
        UnmapLevel(tables, root, 4, v);
        if Present(tables[PML3][index3]) {
          var PML2 := tables[PML3][index3] / 4096 * 4096;
          UnmapLevel(tables, root, 3, v);
          if Present(tables[PML2][index2]) {
            var PML1 := tables[PML2][index2] / 4096 * 4096;
            UnmapLevel(tables, root, 2, v);
            if Present(tables[PML1][index1]) {
              tables := SetEntry(tables, PML1, index1, 0);
            }
          }
        }
      }
    }

    /**
     vmm_pagewalk: four loads through the higher-half view, without present
     tests; for a 4K-mapped address it returns the page the hardware uses.
     */
    method PageWalk(v: nat) returns (pageaddr: int)
      requires Valid() && Canonical(v) && MappedAt4K(tables, root, v)
      ensures pageaddr == Frame(Entry(tables, TableAt(tables, root, v, 1), 1, v))
      ensures Translate(tables, root, v).Mapped? && Translate(tables, root, v).phys == pageaddr + v % 0x1000
    {
      WalkLoads(tables, root, v);
      RootHeld(tables, root);
      RootThroughHigherHalf(root);
      var PML4 := HhToPhys(PhysToHh(root));
      var index1, index2, index3, index4 := ShiftOut(v);
      var PDPTE := HhToPhys(PhysToHh(tables[PML4][index4]) / 4096 * 4096);
      var PDE := HhToPhys(PhysToHh(tables[PDPTE][index3]) / 4096 * 4096);
      var PTE := HhToPhys(PhysToHh(tables[PDE][index2]) / 4096 * 4096);
      var PD := HhToPhys(PhysToHh(tables[PTE][index1]) / 4096 * 4096);
      pageaddr := PD / 4096 * 4096;
    }
  }
}
