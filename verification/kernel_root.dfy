/**
 The kernel's root table as vmm_init leaves it: its own mappings, except that
 entries 256 and 511 are copied from the bootloader's root and lead into the
 bootloader's tables.
 */
module KernelRoot {
  import opened Words
  import opened PageTables
  import opened Mapping
  import opened Pmm
  import opened Vmm
  import opened PagingRuns
  import opened KernelHeap

  predicate Copied(i: int) { i == 256 || i == 511 }

  /** Table t of level l hangs below an entry of the root that is copied, or below one that is not. */
  ghost predicate Below(h: Shape, root: int, t: int, l: int, copied: bool)
    decreases 4 - l
  {
    t in h.up && (if l >= 3 then h.up[t].table == root && Copied(h.up[t].index) == copied
                  else Below(h, root, h.up[t].table, l + 1, copied))
  }

  ghost predicate Stays(m: Tables, root: int, h: Shape, t: int, copied: bool) {
    t in m && t != root && t in h.level && Below(h, root, t, h.level[t], copied)
  }

  ghost function Branch(m: Tables, root: int, h: Shape, copied: bool): Tables {
    map t | t in m && Stays(m, root, h, t, copied) :: m[t]
  }

  function RootPage(own: seq<int>, boot: seq<int>): (r: seq<int>)
    requires |own| == ENTRIES && |boot| == ENTRIES
    ensures |r| == ENTRIES && forall i | 0 <= i < ENTRIES :: r[i] == if Copied(i) then boot[i] else own[i]
  {
    own[256 := boot[256]][511 := boot[511]]
  }

  /** Two trees in separate pages. */
  ghost predicate Separate(own: Tables, r: int, h: Shape, boot: Tables, br: int, g: Shape) {
    TreeOk(own, r, h) && TreeOk(boot, br, g) && own.Keys !! boot.Keys
  }

  /** The tables the new root reaches after the two entries are written. */
  ghost function Graft(own: Tables, r: int, h: Shape, boot: Tables, br: int, g: Shape): Tables
    requires Separate(own, r, h, boot, br, g)
  {
    assert TableOk(own, h, r) && TableOk(boot, g, br);
    (Branch(own, r, h, false) + Branch(boot, br, g, true))[r := RootPage(own[r], boot[br])]
  }

  ghost function GraftShape(own: Tables, r: int, h: Shape, g: Shape): Shape {
    Shape(map t | t in h.level.Keys + g.level.Keys :: if t in own then (if t in h.level then h.level[t] else 0)
                                                    else if t in g.level then g.level[t] else 0,
          map t | t in h.up.Keys + g.up.Keys ::
            if t in own then (if t in h.up then h.up[t] else Slot(0, 0))
            else if t in g.up then (if t in g.level && g.level[t] == 3 then Slot(r, g.up[t].index) else g.up[t])
            else Slot(0, 0))
  }

  // ----- One branch of a tree -----

  /** Below the root there are only levels 1 to 3. */
  lemma LowLevel(m: Tables, root: int, h: Shape, t: int)
    requires TreeOk(m, root, h) && t in m && t != root
    ensures t in h.level && 1 <= h.level[t] <= 3
  {
    assert ParentOk(m, h, t) && TableOk(m, h, t) && TableOk(m, h, h.up[t].table);
  }

  /** A table below a table that stays, stays. */
  lemma ChildStays(m: Tables, root: int, h: Shape, t: int, i: int, copied: bool)
    requires TreeOk(m, root, h) && t in m && t in h.level && 0 <= i < |m[t]| && IsLink(m[t][i], h.level[t])
    requires if t == root then Copied(i) == copied else Stays(m, root, h, t, copied)
    ensures Stays(m, root, h, Frame(m[t][i]), copied)
  {
    var s := Frame(m[t][i]);
    assert TableOk(m, h, t) && LinkOk(m, h, t, i);
    if t != root {
      LowLevel(m, root, h, t);
    }
  }

  /** m' holds one branch of m as it is. */
  ghost predicate Contains(m': Tables, m: Tables, root: int, h: Shape, copied: bool) {
    forall t | Stays(m, root, h, t, copied) :: t in m' && m'[t] == m[t]
  }

  /** Walks and paths inside a branch are those of the whole tree. */
  lemma {:induction false} BranchWalk(m': Tables, m: Tables, root: int, h: Shape, copied: bool, x: int, l: nat, v: int,
                                      w: bool, u: bool)
    requires TreeOk(m, root, h) && Contains(m', m, root, h, copied) && Stays(m, root, h, x, copied) && h.level[x] == l
    ensures Walk(m', x, l, v, w, u) == Walk(m, x, l, v, w, u)
    ensures PathOk(m', x, l, v, 1) == PathOk(m, x, l, v, 1) && WritablePath(m', x, l, v) == WritablePath(m, x, l, v)
    decreases l
  {
    LowLevel(m, root, h, x);
    assert TableOk(m, h, x);
    var e := Entry(m, x, l, v);
    assert Entry(m', x, l, v) == e;
    if IsLink(e, l) {
      assert LinkOk(m, h, x, Index(v, l));
      ChildStays(m, root, h, x, Index(v, l), copied);
      BranchWalk(m', m, root, h, copied, Frame(e), l - 1, v, w && Writable(e), u && User(e));
    }
  }

  /** From a root page that has the entry, too. */
  lemma BranchTranslates(m': Tables, r: int, m: Tables, root: int, h: Shape, copied: bool, v: int)
    requires TreeOk(m, root, h) && Contains(m', m, root, h, copied) && Copied(Index(v, 4)) == copied
    requires Entry(m', r, 4, v) == Entry(m, root, 4, v)
    ensures Translate(m', r, v) == Translate(m, root, v)
    ensures PathOk(m', r, 4, v, 1) == PathOk(m, root, 4, v, 1)
    ensures WritablePath(m', r, 4, v) == WritablePath(m, root, 4, v)
  {
    assert TableOk(m, h, root);
    var e := Entry(m, root, 4, v);
    if IsLink(e, 4) {
      assert LinkOk(m, h, root, Index(v, 4));
      ChildStays(m, root, h, root, Index(v, 4), copied);
      BranchWalk(m', m, root, h, copied, Frame(e), 3, v, Writable(e), User(e));
    }
  }

  // ----- The grafted tree -----

  lemma GraftTables(own: Tables, r: int, h: Shape, boot: Tables, br: int, g: Shape)
    requires Separate(own, r, h, boot, br, g)
    ensures var m := Graft(own, r, h, boot, br, g);
            && Contains(m, own, r, h, false) && Contains(m, boot, br, g, true)
            && r in m && |own[r]| == |boot[br]| == ENTRIES && m[r] == RootPage(own[r], boot[br])
            && m.Keys <= own.Keys + boot.Keys
            && forall t | t in m && t != r :: Stays(own, r, h, t, false) || Stays(boot, br, g, t, true)
  {
    assert TableOk(own, h, r) && TableOk(boot, g, br);
  }

  lemma GraftTranslates(own: Tables, r: int, h: Shape, boot: Tables, br: int, g: Shape, v: int)
    requires Separate(own, r, h, boot, br, g)
    ensures var m := Graft(own, r, h, boot, br, g);
            && Translate(m, r, v) == (if Copied(Index(v, 4)) then Translate(boot, br, v) else Translate(own, r, v))
            && PathOk(m, r, 4, v, 1)
               == (if Copied(Index(v, 4)) then PathOk(boot, br, 4, v, 1) else PathOk(own, r, 4, v, 1))
    ensures var m := Graft(own, r, h, boot, br, g);
            WritablePath(m, r, 4, v)
            == (if Copied(Index(v, 4)) then WritablePath(boot, br, 4, v) else WritablePath(own, r, 4, v))
  {
    GraftTables(own, r, h, boot, br, g);
    var m := Graft(own, r, h, boot, br, g);
    if Copied(Index(v, 4)) {
      BranchTranslates(m, r, boot, br, g, true, v);
    } else {
      BranchTranslates(m, r, own, r, h, false, v);
    }
  }

  lemma GraftShapeIs(own: Tables, r: int, h: Shape, boot: Tables, br: int, g: Shape, t: int)
    requires Separate(own, r, h, boot, br, g)
    requires t == r || Stays(own, r, h, t, false) || Stays(boot, br, g, t, true)
    ensures var k := GraftShape(own, r, h, g);
            && t in k.level && k.level[t] == (if t in own then h.level[t] else g.level[t])
            && (t != r ==> t in k.up && k.up[t] == if t in own then h.up[t]
                                                  else if g.level[t] == 3 then Slot(r, g.up[t].index) else g.up[t])
  {
  }

  lemma GraftLink(own: Tables, r: int, h: Shape, boot: Tables, br: int, g: Shape, t: int, i: int)
    requires Separate(own, r, h, boot, br, g)
    requires var m, k := Graft(own, r, h, boot, br, g), GraftShape(own, r, h, g);
             t in m && 0 <= i < |m[t]| && t in k.level
    ensures LinkOk(Graft(own, r, h, boot, br, g), GraftShape(own, r, h, g), t, i)
  {
    var m, k := Graft(own, r, h, boot, br, g), GraftShape(own, r, h, g);
    GraftTables(own, r, h, boot, br, g);
    GraftShapeIs(own, r, h, boot, br, g, t);
    var e := m[t][i];
    if IsLink(e, k.level[t]) {
      if (if t == r then !Copied(i) else t in own) {
        assert LinkOk(own, h, t, i);
        ChildStays(own, r, h, t, i, false);
      } else {
        var x := if t == r then br else t;
        assert TableOk(boot, g, x) && LinkOk(boot, g, x, i);
        ChildStays(boot, br, g, x, i, true);
        if x != br { LowLevel(boot, br, g, x); }
      }
      GraftShapeIs(own, r, h, boot, br, g, Frame(e));
    }
  }

  lemma GraftParent(own: Tables, r: int, h: Shape, boot: Tables, br: int, g: Shape, t: int)
    requires Separate(own, r, h, boot, br, g) && t in Graft(own, r, h, boot, br, g) && t != r
    ensures ParentOk(Graft(own, r, h, boot, br, g), GraftShape(own, r, h, g), t)
  {
    GraftTables(own, r, h, boot, br, g);
    GraftShapeIs(own, r, h, boot, br, g, t);
    if Stays(own, r, h, t, false) {
      ParentStays(own, r, h, t, false);
      GraftShapeIs(own, r, h, boot, br, g, h.up[t].table);
    } else {
      ParentStays(boot, br, g, t, true);
      GraftShapeIs(own, r, h, boot, br, g, if g.level[t] == 3 then r else g.up[t].table);
    }
  }

  /** The parent of a table that stays is the root, by an entry of the same kind, or stays. */
  lemma ParentStays(m: Tables, root: int, h: Shape, t: int, copied: bool)
    requires TreeOk(m, root, h) && Stays(m, root, h, t, copied)
    ensures ParentOk(m, h, t) && 1 <= h.level[t] <= 3
    ensures h.level[t] == 3 ==> h.up[t].table == root && Copied(h.up[t].index) == copied
    ensures h.level[t] < 3 ==> Stays(m, root, h, h.up[t].table, copied)
  {
    assert ParentOk(m, h, t) && TableOk(m, h, t);
    LowLevel(m, root, h, t);
  }

  lemma GraftTree(own: Tables, r: int, h: Shape, boot: Tables, br: int, g: Shape)
    requires Separate(own, r, h, boot, br, g)
    ensures TreeOk(Graft(own, r, h, boot, br, g), r, GraftShape(own, r, h, g))
  {
    var m, k := Graft(own, r, h, boot, br, g), GraftShape(own, r, h, g);
    GraftTables(own, r, h, boot, br, g);
    GraftShapeIs(own, r, h, boot, br, g, r);
    forall t | t in m
      ensures TableOk(m, k, t)
    {
      GraftShapeIs(own, r, h, boot, br, g, t);
      assert if t in own then TableOk(own, h, t) else TableOk(boot, g, t);
    }
    forall t, i | t in m && 0 <= i < |m[t]| && t in k.level
      ensures LinkOk(m, k, t, i)
    {
      GraftLink(own, r, h, boot, br, g, t, i);
    }
    forall t | t in m && t != r
      ensures ParentOk(m, k, t)
    {
      GraftParent(own, r, h, boot, br, g, t);
    }
  }

  // ----- vmm_init -----

  ghost predicate HasRoot(m: Tables, r: int) { r in m && |m[r]| == ENTRIES }

  /**
   The two entry writes at the end of vmm_init, from any state of the paging
   layer.  The tables that hung below the overwritten entries are lost: nobody
   reaches them, and nobody can give them back.
   */
  lemma Adopt(s: State, boot: Tables, br: int) returns (t: State)
    requires Inv(s) && IsTree(boot, br) && s.m.Keys !! boot.Keys && TablePages(boot) !! s.usable
    ensures Inv(t) && t.root == s.root && t.free == s.free && t.usable == s.usable && t.spare == s.spare
    ensures t.owned == s.owned && t.lost == s.lost + (TablePages(s.m) * s.usable - TablePages(t.m))
    ensures HasRoot(s.m, s.root) && HasRoot(boot, br) && HasRoot(t.m, t.root)
    ensures t.m[t.root] == RootPage(s.m[s.root], boot[br])
    ensures forall v :: Translate(t.m, t.root, v)
                     == if Copied(Index(v, 4)) then Translate(boot, br, v) else Translate(s.m, s.root, v)
    ensures forall rw :: WindowOk(boot, br, rw) ==> WindowOk(t.m, t.root, rw)
  {
    var h :| TreeOk(s.m, s.root, h);
    var g :| TreeOk(boot, br, g);
    var m := Graft(s.m, s.root, h, boot, br, g);
    GraftTables(s.m, s.root, h, boot, br, g);
    GraftTree(s.m, s.root, h, boot, br, g);
    t := s.(m := m, lost := s.lost + (TablePages(s.m) * s.usable - TablePages(m)));
    GraftHeld(s.m, boot, m, s.free, s.usable);
    AdoptPages(s, t);
    forall v
      ensures Translate(m, s.root, v)
           == if Copied(Index(v, 4)) then Translate(boot, br, v) else Translate(s.m, s.root, v)
    {
      GraftTranslates(s.m, s.root, h, boot, br, g, v);
    }
    forall rw | WindowOk(boot, br, rw)
      ensures WindowOk(m, s.root, rw)
    {
      forall w | InWindow(w)
        ensures PathOk(m, s.root, 4, w, 1) && (rw ==> WritablePath(m, s.root, 4, w))
      {
        assert PathOk(boot, br, 4, w, 1);
        WindowIsCopied(w);
        GraftTranslates(s.m, s.root, h, boot, br, g, w);
      }
    }
  }

  lemma WindowIsCopied(w: int)
    requires InWindow(w)
    ensures Copied(Index(w, 4))
  {}

  lemma GraftHeld(own: Tables, boot: Tables, m: Tables, free: set<int>, usable: set<int>)
    requires TablesHeld(own, free, usable) && TablePages(boot) !! usable && m.Keys <= own.Keys + boot.Keys
    ensures TablesHeld(m, free, usable)
    ensures TablePages(m) * usable <= TablePages(own)
  {
    forall t | t in m
      ensures t / 4096 !in free && (t / 4096 in usable ==> t / 4096 in TablePages(own))
    {
      assert t in boot ==> t / 4096 in TablePages(boot);
    }
  }

  lemma AdoptPages(s: State, t: State)
    requires Inv(s) && t == s.(m := t.m, lost := t.lost) && TablePages(t.m) * s.usable <= TablePages(s.m)
    requires t.lost == s.lost + (TablePages(s.m) * s.usable - TablePages(t.m))
    requires IsTree(t.m, t.root) && TablesHeld(t.m, t.free, t.usable)
    ensures Inv(t)
  {
    assert forall p | p in s.free :: p !in TablePages(s.m);
    PagesLost(s.usable, s.free, s.owned, s.lost, TablePages(s.m), TablePages(t.m));
  }

  lemma PagesLost(usable: set<int>, free: set<int>, owned: set<int>, lost: set<int>, tables: set<int>, now: set<int>)
    requires Partition(usable, free, owned, lost, tables) && free !! tables && now * usable <= tables
    ensures Partition(usable, free, owned, lost + (tables * usable - now), now)
  {
  }

  // ----- From the memory map on -----

  ghost predicate IsEmpty(m: Tables, root: int) { m == map[root := ZeroPage()] }

  /** An empty root has no large page anywhere. */
  lemma EmptyWindow(root: int)
    ensures forall rw :: WindowOk(map[root := ZeroPage()], root, rw)
  {
    forall w | InWindow(w)
      ensures PathOk(map[root := ZeroPage()], root, 4, w, 1) && WritablePath(map[root := ZeroPage()], root, 4, w)
    {
      assert Entry(map[root := ZeroPage()], root, 4, w) == 0;
    }
  }

  lemma EmptyInv(root: int, free: set<int>, usable: set<int>, spare: nat)
    requires PageOk(root) && TablesHeld(map[root := ZeroPage()], free - {root / 4096}, usable)
    requires root / 4096 in free
    ensures Inv(State(map[root := ZeroPage()], root, free - {root / 4096}, usable - free, {}, usable,
                       spare))
  {
    EmptyTree(root);
    var m := map[root := ZeroPage()];
    assert TablePages(m) == {root / 4096};
  }

  /** pmm_init and a first root table: where every run of the paging layer starts. */
  method Start(es: seq<Region>) returns (a: AddressSpace?)
    requires es != [] && MapOk(es) && |UsablePages(es)| > 1 && forall p | p in UsablePages(es) :: p < 0x100_0000_0000
    ensures a == null <==> TotalLength(es) / 4096 >= 8 * es[|es| - 1].length
    ensures a != null ==>
              && fresh(a) && a.Valid() && a.pmm.usable == UsablePages(es) - {0} && a.pmm.spare >= 0
              && Inv(StateOf(a, {})) && WindowOk(a.tables, a.root, true)
  {
    var pmm := Init(es);
    if pmm == null {
      return null;
    }
    WithoutNull(UsablePages(es));
    a := FirstRoot(pmm);
    assert pmm.usable - (UsablePages(es) - {0}) == {};
  }

  /** A first root table; pages that are usable but not free belong to somebody else. */
  method FirstRoot(pmm: Allocator) returns (a: AddressSpace)
    requires pmm.Valid() && |pmm.free| > pmm.spare
    requires forall p | p in pmm.usable :: 0 < p < 0x100_0000_0000
    modifies pmm`usedpages, pmm`free, pmm.bitmap
    ensures fresh(a) && a.Valid() && a.pmm == pmm && pmm.usable == old(pmm.usable) && pmm.spare == old(pmm.spare) >= 0
    ensures |pmm.free| == |old(pmm.free)| - 1
    ensures PageOk(a.root) && a.root / 4096 in pmm.usable && IsEmpty(a.tables, a.root)
    ensures Inv(StateOf(a, pmm.usable - old(pmm.free))) && WindowOk(a.tables, a.root, true)
  {
    ghost var free := pmm.free;
    a := new AddressSpace(pmm);
    RootIsFree(free, pmm.usable, a.root);
    EmptyInv(a.root, free, pmm.usable, pmm.spare);
    EmptyWindow(a.root);
  }

  lemma RootIsFree(free: set<int>, usable: set<int>, root: int)
    requires free != {} && free <= usable && root == 4096 * Lowest(free)
    requires forall p | p in usable :: 0 < p < 0x100_0000_0000
    ensures PageOk(root) && root / 4096 in free
  {}

  // ----- The whole of vmm_init -----

  /**
   The copied entries in addresses: the first 512 GiB of the upper half, where
   all physical memory is viewed, and the last, with the kernel and its heap.
   */
  lemma CopiedAddresses(w: int)
    requires Canonical(w)
    ensures Copied(Index(w, 4)) <==> (0xFFFF_8000_0000_0000 <= w < 0xFFFF_8080_0000_0000 || 0xFFFF_FF80_0000_0000 <= w)
  {
    var q := w / 0x80_0000_0000;
    assert 0x80_0000_0000 * q <= w < 0x80_0000_0000 * (q + 1);
    if w < 0x8000_0000_0000 {
      assert 0 <= q < 256;
    } else {
      assert 0x1FF_FF00 <= q < 0x200_0000;
      assert q % 512 == q - 0x1FF_FE00;
    }
  }

  /** The kernel's own 2M page. */
  ghost function OwnView(kv: int, kp: int, w: int): Translation {
    if Canonical(w) && w / 0x20_0000 == kv / 0x20_0000 then Mapped(kp + w % 0x20_0000, true, false) else Fault
  }

  lemma EmptySupplies(m: Tables, root: int, v: int)
    requires IsEmpty(m, root)
    ensures PathOk(m, root, 4, v, 2) && MissingAt(m, root, v, 4, 2) == 2
    ensures Granted(m, root, v, 2, HEAP_FLAGS) == (true, false)
  {
    assert Entry(m, root, 4, v) == 0;
    assert TableAt(m, root, v, 3) == 0;
    assert Rights(m, root, v, 3) == (true, true);
    assert Entry(m, 0, 3, v) == 0 || root == 0;
  }

  /** Tables in usable pages are none of the bootloader's. */
  lemma OwnTablesApart(own: Tables, boot: Tables, usable: set<int>)
    requires TablePages(own) <= usable && TablePages(boot) !! usable
    ensures own.Keys !! boot.Keys
  {
    forall t
      ensures t !in own || t !in boot
    {
      InTablePages(own, t);
      InTablePages(boot, t);
    }
  }

  lemma InTablePages(m: Tables, t: int)
    ensures t in m ==> t / 4096 in TablePages(m)
  {}

  /** The mapping of the kernel's 2M page, from an empty root. */
  lemma FirstInv(s: State, kv: int, kp: int, t: State)
    requires Inv(s) && IsEmpty(s.m, s.root) && s.root / 4096 in s.usable && s.spare + 2 <= |s.free|
    requires Canonical(kv) && TargetOk(kp, 2) && t == s.(m := t.m, free := t.free)
    requires Drawn(s.m, s.root, kv, kp, 2, HEAP_FLAGS, s.free, t.m, t.free)
    ensures Inv(t) && TablePages(t.m) <= t.usable
  {
    EmptySupplies(s.m, s.root, kv);
    var taken := MapKeepsTree(s.m, s.root, s.free, s.usable, 2, kv, kp, HEAP_FLAGS, t.m, t.free);
    PagesMove(s.usable, s.free, s.owned, s.lost, TablePages(s.m), taken);
    EmptyPages(s.m, s.root);
  }

  lemma EmptyPages(e: Tables, root: int)
    requires IsEmpty(e, root)
    ensures TablePages(e) == {root / 4096}
  {
    InTablePages(e, root);
  }

  /** The 2M page of the kernel and nothing else. */
  ghost predicate OnlyKernel(m: Tables, root: int, kv: int, kp: int) {
    forall w :: Translate(m, root, w) == OwnView(kv, kp, w)
  }

  lemma FirstTranslates(e: Tables, root: int, kv: int, kp: int, m: Tables)
    requires IsEmpty(e, root) && PageOk(root) && Remapped(e, m, root, kv, kp, 2, HEAP_FLAGS)
    ensures OnlyKernel(m, root, kv, kp)
  {
    EmptySupplies(e, root, kv);
    EmptyTree(root);
  }

  /** The second half of vmm_init: the two entries are copied. */
  lemma AdoptOver(s: State, boot: Tables, br: int, kv: int, kp: int) returns (t: State)
    requires Inv(s) && IsTree(boot, br) && s.m.Keys !! boot.Keys && TablePages(boot) !! s.usable
    requires OnlyKernel(s.m, s.root, kv, kp)
    ensures Inv(t) && t.root == s.root && t.free == s.free && t.usable == s.usable && t.owned == s.owned
    ensures HasRoot(s.m, s.root) && HasRoot(boot, br) && HasRoot(t.m, t.root)
    ensures t.m[t.root] == RootPage(s.m[s.root], boot[br])
    ensures forall w | 0xFFFF_8000_0000_0000 <= w < 0xFFFF_8080_0000_0000 || 0xFFFF_FF80_0000_0000 <= w < TWO64 ::
              Translate(t.m, t.root, w) == Translate(boot, br, w)
    ensures forall w | !(0xFFFF_8000_0000_0000 <= w < 0xFFFF_8080_0000_0000 || 0xFFFF_FF80_0000_0000 <= w < TWO64) ::
              Translate(t.m, t.root, w) == OwnView(kv, kp, w)
    ensures forall rw :: WindowOk(boot, br, rw) ==> WindowOk(t.m, t.root, rw)
  {
    t := Adopt(s, boot, br);
    forall w
      ensures Translate(t.m, t.root, w)
           == if 0xFFFF_8000_0000_0000 <= w < 0xFFFF_8080_0000_0000 || 0xFFFF_FF80_0000_0000 <= w < TWO64
              then Translate(boot, br, w) else OwnView(kv, kp, w)
    {
      if Canonical(w) {
        CopiedAddresses(w);
      }
    }
  }

  /** The first half of vmm_init: a root table, and the kernel's 2M page. */
  method MapKernel(allocator: Allocator, kv: nat, kp: nat) returns (space: AddressSpace)
    requires allocator.Valid() && |allocator.free| >= allocator.spare + 3
    requires forall p | p in allocator.usable :: 0 < p < 0x100_0000_0000
    requires Canonical(kv) && TargetOk(kp, 2)
    modifies allocator`usedpages, allocator`free, allocator.bitmap
    ensures space.Valid() && space.pmm == allocator && space.pmm.spare >= 0
    ensures allocator.usable == old(allocator.usable)
    ensures Inv(StateOf(space, allocator.usable - old(allocator.free))) && TablePages(space.tables) <= allocator.usable
    ensures OnlyKernel(space.tables, space.root, kv, kp)
  {
    ghost var owned := allocator.usable - allocator.free;
    space := FirstRoot(allocator);
    MapFirst(space, kv, kp, owned);
  }

  method MapFirst(space: AddressSpace, kv: nat, kp: nat, ghost owned: set<int>)
    requires space.Valid() && IsEmpty(space.tables, space.root) && space.pmm.spare >= 0 && Inv(StateOf(space, owned))
    requires PageOk(space.root) && space.root / 4096 in space.pmm.usable && space.pmm.spare + 2 <= |space.pmm.free|
    requires Canonical(kv) && TargetOk(kp, 2)
    modifies space`tables, space.pmm`usedpages, space.pmm`free, space.pmm.bitmap
    ensures space.Valid() && Inv(StateOf(space, owned)) && TablePages(space.tables) <= space.pmm.usable
    ensures OnlyKernel(space.tables, space.root, kv, kp)
  {
    ghost var s := StateOf(space, owned);
    EmptySupplies(s.m, s.root, kv);
    space.Map2M(kv, kp, HEAP_FLAGS);
    FirstInv(s, kv, kp, StateOf(space, owned));
    FirstTranslates(s.m, s.root, kv, kp, space.tables);
  }

  /**
   vmm_init as far as it builds tables: a root, the kernel's 2M page, and the
   two entries copied from the root the bootloader left in CR3.  `page` is the
   root table it loads, `kernel` the paging state from there on.
   */
  method VmmInit(allocator: Allocator, kv: nat, kp: nat, boot: Tables, br: int)
    returns (space: AddressSpace, page: seq<int>, ghost kernel: State)
    requires allocator.Valid() && |allocator.free| >= allocator.spare + 3
    requires forall p | p in allocator.usable :: 0 < p < 0x100_0000_0000
    requires Canonical(kv) && TargetOk(kp, 2)
    requires IsTree(boot, br) && TablePages(boot) !! allocator.usable
    modifies allocator`usedpages, allocator`free, allocator.bitmap
    ensures allocator.Valid() && kernel.root == space.root && HasRoot(kernel.m, kernel.root)
    ensures Inv(kernel) && kernel.free == allocator.free && kernel.usable == allocator.usable
    ensures kernel.owned == allocator.usable - old(allocator.free) && allocator.usable == old(allocator.usable)
    ensures kernel.m[kernel.root] == page
    ensures forall w | 0xFFFF_8000_0000_0000 <= w < 0xFFFF_8080_0000_0000 || 0xFFFF_FF80_0000_0000 <= w < TWO64 ::
              Translate(kernel.m, kernel.root, w) == Translate(boot, br, w)
    ensures forall w | !(0xFFFF_8000_0000_0000 <= w < 0xFFFF_8080_0000_0000 || 0xFFFF_FF80_0000_0000 <= w < TWO64) ::
              Translate(kernel.m, kernel.root, w)
              == if Canonical(w) && w / 0x20_0000 == kv / 0x20_0000 then Mapped(kp + w % 0x20_0000, true, false)
                  else Fault
    ensures HasRoot(boot, br) && HasRoot(space.tables, space.root) && |page| == 512
    ensures page[256] == boot[br][256] && page[511] == boot[br][511]
    ensures forall i | 0 <= i < 512 && i != 256 && i != 511 :: page[i] == space.tables[space.root][i]
    ensures forall rw :: WindowOk(boot, br, rw) ==> WindowOk(kernel.m, kernel.root, rw)
  {
    space := MapKernel(allocator, kv, kp);
    OwnTablesApart(space.tables, boot, allocator.usable);
    kernel := AdoptOver(StateOf(space, allocator.usable - old(allocator.free)), boot, br, kv, kp);
    page := RootPage(space.tables[space.root], boot[br]);
  }

  /**
   The heap on the root vmm_init leaves: with no large page in the window,
   liballoc_alloc may start to grow it there.
   */
  method HeapOn(allocator: Allocator, ghost kernel: State, m: Tables, r: int, ghost writable: bool)
    returns (h: Helper)
    requires allocator.Valid() && Inv(kernel) && kernel.free == allocator.free && kernel.usable == allocator.usable
    requires m == kernel.m && r == kernel.root && WindowOk(m, r, writable)
    ensures h.Valid() && h.rw == writable && h.space.tables == m && h.space.root == r && h.space.pmm == allocator
    ensures h.top == HEAP_START && h.frames == []
  {
    var a := new AddressSpace.Existing(allocator, m, r);
    h := new Helper(a, writable);
  }
}
