/** Laws of the mapping calls: unmapping, mapping again, and large pages against runs of small ones. */
module MappingLaws {
  import opened PageTables
  import opened Mapping

  // ----- Mapping over an existing path -----

  /** With every table there, a mapping call writes one entry and takes no page. */
  lemma {:induction false} InstallOnPath(m: Tables, root: int, h: Shape, l: int, v: int, leafLevel: int, leaf: int,
                                         flags: nat, pool: seq<nat>)
    requires TreeOk(m, root, h) && 1 <= leafLevel <= 3 && leafLevel <= l <= 4
    requires TableAt(m, root, v, leafLevel) != 0
    requires !IsLink(Entry(m, TableAt(m, root, v, leafLevel), leafLevel, v), leafLevel)
    ensures var t := TableAt(m, root, v, leafLevel);
            && t in m && |m[t]| == ENTRIES
            && Install(m, TableAt(m, root, v, l), l, v, leafLevel, leaf, flags, pool)
               == SetEntry(m, t, Index(v, leafLevel), leaf)
    ensures MissingAt(m, root, v, l, leafLevel) == 0
    ensures PathOk(m, TableAt(m, root, v, l), l, v, leafLevel)
    decreases l
  {
    PathThere(m, root, h, v, leafLevel, l);
    TableAtLevel(m, root, h, v, l);
    var t := TableAt(m, root, v, l);
    assert TableOk(m, h, t) && LinkOk(m, h, t, Index(v, l));
    if l > leafLevel {
      PathThere(m, root, h, v, leafLevel, l - 1);
      LinkPointer(Entry(m, t, l, v));
      InstallOnPath(m, root, h, l - 1, v, leafLevel, leaf, flags, pool);
    }
  }

  // ----- Unmapping -----

  /** vmm_unmap_page, from table t at level l. */
  function Unmap(m: Tables, t: int, l: nat, v: int): Tables
    decreases l
  {
    if t !in m || |m[t]| != ENTRIES || l == 0 || !Present(m[t][Index(v, l)]) then m
    else if l == 1 then SetEntry(m, t, Index(v, l), 0)
    else Unmap(m, m[t][Index(v, l)] / 4096 * 4096, l - 1, v)
  }

  /** Unmapping clears one leaf entry if the page is mapped, and does nothing otherwise. */
  lemma {:induction false} UnmapIs(m: Tables, root: int, h: Shape, l: nat, v: int)
    requires TreeOk(m, root, h) && 1 <= l <= 4 && TableAt(m, root, v, l) != 0
    requires PathOk(m, TableAt(m, root, v, l), l, v, 1)
    ensures TableAt(m, root, v, 1) != 0 ==>
              TableAt(m, root, v, 1) in m && |m[TableAt(m, root, v, 1)]| == ENTRIES
    ensures Unmap(m, TableAt(m, root, v, l), l, v)
         == if TableAt(m, root, v, 1) != 0 && Present(Entry(m, TableAt(m, root, v, 1), 1, v))
            then SetEntry(m, TableAt(m, root, v, 1), Index(v, 1), 0) else m
    decreases l
  {
    var t := TableAt(m, root, v, l);
    TableAtLevel(m, root, h, v, l);
    assert TableOk(m, h, t) && LinkOk(m, h, t, Index(v, l));
    if l > 1 {
      var e := Entry(m, t, l, v);
      if Present(e) {
        LinkPointer(e);
        assert TableOk(m, h, Frame(e));
        UnmapIs(m, root, h, l - 1, v);
      } else {
        NullIsNoTable(m, root, h);
        RightsStop(m, root, v, l, 1);
      }
    }
  }

  /** An address whose path ends before a present leaf faults. */
  lemma {:induction false} UnmappedFaults(m: Tables, root: int, h: Shape, v: int, l: nat)
    requires TreeOk(m, root, h) && 1 <= l <= 4 && TableAt(m, root, v, l) != 0
    requires PathOk(m, TableAt(m, root, v, l), l, v, 1)
    requires TableAt(m, root, v, 1) == 0 || !Present(Entry(m, TableAt(m, root, v, 1), 1, v))
    ensures Translate(m, root, v) == Fault
    decreases l
  {
    var t := TableAt(m, root, v, l);
    TableAtLevel(m, root, h, v, l);
    assert TableOk(m, h, t) && LinkOk(m, h, t, Index(v, l));
    var e := Entry(m, t, l, v);
    if Present(e) {
      assert TableOk(m, h, Frame(e));
      UnmappedFaults(m, root, h, v, l - 1);
    } else {
      WalkFromPath(m, root, h, v, l);
    }
  }

  /** vmm_unmap_page removes the translation of exactly the page of v and keeps the tree. */
  lemma UnmapTranslates(m: Tables, root: int, h: Shape, v: int, w: int)
    requires TreeOk(m, root, h) && PathOk(m, root, 4, v, 1) && Canonical(v)
    ensures TreeOk(Unmap(m, root, 4, v), root, h)
    ensures Unmap(m, root, 4, v).Keys == m.Keys
    ensures Translate(Unmap(m, root, 4, v), root, w)
         == if Canonical(w) && w / 0x1000 == v / 0x1000 then Fault else Translate(m, root, w)
  {
    assert TableOk(m, h, root);
    UnmapIs(m, root, h, 4, v);
    var t := TableAt(m, root, v, 1);
    if Canonical(w) {
      SlotIsPage(v, w, 1);
    }
    if t != 0 && Present(Entry(m, t, 1, v)) {
      InstallLeaf(m, root, h, v, 1, 0);
      if Canonical(w) {
        if SameSlot(v, w, 1) {
          LeafWriteHere(m, root, h, v, 1, 0, w);
        } else {
          WriteElsewhere(m, root, h, v, 1, 0, w);
        }
      }
    } else if Canonical(w) && SameSlot(v, w, 1) {
      PathSame(m, root, v, w, 1, 1);
      PathOkSame(m, root, 4, v, w);
      assert Index(v, 1) == Index(w, 1);
      UnmappedFaults(m, root, h, w, 4);
    }
  }

  lemma {:induction false} PathOkSame(m: Tables, t: int, l: nat, v: int, w: int)
    requires SameSlot(v, w, 1) && l <= 4 && PathOk(m, t, l, v, 1)
    ensures PathOk(m, t, l, w, 1)
    decreases l
  {
    if l > 0 {
      assert Index(v, l) == Index(w, l);
      var e := Entry(m, t, l, v);
      if l > 1 && Present(e) {
        PathOkSame(m, Frame(e), l - 1, v, w);
      }
    }
  }

  lemma RemapOnPath(m: Tables, root: int, h: Shape, v: int, leaf: int, flags: nat)
    requires TreeOk(m, root, h) && TableAt(m, root, v, 1) != 0 && PathOk(m, root, 4, v, 1)
    requires Entry(m, TableAt(m, root, v, 1), 1, v) == leaf && Present(leaf)
    ensures MissingAt(Unmap(m, root, 4, v), root, v, 4, 1) == 0
    ensures Install(Unmap(m, root, 4, v), root, 4, v, 1, leaf, flags, []) == m
  {
    assert TableOk(m, h, root);
    UnmapIs(m, root, h, 4, v);
    InstallLeaf(m, root, h, v, 1, 0);
    var t := TableAt(m, root, v, 1);
    InstallOnPath(SetEntry(m, t, Index(v, 1), 0), root, h, 4, v, 1, leaf, flags, []);
    assert m[t][Index(v, 1) := 0][Index(v, 1) := leaf] == m[t];
  }

  /** Map, unmap, map again: the tables come back exactly, and the second mapping takes no page. */
  lemma MapAgain(m: Tables, root: int, h: Shape, v: int, p: int, flags: int, pool: seq<nat>)
    requires CanMap(m, root, h, v, p, 1, flags, pool)
    ensures var m1 := Map(m, root, v, p, 1, flags, pool);
            var m2 := Unmap(m1, root, 4, v);
            MissingAt(m2, root, v, 4, 1) == 0 && Map(m2, root, v, p, 1, flags, []) == m1
  {
    var leaf := LeafEntry(p, flags, 1);
    LeafEntryIs(p, flags, 1);
    var m1 := Map(m, root, v, p, 1, flags, pool);
    var h1 := InstallTree(m, root, h, 4, v, 1, leaf, flags, pool);
    InstallOnPath(m1, root, h1, 4, v, 1, leaf, flags, pool);
    RemapOnPath(m1, root, h1, v, leaf, flags);
  }

  // ----- 4K mappings bring no large page -----

  lemma {:induction false} LeafKeepsPath(m: Tables, root: int, h: Shape, t: int, i: int, e: int, x: int, l: nat, w: int)
    requires TreeOk(m, root, h) && t in m && 0 <= i < |m[t]| && t in h.level && h.level[t] == 1
    requires x in m && x in h.level && h.level[x] == l && PathOk(m, x, l, w, 1)
    ensures PathOk(SetEntry(m, t, i, e), x, l, w, 1)
    ensures Missing(SetEntry(m, t, i, e), x, l, w, 1) == Missing(m, x, l, w, 1)
    ensures WritablePath(SetEntry(m, t, i, e), x, l, w) == WritablePath(m, x, l, w)
    decreases l
  {
    if l > 1 {
      assert TableOk(m, h, x) && LinkOk(m, h, x, Index(w, l));
      var f := Entry(m, x, l, w);
      assert Entry(SetEntry(m, t, i, e), x, l, w) == f;
      if Present(f) {
        LeafKeepsPath(m, root, h, t, i, e, Frame(f), l - 1, w);
      }
    }
  }

  lemma {:induction false} LinkKeepsPath(m: Tables, root: int, h: Shape, t: int, i: int, page: int, e: int,
                                         x: int, l: nat, w: int)
    requires TreeOk(m, root, h) && CanLink(m, h, t, i, page, e)
    requires x in m && x in h.level && h.level[x] == l && PathOk(m, x, l, w, 1)
    ensures PathOk(LinkTable(m, t, i, page, e), x, l, w, 1)
    ensures Missing(LinkTable(m, t, i, page, e), x, l, w, 1) <= Missing(m, x, l, w, 1)
    ensures Writable(e) && WritablePath(m, x, l, w) ==> WritablePath(LinkTable(m, t, i, page, e), x, l, w)
    decreases l
  {
    var m' := LinkTable(m, t, i, page, e);
    assert TableOk(m, h, x) && TableOk(m, h, t) && LinkOk(m, h, x, Index(w, l));
    if l > 1 {
      var f := Entry(m, x, l, w);
      if x == t && Index(w, l) == i {
        assert Entry(m', x, l, w) == e && Entry(m', page, l - 1, w) == 0;
      } else {
        assert Entry(m', x, l, w) == f;
        if Present(f) {
          LinkKeepsPath(m, root, h, t, i, page, e, Frame(f), l - 1, w);
        }
      }
    }
  }

  /**
   Where no large page was in the way of w, a 4K mapping of any address puts
   none there, and w misses no more tables than before.
   */
  lemma {:induction false} InstallKeepsPath(m: Tables, root: int, h: Shape, l: int, v: int, leaf: int, flags: nat,
                                            pool: seq<nat>, w: int)
    requires Ready(m, root, h, l, v, 1, flags, pool) && PathOk(m, root, 4, w, 1)
    ensures PathOk(Install(m, TableAt(m, root, v, l), l, v, 1, leaf, flags, pool), root, 4, w, 1)
    ensures Missing(Install(m, TableAt(m, root, v, l), l, v, 1, leaf, flags, pool), root, 4, w, 1)
         <= Missing(m, root, 4, w, 1)
    ensures Writable(flags) && WritablePath(m, root, 4, w)
        ==> WritablePath(Install(m, TableAt(m, root, v, l), l, v, 1, leaf, flags, pool), root, 4, w)
    decreases l
  {
    var t := TableAt(m, root, v, l);
    TableAtLevel(m, root, h, v, l);
    assert TableOk(m, h, t);
    if l == 1 {
      LeafKeepsPath(m, root, h, t, Index(v, 1), leaf, root, 4, w);
    } else if Present(Entry(m, t, l, v)) {
      ReadyDown(m, root, h, l, v, 1, leaf, flags, pool);
      InstallKeepsPath(m, root, h, l - 1, v, leaf, flags, pool, w);
    } else {
      ReadyLink(m, root, h, l, v, 1, leaf, flags, pool);
      var f := BitOr(pool[0], flags);
      LinkEntry(pool[0], flags);
      LinkKeepsPath(m, root, h, t, Index(v, l), pool[0], f, root, 4, w);
      InstallKeepsPath(LinkTable(m, t, Index(v, l), pool[0], f), root, Extended(h, t, Index(v, l), pool[0]), l - 1, v,
                       leaf, flags, pool[1..], w);
    }
  }

  lemma {:induction false} MissingFrom(m: Tables, root: int, h: Shape, w: int, k: int, l: int)
    requires TreeOk(m, root, h) && 1 <= k <= l <= 4 && TableAt(m, root, w, k) != 0
    ensures MissingAt(m, root, w, l, 1) == MissingAt(m, root, w, k, 1)
    decreases l
  {
    if l > k {
      PathThere(m, root, h, w, k, l - 1);
      MissingFrom(m, root, h, w, k, l - 1);
    }
  }

  /** An address that shares its level-k table with one that has it misses at most the k - 1 below. */
  lemma MissingShared(m: Tables, root: int, h: Shape, v: int, w: int, k: int)
    requires TreeOk(m, root, h) && 1 <= k <= 3 && TableAt(m, root, v, k) != 0 && SameSlot(v, w, k + 1)
    ensures MissingAt(m, root, w, 4, 1) <= k - 1
  {
    PathSame(m, root, v, w, k, k);
    MissingFrom(m, root, h, w, k, 4);
  }

  // ----- One large page against 512 small ones -----

  /** The rights granted to v are the same before and after its mapping call. */
  lemma InstallGrants(m: Tables, root: int, h: Shape, v: int, l: int, leaf: int, flags: nat, pool: seq<nat>,
                      m': Tables, h': Shape)
    requires Ready(m, root, h, 4, v, l, flags, pool) && Canonical(v)
    requires Present(leaf) && !IsLink(leaf, l) && Writable(leaf) == Writable(flags) && User(leaf) == User(flags)
    requires m' == Install(m, root, 4, v, l, leaf, flags, pool) && TreeOk(m', root, h')
    requires TableAt(m', root, v, l) != 0 && Entry(m', TableAt(m', root, v, l), l, v) == leaf
    ensures Granted(m', root, v, l, flags) == Granted(m, root, v, l, flags)
  {
    InstallTranslates(m, root, h, 4, v, l, leaf, flags, pool, v);
    WalkFromPath(m', root, h', v, l);
    assert SameSlot(v, v, l);
    assert Walk(m', TableAt(m', root, v, l), l, v, Rights(m', root, v, l).0, Rights(m', root, v, l).1)
        == Leaf(leaf, l, v, Rights(m', root, v, l).0, Rights(m', root, v, l).1);
  }

  /** The last table a call creates holds nothing but the leaf. */
  lemma {:induction false} InstallNewTable(m: Tables, root: int, h: Shape, l: int, v: int, leafLevel: int, leaf: int,
                                           flags: nat, pool: seq<nat>)
    requires Ready(m, root, h, l, v, leafLevel, flags, pool) && !IsLink(leaf, leafLevel)
    requires MissingAt(m, root, v, l, leafLevel) > 0
      || (l == leafLevel && TableAt(m, root, v, l) in m && m[TableAt(m, root, v, l)] == ZeroPage())
    ensures var m' := Install(m, TableAt(m, root, v, l), l, v, leafLevel, leaf, flags, pool);
            var t := TableAt(m', root, v, leafLevel);
            t in m' && m'[t] == ZeroPage()[Index(v, leafLevel) := leaf]
    decreases l
  {
    var t := TableAt(m, root, v, l);
    TableAtLevel(m, root, h, v, l);
    assert TableOk(m, h, t);
    if l == leafLevel {
      InstallLeaf(m, root, h, v, l, leaf);
    } else if Present(Entry(m, t, l, v)) {
      ReadyDown(m, root, h, l, v, leafLevel, leaf, flags, pool);
      InstallNewTable(m, root, h, l - 1, v, leafLevel, leaf, flags, pool);
    } else {
      ReadyLink(m, root, h, l, v, leafLevel, leaf, flags, pool);
      InstallNewTable(LinkTable(m, t, Index(v, l), pool[0], BitOr(pool[0], flags)), root,
                      Extended(h, t, Index(v, l), pool[0]), l - 1, v, leafLevel, leaf, flags, pool[1..]);
    }
  }

  /** n pages of level l, in bytes: n * Reach(l). */
  function PagesLong(n: int, l: int): int {
    if l <= 1 then n * 0x1000
    else if l == 2 then n * 0x20_0000
    else if l == 3 then n * 0x4000_0000
    else n * 0x80_0000_0000
  }

  /** n calls at level l, one for each of the first n pages from v on. */
  function Fill(m: Tables, root: int, v: int, p: nat, l: int, flags: nat, n: nat, pool: seq<nat>): Tables {
    if n == 0 then m
    else Map(Fill(m, root, v, p, l, flags, n - 1, pool), root, v + PagesLong(n - 1, l), p + PagesLong(n - 1, l), l,
             flags, if n == 1 then pool else [])
  }

  /** v and p are aligned to the next larger page size, and the slot of that size is absent. */
  ghost predicate CanFill(m: Tables, root: int, h: Shape, v: int, p: int, l: int, flags: int, pool: seq<nat>) {
    && 1 <= l <= 2 && CanMap(m, root, h, v, p, l, flags, pool) && Canonical(v)
    && PageOffset(v, l + 1) == 0 && PageOffset(p, l + 1) == 0 && p + Reach(l + 1) <= 0x10_0000_0000_0000
    && !Present(Entry(m, TableAt(m, root, v, l + 1), l + 1, v))
  }

  lemma PageOf2M(q: nat, j: nat)
    requires j < 512
    ensures (0x20_0000 * q + j * 0x1000) / 0x1000 == 512 * q + j
    ensures (0x20_0000 * q + j * 0x1000) / 0x20_0000 == q
    ensures Index(0x20_0000 * q + j * 0x1000, 1) == j
  {
    var x := 0x20_0000 * q + j * 0x1000;
    assert x == 0x1000 * (512 * q + j);
    assert x / 0x1000 == 512 * q + j;
  }

  lemma PageOf1G(q: nat, j: nat)
    requires j < 512
    ensures (0x4000_0000 * q + j * 0x20_0000) / 0x20_0000 == 512 * q + j
    ensures (0x4000_0000 * q + j * 0x20_0000) / 0x4000_0000 == q
    ensures Index(0x4000_0000 * q + j * 0x20_0000, 2) == j
  {
    var x := 0x4000_0000 * q + j * 0x20_0000;
    assert x == 0x20_0000 * (512 * q + j);
    assert x / 0x20_0000 == 512 * q + j;
  }

  lemma StaysCanonical(v: int, size: int, d: int)
    requires Canonical(v) && (size == 0x20_0000 || size == 0x4000_0000) && v % size == 0 && 0 <= d < size
    ensures Canonical(v + d)
  {
    if size == 0x20_0000 {
      assert v == 0x20_0000 * (v / 0x20_0000);
    } else {
      assert v == 0x4000_0000 * (v / 0x4000_0000);
    }
  }

  lemma ShiftedMultiple4K(p: nat, j: nat)
    requires p % 0x1000 == 0
    ensures (p + j * 0x1000) % 0x1000 == 0
  {
    var q := p / 0x1000;
    assert p == 0x1000 * q;
    assert p + j * 0x1000 == 0x1000 * (q + j);
  }

  lemma ShiftedMultiple2M(p: nat, j: nat)
    requires p % 0x20_0000 == 0
    ensures (p + j * 0x20_0000) % 0x20_0000 == 0
  {
    var q := p / 0x20_0000;
    assert p == 0x20_0000 * q;
    assert p + j * 0x20_0000 == 0x20_0000 * (q + j);
  }

  lemma StaysTarget(p: int, l: int, j: int)
    requires 1 <= l <= 2 && 0 <= j < 512
    requires TargetOk(p, l) && p + Reach(l + 1) <= 0x10_0000_0000_0000
    ensures TargetOk(p + PagesLong(j, l), l)
  {
    if l == 1 {
      ShiftedMultiple4K(p, j);
    } else {
      ShiftedMultiple2M(p, j);
    }
  }

  lemma PageInRegion(v: int, p: int, l: int, j: int)
    requires Canonical(v) && PageOffset(v, l + 1) == 0 && 1 <= l <= 2 && 0 <= j < 512
    requires TargetOk(p, l) && p + Reach(l + 1) <= 0x10_0000_0000_0000
    ensures Canonical(v + PagesLong(j, l)) && TargetOk(p + PagesLong(j, l), l)
  {
    StaysCanonical(v, Reach(l + 1), PagesLong(j, l));
    StaysTarget(p, l, j);
  }

  /** The j-th page of an aligned large page. */
  lemma PageOfRegion(v: int, p: int, l: int, j: int)
    requires Canonical(v) && PageOffset(v, l + 1) == 0 && 1 <= l <= 2 && 0 <= j < 512
    requires TargetOk(p, l) && PageOffset(p, l + 1) == 0 && p + Reach(l + 1) <= 0x10_0000_0000_0000
    ensures Canonical(v + PagesLong(j, l)) && TargetOk(p + PagesLong(j, l), l)
    ensures PageNumber(v + PagesLong(j, l), l + 1) == PageNumber(v, l + 1)
    ensures Index(v + PagesLong(j, l), l) == j
    ensures PageNumber(v + PagesLong(j, l), l) == 512 * (PageNumber(v, l + 1)) + j
  {
    PageInRegion(v, p, l, j);
    if l == 1 {
      assert v == 0x20_0000 * (v / 0x20_0000);
      PageOf2M(v / 0x20_0000, j);
    } else {
      assert v == 0x4000_0000 * (v / 0x4000_0000);
      PageOf1G(v / 0x4000_0000, j);
    }
  }

  /** Where an address lies in its large page. */
  lemma OffsetInRegion(w: nat, l: int)
    requires 1 <= l <= 2
    ensures PageNumber(w, l) == 512 * (PageNumber(w, l + 1)) + Index(w, l)
    ensures PageOffset(w, l + 1) == PagesLong(Index(w, l), l) + PageOffset(w, l)
  {
    if l == 1 {
      Digit1(w);
    } else {
      Digit2(w);
    }
  }

  /** What n calls have built: one new table, filled up to entry n, granting what one call would. */
  ghost predicate Filling(m: Tables, root: int, v: int, l: int, flags: int, n: nat, m': Tables, h': Shape) {
    && TreeOk(m', root, h') && TableAt(m', root, v, l) != 0
    && Granted(m', root, v, l, flags) == Granted(m, root, v, l + 1, flags)
    && TableAt(m', root, v, l) in m' && |m'[TableAt(m', root, v, l)]| == ENTRIES
    && forall j | n <= j < ENTRIES :: m'[TableAt(m', root, v, l)][j] == 0
  }

  lemma FillFirst(m: Tables, root: int, h: Shape, v: int, p: int, l: int, flags: int, pool: seq<nat>)
    returns (h': Shape)
    requires CanFill(m, root, h, v, p, l, flags, pool)
    ensures Filling(m, root, v, l, flags, 1, Fill(m, root, v, p, l, flags, 1, pool), h')
  {
    assert Fill(m, root, v, p, l, flags, 0, pool) == m;
    assert Fill(m, root, v, p, l, flags, 1, pool) == Map(m, root, v, p, l, flags, pool);
    h' := FirstTable(m, root, h, v, p, l, flags, pool, Map(m, root, v, p, l, flags, pool));
  }

  lemma FirstTable(m: Tables, root: int, h: Shape, v: int, p: int, l: int, flags: int, pool: seq<nat>, m': Tables)
    returns (h': Shape)
    requires CanFill(m, root, h, v, p, l, flags, pool) && m' == Map(m, root, v, p, l, flags, pool)
    ensures Filling(m, root, v, l, flags, 1, m', h')
  {
    var leaf := LeafEntry(p, flags, l);
    LeafEntryIs(p, flags, l);
    h' := InstallTree(m, root, h, 4, v, l, leaf, flags, pool);
    FirstGrants(m, root, h, v, l, leaf, flags, pool, m', h');
    MissingBelow(m, root, h, v, l, 4);
    InstallNewTable(m, root, h, 4, v, l, leaf, flags, pool);
    PageOfRegion(v, p, l, 0);
  }

  lemma FirstGrants(m: Tables, root: int, h: Shape, v: int, l: int, leaf: int, flags: nat, pool: seq<nat>, m': Tables,
                    h': Shape)
    requires Ready(m, root, h, 4, v, l, flags, pool) && Canonical(v) && 1 <= l <= 2
    requires Present(leaf) && !IsLink(leaf, l) && Writable(leaf) == Writable(flags) && User(leaf) == User(flags)
    requires m' == Install(m, root, 4, v, l, leaf, flags, pool) && TreeOk(m', root, h')
    requires TableAt(m', root, v, l) != 0 && Entry(m', TableAt(m', root, v, l), l, v) == leaf
    requires !Present(Entry(m, TableAt(m, root, v, l + 1), l + 1, v))
    ensures Granted(m', root, v, l, flags) == Granted(m, root, v, l + 1, flags)
  {
    InstallGrants(m, root, h, v, l, leaf, flags, pool, m', h');
    NullIsNoTable(m, root, h);
    RightsStop(m, root, v, l + 1, l);
  }

  /** With the larger slot absent, the table for the smaller pages is missing. */
  lemma {:induction false} MissingBelow(m: Tables, root: int, h: Shape, v: int, l: int, k: int)
    requires TreeOk(m, root, h) && 1 <= l <= 2 && l + 1 <= k <= 4 && TableAt(m, root, v, k) != 0
    requires PathOk(m, TableAt(m, root, v, k), k, v, l)
    requires !Present(Entry(m, TableAt(m, root, v, l + 1), l + 1, v))
    ensures MissingAt(m, root, v, k, l) == MissingAt(m, root, v, k, l + 1) + 1
    ensures PathOk(m, TableAt(m, root, v, k), k, v, l + 1)
    decreases k
  {
    var e := Entry(m, TableAt(m, root, v, k), k, v);
    if k > l + 1 && Present(e) {
      TableAtLevel(m, root, h, v, k);
      assert TableOk(m, h, TableAt(m, root, v, k)) && LinkOk(m, h, TableAt(m, root, v, k), Index(v, k));
      assert TableOk(m, h, Frame(e));
      MissingBelow(m, root, h, v, l, k - 1);
    }
  }

  /** The entry of page n is free and its path is that of v. */
  lemma FillAt(m: Tables, root: int, h: Shape, v: int, p: int, l: int, flags: int, pool: seq<nat>, n: nat, m': Tables,
               h': Shape)
    requires CanFill(m, root, h, v, p, l, flags, pool) && 1 <= n < 512 && Filling(m, root, v, l, flags, n, m', h')
    ensures var v' := v + PagesLong(n, l);
            && Canonical(v') && TargetOk(p + PagesLong(n, l), l) && Index(v', l) == n && SameSlot(v, v', l + 1)
            && TableAt(m', root, v', l) == TableAt(m', root, v, l) && Rights(m', root, v', l) == Rights(m', root, v, l)
            && Entry(m', TableAt(m', root, v', l), l, v') == 0
  {
    var v' := v + PagesLong(n, l);
    PageOfRegion(v, p, l, n);
    SlotIsPage(v, v', l + 1);
    PathSame(m', root, v, v', l, l);
    assert m'[TableAt(m', root, v, l)][n] == 0;
  }

  /** One more call into the new table may be made, and takes no page. */
  lemma FillReady(m: Tables, root: int, h: Shape, v: int, p: int, l: int, flags: int, pool: seq<nat>, n: nat,
                  m': Tables, h': Shape)
    requires CanFill(m, root, h, v, p, l, flags, pool) && 1 <= n < 512 && Filling(m, root, v, l, flags, n, m', h')
    ensures var v', p' := v + PagesLong(n, l), p + PagesLong(n, l);
            && CanMap(m', root, h', v', p', l, flags, [])
            && Granted(m', root, v', l, flags) == Granted(m, root, v, l + 1, flags)
            && Map(m', root, v', p', l, flags, []) == SetEntry(m', TableAt(m', root, v, l), n, LeafEntry(p', flags, l))
  {
    FillAt(m, root, h, v, p, l, flags, pool, n, m', h');
    ReadyAt(root, v, v + PagesLong(n, l), p + PagesLong(n, l), l, flags, n, m', h');
  }

  /** An address whose table is there and whose entry is free can be mapped by one write. */
  lemma ReadyAt(root: int, v: int, v': int, p': int, l: int, flags: int, n: nat, m': Tables, h': Shape)
    requires 1 <= l <= 2 && TreeOk(m', root, h') && FlagsOk(flags) && TargetOk(p', l) && Index(v', l) == n
    requires TableAt(m', root, v', l) == TableAt(m', root, v, l) != 0
    requires Rights(m', root, v', l) == Rights(m', root, v, l)
    requires Entry(m', TableAt(m', root, v', l), l, v') == 0
    ensures CanMap(m', root, h', v', p', l, flags, [])
    ensures Granted(m', root, v', l, flags) == Granted(m', root, v, l, flags)
    ensures TableAt(m', root, v, l) in m' && 0 <= n < |m'[TableAt(m', root, v, l)]|
    ensures Map(m', root, v', p', l, flags, []) == SetEntry(m', TableAt(m', root, v, l), n, LeafEntry(p', flags, l))
  {
    InstallOnPath(m', root, h', 4, v', l, LeafEntry(p', flags, l), flags, []);
    assert TableOk(m', h', root);
  }

  lemma FillNext(m: Tables, root: int, h: Shape, v: int, p: int, l: int, flags: int, pool: seq<nat>, n: nat, m': Tables,
                 h': Shape)
    requires CanFill(m, root, h, v, p, l, flags, pool) && 1 <= n < 512 && Filling(m, root, v, l, flags, n, m', h')
    ensures Filling(m, root, v, l, flags, n + 1,
                    Map(m', root, v + PagesLong(n, l), p + PagesLong(n, l), l, flags, []), h')
  {
    var v', p' := v + PagesLong(n, l), p + PagesLong(n, l);
    FillAt(m, root, h, v, p, l, flags, pool, n, m', h');
    FillReady(m, root, h, v, p, l, flags, pool, n, m', h');
    LeafEntryIs(p', flags, l);
    FillWrite(m, root, v, v', l, flags, n, m', h', LeafEntry(p', flags, l));
  }

  /** Writing entry n of the table being filled. */
  lemma FillWrite(m: Tables, root: int, v: int, v': int, l: int, flags: int, n: nat, m': Tables, h': Shape, leaf: int)
    requires 1 <= l <= 2 && 1 <= n < 512 && Filling(m, root, v, l, flags, n, m', h') && !IsLink(leaf, l)
    requires Index(v', l) == n && SameSlot(v, v', l + 1) && TableAt(m', root, v', l) == TableAt(m', root, v, l)
    requires Rights(m', root, v', l) == Rights(m', root, v, l) && Entry(m', TableAt(m', root, v', l), l, v') == 0
    ensures Filling(m, root, v, l, flags, n + 1, SetEntry(m', TableAt(m', root, v, l), n, leaf), h')
  {
    InstallLeaf(m', root, h', v', l, leaf);
    PathSame(SetEntry(m', TableAt(m', root, v, l), n, leaf), root, v, v', l, l);
  }

  lemma {:induction false} FillBuilds(m: Tables, root: int, h: Shape, v: int, p: int, l: int, flags: int,
                                      pool: seq<nat>, n: nat) returns (h': Shape)
    requires CanFill(m, root, h, v, p, l, flags, pool) && 1 <= n <= 512
    ensures Filling(m, root, v, l, flags, n, Fill(m, root, v, p, l, flags, n, pool), h')
  {
    if n == 1 {
      h' := FillFirst(m, root, h, v, p, l, flags, pool);
    } else {
      h' := FillBuilds(m, root, h, v, p, l, flags, pool, n - 1);
      FillNext(m, root, h, v, p, l, flags, pool, n - 1, Fill(m, root, v, p, l, flags, n - 1, pool), h');
    }
  }

  /** An address lies in the j-th page exactly if it is in the large page with index j. */
  lemma RegionStep(v: int, p: int, l: int, j: int, w: int)
    requires Canonical(v) && PageOffset(v, l + 1) == 0 && 1 <= l <= 2 && 0 <= j < 512 && Canonical(w)
    requires TargetOk(p, l) && PageOffset(p, l + 1) == 0 && p + Reach(l + 1) <= 0x10_0000_0000_0000
    ensures PageNumber(w, l) == PageNumber(v + PagesLong(j, l), l)
       <==> PageNumber(w, l + 1) == PageNumber(v, l + 1) && Index(w, l) == j
    ensures Index(w, l) == j ==> p + PagesLong(j, l) + PageOffset(w, l) == p + PageOffset(w, l + 1)
  {
    PageOfRegion(v, p, l, j);
    OffsetInRegion(w, l);
  }

  /** What an address translates to after n of the calls, given what it was before. */
  function FillSpec(base: Translation, v: int, p: int, l: int, granted: (bool, bool), n: int, w: int): Translation {
    if Canonical(w) && PageNumber(w, l + 1) == PageNumber(v, l + 1) && Index(w, l) < n
    then Mapped(p + PageOffset(w, l + 1), granted.0, granted.1)
    else base
  }

  lemma FillSpecStep(base: Translation, v: int, p: int, l: int, granted: (bool, bool), j: int, w: int)
    requires Canonical(v) && PageOffset(v, l + 1) == 0 && 1 <= l <= 2 && 0 <= j < 512
    requires TargetOk(p, l) && PageOffset(p, l + 1) == 0 && p + Reach(l + 1) <= 0x10_0000_0000_0000
    ensures FillSpec(base, v, p, l, granted, j + 1, w)
         == MapSpec(FillSpec(base, v, p, l, granted, j, w), v + PagesLong(j, l), p + PagesLong(j, l), l, granted, w)
  {
    if Canonical(w) {
      RegionStep(v, p, l, j, w);
    }
  }

  lemma FillChain(base: Translation, before: Translation, after: Translation, v: int, p: int, l: int,
                  granted: (bool, bool), j: int, w: int)
    requires Canonical(v) && PageOffset(v, l + 1) == 0 && 1 <= l <= 2 && 0 <= j < 512
    requires TargetOk(p, l) && PageOffset(p, l + 1) == 0 && p + Reach(l + 1) <= 0x10_0000_0000_0000
    requires before == FillSpec(base, v, p, l, granted, j, w)
    requires after == MapSpec(before, v + PagesLong(j, l), p + PagesLong(j, l), l, granted, w)
    ensures after == FillSpec(base, v, p, l, granted, j + 1, w)
  {
    FillSpecStep(base, v, p, l, granted, j, w);
  }

  lemma FirstTurn(m: Tables, root: int, h: Shape, v: int, p: int, l: int, flags: int, pool: seq<nat>, w: int)
    requires CanFill(m, root, h, v, p, l, flags, pool)
    ensures Translate(Fill(m, root, v, p, l, flags, 1, pool), root, w)
         == MapSpec(Translate(m, root, w), v, p, l, Granted(m, root, v, l + 1, flags), w)
  {
    assert Fill(m, root, v, p, l, flags, 0, pool) == m;
    assert Fill(m, root, v, p, l, flags, 1, pool) == Map(m, root, v, p, l, flags, pool);
    MapTranslates(m, root, h, v, p, l, flags, pool, w);
    NullIsNoTable(m, root, h);
    RightsStop(m, root, v, l + 1, l);
  }

  lemma LaterTables(m: Tables, root: int, h: Shape, v: int, p: int, l: int, flags: int, pool: seq<nat>, j: nat)
    returns (a: Tables, h': Shape)
    requires CanFill(m, root, h, v, p, l, flags, pool) && 1 <= j < 512
    ensures var v', p' := v + PagesLong(j, l), p + PagesLong(j, l);
            && a == Fill(m, root, v, p, l, flags, j, pool)
            && CanMap(a, root, h', v', p', l, flags, []) && Canonical(v')
            && Granted(a, root, v', l, flags) == Granted(m, root, v, l + 1, flags)
            && Map(a, root, v', p', l, flags, []) == Fill(m, root, v, p, l, flags, j + 1, pool)
  {
    a := Fill(m, root, v, p, l, flags, j, pool);
    h' := FillBuilds(m, root, h, v, p, l, flags, pool, j);
    FillReady(m, root, h, v, p, l, flags, pool, j, a, h');
    PageInRegion(v, p, l, j);
  }

  lemma LaterTurn(m: Tables, root: int, h: Shape, v: int, p: int, l: int, flags: int, pool: seq<nat>, j: nat, w: int)
    requires CanFill(m, root, h, v, p, l, flags, pool) && 1 <= j < 512
    ensures Translate(Fill(m, root, v, p, l, flags, j + 1, pool), root, w)
         == MapSpec(Translate(Fill(m, root, v, p, l, flags, j, pool), root, w), v + PagesLong(j, l),
                    p + PagesLong(j, l), l, Granted(m, root, v, l + 1, flags), w)
  {
    var a, h' := LaterTables(m, root, h, v, p, l, flags, pool, j);
    MapTranslates(a, root, h', v + PagesLong(j, l), p + PagesLong(j, l), l, flags, [], w);
  }

  /** Call j on its own: it maps its page and leaves every other address alone. */
  lemma Turn(m: Tables, root: int, h: Shape, v: int, p: int, l: int, flags: int, pool: seq<nat>, j: nat, w: int)
    requires CanFill(m, root, h, v, p, l, flags, pool) && j < 512
    ensures Translate(Fill(m, root, v, p, l, flags, j + 1, pool), root, w)
         == MapSpec(Translate(Fill(m, root, v, p, l, flags, j, pool), root, w), v + PagesLong(j, l),
                    p + PagesLong(j, l), l, Granted(m, root, v, l + 1, flags), w)
  {
    if j == 0 {
      FirstTurn(m, root, h, v, p, l, flags, pool, w);
      assert Fill(m, root, v, p, l, flags, 0, pool) == m;
    } else {
      LaterTurn(m, root, h, v, p, l, flags, pool, j, w);
    }
  }

  /** The translation after the first n calls. */
  lemma {:induction false} FillTranslates(m: Tables, root: int, h: Shape, v: int, p: int, l: int, flags: int,
                                          pool: seq<nat>, n: nat, w: int)
    requires CanFill(m, root, h, v, p, l, flags, pool) && n <= 512
    ensures Translate(Fill(m, root, v, p, l, flags, n, pool), root, w)
         == FillSpec(Translate(m, root, w), v, p, l, Granted(m, root, v, l + 1, flags), n, w)
  {
    if n > 0 {
      FillTranslates(m, root, h, v, p, l, flags, pool, n - 1, w);
      FillStep(m, root, h, v, p, l, flags, pool, n - 1, w);
    }
  }

  lemma FillStep(m: Tables, root: int, h: Shape, v: int, p: int, l: int, flags: int, pool: seq<nat>, j: nat, w: int)
    requires CanFill(m, root, h, v, p, l, flags, pool) && j < 512
    requires Translate(Fill(m, root, v, p, l, flags, j, pool), root, w)
          == FillSpec(Translate(m, root, w), v, p, l, Granted(m, root, v, l + 1, flags), j, w)
    ensures Translate(Fill(m, root, v, p, l, flags, j + 1, pool), root, w)
         == FillSpec(Translate(m, root, w), v, p, l, Granted(m, root, v, l + 1, flags), j + 1, w)
  {
    Turn(m, root, h, v, p, l, flags, pool, j, w);
    FillChain(Translate(m, root, w), Translate(Fill(m, root, v, p, l, flags, j, pool), root, w),
              Translate(Fill(m, root, v, p, l, flags, j + 1, pool), root, w), v, p, l,
              Granted(m, root, v, l + 1, flags), j, w);
  }

  /**
   One 2M page translates every address as 512 4K pages do (l = 1), and one 1G
   page as 512 2M pages do (l = 2).
   */
  lemma LargePageIsSmallPages(m: Tables, root: int, h: Shape, v: int, p: int, l: int, flags: int, pool: seq<nat>,
                              w: int)
    requires CanFill(m, root, h, v, p, l, flags, pool)
    ensures Translate(Map(m, root, v, p, l + 1, flags, pool), root, w)
         == Translate(Fill(m, root, v, p, l, flags, 512, pool), root, w)
  {
    FillTranslates(m, root, h, v, p, l, flags, pool, 512, w);
    assert Index(w, l) < 512;
    MissingBelow(m, root, h, v, l, 4);
    MapTranslates(m, root, h, v, p, l + 1, flags, pool, w);
  }
}
