/**
 Four-level page tables as the hardware sees them (AMD64 Architecture
 Programmer's Manual, Volume 2, section 5.3), and the tree they form.
 Addresses and entries are integers; shifts and masks are exact divisions and
 remainders.
 */
module PageTables {
  const ENTRIES: int := 512

  /** Table pages by physical address. */
  type Tables = map<int, seq<int>>

  // ----- Entries -----

  predicate Present(e: int) { e % 2 == 1 }

  predicate Writable(e: int) { e / 2 % 2 == 1 }

  predicate User(e: int) { e / 4 % 2 == 1 }

  predicate Large(e: int) { e / 128 % 2 == 1 }

  /** The physical page an entry names: bits 12 to 51. */
  function Frame(e: int): int { e / 4096 % 0x100_0000_0000 * 4096 }

  /** Bytes one entry of a level-l table covers. */
  function Reach(l: int): int {
    if l <= 1 then 0x1000 else if l == 2 then 0x20_0000 else if l == 3 then 0x4000_0000 else 0x80_0000_0000
  }

  /** The number of the page of that size v lies in: v / Reach(l). */
  function PageNumber(v: int, l: int): int {
    if l <= 1 then v / 0x1000
    else if l == 2 then v / 0x20_0000
    else if l == 3 then v / 0x4000_0000
    else v / 0x80_0000_0000
  }

  /** Where v lies in that page: v % Reach(l). */
  function PageOffset(v: int, l: int): int {
    if l <= 1 then v % 0x1000
    else if l == 2 then v % 0x20_0000
    else if l == 3 then v % 0x4000_0000
    else v % 0x80_0000_0000
  }

  function Index(v: int, l: int): (i: int)
    ensures 0 <= i < ENTRIES
  {
    PageNumber(v, l) % ENTRIES
  }

  /** The entry points to a table of the next level. */
  predicate IsLink(e: int, l: int) { Present(e) && l >= 2 && !(l <= 3 && Large(e)) }

  predicate Canonical(v: int) {
    0 <= v < 0x8000_0000_0000 || 0xFFFF_8000_0000_0000 <= v < 0x1_0000_0000_0000_0000
  }

  // ----- The hardware walk -----

  datatype Translation = Fault | Mapped(phys: int, writable: bool, user: bool)

  /** A leaf entry at level l: the frame, aligned to its size, plus the offset. */
  function Leaf(e: int, l: int, v: int, w: bool, u: bool): Translation {
    Mapped(Frame(e) - PageOffset(Frame(e), l) + PageOffset(v, l), w && Writable(e), u && User(e))
  }

  function Entry(m: Tables, t: int, l: int, v: int): int {
    if t in m && |m[t]| == ENTRIES then m[t][Index(v, l)] else 0
  }

  function Walk(m: Tables, t: int, l: nat, v: int, w: bool, u: bool): Translation
    decreases l
  {
    var e := Entry(m, t, l, v);
    if l == 0 || !Present(e) then Fault
    else if IsLink(e, l) then Walk(m, Frame(e), l - 1, v, w && Writable(e), u && User(e))
    else Leaf(e, l, v, w, u)
  }

  function Translate(m: Tables, root: int, v: int): Translation {
    if Canonical(v) then Walk(m, root, 4, v, true, true) else Fault
  }

  // ----- The tree invariant -----

  datatype Slot = Slot(table: int, index: int)

  /** Level of each table page, and the one entry that points to it. */
  datatype Shape = Shape(level: map<int, int>, up: map<int, Slot>)

  predicate PageOk(t: int) { 0 < t < 0x10_0000_0000_0000 && t % 4096 == 0 }

  ghost predicate TableOk(m: Tables, h: Shape, t: int)
    requires t in m
  {
    |m[t]| == ENTRIES && PageOk(t) && t in h.level && 1 <= h.level[t] <= 4
  }

  /** An entry that links to a table: only flag bits besides the address, so either mask gives the address. */
  predicate LinkForm(e: int) { 0 <= e < 0x10_0000_0000_0000 && e % 4096 < 512 }

  ghost predicate LinkOk(m: Tables, h: Shape, t: int, i: int)
    requires t in m && 0 <= i < |m[t]| && t in h.level
  {
    var e := m[t][i];
    IsLink(e, h.level[t]) ==>
      && LinkForm(e) && Frame(e) in m && Frame(e) in h.level && h.level[Frame(e)] == h.level[t] - 1
      && Frame(e) in h.up && h.up[Frame(e)] == Slot(t, i)
  }

  ghost predicate ParentOk(m: Tables, h: Shape, t: int) {
    && t in m && t in h.level && t in h.up
    && var s := h.up[t];
    && s.table in m && s.table in h.level && 0 <= s.index < |m[s.table]|
    && h.level[s.table] == h.level[t] + 1
    && IsLink(m[s.table][s.index], h.level[s.table]) && Frame(m[s.table][s.index]) == t
  }

  /** Every table page but the root has exactly one parent entry, one level up. */
  ghost predicate TreeOk(m: Tables, root: int, h: Shape) {
    && root in m && root in h.level && h.level[root] == 4
    && (forall t {:trigger TableOk(m, h, t)} | t in m :: TableOk(m, h, t))
    && (forall t, i {:trigger LinkOk(m, h, t, i)} | t in m && 0 <= i < |m[t]| && t in h.level :: LinkOk(m, h, t, i))
    && (forall t {:trigger ParentOk(m, h, t)} | t in m && t != root :: ParentOk(m, h, t))
  }

  ghost predicate IsTree(m: Tables, root: int) {
    exists h :: TreeOk(m, root, h)
  }

  // ----- The path of an address -----

  /** The table the walk of v visits at level l, or 0. */
  function TableAt(m: Tables, root: int, v: int, l: int): int
    decreases 4 - l
  {
    if l >= 4 then root
    else
      var e := Entry(m, TableAt(m, root, v, l + 1), l + 1, v);
      if IsLink(e, l + 1) then Frame(e) else 0
  }

  lemma NullIsNoTable(m: Tables, root: int, h: Shape)
    requires TreeOk(m, root, h)
    ensures 0 !in m
  {
    assert 0 in m ==> TableOk(m, h, 0);
  }

  lemma {:induction false} TableAtLevel(m: Tables, root: int, h: Shape, v: int, l: int)
    requires TreeOk(m, root, h) && 1 <= l <= 4
    ensures TableAt(m, root, v, l) == 0 || (TableAt(m, root, v, l) in m && TableAt(m, root, v, l) in h.level
                                            && h.level[TableAt(m, root, v, l)] == l)
    decreases 4 - l
  {
    if l < 4 {
      TableAtLevel(m, root, h, v, l + 1);
      var t := TableAt(m, root, v, l + 1);
      if t in m {
        assert TableOk(m, h, t) && LinkOk(m, h, t, Index(v, l + 1));
      }
    }
  }

  /** v and w use the same entries from level 4 down to level l. */
  ghost predicate SameSlot(v: int, w: int, l: int) {
    forall k | l <= k <= 4 :: Index(v, k) == Index(w, k)
  }

  /** Two addresses that reach the same table came the same way. */
  lemma {:induction false} PathUnique(m: Tables, root: int, h: Shape, v: int, w: int, l: int)
    requires TreeOk(m, root, h) && 1 <= l <= 4
    requires TableAt(m, root, v, l) == TableAt(m, root, w, l) != 0
    ensures SameSlot(v, w, l + 1)
    decreases 4 - l
  {
    if l < 4 {
      var t, s := TableAt(m, root, v, l + 1), TableAt(m, root, w, l + 1);
      TableAtLevel(m, root, h, v, l + 1);
      TableAtLevel(m, root, h, w, l + 1);
      assert TableOk(m, h, t) && LinkOk(m, h, t, Index(v, l + 1));
      assert TableOk(m, h, s) && LinkOk(m, h, s, Index(w, l + 1));
      PathUnique(m, root, h, v, w, l + 1);
    }
  }

  /** What the links above level l leave of the write and user rights of v. */
  function Rights(m: Tables, root: int, v: int, l: int): (bool, bool)
    decreases 4 - l
  {
    if l >= 4 then (true, true)
    else
      var e := Entry(m, TableAt(m, root, v, l + 1), l + 1, v);
      var r := Rights(m, root, v, l + 1);
      if IsLink(e, l + 1) then (r.0 && Writable(e), r.1 && User(e)) else r
  }

  /** The walk may be picked up at any table on its path. */
  lemma {:induction false} WalkFromPath(m: Tables, root: int, h: Shape, v: int, l: int)
    requires TreeOk(m, root, h) && 1 <= l <= 4 && TableAt(m, root, v, l) != 0
    ensures Walk(m, root, 4, v, true, true)
         == Walk(m, TableAt(m, root, v, l), l, v, Rights(m, root, v, l).0, Rights(m, root, v, l).1)
    decreases 4 - l
  {
    if l < 4 {
      NullIsNoTable(m, root, h);
      WalkFromPath(m, root, h, v, l + 1);
    }
  }

  /** The path down to level l depends on the indices above it only. */
  lemma {:induction false} PathSame(m: Tables, root: int, v: int, w: int, l: int, k: int)
    requires SameSlot(v, w, l + 1) && l <= k <= 4
    ensures TableAt(m, root, v, k) == TableAt(m, root, w, k) && Rights(m, root, v, k) == Rights(m, root, w, k)
    decreases 4 - k
  {
    if k < 4 {
      PathSame(m, root, v, w, l, k + 1);
      assert Index(v, k + 1) == Index(w, k + 1);
    }
  }

  /** A path that reaches level l is there at every level above. */
  lemma {:induction false} PathThere(m: Tables, root: int, h: Shape, v: int, l: int, k: int)
    requires TreeOk(m, root, h) && 1 <= l <= k <= 4 && TableAt(m, root, v, l) != 0
    ensures TableAt(m, root, v, k) != 0
    decreases k - l
  {
    if l < k {
      NullIsNoTable(m, root, h);
      PathThere(m, root, h, v, l + 1, k);
    }
  }

  // ----- Writing one entry -----

  function SetEntry(m: Tables, t: int, i: int, e: int): Tables
    requires t in m && 0 <= i < |m[t]|
  {
    m[t := m[t][i := e]]
  }

  /** The walk of v from table x at level l reads entry i of table t. */
  ghost predicate Passes(m: Tables, x: int, l: nat, v: int, t: int, i: int)
    decreases l
  {
    l > 0 && ((x == t && Index(v, l) == i)
              || (IsLink(Entry(m, x, l, v), l) && Passes(m, Frame(Entry(m, x, l, v)), l - 1, v, t, i)))
  }

  lemma {:induction false} WalkElsewhere(m: Tables, x: int, l: nat, v: int, w: bool, u: bool, t: int, i: int, e: int)
    requires t in m && |m[t]| == ENTRIES && 0 <= i < ENTRIES && !Passes(m, x, l, v, t, i)
    ensures Walk(SetEntry(m, t, i, e), x, l, v, w, u) == Walk(m, x, l, v, w, u)
    decreases l
  {
    if l > 0 {
      var f := Entry(m, x, l, v);
      assert Entry(SetEntry(m, t, i, e), x, l, v) == f;
      if IsLink(f, l) {
        WalkElsewhere(m, Frame(f), l - 1, v, w && Writable(f), u && User(f), t, i, e);
      }
    }
  }

  /** Only addresses with table t on their path read its entries. */
  lemma {:induction false} PassesWhere(m: Tables, root: int, h: Shape, v: int, t: int, i: int, l: nat)
    requires TreeOk(m, root, h) && t in m && 1 <= l <= 4
    requires TableAt(m, root, v, l) != 0 && Passes(m, TableAt(m, root, v, l), l, v, t, i)
    ensures t in h.level && TableAt(m, root, v, h.level[t]) == t && Index(v, h.level[t]) == i
    decreases l
  {
    var x := TableAt(m, root, v, l);
    TableAtLevel(m, root, h, v, l);
    if x != t || Index(v, l) != i {
      assert TableOk(m, h, x) && LinkOk(m, h, x, Index(v, l));
      var e := Entry(m, x, l, v);
      assert TableAt(m, root, v, l - 1) == Frame(e);
      assert TableOk(m, h, Frame(e));
      PassesWhere(m, root, h, v, t, i, l - 1);
    }
  }

  /** Writing the entry v uses at level l changes no translation but those that share that entry. */
  lemma WriteElsewhere(m: Tables, root: int, h: Shape, v: int, l: int, e: int, w: int)
    requires TreeOk(m, root, h) && 1 <= l <= 4 && TableAt(m, root, v, l) != 0 && !SameSlot(v, w, l)
    ensures TableAt(m, root, v, l) in m && |m[TableAt(m, root, v, l)]| == ENTRIES
    ensures Translate(SetEntry(m, TableAt(m, root, v, l), Index(v, l), e), root, w) == Translate(m, root, w)
  {
    var t := TableAt(m, root, v, l);
    TableAtLevel(m, root, h, v, l);
    assert TableOk(m, h, t) && TableOk(m, h, root);
    if Passes(m, root, 4, w, t, Index(v, l)) {
      PassesWhere(m, root, h, w, t, Index(v, l), 4);
      PathUnique(m, root, h, v, w, l);
      assert SameSlot(v, w, l);
    } else {
      WalkElsewhere(m, root, 4, w, true, true, t, Index(v, l), e);
    }
  }

  /** A write at level l leaves the path above it alone. */
  lemma {:induction false} PathAbove(m: Tables, root: int, h: Shape, v: int, l: int, e: int, w: int, k: int)
    requires TreeOk(m, root, h) && 1 <= l <= k <= 4 && TableAt(m, root, v, l) != 0 && SameSlot(v, w, l)
    ensures TableAt(m, root, v, l) in m && |m[TableAt(m, root, v, l)]| == ENTRIES
    ensures var m' := SetEntry(m, TableAt(m, root, v, l), Index(v, l), e);
            TableAt(m', root, w, k) == TableAt(m, root, v, k) && Rights(m', root, w, k) == Rights(m, root, v, k)
    decreases 4 - k
  {
    var t := TableAt(m, root, v, l);
    TableAtLevel(m, root, h, v, l);
    assert TableOk(m, h, t);
    if k < 4 {
      PathAbove(m, root, h, v, l, e, w, k + 1);
      TableAtLevel(m, root, h, v, k + 1);
      var x := TableAt(m, root, v, k + 1);
      var m' := SetEntry(m, t, Index(v, l), e);
      assert Entry(m', x, k + 1, w) == Entry(m, x, k + 1, v) by {
        assert Index(v, k + 1) == Index(w, k + 1);
      }
      PathStep(m, m', root, v, w, k);
    }
  }

  lemma PathStep(m: Tables, m': Tables, root: int, v: int, w: int, k: int)
    requires k < 4 && TableAt(m', root, w, k + 1) == TableAt(m, root, v, k + 1)
    requires Rights(m', root, w, k + 1) == Rights(m, root, v, k + 1)
    requires var x := TableAt(m, root, v, k + 1); Entry(m', x, k + 1, w) == Entry(m, x, k + 1, v)
    ensures TableAt(m', root, w, k) == TableAt(m, root, v, k) && Rights(m', root, w, k) == Rights(m, root, v, k)
  {}

  /** Entries that are no links carry no structure: writing one over another keeps the tree. */
  lemma LeafWriteTree(m: Tables, root: int, h: Shape, t: int, i: int, e: int)
    requires TreeOk(m, root, h) && t in m && 0 <= i < |m[t]| && t in h.level
    requires !IsLink(m[t][i], h.level[t]) && !IsLink(e, h.level[t])
    ensures TreeOk(SetEntry(m, t, i, e), root, h)
  {
    var m' := SetEntry(m, t, i, e);
    forall s | s in m'
      ensures TableOk(m', h, s)
    {
      assert TableOk(m, h, s);
    }
    forall s, j | s in m' && 0 <= j < |m'[s]| && s in h.level
      ensures LinkOk(m', h, s, j)
    {
      assert LinkOk(m, h, s, j);
    }
    forall s | s in m' && s != root
      ensures ParentOk(m', h, s)
    {
      assert ParentOk(m, h, s);
    }
  }

  /** After writing e, no link, every address that shares the entry translates through it. */
  lemma LeafWriteHere(m: Tables, root: int, h: Shape, v: int, l: int, e: int, w: int)
    requires TreeOk(m, root, h) && 1 <= l <= 3 && TableAt(m, root, v, l) != 0 && SameSlot(v, w, l) && Canonical(w)
    requires !IsLink(e, l) && !IsLink(Entry(m, TableAt(m, root, v, l), l, v), l)
    ensures TableAt(m, root, v, l) in m && |m[TableAt(m, root, v, l)]| == ENTRIES
    ensures Translate(SetEntry(m, TableAt(m, root, v, l), Index(v, l), e), root, w)
         == if Present(e) then Leaf(e, l, w, Rights(m, root, v, l).0, Rights(m, root, v, l).1) else Fault
  {
    var t := TableAt(m, root, v, l);
    TableAtLevel(m, root, h, v, l);
    assert TableOk(m, h, t);
    LeafWriteTree(m, root, h, t, Index(v, l), e);
    PathAbove(m, root, h, v, l, e, w, l);
    var m' := SetEntry(m, t, Index(v, l), e);
    WalkFromPath(m', root, h, w, l);
    assert Index(v, l) == Index(w, l);
    assert Entry(m', t, l, w) == e;
  }

  // ----- Creating a table -----

  function ZeroPage(): (r: seq<int>)
    ensures |r| == ENTRIES && forall i | 0 <= i < ENTRIES :: r[i] == 0
  {
    seq(ENTRIES, _ => 0)
  }

  /** The entry vmm_get_pagemap writes for a new table. */
  ghost predicate LinksTo(e: int, page: int) { LinkForm(e) && Present(e) && !Large(e) && Frame(e) == page }

  function LinkTable(m: Tables, t: int, i: int, page: int, e: int): Tables
    requires t in m && 0 <= i < |m[t]| && page !in m
  {
    SetEntry(m[page := ZeroPage()], t, i, e)
  }

  /** Entry i of table t is free to take a link to a new table page. */
  ghost predicate CanLink(m: Tables, h: Shape, t: int, i: int, page: int, e: int) {
    && t in m && 0 <= i < |m[t]| && t in h.level && h.level[t] >= 2 && !Present(m[t][i])
    && page !in m && PageOk(page) && LinksTo(e, page)
  }

  function Extended(h: Shape, t: int, i: int, page: int): Shape
    requires t in h.level
  {
    Shape(h.level[page := h.level[t] - 1], h.up[page := Slot(t, i)])
  }

  /** The new table hangs below exactly one entry; all other tables stay where they are. */
  lemma LinkTree(m: Tables, root: int, h: Shape, t: int, i: int, page: int, e: int)
    requires TreeOk(m, root, h) && CanLink(m, h, t, i, page, e)
    ensures TreeOk(LinkTable(m, t, i, page, e), root, Extended(h, t, i, page))
  {
    var m', h' := LinkTable(m, t, i, page, e), Extended(h, t, i, page);
    assert TableOk(m, h, t);
    forall s | s in m'
      ensures TableOk(m', h', s)
    {
      if s != page { assert TableOk(m, h, s); }
    }
    forall s, j | s in m' && 0 <= j < |m'[s]| && s in h'.level
      ensures LinkOk(m', h', s, j)
    {
      LinkTreeAt(m, root, h, t, i, page, e, s, j);
    }
    forall s | s in m' && s != root
      ensures ParentOk(m', h', s)
    {
      if s != page { assert ParentOk(m, h, s) && TableOk(m, h, s) && TableOk(m, h, h.up[s].table); }
    }
  }

  lemma LinkTreeAt(m: Tables, root: int, h: Shape, t: int, i: int, page: int, e: int, s: int, j: int)
    requires TreeOk(m, root, h) && CanLink(m, h, t, i, page, e)
    requires var m', h' := LinkTable(m, t, i, page, e), Extended(h, t, i, page);
             s in m' && 0 <= j < |m'[s]| && s in h'.level
    ensures LinkOk(LinkTable(m, t, i, page, e), Extended(h, t, i, page), s, j)
  {
    if s != page && (s != t || j != i) {
      assert TableOk(m, h, s) && LinkOk(m, h, s, j);
    }
  }

  /** A fresh, empty table changes no translation at all. */
  lemma {:induction false} LinkKeepsWalk(m: Tables, root: int, h: Shape, t: int, i: int, page: int, e: int,
                                         x: int, l: nat, v: int, w: bool, u: bool)
    requires TreeOk(m, root, h) && CanLink(m, h, t, i, page, e)
    requires x in m && x in h.level && h.level[x] == l
    ensures Walk(LinkTable(m, t, i, page, e), x, l, v, w, u) == Walk(m, x, l, v, w, u)
    decreases l
  {
    var m' := LinkTable(m, t, i, page, e);
    assert TableOk(m, h, x) && TableOk(m, h, t) && LinkOk(m, h, x, Index(v, l));
    var f := Entry(m, x, l, v);
    if x == t && Index(v, l) == i {
      assert Entry(m', x, l, v) == e;
      assert Entry(m', page, l - 1, v) == 0;
    } else {
      assert Entry(m', x, l, v) == f;
      if IsLink(f, l) {
        LinkKeepsWalk(m, root, h, t, i, page, e, Frame(f), l - 1, v, w && Writable(f), u && User(f));
      }
    }
  }

  lemma LinkKeepsTranslation(m: Tables, root: int, h: Shape, t: int, i: int, page: int, e: int, v: int)
    requires TreeOk(m, root, h) && CanLink(m, h, t, i, page, e)
    ensures Translate(LinkTable(m, t, i, page, e), root, v) == Translate(m, root, v)
  {
    if Canonical(v) {
      LinkKeepsWalk(m, root, h, t, i, page, e, root, 4, v, true, true);
    }
  }

  /** The path of v above its new table is the old one, and continues into the new table. */
  lemma {:induction false} LinkPath(m: Tables, root: int, h: Shape, page: int, e: int, v: int, l: int, k: int)
    requires TreeOk(m, root, h) && 2 <= l <= 4 && l - 1 <= k <= 4
    requires TableAt(m, root, v, l) != 0 && CanLink(m, h, TableAt(m, root, v, l), Index(v, l), page, e)
    ensures var m' := LinkTable(m, TableAt(m, root, v, l), Index(v, l), page, e);
            && TableAt(m', root, v, k) == (if k == l - 1 then page else TableAt(m, root, v, k))
            && Rights(m', root, v, k) == (if k == l - 1
                                          then (Rights(m, root, v, l).0 && Writable(e),
                                                Rights(m, root, v, l).1 && User(e))
                                          else Rights(m, root, v, k))
    decreases 4 - k
  {
    if k < 4 {
      LinkPath(m, root, h, page, e, v, l, k + 1);
      var t, x := TableAt(m, root, v, l), TableAt(m, root, v, k + 1);
      TableAtLevel(m, root, h, v, k + 1);
      TableAtLevel(m, root, h, v, l);
      NullIsNoTable(m, root, h);
      assert TableOk(m, h, t);
      var m' := LinkTable(m, t, Index(v, l), page, e);
      assert Entry(m', x, k + 1, v) == if k + 1 == l then e else Entry(m, x, k + 1, v);
    }
  }
}
