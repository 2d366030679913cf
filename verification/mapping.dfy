/**
 What vmm_map_4Kpage, vmm_map_2Mpage, vmm_map_1Gpage and vmm_unmap_page do to
 the tables, and to the translation the hardware makes of them.
 */
module Mapping {
  import opened Words
  import opened PageTables

  // ----- The bitwise operators of vmm.c on integers -----

  function BitOr(a: nat, b: nat): nat
    decreases a + b
  {
    if a == 0 && b == 0 then 0
    else 2 * BitOr(a / 2, b / 2) + (if a % 2 == 1 || b % 2 == 1 then 1 else 0)
  }

  lemma {:induction false} OrAdds(q: nat, b: nat, k: nat)
    requires b < Pow(2, k)
    ensures BitOr(q * Pow(2, k), b) == q * Pow(2, k) + b
    decreases k
  {
    if k == 0 {
      OrZero(q);
      assert q * Pow(2, 0) == q;
    } else {
      var n := q * Pow(2, k - 1);
      assert q * Pow(2, k) == 2 * n;
      OrAdds(q, b / 2, k - 1);
      assert BitOr(2 * n, b) == 2 * BitOr(n, b / 2) + b % 2;
    }
  }

  lemma {:induction false} OrZero(a: nat)
    ensures BitOr(a, 0) == a
  {
    if a != 0 {
      OrZero(a / 2);
    }
  }

  lemma OrFlags(page: nat, flags: nat)
    requires page % 4096 == 0 && flags < 4096
    ensures BitOr(page, flags) == page + flags
  {
    assert Pow(2, 4) == 16;
    assert Pow(2, 8) == 256;
    assert Pow(2, 12) == 4096;
    OrAdds(page / 4096, flags, 12);
  }

  /** The page-size bit is clear in flags, so ORing it in adds 128. */
  lemma OrPageSize(a: nat)
    requires !Large(a)
    ensures BitOr(a, 128) == a + 128
  {
    var a1 := a / 2;
    var a2 := a1 / 2;
    var a3 := a2 / 2;
    var a4 := a3 / 2;
    var a5 := a4 / 2;
    var a6 := a5 / 2;
    SeventhHalf(a);
    OrEvenOne(a6 / 2);
    OrTwice(a6, 1);
    OrTwice(a5, 2);
    OrTwice(a4, 4);
    OrTwice(a3, 8);
    OrTwice(a2, 16);
    OrTwice(a1, 32);
    OrTwice(a, 64);
  }

  lemma SeventhHalf(a: nat)
    ensures a / 2 / 2 / 2 / 2 / 2 / 2 / 2 == a / 128
  {
    assert a / 2 / 2 / 2 == a / 8;
    assert a / 8 / 2 / 2 == a / 32;
    assert a / 32 / 2 / 2 == a / 128;
  }

  lemma OrTwice(a: nat, b: nat)
    requires BitOr(a / 2, b) == a / 2 + b
    ensures BitOr(a, 2 * b) == a + 2 * b
  {
    assert 2 * b / 2 == b && 2 * b % 2 == 0;
  }

  lemma OrEvenOne(a: nat)
    requires a % 2 == 0
    ensures BitOr(a, 1) == a + 1
  {
    OrZero(a / 2);
  }

  // ----- Flags and entries -----

  /** Flags a mapping call may carry: present, in the low nine bits, without the page-size bit. */
  predicate FlagsOk(flags: int) { 0 <= flags < 512 && Present(flags) && !Large(flags) }

  /** `entry & ~0x1ff`, the table pointer vmm_get_pagemap follows. */
  function TablePointer(e: int): int { e - e % 512 }

  /** The entry a mapping call writes at level l for physical page p. */
  function LeafEntry(p: nat, flags: nat, l: int): nat {
    if l == 1 then BitOr(p, flags) else BitOr(BitOr(p, flags), 128)
  }

  /** A physical page the call may map at level l. */
  predicate TargetOk(p: int, l: int) { 0 <= p < 0x10_0000_0000_0000 && PageOffset(p, l) == 0 }

  lemma LowBit0(q: nat, f: nat)
    ensures Present(4096 * q + f) == Present(f)
  {
    assert 4096 * q + f == 2 * (2048 * q) + f;
  }

  lemma LowBit1(q: nat, f: nat)
    ensures Writable(4096 * q + f) == Writable(f)
  {
    assert (4096 * q + f) / 2 == 2048 * q + f / 2;
  }

  lemma LowBit2(q: nat, f: nat)
    ensures User(4096 * q + f) == User(f)
  {
    assert (4096 * q + f) / 4 == 1024 * q + f / 4;
  }

  lemma LowBit7(q: nat, f: nat)
    ensures Large(4096 * q + f) == Large(f)
  {
    assert (4096 * q + f) / 128 == 32 * q + f / 128;
  }

  /** The flag bits of an entry are those of its low twelve bits. */
  lemma LowBits(q: nat, f: nat)
    ensures Present(4096 * q + f) == Present(f) && Writable(4096 * q + f) == Writable(f)
    ensures User(4096 * q + f) == User(f) && Large(4096 * q + f) == Large(f)
  {
    LowBit0(q, f);
    LowBit1(q, f);
    LowBit2(q, f);
    LowBit7(q, f);
  }

  lemma HighBits(q: nat, f: nat)
    requires f < 4096 && q < 0x100_0000_0000
    ensures Frame(4096 * q + f) == 4096 * q
    ensures (4096 * q + f) % 4096 == f
  {
    var x := 4096 * q + f;
    assert x / 4096 == q;
  }

  lemma LinkEntry(page: int, flags: int)
    requires PageOk(page) && FlagsOk(flags)
    ensures BitOr(page, flags) == page + flags && LinksTo(BitOr(page, flags), page)
    ensures Writable(BitOr(page, flags)) == Writable(flags) && User(BitOr(page, flags)) == User(flags)
    ensures TablePointer(BitOr(page, flags)) == page
  {
    OrFlags(page, flags);
    var q := page / 4096;
    assert page == 4096 * q;
    LowBits(q, flags);
    HighBits(q, flags);
    LinkPointer(page + flags);
  }

  lemma PlusPageSize(flags: int)
    requires FlagsOk(flags)
    ensures flags + 128 < 4096 && Present(flags + 128) && Large(flags + 128)
    ensures Writable(flags + 128) == Writable(flags) && User(flags + 128) == User(flags)
  {
    assert (flags + 128) / 2 == flags / 2 + 64;
    assert (flags + 128) / 4 == flags / 4 + 32;
    assert (flags + 128) / 128 == flags / 128 + 1;
  }

  lemma SmallLeaf(q: nat, flags: int)
    requires q < 0x100_0000_0000 && FlagsOk(flags)
    ensures LeafEntry(4096 * q, flags, 1) == 4096 * q + flags
    ensures Frame(4096 * q + flags) == 4096 * q && !Large(4096 * q + flags)
  {
    OrFlags(4096 * q, flags);
    LowBit7(q, flags);
    HighBits(q, flags);
  }

  lemma LargeLeaf(q: nat, flags: int, l: int)
    requires q < 0x100_0000_0000 && FlagsOk(flags) && 2 <= l <= 3
    ensures LeafEntry(4096 * q, flags, l) == 4096 * q + (flags + 128)
    ensures Frame(4096 * q + (flags + 128)) == 4096 * q && Large(4096 * q + (flags + 128))
  {
    LargeEntry(q, flags);
    PlusPageSize(flags);
    LowBit7(q, flags + 128);
    HighBits(q, flags + 128);
  }

  lemma LargeEntry(q: nat, flags: int)
    requires q < 0x100_0000_0000 && FlagsOk(flags)
    ensures BitOr(BitOr(4096 * q, flags), 128) == 4096 * q + (flags + 128)
  {
    SmallLeaf(q, flags);
    var a := 4096 * q + flags;
    assert BitOr(4096 * q, flags) == a;
    OrPageSize(a);
  }

  lemma LeafBits(q: nat, flags: int, l: int)
    requires q < 0x100_0000_0000 && FlagsOk(flags) && 1 <= l <= 3
    ensures Present(LeafEntry(4096 * q, flags, l)) && !IsLink(LeafEntry(4096 * q, flags, l), l)
    ensures Writable(LeafEntry(4096 * q, flags, l)) == Writable(flags)
    ensures User(LeafEntry(4096 * q, flags, l)) == User(flags)
    ensures Frame(LeafEntry(4096 * q, flags, l)) == 4096 * q
  {
    if l == 1 {
      SmallLeaf(q, flags);
      LowBits(q, flags);
    } else {
      LargeLeaf(q, flags, l);
      PlusPageSize(flags);
      LowBits(q, flags + 128);
    }
  }

  lemma TargetAligned(p: int, l: int)
    requires TargetOk(p, l) && 1 <= l <= 3
    ensures p == 4096 * (p / 4096) && 0 <= p / 4096 < 0x100_0000_0000
  {
    var q := PageNumber(p, l);
    if l == 1 {
      PageMultiple(p, q);
    } else if l == 2 {
      assert p == 0x20_0000 * q;
      PageMultiple(p, 512 * q);
    } else {
      assert p == 0x4000_0000 * q;
      PageMultiple(p, 0x4_0000 * q);
    }
  }

  lemma PageMultiple(p: int, k: int)
    requires p == 4096 * k && 0 <= p < 0x10_0000_0000_0000
    ensures p == 4096 * (p / 4096) && 0 <= p / 4096 < 0x100_0000_0000
  {
    assert p / 4096 == k;
  }

  lemma LeafEntryIs(p: int, flags: int, l: int)
    requires TargetOk(p, l) && FlagsOk(flags) && 1 <= l <= 3
    ensures Present(LeafEntry(p, flags, l)) && !IsLink(LeafEntry(p, flags, l), l)
    ensures Writable(LeafEntry(p, flags, l)) == Writable(flags) && User(LeafEntry(p, flags, l)) == User(flags)
    ensures Frame(LeafEntry(p, flags, l)) == p
  {
    TargetAligned(p, l);
    LeafBits(p / 4096, flags, l);
  }

  lemma LinkPointer(e: int)
    requires LinkForm(e)
    ensures TablePointer(e) == Frame(e) == e / 4096 * 4096
  {
    var q, r := e / 4096, e % 4096;
    assert e == 4096 * q + r && q < 0x100_0000_0000;
    assert e % 512 == r;
    assert q % 0x100_0000_0000 == q;
  }

  // ----- Installing a leaf -----

  /**
   The mapping calls: from table t at level l walk down to the leaf level,
   linking a page of `pool` wherever a table is missing, and write the leaf.
   */
  function Install(m: Tables, t: int, l: int, v: int, leafLevel: int, leaf: int, flags: nat, pool: seq<nat>): Tables
    decreases l
  {
    if t !in m || |m[t]| != ENTRIES then m
    else if l <= leafLevel || l <= 0 then SetEntry(m, t, Index(v, l), leaf)
    else
      var e := m[t][Index(v, l)];
      if Present(e) then Install(m, TablePointer(e), l - 1, v, leafLevel, leaf, flags, pool)
      else if pool == [] || pool[0] in m then m
      else
        var f := BitOr(pool[0], flags);
        Install(LinkTable(m, t, Index(v, l), pool[0], f), TablePointer(f), l - 1, v, leafLevel, leaf, flags, pool[1..])
  }

  /** No large page is in the way, and the entry to be written holds no table. */
  ghost predicate PathOk(m: Tables, t: int, l: int, v: int, leafLevel: int)
    decreases l
  {
    var e := Entry(m, t, l, v);
    if l <= leafLevel || l <= 0 then !IsLink(e, l)
    else Present(e) ==> IsLink(e, l) && PathOk(m, Frame(e), l - 1, v, leafLevel)
  }

  /** Every table on the path of v is linked writable. */
  ghost predicate WritablePath(m: Tables, t: int, l: int, v: int)
    decreases l
  {
    var e := Entry(m, t, l, v);
    l > 1 && IsLink(e, l) ==> Writable(e) && WritablePath(m, Frame(e), l - 1, v)
  }

  /** How many tables the call has to create. */
  function Missing(m: Tables, t: int, l: int, v: int, leafLevel: int): (n: nat)
    ensures l >= leafLevel ==> n <= l - leafLevel
    decreases l
  {
    var e := Entry(m, t, l, v);
    if l <= leafLevel || l <= 0 then 0
    else if Present(e) then Missing(m, Frame(e), l - 1, v, leafLevel)
    else l - leafLevel
  }

  ghost function MissingAt(m: Tables, root: int, v: int, l: int, leafLevel: int): nat {
    Missing(m, TableAt(m, root, v, l), l, v, leafLevel)
  }

  ghost predicate PoolOk(m: Tables, pool: seq<nat>) {
    && (forall i | 0 <= i < |pool| :: PageOk(pool[i]) && pool[i] !in m)
    && (forall i, j | 0 <= i < j < |pool| :: pool[i] != pool[j])
  }

  /** The situation at level l of a mapping call for v. */
  ghost predicate Ready(m: Tables, root: int, h: Shape, l: int, v: int, leafLevel: int, flags: int, pool: seq<nat>) {
    && TreeOk(m, root, h) && 1 <= leafLevel <= 3 && leafLevel <= l <= 4 && FlagsOk(flags)
    && TableAt(m, root, v, l) != 0 && PathOk(m, TableAt(m, root, v, l), l, v, leafLevel)
    && PoolOk(m, pool) && Missing(m, TableAt(m, root, v, l), l, v, leafLevel) <= |pool|
  }

  /** One step down through an existing table. */
  lemma ReadyDown(m: Tables, root: int, h: Shape, l: int, v: int, leafLevel: int, leaf: int, flags: nat, pool: seq<nat>)
    requires Ready(m, root, h, l, v, leafLevel, flags, pool) && l > leafLevel
    requires Present(Entry(m, TableAt(m, root, v, l), l, v))
    ensures Ready(m, root, h, l - 1, v, leafLevel, flags, pool)
    ensures Install(m, TableAt(m, root, v, l), l, v, leafLevel, leaf, flags, pool)
         == Install(m, TableAt(m, root, v, l - 1), l - 1, v, leafLevel, leaf, flags, pool)
    ensures MissingAt(m, root, v, l, leafLevel) == MissingAt(m, root, v, l - 1, leafLevel)
  {
    var t := TableAt(m, root, v, l);
    TableAtLevel(m, root, h, v, l);
    assert TableOk(m, h, t) && LinkOk(m, h, t, Index(v, l));
    var e := Entry(m, t, l, v);
    LinkPointer(e);
    assert TableOk(m, h, Frame(e));
  }

  /** One step down through a table created on the way. */
  lemma ReadyLink(m: Tables, root: int, h: Shape, l: int, v: int, leafLevel: int, leaf: int, flags: nat, pool: seq<nat>)
    requires Ready(m, root, h, l, v, leafLevel, flags, pool) && l > leafLevel
    requires !Present(Entry(m, TableAt(m, root, v, l), l, v))
    ensures pool != [] && CanLink(m, h, TableAt(m, root, v, l), Index(v, l), pool[0], BitOr(pool[0], flags))
    ensures var t := TableAt(m, root, v, l);
            var m' := LinkTable(m, t, Index(v, l), pool[0], BitOr(pool[0], flags));
            && TableAt(m', root, v, l - 1) == pool[0]
            && Install(m, t, l, v, leafLevel, leaf, flags, pool)
               == Install(m', pool[0], l - 1, v, leafLevel, leaf, flags, pool[1..])
            && Ready(m', root, Extended(h, t, Index(v, l), pool[0]), l - 1, v, leafLevel, flags, pool[1..])
            && Missing(m', pool[0], l - 1, v, leafLevel) == l - 1 - leafLevel
  {
    var t := TableAt(m, root, v, l);
    TableAtLevel(m, root, h, v, l);
    assert TableOk(m, h, t);
    var page, f := pool[0], BitOr(pool[0], flags);
    LinkEntry(page, flags);
    LinkTree(m, root, h, t, Index(v, l), page, f);
    LinkPath(m, root, h, page, f, v, l, l - 1);
    var m' := LinkTable(m, t, Index(v, l), page, f);
    assert Entry(m', page, l - 1, v) == 0;
    forall i | 0 <= i < |pool[1..]|
      ensures PageOk(pool[1..][i]) && pool[1..][i] !in m'
    {
      assert pool[1..][i] == pool[i + 1];
    }
  }

  /** Table pages taken from the pool. */
  ghost function Taken(pool: seq<nat>, n: nat): set<int>
    requires n <= |pool|
  {
    set i | 0 <= i < n :: pool[i]
  }

  lemma InstallLeaf(m: Tables, root: int, h: Shape, v: int, l: int, leaf: int)
    requires TreeOk(m, root, h) && 1 <= l <= 3 && TableAt(m, root, v, l) != 0
    requires !IsLink(leaf, l) && !IsLink(Entry(m, TableAt(m, root, v, l), l, v), l)
    ensures var t := TableAt(m, root, v, l);
            && t in m && |m[t]| == ENTRIES
            && TreeOk(SetEntry(m, t, Index(v, l), leaf), root, h)
            && SetEntry(m, t, Index(v, l), leaf).Keys == m.Keys
            && TableAt(SetEntry(m, t, Index(v, l), leaf), root, v, l) == t
            && Rights(SetEntry(m, t, Index(v, l), leaf), root, v, l) == Rights(m, root, v, l)
            && Entry(SetEntry(m, t, Index(v, l), leaf), t, l, v) == leaf
  {
    var t := TableAt(m, root, v, l);
    TableAtLevel(m, root, h, v, l);
    assert TableOk(m, h, t);
    LeafWriteTree(m, root, h, t, Index(v, l), leaf);
    PathAbove(m, root, h, v, l, leaf, v, l);
  }

  /** The same step with the new tables and their shape as results. */
  lemma LinkStep(m: Tables, root: int, h: Shape, l: int, v: int, leafLevel: int, leaf: int, flags: nat, pool: seq<nat>)
    returns (m1: Tables, h1: Shape)
    requires Ready(m, root, h, l, v, leafLevel, flags, pool) && l > leafLevel
    requires !Present(Entry(m, TableAt(m, root, v, l), l, v))
    ensures l - leafLevel <= |pool| && m1.Keys == m.Keys + {pool[0]}
    ensures Ready(m1, root, h1, l - 1, v, leafLevel, flags, pool[1..])
    ensures Install(m, TableAt(m, root, v, l), l, v, leafLevel, leaf, flags, pool)
         == Install(m1, TableAt(m1, root, v, l - 1), l - 1, v, leafLevel, leaf, flags, pool[1..])
    ensures MissingAt(m, root, v, l, leafLevel) == l - leafLevel
    ensures MissingAt(m1, root, v, l - 1, leafLevel) == l - 1 - leafLevel
  {
    var t := TableAt(m, root, v, l);
    ReadyLink(m, root, h, l, v, leafLevel, leaf, flags, pool);
    m1 := LinkTable(m, t, Index(v, l), pool[0], BitOr(pool[0], flags));
    h1 := Extended(h, t, Index(v, l), pool[0]);
  }

  /** A mapping call leaves a tree whose path for v ends in the leaf. */
  lemma {:induction false} InstallTree(m: Tables, root: int, h: Shape, l: int, v: int, leafLevel: int, leaf: int,
                                       flags: nat, pool: seq<nat>) returns (h': Shape)
    requires Ready(m, root, h, l, v, leafLevel, flags, pool) && !IsLink(leaf, leafLevel)
    ensures var m' := Install(m, TableAt(m, root, v, l), l, v, leafLevel, leaf, flags, pool);
            && TreeOk(m', root, h')
            && TableAt(m', root, v, leafLevel) != 0
            && Entry(m', TableAt(m', root, v, leafLevel), leafLevel, v) == leaf
    decreases l
  {
    var t := TableAt(m, root, v, l);
    TableAtLevel(m, root, h, v, l);
    assert TableOk(m, h, t);
    if l == leafLevel {
      h' := h;
      InstallLeaf(m, root, h, v, l, leaf);
    } else if Present(Entry(m, t, l, v)) {
      ReadyDown(m, root, h, l, v, leafLevel, leaf, flags, pool);
      h' := InstallTree(m, root, h, l - 1, v, leafLevel, leaf, flags, pool);
    } else {
      var m1, h1 := LinkStep(m, root, h, l, v, leafLevel, leaf, flags, pool);
      h' := InstallTree(m1, root, h1, l - 1, v, leafLevel, leaf, flags, pool[1..]);
    }
  }

  /** A mapping call adds exactly the tables that were missing. */
  lemma {:induction false} InstallKeys(m: Tables, root: int, h: Shape, l: int, v: int, leafLevel: int, leaf: int,
                                       flags: nat, pool: seq<nat>)
    requires Ready(m, root, h, l, v, leafLevel, flags, pool) && !IsLink(leaf, leafLevel)
    ensures Install(m, TableAt(m, root, v, l), l, v, leafLevel, leaf, flags, pool).Keys
         == m.Keys + Taken(pool, MissingAt(m, root, v, l, leafLevel))
    decreases l
  {
    var t := TableAt(m, root, v, l);
    TableAtLevel(m, root, h, v, l);
    assert TableOk(m, h, t);
    if l == leafLevel {
      NoneTaken(pool);
    } else if Present(Entry(m, t, l, v)) {
      ReadyDown(m, root, h, l, v, leafLevel, leaf, flags, pool);
      InstallKeys(m, root, h, l - 1, v, leafLevel, leaf, flags, pool);
    } else {
      var m1, h1 := LinkStep(m, root, h, l, v, leafLevel, leaf, flags, pool);
      InstallKeys(m1, root, h1, l - 1, v, leafLevel, leaf, flags, pool[1..]);
      KeysTail(m.Keys, m1.Keys, pool, l - leafLevel);
    }
  }

  lemma NoneTaken(pool: seq<nat>)
    ensures Taken(pool, 0) == {}
  {}

  lemma KeysTail(keys: set<int>, keys1: set<int>, pool: seq<nat>, n: nat)
    requires 0 < n <= |pool| && keys1 == keys + {pool[0]}
    ensures keys1 + Taken(pool[1..], n - 1) == keys + Taken(pool, n)
  {
    TakenTail(pool, n);
  }

  lemma TakenTail(pool: seq<nat>, n: nat)
    requires 0 < n <= |pool|
    ensures Taken(pool, n) == {pool[0]} + Taken(pool[1..], n - 1)
  {
    forall x | x in Taken(pool, n)
      ensures x == pool[0] || x in Taken(pool[1..], n - 1)
    {
      var i :| 0 <= i < n && x == pool[i];
      assert i > 0 ==> pool[1..][i - 1] == x;
    }
    forall x | x in Taken(pool[1..], n - 1)
      ensures x in Taken(pool, n)
    {
      var i :| 0 <= i < n - 1 && x == pool[1..][i];
      assert pool[i + 1] == x;
    }
  }

  /** Below an entry that is no link there are no rights left to take away. */
  lemma {:induction false} RightsStop(m: Tables, root: int, v: int, l: int, k: int)
    requires 0 !in m && k < l <= 4 && !IsLink(Entry(m, TableAt(m, root, v, l), l, v), l)
    ensures Rights(m, root, v, k) == Rights(m, root, v, l) && TableAt(m, root, v, k) == 0
    decreases l - k
  {
    if k < l - 1 {
      RightsStop(m, root, v, l, k + 1);
    }
  }

  /** Rights of v down to level l, cut down to what `flags` grant. */
  function Granted(m: Tables, root: int, v: int, l: int, flags: int): (bool, bool) {
    (Rights(m, root, v, l).0 && Writable(flags), Rights(m, root, v, l).1 && User(flags))
  }

  /** Along a writable path no table takes the write right away. */
  lemma {:induction false} WritableRights(m: Tables, root: int, v: int, k: int)
    requires 0 !in m && 1 <= k <= 4 && WritablePath(m, root, 4, v)
    ensures Rights(m, root, v, k).0 && WritablePath(m, TableAt(m, root, v, k), k, v)
    decreases 4 - k
  {
    if k < 4 {
      WritableRights(m, root, v, k + 1);
    }
  }

  /** The tables a call creates carry its own flags, so they grant what the call grants. */
  lemma LinkGrants(m: Tables, root: int, h: Shape, l: int, v: int, leafLevel: int, flags: nat, pool: seq<nat>)
    requires Ready(m, root, h, l, v, leafLevel, flags, pool) && l > leafLevel
    requires !Present(Entry(m, TableAt(m, root, v, l), l, v))
    ensures TableAt(m, root, v, l) in m && 0 <= Index(v, l) < |m[TableAt(m, root, v, l)]|
    ensures pool != [] && pool[0] !in m
    ensures Granted(LinkTable(m, TableAt(m, root, v, l), Index(v, l), pool[0], BitOr(pool[0], flags)),
                    root, v, leafLevel, flags)
         == Granted(m, root, v, leafLevel, flags)
  {
    ReadyLink(m, root, h, l, v, leafLevel, 0, flags, pool);
    var t, f := TableAt(m, root, v, l), BitOr(pool[0], flags);
    LinkEntry(pool[0], flags);
    var m' := LinkTable(m, t, Index(v, l), pool[0], f);
    LinkPath(m, root, h, pool[0], f, v, l, l - 1);
    NullIsNoTable(m, root, h);
    RightsStop(m, root, v, l, leafLevel);
    if leafLevel < l - 1 {
      assert Entry(m', pool[0], l - 1, v) == 0;
      RightsStop(m', root, v, l - 1, leafLevel);
    }
  }

  /** The leaf for addresses that share its entry with v, and what was before for all others. */
  ghost function ThroughLeaf(before: Translation, leaf: int, l: int, v: int, granted: (bool, bool), w: int): Translation
  {
    if Canonical(w) && SameSlot(v, w, l) then Leaf(leaf, l, w, granted.0, granted.1) else before
  }

  lemma LeafTranslates(m: Tables, root: int, h: Shape, l: int, v: int, leaf: int, flags: nat, w: int)
    requires TreeOk(m, root, h) && 1 <= l <= 3 && TableAt(m, root, v, l) != 0
    requires !IsLink(Entry(m, TableAt(m, root, v, l), l, v), l) && Present(leaf) && !IsLink(leaf, l)
    requires Writable(leaf) == Writable(flags) && User(leaf) == User(flags)
    ensures TableAt(m, root, v, l) in m && |m[TableAt(m, root, v, l)]| == ENTRIES
    ensures Translate(SetEntry(m, TableAt(m, root, v, l), Index(v, l), leaf), root, w)
         == ThroughLeaf(Translate(m, root, w), leaf, l, v, Granted(m, root, v, l, flags), w)
  {
    TableAtLevel(m, root, h, v, l);
    assert TableOk(m, h, TableAt(m, root, v, l));
    if Canonical(w) && SameSlot(v, w, l) {
      LeafWriteHere(m, root, h, v, l, leaf, w);
    } else if Canonical(w) {
      WriteElsewhere(m, root, h, v, l, leaf, w);
    }
  }

  /**
   The translation after a mapping call: every address that shares the leaf
   entry goes through it, with the rights the flags and the tables already on
   its path grant; every other address translates as before.
   */
  lemma {:induction false} InstallTranslates(m: Tables, root: int, h: Shape, l: int, v: int, leafLevel: int, leaf: int,
                                             flags: nat, pool: seq<nat>, w: int)
    requires Ready(m, root, h, l, v, leafLevel, flags, pool)
    requires Present(leaf) && !IsLink(leaf, leafLevel)
    requires Writable(leaf) == Writable(flags) && User(leaf) == User(flags)
    ensures Translate(Install(m, TableAt(m, root, v, l), l, v, leafLevel, leaf, flags, pool), root, w)
         == ThroughLeaf(Translate(m, root, w), leaf, leafLevel, v, Granted(m, root, v, leafLevel, flags), w)
    decreases l
  {
    var t := TableAt(m, root, v, l);
    TableAtLevel(m, root, h, v, l);
    assert TableOk(m, h, t);
    var e := Entry(m, t, l, v);
    if l == leafLevel {
      LeafTranslates(m, root, h, l, v, leaf, flags, w);
    } else if Present(e) {
      ReadyDown(m, root, h, l, v, leafLevel, leaf, flags, pool);
      InstallTranslates(m, root, h, l - 1, v, leafLevel, leaf, flags, pool, w);
    } else {
      ReadyLink(m, root, h, l, v, leafLevel, leaf, flags, pool);
      var f := BitOr(pool[0], flags);
      LinkEntry(pool[0], flags);
      var m1 := LinkTable(m, t, Index(v, l), pool[0], f);
      InstallTranslates(m1, root, Extended(h, t, Index(v, l), pool[0]), l - 1, v, leafLevel, leaf, flags, pool[1..], w);
      LinkKeepsTranslation(m, root, h, t, Index(v, l), pool[0], f, w);
      LinkGrants(m, root, h, l, v, leafLevel, flags, pool);
    }
  }

  // ----- Addresses and slots -----

  lemma Digit1(v: nat)
    ensures v / 0x1000 == v / 0x20_0000 * 512 + Index(v, 1)
  {
    assert v / 0x1000 / 512 == v / 0x20_0000;
  }

  lemma Digit2(v: nat)
    ensures v / 0x20_0000 == v / 0x4000_0000 * 512 + Index(v, 2)
  {
    assert v / 0x20_0000 / 512 == v / 0x4000_0000;
  }

  lemma Digit3(v: nat)
    ensures v / 0x4000_0000 == v / 0x80_0000_0000 * 512 + Index(v, 3)
  {
    assert v / 0x4000_0000 / 512 == v / 0x80_0000_0000;
  }

  lemma Digit4(v: nat)
    ensures v / 0x80_0000_0000 == v / 0x1_0000_0000_0000 * 512 + Index(v, 4)
  {
    assert v / 0x80_0000_0000 / 512 == v / 0x1_0000_0000_0000;
  }

  /** The indices are the digits of the page number. */
  lemma IndexDigits(v: nat)
    ensures v / 0x1000 == v / 0x20_0000 * 512 + Index(v, 1)
    ensures v / 0x20_0000 == v / 0x4000_0000 * 512 + Index(v, 2)
    ensures v / 0x4000_0000 == v / 0x80_0000_0000 * 512 + Index(v, 3)
    ensures v / 0x80_0000_0000 == v / 0x1_0000_0000_0000 * 512 + Index(v, 4)
  {
    Digit1(v);
    Digit2(v);
    Digit3(v);
    Digit4(v);
  }

  lemma CanonicalTop(v: int)
    requires Canonical(v)
    ensures v / 0x1_0000_0000_0000 == if Index(v, 4) < 256 then 0 else 0xFFFF
  {
    if v < 0x8000_0000_0000 {
      assert v / 0x80_0000_0000 < 256;
    } else {
      assert 0xFFFF * 512 + 256 <= v / 0x80_0000_0000 < 0x1_0000 * 512;
    }
  }

  /** Same slot, same page: from level four down, equal digits make equal page numbers. */
  lemma SlotToPage(v: int, w: int, l: int)
    requires Canonical(v) && Canonical(w) && 1 <= l <= 3 && SameSlot(v, w, l)
    ensures PageNumber(v, l) == PageNumber(w, l)
  {
    IndexDigits(v);
    IndexDigits(w);
    CanonicalTop(v);
    CanonicalTop(w);
    assert Index(v, 4) == Index(w, 4) && Index(v, 3) == Index(w, 3);
    assert l <= 2 ==> Index(v, 2) == Index(w, 2);
    assert l <= 1 ==> Index(v, 1) == Index(w, 1);
  }

  lemma Coarser(v: nat)
    ensures v / 0x20_0000 == v / 0x1000 / 512
    ensures v / 0x4000_0000 == v / 0x20_0000 / 512
    ensures v / 0x80_0000_0000 == v / 0x4000_0000 / 512
  {
    Digit1(v);
    Digit2(v);
    Digit3(v);
  }

  lemma PageToSlot(v: int, w: int, l: int)
    requires Canonical(v) && Canonical(w) && 1 <= l <= 3 && PageNumber(v, l) == PageNumber(w, l)
    ensures SameSlot(v, w, l)
  {
    Coarser(v);
    Coarser(w);
    assert v / 0x4000_0000 == w / 0x4000_0000 && v / 0x80_0000_0000 == w / 0x80_0000_0000;
  }

  /** On canonical addresses the indices are injective: same slot at level l means same l-page. */
  lemma SlotIsPage(v: int, w: int, l: int)
    requires Canonical(v) && Canonical(w) && 1 <= l <= 3
    ensures SameSlot(v, w, l) <==> PageNumber(v, l) == PageNumber(w, l)
  {
    if SameSlot(v, w, l) {
      SlotToPage(v, w, l);
    } else if PageNumber(v, l) == PageNumber(w, l) {
      PageToSlot(v, w, l);
    }
  }

  // ----- The three mapping calls -----

  /** vmm_map_4Kpage (l = 1), vmm_map_2Mpage (l = 2), vmm_map_1Gpage (l = 3). */
  function Map(m: Tables, root: int, v: int, p: nat, l: int, flags: nat, pool: seq<nat>): Tables {
    Install(m, root, 4, v, l, LeafEntry(p, flags, l), flags, pool)
  }

  /** What mapping the l-page of v to p makes of the translation of w. */
  function MapSpec(before: Translation, v: int, p: int, l: int, granted: (bool, bool), w: int): Translation {
    if Canonical(w) && PageNumber(w, l) == PageNumber(v, l)
    then Mapped(p + PageOffset(w, l), granted.0, granted.1)
    else before
  }

  ghost predicate CanMap(m: Tables, root: int, h: Shape, v: int, p: int, l: int, flags: int, pool: seq<nat>) {
    Ready(m, root, h, 4, v, l, flags, pool) && TargetOk(p, l)
  }

  /**
   One mapping call of v to p changes the translation of exactly the l-page of
   v: its addresses go to p with the granted rights, all others stay.
   */
  lemma MapTranslates(m: Tables, root: int, h: Shape, v: int, p: int, l: int, flags: int, pool: seq<nat>, w: int)
    requires CanMap(m, root, h, v, p, l, flags, pool) && Canonical(v)
    ensures Translate(Map(m, root, v, p, l, flags, pool), root, w)
         == MapSpec(Translate(m, root, w), v, p, l, Granted(m, root, v, l, flags), w)
  {
    LeafEntryIs(p, flags, l);
    InstallTranslates(m, root, h, 4, v, l, LeafEntry(p, flags, l), flags, pool, w);
    if Canonical(w) {
      SlotIsPage(v, w, l);
    }
  }
}
