/**
 Whole runs of the paging layer: maps of every page size, unmaps, and page
 allocations and frees by callers who free only pages they hold.
 */
module PagingRuns {
  import opened PageTables
  import opened Mapping
  import opened MappingLaws
  import opened Vmm

  /**
   `owned` are the pages callers hold, `lost` those nobody can reach any more;
   `lost`, `usable`, `spare` and `root` never change in a run.
   */
  datatype State = State(m: Tables, root: int, free: set<int>, owned: set<int>, lost: set<int>, usable: set<int>,
                         spare: nat)

  datatype Op =
    | MapPage(l: int, v: nat, p: nat, flags: nat)
    | UnmapPage(v: nat)
    | TakePage
    | GiveBack(page: int)

  ghost function TablePages(m: Tables): set<int> { set t | t in m :: t / 4096 }

  /** A tree of tables, and every usable page is free, held by a caller, lost, or a table, and only one of these. */
  ghost predicate Inv(s: State) {
    && IsTree(s.m, s.root) && TablesHeld(s.m, s.free, s.usable)
    && Partition(s.usable, s.free, s.owned, s.lost, TablePages(s.m))
  }

  ghost predicate Partition(usable: set<int>, free: set<int>, owned: set<int>, lost: set<int>, tables: set<int>) {
    && usable == free + owned + lost + tables * usable
    && free !! owned + lost && owned !! lost && owned + lost !! tables
  }

  /** An address space as a state of a run in which nothing is lost yet. */
  ghost function StateOf(a: AddressSpace, owned: set<int>): State
    reads a, a.pmm
    requires a.pmm.spare >= 0
  {
    State(a.tables, a.root, a.pmm.free, owned, {}, a.pmm.usable, a.pmm.spare)
  }

  ghost predicate Enabled(s: State, op: Op) {
    match op
    case MapPage(l, v, p, flags) =>
      && 1 <= l <= 3 && Canonical(v) && TargetOk(p, l) && FlagsOk(flags) && PathOk(s.m, s.root, 4, v, l)
      && MissingAt(s.m, s.root, v, 4, l) + s.spare <= |s.free|
    case UnmapPage(v) => Canonical(v) && PathOk(s.m, s.root, 4, v, 1)
    case TakePage => true
    case GiveBack(page) => page in s.owned
  }

  ghost predicate Next(s: State, op: Op, t: State) {
    && Enabled(s, op) && t.root == s.root && t.lost == s.lost && t.usable == s.usable && t.spare == s.spare
    && match op
       case MapPage(l, v, p, flags) =>
         Drawn(s.m, s.root, v, p, l, flags, s.free, t.m, t.free) && t.owned == s.owned
       case UnmapPage(v) => t.m == Unmap(s.m, s.root, 4, v) && t.free == s.free && t.owned == s.owned
       case TakePage =>
         if |s.free| <= s.spare then t == s
         else t.m == s.m && t.free == s.free - {Lowest(s.free)} && t.owned == s.owned + {Lowest(s.free)}
       case GiveBack(page) => t.m == s.m && t.free == s.free + {page} && t.owned == s.owned - {page}
  }

  lemma TakenPages(m: Tables, m': Tables, pool: seq<nat>)
    requires m'.Keys == m.Keys + Taken(pool, |pool|)
    ensures TablePages(m') == TablePages(m) + PageNumbers(pool)
  {
    forall x | x in TablePages(m')
      ensures x in TablePages(m) + PageNumbers(pool)
    {
      var t :| t in m' && x == t / 4096;
      if t !in m {
        var i :| 0 <= i < |pool| && t == pool[i];
      }
    }
    forall x | x in TablePages(m) + PageNumbers(pool)
      ensures x in TablePages(m')
    {
      if x in TablePages(m) {
        var t :| t in m && x == t / 4096;
        assert t in m';
      } else {
        var i :| 0 <= i < |pool| && x == pool[i] / 4096;
        assert pool[i] in Taken(pool, |pool|) && pool[i] in m';
      }
    }
  }

  lemma MapKeepsTree(m: Tables, root: int, free: set<int>, usable: set<int>, l: int, v: int, p: int,
                     flags: int, m': Tables, free': set<int>) returns (taken: set<int>)
    requires IsTree(m, root) && TablesHeld(m, free, usable) && 1 <= l <= 3 && TargetOk(p, l) && FlagsOk(flags)
    requires PathOk(m, root, 4, v, l) && Drawn(m, root, v, p, l, flags, free, m', free')
    ensures IsTree(m', root) && TablesHeld(m', free', usable)
    ensures taken <= free && free' == free - taken && TablePages(m') == TablePages(m) + taken
  {
    var n := MissingAt(m, root, v, 4, l);
    var pool := NextPages(free, n);
    PoolFromFree(m, free, usable, n);
    NextPagesAre(free, n);
    LeafEntryIs(p, flags, l);
    var h :| TreeOk(m, root, h);
    assert TableOk(m, h, root);
    var h' := InstallTree(m, root, h, 4, v, l, LeafEntry(p, flags, l), flags, pool);
    InstallKeys(m, root, h, 4, v, l, LeafEntry(p, flags, l), flags, pool);
    TakenPages(m, m', pool);
    taken := PageNumbers(pool);
    HeldAfter(m, m', free, free', usable, taken);
  }

  lemma HeldAfter(m: Tables, m': Tables, free: set<int>, free': set<int>, usable: set<int>, taken: set<int>)
    requires TablesHeld(m, free, usable) && taken <= free && free' == free - taken
    requires TablePages(m') == TablePages(m) + taken
    ensures TablesHeld(m', free', usable)
  {
    forall t | t in m'
      ensures t / 4096 !in free'
    {
      assert t / 4096 in TablePages(m');
      if t / 4096 in TablePages(m) {
        var s :| s in m && s / 4096 == t / 4096;
      }
    }
  }

  lemma MapKeeps(s: State, op: Op, t: State)
    requires Inv(s) && op.MapPage? && Next(s, op, t)
    ensures Inv(t)
  {
    var taken := MapKeepsTree(s.m, s.root, s.free, s.usable, op.l, op.v, op.p, op.flags, t.m, t.free);
    PagesMove(s.usable, s.free, s.owned, s.lost, TablePages(s.m), taken);
  }

  lemma PagesMove(usable: set<int>, free: set<int>, owned: set<int>, lost: set<int>, tables: set<int>, taken: set<int>)
    requires Partition(usable, free, owned, lost, tables) && taken <= free
    ensures Partition(usable, free - taken, owned, lost, tables + taken)
  {
  }

  lemma UnmapKeeps(s: State, op: Op, t: State)
    requires Inv(s) && op.UnmapPage? && Next(s, op, t)
    ensures Inv(t)
  {
    UnmapOutcome(s.m, s.root, op.v);
    assert TablePages(t.m) == TablePages(s.m);
    HeldAfter(s.m, t.m, s.free, t.free, s.usable, {});
  }

  lemma TakeKeeps(s: State, op: Op, t: State)
    requires Inv(s) && op.TakePage? && Next(s, op, t)
    ensures Inv(t)
  {
    assert forall x | x in s.m :: x / 4096 in TablePages(s.m);
    if |s.free| > s.spare {
      PageTaken(s.usable, s.free, s.owned, s.lost, TablePages(s.m), Lowest(s.free));
    }
  }

  lemma PageTaken(usable: set<int>, free: set<int>, owned: set<int>, lost: set<int>, tables: set<int>, page: int)
    requires Partition(usable, free, owned, lost, tables) && page in free && free !! tables
    ensures Partition(usable, free - {page}, owned + {page}, lost, tables)
  {
  }

  lemma PageGiven(usable: set<int>, free: set<int>, owned: set<int>, lost: set<int>, tables: set<int>, page: int)
    requires Partition(usable, free, owned, lost, tables) && page in owned
    ensures Partition(usable, free + {page}, owned - {page}, lost, tables)
  {
  }

  lemma GiveKeeps(s: State, op: Op, t: State)
    requires Inv(s) && op.GiveBack? && Next(s, op, t)
    ensures Inv(t)
  {
    assert forall x | x in s.m :: x / 4096 in TablePages(s.m);
    PageGiven(s.usable, s.free, s.owned, s.lost, TablePages(s.m), op.page);
  }

  lemma NextKeeps(s: State, op: Op, t: State)
    requires Inv(s) && Next(s, op, t)
    ensures Inv(t)
  {
    match op
    case MapPage(_, _, _, _) => MapKeeps(s, op, t);
    case UnmapPage(_) => UnmapKeeps(s, op, t);
    case TakePage => TakeKeeps(s, op, t);
    case GiveBack(_) => GiveKeeps(s, op, t);
  }

  ghost predicate Run(ss: seq<State>, ops: seq<Op>) {
    |ss| == |ops| + 1 && forall k | 0 <= k < |ops| :: Step(ss, ops, k)
  }

  ghost predicate Step(ss: seq<State>, ops: seq<Op>, k: int)
    requires |ss| == |ops| + 1 && 0 <= k < |ops|
  {
    Next(ss[k], ops[k], ss[k + 1])
  }

  /**
   In every state of every run the page tables are a tree, every table page's
   bit is set, and no usable page is forgotten or counted twice.
   */
  lemma {:induction false} RunKeeps(ss: seq<State>, ops: seq<Op>, k: nat)
    requires Run(ss, ops) && Inv(ss[0]) && k < |ss|
    ensures Inv(ss[k])
  {
    if k > 0 {
      RunKeeps(ss, ops, k - 1);
      assert Step(ss, ops, k - 1);
      NextKeeps(ss[k - 1], ops[k - 1], ss[k]);
    }
  }

  /** A lost page stays lost for good: it is never free, held or a table again. */
  lemma {:induction false} RunKeepsLost(ss: seq<State>, ops: seq<Op>, k: nat, page: int)
    requires Run(ss, ops) && Inv(ss[0]) && k < |ss| && page in ss[0].lost
    ensures page in ss[k].lost && page !in ss[k].free + ss[k].owned + TablePages(ss[k].m)
  {
    RunKeeps(ss, ops, k);
    if k > 0 {
      RunKeepsLost(ss, ops, k - 1, page);
      assert Step(ss, ops, k - 1);
    }
  }

  /** What pmm_allocpage hands out in any run is neither a live table nor a page held or lost. */
  lemma TakenIsNew(ss: seq<State>, ops: seq<Op>, k: nat)
    requires Run(ss, ops) && Inv(ss[0]) && k < |ops| && ops[k].TakePage? && |ss[k].free| > ss[k].spare
    ensures var page := Lowest(ss[k].free);
            && page in ss[k].usable && page !in ss[k].owned + ss[k].lost && 4096 * page !in ss[k].m
            && page in ss[k + 1].owned
  {
    RunKeeps(ss, ops, k);
    assert Step(ss, ops, k);
    var page := Lowest(ss[k].free);
    assert 4096 * page / 4096 == page;
  }

  /** An address no operation of the run touches keeps its translation to the end. */
  lemma {:induction false} RunKeepsTranslation(ss: seq<State>, ops: seq<Op>, k: nat, w: int)
    requires Run(ss, ops) && Inv(ss[0]) && k < |ss|
    requires forall i | 0 <= i < k :: !Touches(ops[i], w)
    ensures Translate(ss[k].m, ss[k].root, w) == Translate(ss[0].m, ss[0].root, w)
  {
    if k > 0 {
      RunKeeps(ss, ops, k - 1);
      RunKeepsTranslation(ss, ops, k - 1, w);
      assert Step(ss, ops, k - 1);
      var s, op := ss[k - 1], ops[k - 1];
      assert !Touches(op, w);
      match op
      case MapPage(l, v, p, flags) => DrawnTranslates(s.m, s.root, v, p, l, flags, s.free, s.usable);
      case UnmapPage(v) => UnmapOutcome(s.m, s.root, v);
      case TakePage =>
      case GiveBack(_) =>
    }
  }

  ghost predicate Touches(op: Op, w: int) {
    match op
    case MapPage(l, v, _, _) => PageNumber(v, l) == PageNumber(w, l)
    case UnmapPage(v) => v / 0x1000 == w / 0x1000
    case TakePage => false
    case GiveBack(_) => false
  }
}
