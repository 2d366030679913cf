/** kernel/src/memory/pmm.c: the physical page allocator over a bitmap of used pages. */
module Pmm {
  import opened Words

  const PAGE_SIZE: int := 4096

  // ----- Bits of one byte -----

  predicate Bit(b: bv8, j: nat)
    requires j < 8
  {
    b & (1 << j) != 0
  }

  function Mask(j: nat): bv8
    requires j < 8
  {
    if j == 0 then 1 else if j == 1 then 2 else if j == 2 then 4 else if j == 3 then 8
    else if j == 4 then 16 else if j == 5 then 32 else if j == 6 then 64 else 128
  }

  lemma MaskIs(j: nat)
    requires j < 8
    ensures 1 << j == Mask(j)
  {
    assert j == 0 || j == 1 || j == 2 || j == 3 || j == 4 || j == 5 || j == 6 || j == 7;
  }

  /** Bits of different places do not meet. */
  lemma MasksApart(j: nat, k: nat)
    requires j < 8 && k < 8
    ensures Mask(j) & Mask(k) == if j == k then Mask(j) else 0
    ensures Mask(j) != 0
  {}

  lemma SetBit(b: bv8, j: nat, k: nat)
    requires j < 8 && k < 8
    ensures Bit(b | (1 << j), k) <==> j == k || Bit(b, k)
  {
    MaskIs(j);
    MaskIs(k);
    MasksApart(j, k);
    OrMeets(b, Mask(j), Mask(k));
  }

  lemma OrMeets(b: bv8, m: bv8, n: bv8)
    ensures (b | m) & n == (b & n) | (m & n)
  {}

  lemma UnsetBit(b: bv8, j: nat, k: nat)
    requires j < 8 && k < 8
    ensures Bit(b & !(1 << j), k) <==> j != k && Bit(b, k)
  {
    MaskIs(j);
    MaskIs(k);
    MasksApart(j, k);
    AndMeets(b, Mask(j), Mask(k));
  }

  lemma AndMeets(b: bv8, m: bv8, n: bv8)
    ensures m & n == 0 ==> b & !m & n == b & n
    ensures m == n ==> b & !m & n == 0
  {}

  lemma FullByte(b: bv8)
    ensures b == 0xff <==> forall j: nat | j < 8 :: Bit(b, j)
  {
    if forall j: nat | j < 8 :: Bit(b, j) {
      assert Bit(b, 0) && Bit(b, 1) && Bit(b, 2) && Bit(b, 3) && Bit(b, 4) && Bit(b, 5) && Bit(b, 6) && Bit(b, 7);
    }
    forall j: nat | b == 0xff && j < 8
      ensures Bit(b, j)
    {
      assert j == 0 || j == 1 || j == 2 || j == 3 || j == 4 || j == 5 || j == 6 || j == 7;
    }
  }

  // ----- The bitmap as a set of free pages -----

  ghost predicate IsClear(bm: seq<bv8>, k: int) {
    0 <= k < 8 * |bm| && !Bit(bm[k / 8], k % 8)
  }

  /** The clear bits of the bitmap are exactly the pages in `free`. */
  ghost predicate Tracks(bm: seq<bv8>, free: set<int>) {
    forall k {:trigger IsClear(bm, k)} :: IsClear(bm, k) <==> k in free
  }

  ghost predicate IsLowest(s: set<int>, p: int) {
    p in s && forall q | q in s :: p <= q
  }

  lemma NoPages(f: set<int>, lo: int)
    ensures f + Range(lo, lo) == f
  {
  }

  lemma PagesOneByOne(f: set<int>, lo: int, i: nat)
    ensures f + Range(lo, lo + i) + {lo + i} == f + Range(lo, lo + i + 1)
  {
    RangeStep(lo, lo + i);
  }

  /** Byte v is byte b with bit j cleared or set. */
  ghost predicate Differs(b: bv8, v: bv8, j: nat, clear: bool)
    requires j < 8
  {
    forall k: nat | k < 8 :: Bit(v, k) <==> if k == j then !clear else Bit(b, k)
  }

  lemma UpdatedByte(bm: seq<bv8>, bit: nat, v: bv8, clear: bool, free: set<int>)
    requires bit < 8 * |bm| && Differs(bm[bit / 8], v, bit % 8, clear) && Tracks(bm, free)
    ensures Tracks(bm[bit / 8 := v], if clear then free + {bit} else free - {bit})
  {
    var after := if clear then free + {bit} else free - {bit};
    forall k
      ensures IsClear(bm[bit / 8 := v], k) <==> k in after
    {
      assert IsClear(bm, k) <==> k in free;
      if 0 <= k < 8 * |bm| && k / 8 == bit / 8 {
        assert Bit(v, k % 8) <==> if k % 8 == bit % 8 then !clear else Bit(bm[bit / 8], k % 8);
      }
    }
  }

  method BitmapSet(bm: array<bv8>, bit: nat, ghost free: set<int>)
    requires bit < 8 * bm.Length && Tracks(bm[..], free)
    modifies bm
    ensures Tracks(bm[..], free - {bit})
  {
    var b := bm[bit / 8];
    forall k: nat | k < 8 { SetBit(b, bit % 8, k); }
    UpdatedByte(bm[..], bit, b | (1 << (bit % 8)), false, free);
    bm[bit / 8] := b | (1 << (bit % 8));
    assert bm[..] == old(bm[..])[bit / 8 := b | (1 << (bit % 8))];
  }

  method BitmapUnset(bm: array<bv8>, bit: nat, ghost free: set<int>)
    requires bit < 8 * bm.Length && Tracks(bm[..], free)
    modifies bm
    ensures Tracks(bm[..], free + {bit})
  {
    var b := bm[bit / 8];
    forall k: nat | k < 8 { UnsetBit(b, bit % 8, k); }
    UpdatedByte(bm[..], bit, b & !(1 << (bit % 8)), true, free);
    bm[bit / 8] := b & !(1 << (bit % 8));
    assert bm[..] == old(bm[..])[bit / 8 := b & !(1 << (bit % 8))];
  }

  /** The lowest clear bit; 0 when every bit is set. */
  method GetFirstUnset(bm: array<bv8>, ghost free: set<int>) returns (r: nat)
    requires Tracks(bm[..], free)
    ensures free != {} ==> IsLowest(free, r) && r < 8 * bm.Length
    ensures free == {} ==> r == 0
  {
    for i := 0 to bm.Length
      invariant forall k | 0 <= k < 8 * i :: !IsClear(bm[..], k)
    {
      FullByte(bm[i]);
      if bm[i] != 0xff {
        for j := 0 to 8
          invariant forall k: nat | k < j :: Bit(bm[i], k)
        {
          if !Bit(bm[i], j) {
            r := i * 8 + j;
            LowestHere(bm[..], i, j, free);
            return;
          }
        }
      }
      ByteFull(bm[..], i);
    }
    NoneClear(bm[..], free);
    return 0;
  }

  lemma NoneClear(bm: seq<bv8>, free: set<int>)
    requires Tracks(bm, free) && forall k | 0 <= k < 8 * |bm| :: !IsClear(bm, k)
    ensures free == {}
  {
    forall k
      ensures k !in free
    {
      assert IsClear(bm, k) <==> k in free;
    }
  }

  lemma LowestHere(bm: seq<bv8>, i: nat, j: nat, free: set<int>)
    requires i < |bm| && j < 8 && !Bit(bm[i], j) && Tracks(bm, free)
    requires forall k | 0 <= k < 8 * i :: !IsClear(bm, k)
    requires forall k: nat | k < j :: Bit(bm[i], k)
    ensures IsLowest(free, 8 * i + j)
  {
    assert (8 * i + j) / 8 == i && (8 * i + j) % 8 == j;
    assert IsClear(bm, 8 * i + j);
    forall q | q in free
      ensures 8 * i + j <= q
    {
      assert IsClear(bm, q) && 8 * i <= q;
      assert q / 8 == i ==> j <= q % 8;
    }
  }

  lemma ByteFull(bm: seq<bv8>, i: nat)
    requires i < |bm| && forall j: nat | j < 8 :: Bit(bm[i], j)
    requires forall k | 0 <= k < 8 * i :: !IsClear(bm, k)
    ensures forall k | 0 <= k < 8 * (i + 1) :: !IsClear(bm, k)
  {
    forall k | 8 * i <= k < 8 * (i + 1)
      ensures !IsClear(bm, k)
    {
      assert k / 8 == i;
    }
  }

  // ----- The boot memory map -----

  /** A memory map entry; kind 1 is usable memory. */
  datatype Region = Region(base: nat, length: nat, kind: nat)

  function FirstPage(e: Region): nat { e.base / PAGE_SIZE }

  function EndPage(e: Region): nat { e.base / PAGE_SIZE + e.length / PAGE_SIZE }

  function TotalLength(es: seq<Region>): nat {
    if es == [] then 0 else TotalLength(es[..|es| - 1]) + es[|es| - 1].length
  }

  /** Length and base of the first usable entry that is longer than all before it; pmm_init puts the bitmap there. */
  function LargestSize(es: seq<Region>): nat {
    if es == [] then 0
    else
      var e, rest := es[|es| - 1], LargestSize(es[..|es| - 1]);
      if e.kind == 1 && e.length > rest then e.length else rest
  }

  function LargestBase(es: seq<Region>): nat {
    if es == [] then 0
    else
      var e := es[|es| - 1];
      if e.kind == 1 && e.length > LargestSize(es[..|es| - 1]) then e.base else LargestBase(es[..|es| - 1])
  }

  ghost function RegionPages(e: Region): set<int> {
    if e.kind == 1 then Range(FirstPage(e), EndPage(e)) else {}
  }

  /** The pages of all usable entries. */
  ghost function UsablePages(es: seq<Region>): set<int> {
    if es == [] then {} else UsablePages(es[..|es| - 1]) + RegionPages(es[|es| - 1])
  }

  /** A page is usable exactly if it lies in a whole page of an entry of type 1. */
  lemma UsablePagesAre(es: seq<Region>, p: int)
    ensures p in UsablePages(es) <==>
            exists i :: 0 <= i < |es| && es[i].kind == 1
                        && es[i].base / 4096 <= p < es[i].base / 4096 + es[i].length / 4096
  {
    UsableFrom(es, p);
    if i :| 0 <= i < |es| && p in RegionPages(es[i]) {
      assert es[i].kind == 1 && es[i].base / 4096 <= p < es[i].base / 4096 + es[i].length / 4096;
    }
    if i :| 0 <= i < |es| && es[i].kind == 1 && es[i].base / 4096 <= p < es[i].base / 4096 + es[i].length / 4096 {
      assert InRange(FirstPage(es[i]), p, EndPage(es[i]));
      assert p in RegionPages(es[i]);
    }
  }

  /** Entries of every type count towards the total. */
  lemma TotalLengthIs(es: seq<Region>, e: Region)
    ensures TotalLength([]) == 0 && TotalLength(es + [e]) == TotalLength(es) + e.length
  {
    assert (es + [e])[..|es|] == es;
  }

  ghost predicate Overlap(e: Region, f: Region) {
    e.kind == 1 && f.kind == 1 && FirstPage(e) < EndPage(f) && FirstPage(f) < EndPage(e)
  }

  /** bitmap_size as pmm_init computes it. */
  function BitmapSize(es: seq<Region>): nat { TotalLength(es) / PAGE_SIZE / 8 + 1 }

  /** Usable entries are page aligned, do not overlap, and their pages have bits in the bitmap. */
  ghost predicate MapOk(es: seq<Region>) {
    && (forall i | 0 <= i < |es| && es[i].kind == 1 ::
          && es[i].base % PAGE_SIZE == 0 && es[i].length % PAGE_SIZE == 0
          && EndPage(es[i]) <= 8 * BitmapSize(es))
    && (forall i, j | 0 <= i < j < |es| :: !Overlap(es[i], es[j]))
  }

  lemma {:induction false} UsableFrom(es: seq<Region>, p: int)
    ensures p in UsablePages(es) <==> exists i :: 0 <= i < |es| && p in RegionPages(es[i])
  {
    if es != [] {
      var n := |es| - 1;
      UsableFrom(es[..n], p);
      if p in UsablePages(es[..n]) {
        var i :| 0 <= i < n && p in RegionPages(es[..n][i]);
        assert es[i] == es[..n][i];
      }
      if i :| 0 <= i < |es| && p in RegionPages(es[i]) {
        if i < n {
          assert es[..n][i] == es[i];
        }
      }
    }
  }

  /** An entry that overlaps none before it brings only new pages. */
  lemma NewPages(es: seq<Region>, n: nat)
    requires n < |es| && forall i, j | 0 <= i < j < |es| :: !Overlap(es[i], es[j])
    ensures UsablePages(es[..n]) !! RegionPages(es[n])
  {
    forall p | p in UsablePages(es[..n])
      ensures p !in RegionPages(es[n])
    {
      UsableFrom(es[..n], p);
      var i :| 0 <= i < n && p in RegionPages(es[..n][i]);
      assert es[..n][i] == es[i] && !Overlap(es[i], es[n]);
    }
  }

  /** A region has no more pages than its length holds. */
  lemma RegionFits(e: Region)
    ensures PAGE_SIZE * |RegionPages(e)| <= e.length
  {
    if e.kind == 1 {
      RangeSize(FirstPage(e), EndPage(e));
    }
  }

  lemma {:induction false} UsableBelowTotal(es: seq<Region>, n: nat)
    requires MapOk(es) && n <= |es|
    ensures PAGE_SIZE * |UsablePages(es[..n])| <= TotalLength(es[..n])
  {
    if n > 0 {
      UsableBelowTotal(es, n - 1);
      UsableNext(es, n - 1);
      TotalNext(es, n - 1);
      RegionFits(es[n - 1]);
    }
  }

  lemma TotalNext(es: seq<Region>, n: nat)
    requires n < |es|
    ensures TotalLength(es[..n + 1]) == TotalLength(es[..n]) + es[n].length
  {
    assert es[..n + 1][..n] == es[..n];
  }

  lemma UsableNext(es: seq<Region>, n: nat)
    requires MapOk(es) && n < |es|
    ensures UsablePages(es[..n + 1]) == UsablePages(es[..n]) + RegionPages(es[n])
    ensures UsablePages(es[..n]) !! RegionPages(es[n])
    ensures |UsablePages(es[..n + 1])| == |UsablePages(es[..n])| + |RegionPages(es[n])|
  {
    assert es[..n + 1][..n] == es[..n];
    NewPages(es, n);
  }

  lemma UsableHaveBits(es: seq<Region>)
    requires MapOk(es)
    ensures forall p | p in UsablePages(es) :: 0 <= p < 8 * BitmapSize(es)
  {
    forall p | p in UsablePages(es)
      ensures 0 <= p < 8 * BitmapSize(es)
    {
      UsableFrom(es, p);
    }
  }

  // ----- Where the bitmap lies -----

  /** Entry i is usable, no usable entry is longer, and every one before it is shorter. */
  ghost predicate FirstLargest(es: seq<Region>, i: int) {
    && 0 <= i < |es| && es[i].kind == 1
    && (forall j | 0 <= j < |es| && es[j].kind == 1 :: es[j].length <= es[i].length)
    && (forall j | 0 <= j < i && es[j].kind == 1 :: es[j].length < es[i].length)
  }

  /** The largest segment is the first of the longest usable entries. */
  lemma {:induction false} LargestIs(es: seq<Region>)
    ensures forall i | 0 <= i < |es| && es[i].kind == 1 :: es[i].length <= LargestSize(es)
    ensures LargestSize(es) > 0 ==>
              exists i :: FirstLargest(es, i) && es[i].base == LargestBase(es) && es[i].length == LargestSize(es)
    ensures LargestSize(es) == 0 ==> LargestBase(es) == 0
  {
    if es != [] {
      var n := |es| - 1;
      LargestIs(es[..n]);
      forall i | 0 <= i < |es| && es[i].kind == 1
        ensures es[i].length <= LargestSize(es)
      {
        assert i < n ==> es[..n][i] == es[i];
      }
      if es[n].kind != 1 || es[n].length <= LargestSize(es[..n]) {
        if LargestSize(es) > 0 {
          var i :| FirstLargest(es[..n], i) && es[..n][i].base == LargestBase(es)
                   && es[..n][i].length == LargestSize(es);
          assert es[i] == es[..n][i];
          assert forall j | 0 <= j < n :: es[..n][j] == es[j];
          assert FirstLargest(es, i);
        }
      } else {
        assert forall j | 0 <= j < n :: es[..n][j] == es[j];
        assert FirstLargest(es, n);
      }
    }
  }

  /**
   The separation of the bitmap from the pages it tracks is not what the code
   provides: the page at the bitmap's base is offered for allocation if and
   only if the largest usable entry has a page at all and that is not page 0,
   and so is every other page of that entry.
   */
  lemma BitmapIsOffered(es: seq<Region>)
    ensures LargestBase(es) / PAGE_SIZE in UsablePages(es) - {0}
       <==> LargestSize(es) >= PAGE_SIZE && LargestBase(es) / PAGE_SIZE != 0
    ensures var first := LargestBase(es) / PAGE_SIZE;
            forall p | InRange(first, p, first + LargestSize(es) / PAGE_SIZE) :: p in UsablePages(es)
  {
    LargestIs(es);
    var first, count := LargestBase(es) / PAGE_SIZE, LargestSize(es) / PAGE_SIZE;
    forall p | InRange(first, p, first + count)
      ensures p in UsablePages(es)
    {
      SegmentOffered(es, p);
    }
    if LargestSize(es) < PAGE_SIZE {
      NothingOffered(es, first);
    } else {
      assert InRange(first, first, first + count);
    }
  }

  lemma SegmentOffered(es: seq<Region>, p: int)
    requires InRange(LargestBase(es) / PAGE_SIZE, p, LargestBase(es) / PAGE_SIZE + LargestSize(es) / PAGE_SIZE)
    ensures p in UsablePages(es)
  {
    LargestIs(es);
    var i :| FirstLargest(es, i) && es[i].base == LargestBase(es) && es[i].length == LargestSize(es);
    assert p in RegionPages(es[i]);
    UsableFrom(es, p);
  }

  lemma NothingOffered(es: seq<Region>, p: int)
    requires LargestSize(es) < PAGE_SIZE
    ensures p !in UsablePages(es)
  {
    LargestIs(es);
    UsableFrom(es, p);
  }

  // ----- The allocator -----

  class Allocator {
    var bitmap: array<bv8>
    var usedpages: int
    var totalpages: int
    /** The physical address pmm_init gives the bitmap. */
    var bitmapAt: int
    /** Pages whose bit is clear. */
    ghost var free: set<int>
    /** Pages the memory map offers, page 0 excluded. */
    ghost var usable: set<int>
    /** 1 if page 0 was not usable, else 0: the count of pages that are never handed out. */
    ghost var spare: int

    ghost predicate Valid()
      reads this, bitmap
    {
      && Tracks(bitmap[..], free)
      && 0 !in usable && free <= usable && (forall p | p in usable :: 0 <= p < 8 * bitmap.Length)
      && (spare == 0 || spare == 1) && |usable| <= totalpages + spare
      && usedpages == totalpages + spare - |free|
    }

    constructor Blank(bytes: nat, pages: nat, at: int)
      ensures fresh(bitmap) && bitmap.Length == bytes && totalpages == usedpages == pages && bitmapAt == at
    {
      bitmap := new bv8[bytes];
      totalpages, usedpages, bitmapAt := pages, pages, at;
    }

    /** pmm_allocpage: the lowest free page, or NULL once all but the spare page are used. */
    method AllocPage() returns (addr: int)
      requires Valid()
      modifies this`usedpages, this`free, bitmap
      ensures Valid()
      ensures old(usedpages >= totalpages) <==> old(|free| <= spare)
      ensures old(|free| <= spare) ==> addr == 0 && free == old(free) && usedpages == old(usedpages)
      ensures old(|free| > spare) ==>
                && addr > 0 && addr % PAGE_SIZE == 0 && IsLowest(old(free), addr / PAGE_SIZE)
                && free == old(free) - {addr / PAGE_SIZE} && usedpages == old(usedpages) + 1
    {
      if usedpages >= totalpages {
        return 0;
      }
      assert |free| > 0;
      var index := GetFirstUnset(bitmap, free);
      BitmapSet(bitmap, index, free);
      OneLess(free, index);
      free := free - {index};
      usedpages := usedpages + 1;
      addr := index * PAGE_SIZE;
    }

    /** pmm_freepage, for a page in use that the memory map offers. */
    method FreePage(addr: nat)
      requires Valid() && addr / PAGE_SIZE in usable && addr / PAGE_SIZE !in free
      modifies this`usedpages, this`free, bitmap
      ensures Valid() && free == old(free) + {addr / PAGE_SIZE} && 0 <= usedpages == old(usedpages) - 1
    {
      var index := addr / PAGE_SIZE;
      FreeBelow(free, usable, index);
      BitmapUnset(bitmap, index, free);
      free := free + {index};
      usedpages := usedpages - 1;
    }
  }

  lemma OneLess(free: set<int>, p: int)
    requires p in free
    ensures |free - {p}| == |free| - 1
  {}

  lemma FreeBelow(free: set<int>, usable: set<int>, p: int)
    requires free <= usable && p in usable && p !in free
    ensures |free| < |usable|
  {
    assert usable == free + {p} + (usable - free - {p});
  }

  /**
   pmm_init.  The outcome is None when the code hangs on its size test, which
   compares the bitmap with the last entry of the map.
   */
  method Init(es: seq<Region>) returns (pmm: Allocator?)
    requires es != [] && MapOk(es)
    ensures pmm == null <==> TotalLength(es) / 4096 >= 8 * es[|es| - 1].length
    ensures pmm != null ==>
              && fresh(pmm) && fresh(pmm.bitmap) && pmm.Valid()
              && pmm.free == pmm.usable == UsablePages(es) - {0}
              && pmm.spare == (if 0 in UsablePages(es) then 0 else 1)
              && pmm.totalpages == TotalLength(es) / 4096 && pmm.bitmapAt == LargestBase(es)
              && 8 * (pmm.bitmap.Length - 1) <= pmm.totalpages < 8 * pmm.bitmap.Length
  {
    var totalmem, base := ScanMap(es);
    var totalpages := totalmem / PAGE_SIZE;
    var size := totalpages / 8 + 1;
    if size > es[|es| - 1].length {
      return null;
    }
    pmm := new Allocator.Blank(size, totalpages, base);
    FillBitmap(pmm);
    OfferPages(pmm, es);
    ReserveNull(pmm, es);
  }

  /** The first loop of pmm_init: total memory and the largest usable segment. */
  method ScanMap(es: seq<Region>) returns (totalmem: nat, base: nat)
    ensures totalmem == TotalLength(es) && base == LargestBase(es)
  {
    var largest := 0;
    totalmem, base := 0, 0;
    for i := 0 to |es|
      invariant totalmem == TotalLength(es[..i]) && base == LargestBase(es[..i]) && largest == LargestSize(es[..i])
    {
      totalmem := totalmem + es[i].length;
      assert es[..i + 1][..i] == es[..i];
      if es[i].kind == 1 && es[i].length > largest {
        base, largest := es[i].base, es[i].length;
      }
    }
    assert es[..|es|] == es;
  }

  /** The end of pmm_init: page 0 is never handed out. */
  method ReserveNull(pmm: Allocator, es: seq<Region>)
    requires MapOk(es) && pmm.bitmap.Length == BitmapSize(es)
    requires pmm.free == UsablePages(es) && Tracks(pmm.bitmap[..], pmm.free)
    requires pmm.totalpages == TotalLength(es) / PAGE_SIZE && pmm.usedpages == pmm.totalpages - |UsablePages(es)|
    modifies pmm`usedpages, pmm`free, pmm`usable, pmm`spare, pmm.bitmap
    ensures pmm.Valid() && pmm.free == pmm.usable == UsablePages(es) - {0}
    ensures pmm.spare == (if 0 in UsablePages(es) then 0 else 1)
  {
    ghost var all := UsablePages(es);
    UsableCount(es);
    UsableHaveBits(es);
    WithoutNull(all);
    BitmapSet(pmm.bitmap, 0, all);
    pmm.free := all - {0};
    pmm.usedpages := pmm.usedpages + 1;
    pmm.usable := all - {0};
    pmm.spare := if 0 in all then 0 else 1;
  }

  lemma UsableCount(es: seq<Region>)
    requires MapOk(es)
    ensures |UsablePages(es)| <= TotalLength(es) / PAGE_SIZE
  {
    UsableBelowTotal(es, |es|);
    assert es[..|es|] == es;
  }

  lemma WithoutNull(pages: set<int>)
    ensures |pages - {0}| == |pages| - (if 0 in pages then 1 else 0)
  {
    assert pages == (pages - {0}) + (if 0 in pages then {0} else {});
  }

  /** Set every bit of the bitmap. */
  method FillBitmap(pmm: Allocator)
    modifies pmm.bitmap, pmm`free
    ensures pmm.free == {} && Tracks(pmm.bitmap[..], pmm.free)
  {
    for i := 0 to pmm.bitmap.Length
      invariant forall k | 0 <= k < i :: pmm.bitmap[k] == 0xff
    {
      pmm.bitmap[i] := 0xff;
    }
    FullByte(0xff);
    pmm.free := {};
  }

  /** Clear the bit of every usable page and count it as unused. */
  method OfferPages(pmm: Allocator, es: seq<Region>)
    requires MapOk(es) && pmm.bitmap.Length == BitmapSize(es) && pmm.free == {} && Tracks(pmm.bitmap[..], {})
    modifies pmm`usedpages, pmm`free, pmm.bitmap
    ensures pmm.free == UsablePages(es) && Tracks(pmm.bitmap[..], pmm.free)
    ensures pmm.usedpages == old(pmm.usedpages) - |UsablePages(es)|
  {
    for i := 0 to |es|
      invariant pmm.free == UsablePages(es[..i]) && Tracks(pmm.bitmap[..], pmm.free)
      invariant pmm.usedpages == old(pmm.usedpages) - |UsablePages(es[..i])|
    {
      UsableNext(es, i);
      if es[i].kind == 1 {
        OfferRegion(pmm, es[i]);
      }
    }
    assert es[..|es|] == es;
  }

  /** Clear one bit and count its page as unused. */
  method OfferPage(pmm: Allocator, page: nat)
    requires page < 8 * pmm.bitmap.Length && Tracks(pmm.bitmap[..], pmm.free)
    modifies pmm`usedpages, pmm`free, pmm.bitmap
    ensures Tracks(pmm.bitmap[..], pmm.free) && pmm.free == old(pmm.free) + {page}
    ensures pmm.usedpages == old(pmm.usedpages) - 1
  {
    BitmapUnset(pmm.bitmap, page, pmm.free);
    pmm.free := pmm.free + {page};
    pmm.usedpages := pmm.usedpages - 1;
  }

  /** The inner loop of pmm_init, for one usable entry. */
  method OfferRegion(pmm: Allocator, e: Region)
    requires e.kind == 1 && EndPage(e) <= 8 * pmm.bitmap.Length && pmm.free !! RegionPages(e)
    requires Tracks(pmm.bitmap[..], pmm.free)
    modifies pmm`usedpages, pmm`free, pmm.bitmap
    ensures pmm.free == old(pmm.free) + RegionPages(e) && Tracks(pmm.bitmap[..], pmm.free)
    ensures pmm.usedpages == old(pmm.usedpages) - |RegionPages(e)|
  {
    var pages, align := e.length / PAGE_SIZE, e.base / PAGE_SIZE;
    RangeSize(align, align + pages);
    OfferRange(pmm, align, pages);
  }

  method OfferRange(pmm: Allocator, first: nat, pages: nat)
    requires first + pages <= 8 * pmm.bitmap.Length && Tracks(pmm.bitmap[..], pmm.free)
    modifies pmm`usedpages, pmm`free, pmm.bitmap
    ensures pmm.free == old(pmm.free) + Range(first, first + pages) && Tracks(pmm.bitmap[..], pmm.free)
    ensures pmm.usedpages == old(pmm.usedpages) - pages
  {
    var align := first;
    ghost var was := pmm.free;
    NoPages(was, first);
    for j := 0 to pages
      invariant align == first + j
      invariant pmm.free == was + Range(first, first + j) && Tracks(pmm.bitmap[..], pmm.free)
      invariant pmm.usedpages == old(pmm.usedpages) - j
    {
      PagesOneByOne(was, first, j);
      OfferPage(pmm, align);
      align := align + 1;
    }
  }
}
