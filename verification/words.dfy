/** Machine words as unbounded integers with explicit truncation. */
module Words {
  const TWO32: int := 0x1_0000_0000
  const TWO64: int := 0x1_0000_0000_0000_0000

  /** Conversion to `unsigned int`. */
  function U32(x: int): (r: int)
    ensures 0 <= r < TWO32
    ensures 0 <= x < TWO32 ==> r == x
  {
    x % TWO32
  }

  /** Conversion to a 64-bit unsigned integer. */
  function U64(x: int): (r: int)
    ensures 0 <= r < TWO64
    ensures 0 <= x < TWO64 ==> r == x
  {
    x % TWO64
  }

  /** Two's complement reading of the low 32 bits. */
  function I32(x: int): (r: int)
    ensures -(TWO32 / 2) <= r < TWO32 / 2
    ensures -(TWO32 / 2) <= x < TWO32 / 2 ==> r == x
  {
    var u := U32(x);
    if u < TWO32 / 2 then u else u - TWO32
  }

  /** Multiples of 2^32 and 2^64 do not show after truncation. */
  lemma U32Shift(x: int, k: int)
    ensures U32(x + k * TWO32) == U32(x)
  {
    var q, r := x / TWO32, x % TWO32;
    assert x + k * TWO32 == (q + k) * TWO32 + r;
  }

  lemma U64Shift(x: int, k: int)
    ensures U64(x + k * TWO64) == U64(x)
  {
    var q, r := x / TWO64, x % TWO64;
    assert x + k * TWO64 == (q + k) * TWO64 + r;
  }

  lemma SplitAround<T>(s: seq<T>, i: nat)
    requires i < |s|
    ensures s[..i] + [s[i]] + s[i + 1..] == s
  {
  }

  lemma UpdateAround<T>(s: seq<T>, i: nat, x: T)
    requires i < |s|
    ensures s[..i] + [x] + s[i + 1..] == s[i := x]
  {
  }

  // ----- Ranges -----

  ghost predicate InRange(lo: int, x: int, hi: int) { lo <= x < hi }

  ghost function Range(lo: int, hi: int): set<int> { set x | lo <= x < hi && InRange(lo, x, hi) }

  lemma RangeStep(lo: int, hi: int)
    requires lo <= hi
    ensures Range(lo, hi + 1) == Range(lo, hi) + {hi} && hi !in Range(lo, hi)
  {
    assert forall x | x in Range(lo, hi + 1) :: x == hi || InRange(lo, x, hi);
    assert forall x | x in Range(lo, hi) :: InRange(lo, x, hi + 1);
    assert InRange(lo, hi, hi + 1);
  }

  lemma {:induction false} RangeSize(lo: int, hi: int)
    requires lo <= hi
    ensures |Range(lo, hi)| == hi - lo
    decreases hi - lo
  {
    if lo < hi {
      RangeSize(lo, hi - 1);
      RangeStep(lo, hi - 1);
    } else {
      assert Range(lo, hi) == {};
    }
  }

  // ----- Powers -----

  function Pow(b: nat, n: nat): nat { if n == 0 then 1 else b * Pow(b, n - 1) }

  lemma {:induction false} PowPositive(b: nat, n: nat)
    requires b > 0
    ensures Pow(b, n) > 0
  {
    if n > 0 {
      PowPositive(b, n - 1);
      MultipleIsLarge(b, Pow(b, n - 1));
    }
  }

  lemma MultipleIsLarge(b: nat, d: int)
    ensures d >= 1 ==> b * d >= b
  {}

  lemma Associate(a: int, b: int, c: int)
    ensures a * (b * c) == a * b * c
  {}

  lemma ProductMonotone(a: nat, b: nat, x: nat, y: nat)
    requires a <= b && x <= y
    ensures a * x <= b * y
  {
    var d, e := b - a, y - x;
    assert b * y == a * x + a * e + d * y by {
      assert b * y == a * y + d * y;
      assert a * y == a * x + a * e;
    }
    assert a * e >= 0 && d * y >= 0;
  }

  lemma {:induction false} PowAdd(b: nat, m: nat, n: nat)
    ensures Pow(b, m + n) == Pow(b, m) * Pow(b, n)
  {
    if m > 0 {
      PowAdd(b, m - 1, n);
      Associate(b, Pow(b, m - 1), Pow(b, n));
    }
  }

  lemma {:induction false} PowMonotone(b: nat, c: nat, n: nat)
    requires b <= c
    ensures Pow(b, n) <= Pow(c, n)
  {
    if n > 0 {
      PowMonotone(b, c, n - 1);
      ProductMonotone(b, c, Pow(b, n - 1), Pow(c, n - 1));
    }
  }
}
