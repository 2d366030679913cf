/**
 The shape of printed numbers: digits against a plain positional reader, and
 fields as spaces, sign, zeros and digits.
 */
module RoundTrip {
  import opened Words
  import opened PrintfSpec

  // ----- The reference reader -----

  function DigitValue(c: char): nat {
    if '0' <= c <= '9' then c as int - '0' as int
    else if 'a' <= c <= 'f' then c as int - 'a' as int + 10
    else if 'A' <= c <= 'F' then c as int - 'A' as int + 10
    else 0
  }

  /** A text as a number in positional notation, most significant digit first. */
  function Read(s: string, base: nat): nat {
    if s == [] then 0 else Read(s[..|s| - 1], base) * base + DigitValue(s[|s| - 1])
  }

  lemma ReadAppend(s: string, c: char, base: nat)
    ensures Read(s + [c], base) == Read(s, base) * base + DigitValue(c)
  {
    assert (s + [c])[..|s|] == s;
  }

  // ----- Digits -----

  lemma DigitCharValue(d: nat, upper: bool)
    requires d < 16
    ensures DigitValue(DigitChar(d, upper)) == d
    ensures d < 10 ==> IsDigit(DigitChar(d, upper))
  {}

  lemma {:induction false} ReverseLast(s: string, c: char)
    ensures Reverse([c] + s) == Reverse(s) + [c]
  {
    var t := [c] + s;
    if s != [] {
      assert t[..|t| - 1] == [c] + s[..|s| - 1];
      ReverseLast(s[..|s| - 1], c);
    }
  }

  /** u is the remainder of v by m. */
  predicate IsMod(v: nat, m: nat, u: nat) { m > 0 && v % m == u }

  lemma ModStep(v: nat, b: nat, m: nat, u: nat)
    requires b > 0 && IsMod(Quotient(v, b), m, u)
    ensures IsMod(v, b * m, u * b + Remainder(v, b))
  {
    DivisionIs(v, b);
    var q, r := Quotient(v, b), Remainder(v, b);
    assert v == b * q + r;
    ModCompose(v, b, m, q, r, u);
  }

  lemma ModCompose(v: nat, b: nat, m: nat, q: nat, r: nat, u: nat)
    requires v == b * q + r && r < b && IsMod(q, m, u)
    ensures IsMod(v, b * m, u * b + r)
  {
    var x := q / m;
    assert q == m * x + u;
    ModParts(v, b, m, q, r, x, u);
    DivisionUnique(v, b * m, x, b * u + r);
  }

  lemma ModParts(v: nat, b: nat, m: nat, q: nat, r: nat, x: nat, y: nat)
    requires v == b * q + r && q == m * x + y && r < b && y < m
    ensures v == b * m * x + (b * y + r) && b * y + r < b * m
  {
    assert b * q == b * (m * x) + b * y;
    assert b * (m - y) >= b by { MultipleIsLarge(b, m - y); }
    assert b * (m - y) == b * m - b * y;
  }

  /** Below the base there is one digit. */
  lemma QuotientZero(v: nat, b: nat)
    requires b > 0
    ensures Quotient(v, b) == 0 <==> v < b
    ensures Quotient(v, b) == 0 ==> Remainder(v, b) == v
  {}

  /** The digits of a value read back as the value modulo base^room. */
  lemma {:induction false} DigitsRead(v: nat, base: nat, upper: bool, room: nat)
    requires 2 <= base <= 16 && room > 0
    ensures IsMod(v, Pow(base, room), Read(Reverse(Digits(v, base, upper, room)), base))
    decreases room
  {
    var q, r := Quotient(v, base), Remainder(v, base);
    var rest := if q != 0 && room > 1 then Digits(q, base, upper, room - 1) else [];
    if q != 0 && room > 1 {
      DigitsRead(q, base, upper, room - 1);
    } else {
      NothingLeft(q, base, room - 1);
    }
    ModStep(v, base, Pow(base, room - 1), Read(Reverse(rest), base));
    DigitRead(r, base, upper, rest);
  }

  lemma NothingLeft(q: nat, base: nat, room: nat)
    requires base > 0 && (q == 0 || room == 0)
    ensures IsMod(q, Pow(base, room), 0)
  {
    PowPositive(base, room);
  }

  lemma DigitRead(r: nat, base: nat, upper: bool, rest: string)
    requires r < 16
    ensures Read(Reverse([DigitChar(r, upper)] + rest), base) == Read(Reverse(rest), base) * base + r
  {
    DigitCharValue(r, upper);
    ReverseLast(rest, DigitChar(r, upper));
    ReadAppend(Reverse(rest), DigitChar(r, upper), base);
  }

  /** How many digits there are. */
  lemma {:induction false} DigitsCount(v: nat, base: nat, upper: bool, room: nat, n: nat)
    requires 2 <= base <= 16 && 0 < n < room
    ensures |Digits(v, base, upper, room)| <= n <==> v < Pow(base, n)
    decreases room
  {
    var q := Quotient(v, base);
    QuotientZero(v, base);
    PowPositive(base, n - 1);
    QuotientBelow(v, base, Pow(base, n - 1));
    if n > 1 && q != 0 {
      DigitsCount(q, base, upper, room - 1, n - 1);
    } else if n == 1 {
      assert Pow(base, n) == base;
    }
  }

  lemma QuotientBelow(v: nat, b: nat, m: nat)
    requires b > 0
    ensures Quotient(v, b) < m <==> v < b * m
  {
    DivisionIs(v, b);
    var q, r := v / b, v % b;
    if q < m {
      MultipleIsLarge(b, m - q);
      assert b * (m - q) == b * m - b * q;
    } else {
      assert b * (q - m) == b * q - b * m;
      assert b * (q - m) >= 0;
    }
  }

  // ----- The shape of a printed number -----

  function Max(x: int, y: int): int { if x < y then y else x }
  function Min(x: int, y: int): int { if x < y then x else y }

  function Sign(negative: bool, fl: Flags): (r: string)
    ensures |r| <= 1
  {
    if negative then "-" else if fl.plus then "+" else if fl.space then " " else ""
  }

  /** The zeros put in front of n digits. */
  function Zeros(n: nat, negative: bool, prec: nat, width: nat, fl: Flags): nat {
    var goal := if fl.left then 0 else if fl.zeropad then Max(prec, PadWidth(negative, width, fl)) else prec;
    Max(0, Min(goal, BUFFER_SIZE) - n)
  }

  /** Zeros and digits of a value, most significant first. */
  function Body(value: nat, negative: bool, base: nat, prec: nat, width: nat, fl: Flags): string
    requires 2 <= base <= 16
  {
    var digits := ValueDigits(value, base, fl);
    Repeat('0', Zeros(|digits|, negative, prec, width, fl)) + Reverse(digits)
  }

  /** The sign that is shown: a full digit buffer has no place for one. */
  function ShownSign(body: string, negative: bool, fl: Flags): (r: string)
    ensures |r| <= 1
  {
    if |body| < BUFFER_SIZE then Sign(negative, fl) else ""
  }

  /** Sign and body between the spaces that fill the width. */
  function Spaced(core: string, width: nat, fl: Flags): string {
    var gap := Max(0, width - |core|);
    Repeat(' ', if fl.left || fl.zeropad then 0 else gap) + core + Repeat(' ', if fl.left then gap else 0)
  }

  lemma RepeatJoin(c: char, m: int, n: int)
    requires m >= 0 && n >= 0
    ensures Repeat(c, m) + Repeat(c, n) == Repeat(c, m + n)
  {}

  lemma ReverseSnoc(s: string, c: char)
    ensures Reverse(s + [c]) == [c] + Reverse(s)
  {
    assert (s + [c])[..|s|] == s;
  }

  lemma {:induction false} ReverseRepeat(s: string, c: char, n: nat)
    ensures Reverse(s + Repeat(c, n)) == Repeat(c, n) + Reverse(s)
  {
    if n == 0 {
      assert s + Repeat(c, n) == s;
    } else {
      var t := s + Repeat(c, n - 1);
      calc {
        Reverse(s + Repeat(c, n));
        { assert s + Repeat(c, n) == t + [c]; }
        Reverse(t + [c]);
        { ReverseSnoc(t, c); }
        [c] + Reverse(t);
        { ReverseRepeat(s, c, n - 1); }
        [c] + (Repeat(c, n - 1) + Reverse(s));
        { assert [c] + Repeat(c, n - 1) == Repeat(c, n); }
        Repeat(c, n) + Reverse(s);
      }
    }
  }

  lemma PaddedIs(buf: string, negative: bool, prec: nat, width: nat, fl: Flags)
    requires |buf| <= BUFFER_SIZE
    ensures Padded(buf, negative, prec, width, fl) == buf + Repeat('0', Zeros(|buf|, negative, prec, width, fl))
  {
    if !fl.left && fl.zeropad {
      var once := Grow(buf, prec);
      RepeatJoin('0', |once| - |buf|, Max(0, Min(PadWidth(negative, width, fl), BUFFER_SIZE) - |once|));
    }
  }

  /** Without '#', a number is its padded digits and a sign in reverse. */
  lemma NumberIs(value: nat, negative: bool, base: nat, prec: nat, width: nat, fl: Flags)
    requires 2 <= base <= 16 && !fl.hash
    ensures var buf := Padded(ValueDigits(value, base, fl), negative, prec, width, fl);
            NumberText(value, negative, base, prec, width, fl)
            == RevText(Signed(buf, negative, fl), PadWidth(negative, width, fl), fl)
  {
    assert fl.(hash := false) == fl;
  }

  lemma BodyIs(value: nat, negative: bool, base: nat, prec: nat, width: nat, fl: Flags)
    requires 2 <= base <= 16
    ensures var buf := Padded(ValueDigits(value, base, fl), negative, prec, width, fl);
            |buf| <= BUFFER_SIZE && Reverse(buf) == Body(value, negative, base, prec, width, fl)
  {
    var digits := ValueDigits(value, base, fl);
    PaddedIs(digits, negative, prec, width, fl);
    ReverseRepeat(digits, '0', Zeros(|digits|, negative, prec, width, fl));
  }

  lemma SignedReversed(buf: string, negative: bool, fl: Flags)
    requires |buf| <= BUFFER_SIZE
    ensures Reverse(Signed(buf, negative, fl)) == ShownSign(Reverse(buf), negative, fl) + Reverse(buf)
  {
    SignedIs(buf, negative, fl);
    ReverseShort(buf, ShownSign(buf, negative, fl));
  }

  lemma SignedIs(buf: string, negative: bool, fl: Flags)
    ensures Signed(buf, negative, fl) == buf + ShownSign(buf, negative, fl)
  {}

  lemma ReverseShort(s: string, t: string)
    requires |t| <= 1
    ensures Reverse(s + t) == t + Reverse(s)
  {
    if |t| == 1 {
      assert t == [t[0]];
      ReverseSnoc(s, t[0]);
    } else {
      assert s + t == s;
    }
  }

  /** A field is spaces, a sign, the zeros and digits, and spaces. */
  lemma FieldShape(value: nat, negative: bool, base: nat, prec: nat, width: nat, fl: Flags)
    requires 2 <= base <= 16 && !fl.hash
    ensures var body := Body(value, negative, base, prec, width, fl);
            NumberText(value, negative, base, prec, width, fl)
            == Spaced(ShownSign(body, negative, fl) + body, PadWidth(negative, width, fl), fl)
  {
    var buf := Padded(ValueDigits(value, base, fl), negative, prec, width, fl);
    NumberIs(value, negative, base, prec, width, fl);
    BodyIs(value, negative, base, prec, width, fl);
    SignedReversed(buf, negative, fl);
    RevShape(Signed(buf, negative, fl), PadWidth(negative, width, fl), fl);
  }

  lemma RevShape(buf: string, width: nat, fl: Flags)
    ensures RevText(buf, width, fl) == Spaced(Reverse(buf), width, fl)
  {}

  /** Without precision or width beyond the buffer, a field is exactly as long as asked for or as it must be. */
  lemma FieldLength(value: nat, negative: bool, base: nat, prec: nat, width: nat, fl: Flags)
    requires 2 <= base <= 16 && !fl.hash && prec <= 31 && width <= 32
    requires |ValueDigits(value, base, fl)| < BUFFER_SIZE || Sign(negative, fl) == ""
    ensures var n := |ValueDigits(value, base, fl)|;
            |NumberText(value, negative, base, prec, width, fl)|
            == Max(width, |Sign(negative, fl)| + n + Zeros(n, negative, prec, width, fl))
  {
    FieldShape(value, negative, base, prec, width, fl);
  }
}
