/**
 Printed fields read back: integer fields against a reader of fields, with
 their length, and string fields.
 */
module ReadBack {
  import opened Words
  import opened PrintfSpec
  import opened RoundTrip

  // ----- A reader of fields -----

  function TrimFront(s: string): string { if s != [] && s[0] == ' ' then TrimFront(s[1..]) else s }

  function TrimEnd(s: string): string { if s != [] && s[|s| - 1] == ' ' then TrimEnd(s[..|s| - 1]) else s }

  function Negated(minus: bool, n: int): int { if minus then -n else n }

  predicate IsSign(c: char) { c == '-' || c == '+' }

  /** A sign, if there is one, and digits. */
  function ReadSigned(s: string, base: nat): int {
    if s != [] && IsSign(s[0]) then Negated(s[0] == '-', Read(s[1..], base)) else Read(s, base)
  }

  /** The number in a field: spaces around it do not count. */
  function ReadField(s: string, base: nat): int { ReadSigned(TrimEnd(TrimFront(s)), base) }

  lemma {:induction false} TrimFrontSpaces(n: nat, s: string)
    ensures TrimFront(Repeat(' ', n) + s) == TrimFront(s)
  {
    var t := Repeat(' ', n) + s;
    if n > 0 {
      assert t[1..] == Repeat(' ', n - 1) + s;
      TrimFrontSpaces(n - 1, s);
    } else {
      assert t == s;
    }
  }

  lemma {:induction false} TrimEndSpaces(n: nat, s: string)
    ensures TrimEnd(s + Repeat(' ', n)) == TrimEnd(s)
  {
    var t := s + Repeat(' ', n);
    if n > 0 {
      assert t[..|t| - 1] == s + Repeat(' ', n - 1);
      TrimEndSpaces(n - 1, s);
    } else {
      assert t == s;
    }
  }

  /** No space at either end. */
  predicate Trimmed(s: string) { s == [] || (s[0] != ' ' && s[|s| - 1] != ' ') }

  lemma TrimSpaces(n: nat, s: string, m: nat)
    requires Trimmed(s)
    ensures TrimEnd(TrimFront(Repeat(' ', n) + s + Repeat(' ', m))) == s
  {
    assert Repeat(' ', n) + s + Repeat(' ', m) == Repeat(' ', n) + (s + Repeat(' ', m));
    TrimFrontSpaces(n, s + Repeat(' ', m));
    if s == [] {
      assert s + Repeat(' ', m) == Repeat(' ', m) + [];
      TrimFrontSpaces(m, []);
    } else {
      assert TrimFront(s + Repeat(' ', m)) == s + Repeat(' ', m);
      TrimEndSpaces(m, s);
    }
  }

  // ----- Numerals -----

  predicate IsNumeral(c: char) { IsDigit(c) || 'a' <= c <= 'f' || 'A' <= c <= 'F' }

  predicate Numerals(s: string) { forall i | 0 <= i < |s| :: IsNumeral(s[i]) }

  predicate Decimals(s: string) { forall i | 0 <= i < |s| :: IsDigit(s[i]) }

  lemma {:induction false} DigitsNumerals(v: nat, base: nat, upper: bool, room: nat)
    requires 2 <= base <= 16 && room > 0
    ensures Numerals(Digits(v, base, upper, room))
    ensures base <= 10 ==> Decimals(Digits(v, base, upper, room))
    decreases room
  {
    var q := Quotient(v, base);
    if q != 0 && room > 1 {
      DigitsNumerals(q, base, upper, room - 1);
    }
  }

  lemma {:induction false} ReverseAt(s: string, i: nat)
    requires i < |s|
    ensures Reverse(s)[i] == s[|s| - 1 - i]
  {
    if i > 0 {
      ReverseAt(s[..|s| - 1], i - 1);
    }
  }

  lemma ReverseKeeps(s: string)
    ensures Numerals(s) ==> Numerals(Reverse(s))
    ensures Decimals(s) ==> Decimals(Reverse(s))
  {
    forall i | 0 <= i < |s| ensures Reverse(s)[i] == s[|s| - 1 - i] {
      ReverseAt(s, i);
    }
  }

  lemma BodyNumerals(value: nat, negative: bool, base: nat, prec: nat, width: nat, fl: Flags)
    requires 2 <= base <= 16
    ensures Numerals(Body(value, negative, base, prec, width, fl))
    ensures base <= 10 ==> Decimals(Body(value, negative, base, prec, width, fl))
  {
    var digits := ValueDigits(value, base, fl);
    DigitsNumerals(value, base, fl.uppercase, BUFFER_SIZE);
    ReverseKeeps(digits);
  }

  // ----- What a field reads as -----

  lemma {:induction false} ReadZeros(n: nat, base: nat)
    ensures Read(Repeat('0', n), base) == 0
  {
    if n > 0 {
      ReadZeros(n - 1, base);
      AppendZero(Repeat('0', n - 1), base);
    }
  }

  lemma AppendZero(s: string, base: nat)
    requires Read(s, base) == 0
    ensures Read(s + ['0'], base) == 0
  {
    ReadAppend(s, '0', base);
    var x := Read(s, base);
    assert x * base == 0;
  }

  lemma {:induction false} LeadingZeros(n: nat, s: string, base: nat)
    ensures Read(Repeat('0', n) + s, base) == Read(s, base)
    decreases |s|
  {
    if s == [] {
      assert Repeat('0', n) + s == Repeat('0', n);
      ReadZeros(n, base);
    } else {
      var t := s[..|s| - 1];
      LeadingZeros(n, t, base);
      assert Repeat('0', n) + s == Repeat('0', n) + t + [s[|s| - 1]];
      ReadAppend(Repeat('0', n) + t, s[|s| - 1], base);
    }
  }

  /** Zeros and digits read as the value, as far as 32 digits go. */
  lemma BodyRead(value: nat, negative: bool, base: nat, prec: nat, width: nat, fl: Flags)
    requires 2 <= base <= 16
    ensures IsMod(value, Pow(base, BUFFER_SIZE), Read(Body(value, negative, base, prec, width, fl), base))
  {
    var digits := ValueDigits(value, base, fl);
    if digits == [] {
      NothingLeft(value, base, BUFFER_SIZE);
    } else {
      DigitsRead(value, base, fl.uppercase, BUFFER_SIZE);
    }
    LeadingZeros(Zeros(|digits|, negative, prec, width, fl), Reverse(digits), base);
  }

  /** A field reads as its shown sign and its zeros and digits. */
  lemma FieldReads(value: nat, negative: bool, base: nat, prec: nat, width: nat, fl: Flags)
    requires 2 <= base <= 16 && !fl.hash
    ensures var body := Body(value, negative, base, prec, width, fl);
            ReadField(NumberText(value, negative, base, prec, width, fl), base)
            == Negated(negative && |body| < BUFFER_SIZE, Read(body, base))
  {
    var body := Body(value, negative, base, prec, width, fl);
    var sign := ShownSign(body, negative, fl);
    FieldShape(value, negative, base, prec, width, fl);
    BodyNumerals(value, negative, base, prec, width, fl);
    ShownSignOk(body, negative, fl);
    SpacedReads(sign, body, PadWidth(negative, width, fl), fl, base);
  }

  predicate SignOk(sign: string) { |sign| <= 1 && (sign != [] ==> IsSign(sign[0]) || sign[0] == ' ') }

  predicate IsMinus(sign: string) { |sign| == 1 && sign[0] == '-' }

  lemma ShownSignOk(body: string, negative: bool, fl: Flags)
    ensures SignOk(ShownSign(body, negative, fl))
    ensures IsMinus(ShownSign(body, negative, fl)) <==> negative && |body| < BUFFER_SIZE
  {}

  lemma SpacedReads(sign: string, body: string, width: nat, fl: Flags, base: nat)
    requires Numerals(body) && SignOk(sign)
    ensures ReadField(Spaced(sign + body, width, fl), base) == Negated(IsMinus(sign), Read(body, base))
  {
    var gap := Max(0, width - |sign + body|);
    var n, m := if fl.left || fl.zeropad then 0 else gap, if fl.left then gap else 0;
    if sign == [] {
      assert sign + body == body;
      SpacesRead(n, body, m, base);
    } else {
      assert sign == [sign[0]];
      SignReads(n, sign[0], body, m, base);
    }
  }

  lemma SpacesRead(n: nat, body: string, m: nat, base: nat)
    requires Numerals(body)
    ensures ReadField(Repeat(' ', n) + body + Repeat(' ', m), base) == Read(body, base)
  {
    TrimSpaces(n, body, m);
  }

  lemma SignReads(n: nat, sign: char, body: string, m: nat, base: nat)
    requires Numerals(body) && (IsSign(sign) || sign == ' ')
    ensures ReadField(Repeat(' ', n) + ([sign] + body) + Repeat(' ', m), base) == Negated(sign == '-', Read(body, base))
  {
    if sign == ' ' {
      assert Repeat(' ', n) + ([sign] + body) == Repeat(' ', n + 1) + body;
      SpacesRead(n + 1, body, m, base);
    } else {
      var core := [sign] + body;
      assert core[1..] == body && Trimmed(core);
      TrimSpaces(n, core, m);
    }
  }

  // ----- Integer conversions -----

  /** 32 digits hold every 64-bit value in the bases 8, 10 and 16, with room to spare; in base 2 they hold 32 bits. */
  lemma Capacity(base: nat)
    requires base == 2 || base == 8 || base == 10 || base == 16
    ensures base == 2 ==> Pow(base, BUFFER_SIZE) == TWO32
    ensures base != 2 ==> Pow(base, BUFFER_SIZE) > TWO64 && Pow(base, 22) > TWO64
  {
    if base == 2 {
      BinaryCapacity();
    } else {
      OctalCapacity();
      PowMonotone(8, base, 22);
      PowAdd(base, 22, 10);
      PowPositive(base, 10);
      MultipleIsLarge(Pow(base, 22), Pow(base, 10));
    }
  }

  lemma BinaryCapacity()
    ensures Pow(2, 32) == TWO32
  {
    assert Pow(2, 8) == 0x100;
    PowAdd(2, 8, 8);
    PowAdd(2, 16, 16);
  }

  lemma OctalCapacity()
    ensures Pow(8, 22) > TWO64
  {
    assert Pow(8, 11) == 0x2_0000_0000;
    PowAdd(8, 11, 11);
  }

  lemma FewDigits(value: nat, base: nat, fl: Flags)
    requires value < TWO64 && (base == 8 || base == 10 || base == 16)
    ensures |ValueDigits(value, base, fl)| <= 22
  {
    Capacity(base);
    DigitsCount(value, base, fl.uppercase, BUFFER_SIZE, 22);
  }

  /** Unsigned conversions read back as their argument; %b as its low 32 bits. */
  lemma UnsignedRoundTrip(c: char, v: int, prec: nat, width: nat, fl: Flags)
    requires IsInteger(c) && !IsSigned(c) && !IntegerFlags(c, fl).hash
    ensures ReadField(IntegerText(c, v, prec, width, fl), BaseOf(c))
         == if c == 'b' then U32(UnsignedArg(v, fl)) else UnsignedArg(v, fl)
  {
    var f := IntegerFlags(c, fl);
    var value := UnsignedArg(v, f);
    FieldReads(value, false, BaseOf(c), prec, width, f);
    BodyRead(value, false, BaseOf(c), prec, width, f);
    Capacity(BaseOf(c));
    ModIs(value, Pow(BaseOf(c), BUFFER_SIZE), Read(Body(value, false, BaseOf(c), prec, width, f), BaseOf(c)));
  }

  lemma ModIs(v: nat, m: nat, u: nat)
    requires IsMod(v, m, u) && v < TWO64
    ensures m == TWO32 ==> u == U32(v)
    ensures m > TWO64 ==> u == v
  {}

  /** The least value of the argument's type; its negation overflows. */
  predicate IsMinimum(value: int, fl: Flags) {
    value == if fl.isLong || fl.isLongLong then -(TWO64 / 2) else -(TWO32 / 2)
  }

  lemma MagnitudeIs(v: int, fl: Flags)
    requires !IsMinimum(SignedArg(v, fl), fl)
    ensures var value := SignedArg(v, fl);
            Magnitude(value, fl) == if value < 0 then -value else value
  {}

  /** A minus sign has a place in the buffer. */
  predicate SignFits(prec: nat, width: nat, fl: Flags) { fl.left || (prec <= 31 && (fl.zeropad ==> width <= 32)) }

  /**
   Signed conversions read back as their argument, except exactly when it is
   negative and the precision or the zero padding fills the digit buffer.
   */
  lemma SignedRoundTrip(c: char, v: int, prec: nat, width: nat, fl: Flags)
    requires IsSigned(c) && !IsMinimum(SignedArg(v, fl), fl)
    ensures ReadField(IntegerText(c, v, prec, width, fl), 10) == SignedArg(v, fl)
        <==> SignedArg(v, fl) >= 0 || SignFits(prec, width, IntegerFlags(c, fl))
  {
    var f := IntegerFlags(c, fl);
    var value := SignedArg(v, f);
    SameArg(c, v, fl);
    SignedText(c, v, prec, width, fl, f, value);
    MagnitudeIs(v, f);
    DecimalReads(Magnitude(value, f), value < 0, prec, width, f);
    SignMatters(value, Magnitude(value, f), SignFits(prec, width, f));
  }

  lemma SignedText(c: char, v: int, prec: nat, width: nat, fl: Flags, f: Flags, value: int)
    requires IsSigned(c) && f == IntegerFlags(c, fl) && value == SignedArg(v, f)
    ensures IntegerText(c, v, prec, width, fl) == NumberText(Magnitude(value, f), value < 0, 10, prec, width, f)
    ensures !f.hash
  {}

  lemma SignMatters(value: int, m: int, fits: bool)
    requires m == if value < 0 then -value else value
    ensures Negated(value < 0 && fits, m) == value <==> value >= 0 || fits
  {}

  /** Only the length modifiers decide how an argument is read, and an integer conversion keeps them. */
  lemma SameArg(c: char, v: int, fl: Flags)
    ensures SignedArg(v, IntegerFlags(c, fl)) == SignedArg(v, fl)
    ensures UnsignedArg(v, IntegerFlags(c, fl)) == UnsignedArg(v, fl)
    ensures IsMinimum(SignedArg(v, fl), IntegerFlags(c, fl)) == IsMinimum(SignedArg(v, fl), fl)
  {}

  lemma DecimalReads(m: nat, negative: bool, prec: nat, width: nat, fl: Flags)
    requires m < TWO64 && !fl.hash
    ensures ReadField(NumberText(m, negative, 10, prec, width, fl), 10)
         == Negated(negative && SignFits(prec, width, fl), m)
  {
    FieldReads(m, negative, 10, prec, width, fl);
    BodyRead(m, negative, 10, prec, width, fl);
    Capacity(10);
    ModIs(m, Pow(10, BUFFER_SIZE), Read(Body(m, negative, 10, prec, width, fl), 10));
    FewDigits(m, 10, fl);
    if negative {
      MinusFits(m, prec, width, fl);
    }
  }

  lemma MinusFits(m: nat, prec: nat, width: nat, fl: Flags)
    requires |ValueDigits(m, 10, fl)| <= 22
    ensures |Body(m, true, 10, prec, width, fl)| < BUFFER_SIZE <==> SignFits(prec, width, fl)
  {}

  /** -1 with a precision of 32 fills the buffer with its zeros and prints as 1. */
  lemma MinusDropped()
    ensures var f := NO_FLAGS.(precision := true);
            ReadField(IntegerText('d', -1, 32, 0, f), 10) == 1 && SignedArg(-1, f) == -1
  {
    var f := NO_FLAGS.(precision := true);
    assert IntegerFlags('d', f) == f;
    assert SignedArg(-1, f) == -1 && Magnitude(-1, f) == 1;
    DecimalReads(1, true, 32, 0, f);
  }

  /** The length of an integer field: the width, or what sign, zeros and digits take. */
  lemma IntegerLength(c: char, v: int, prec: nat, width: nat, fl: Flags)
    requires IsInteger(c) && !IntegerFlags(c, fl).hash && prec <= 31 && width <= 32
    ensures var f := IntegerFlags(c, fl);
            var negative := IsSigned(c) && SignedArg(v, f) < 0;
            var value := if IsSigned(c) then Magnitude(SignedArg(v, f), f) else UnsignedArg(v, f);
            var n := |ValueDigits(value, BaseOf(c), f)|;
            |IntegerText(c, v, prec, width, fl)|
            == Max(width, |Sign(negative, f)| + n + Zeros(n, negative, prec, width, f))
  {
    var f := IntegerFlags(c, fl);
    var negative := IsSigned(c) && SignedArg(v, f) < 0;
    var value := if IsSigned(c) then Magnitude(SignedArg(v, f), f) else UnsignedArg(v, f);
    if IsSigned(c) {
      FewDigits(value, 10, f);
    }
    FieldLength(value, negative, BaseOf(c), prec, width, f);
  }

  // ----- Strings -----

  /** _strnlen_s counts the characters before the first NUL, up to the limit (a negative one is none). */
  lemma {:induction false} StrLenIs(s: string, limit: int)
    ensures var n := StrLen(s, limit);
            && (forall i | 0 <= i < n :: s[i] != '\0')
            && (n < |s| ==> s[n] == '\0' || n == limit)
    decreases |s|
  {
    if s != [] && s[0] != '\0' && limit != 0 {
      StrLenIs(s[1..], limit - 1);
      var n := StrLen(s, limit);
      assert forall i | 0 < i < |s| :: s[i] == s[1..][i - 1];
    }
  }

  /** A string field shows the string up to its NUL and the precision, and is as long as that or the width. */
  lemma StringField(s: string, prec: nat, width: nat, fl: Flags)
    requires |s| < TWO32 && (fl.precision || prec == 0)
    ensures var shown := s[..StrLen(s, if fl.precision then prec else -1)];
            && StringText(s, prec, width, fl) == Aligned(shown, |shown|, width, fl.left)
            && |StringText(s, prec, width, fl)| == Max(width, |shown|)
            && '\0' !in shown
  {
    StrLenIs(s, if fl.precision then prec else -1);
  }
}
