/**
 The text of every directive, laid out literally: which value an argument
 stands for, its digits, and where sign, zeros and spaces go.
 */
module Layouts {
  import opened Words
  import opened PrintfSpec
  import opened RoundTrip
  import opened ReadBack
  import opened Directives

  // ----- The value an argument stands for -----

  /** r is congruent to v modulo the modulus of the length, and in the range of its signed or unsigned type. */
  predicate ArgValue(l: Length, signed: bool, v: int, r: int) {
    match l
    case Char => v % 0x100 == r % 0x100 && (if signed then -0x80 <= r < 0x80 else 0 <= r < 0x100)
    case Short => v % 0x1_0000 == r % 0x1_0000 && (if signed then -0x8000 <= r < 0x8000 else 0 <= r < 0x1_0000)
    case Plain =>
      && v % 0x1_0000_0000 == r % 0x1_0000_0000
      && (if signed then -0x8000_0000 <= r < 0x8000_0000 else 0 <= r < 0x1_0000_0000)
    case _ =>
      && v % 0x1_0000_0000_0000_0000 == r % 0x1_0000_0000_0000_0000
      && (if signed then -0x8000_0000_0000_0000 <= r < 0x8000_0000_0000_0000 else 0 <= r < 0x1_0000_0000_0000_0000)
  }

  /** There is only one such value. */
  lemma ArgValueUnique(l: Length, signed: bool, v: int, r: int, r': int)
    requires ArgValue(l, signed, v, r) && ArgValue(l, signed, v, r')
    ensures r == r'
  {
    match l
    case Char => SameResidue(r, r', 0x100);
    case Short => SameResidue(r, r', 0x1_0000);
    case Plain => SameResidue(r, r', 0x1_0000_0000);
    case _ => SameResidue(r, r', 0x1_0000_0000_0000_0000);
  }

  lemma SameResidue(r: int, r': int, m: int)
    requires m > 0 && r % m == r' % m && -m < r - r' < m
    ensures r == r'
  {
    var q, q' := r / m, r' / m;
    assert r - r' == m * q - m * q';
    assert m * q - m * q' == m * (q - q');
    MultipleIsLarge(m, q - q');
    MultipleIsLarge(m, q' - q);
    assert m * (q' - q) == -(m * (q - q'));
  }

  lemma SignedArgIs(s: Spec, star: int, v: int)
    ensures ArgValue(s.length, true, v, SignedArg(v, FlagsOf(s, star)))
  {
    match s.length
    case Char => assert SignedArg(v, FlagsOf(s, star)) == Wrap(v, 0x100);
    case Short => assert SignedArg(v, FlagsOf(s, star)) == Wrap(v, 0x1_0000);
    case Plain => assert SignedArg(v, FlagsOf(s, star)) == I32(v);
    case _ => assert SignedArg(v, FlagsOf(s, star)) == Wrap(v, TWO64);
  }

  lemma UnsignedArgIs(s: Spec, star: int, v: int)
    ensures ArgValue(s.length, false, v, UnsignedArg(v, FlagsOf(s, star)))
  {
    match s.length
    case Char => assert UnsignedArg(v, FlagsOf(s, star)) == v % 0x100;
    case Short => assert UnsignedArg(v, FlagsOf(s, star)) == v % 0x1_0000;
    case Plain => assert UnsignedArg(v, FlagsOf(s, star)) == U32(v);
    case _ => assert UnsignedArg(v, FlagsOf(s, star)) == U64(v);
  }

  /** The argument is the least int or long, whose negation overflows. */
  predicate IsLeast(l: Length, v: int) {
    match l
    case Char => false
    case Short => false
    case Plain => (v + 0x8000_0000) % 0x1_0000_0000 == 0
    case _ => (v + 0x8000_0000_0000_0000) % 0x1_0000_0000_0000_0000 == 0
  }

  lemma LeastIs(s: Spec, star: int, v: int)
    ensures IsMinimum(SignedArg(v, FlagsOf(s, star)), FlagsOf(s, star)) <==> IsLeast(s.length, v)
  {
    match s.length
    case Char => assert SignedArg(v, FlagsOf(s, star)) == Wrap(v, 0x100);
    case Short => assert SignedArg(v, FlagsOf(s, star)) == Wrap(v, 0x1_0000);
    case Plain => LeastInt(v);
    case _ => LeastLong(v);
  }

  lemma LeastInt(v: int)
    ensures I32(v) == -0x8000_0000 <==> (v + 0x8000_0000) % 0x1_0000_0000 == 0
  {}

  lemma LeastLong(v: int)
    ensures Wrap(v, TWO64) == -0x8000_0000_0000_0000 <==> (v + 0x8000_0000_0000_0000) % 0x1_0000_0000_0000_0000 == 0
  {}

  // ----- Digits -----

  /** One digit of the base, letters in the one case only. */
  predicate DigitOf(c: char, base: nat, upper: bool) {
    ('0' <= c <= '9' || (if upper then 'A' <= c <= 'F' else 'a' <= c <= 'f')) && DigitValue(c) < base
  }

  predicate DigitsOf(s: string, base: nat, upper: bool) { forall i | 0 <= i < |s| :: DigitOf(s[i], base, upper) }

  /**
   The digits of m, most significant first and without leading zeros; a zero
   may have none.  In base 2 they are those of the low 32 bits.
   */
  predicate NumeralOf(digits: string, m: nat, base: nat, upper: bool, empty: bool) {
    && DigitsOf(digits, base, upper)
    && |digits| <= (if base == 2 then 32 else 22)
    && Read(digits, base) == (if base == 2 then m % 0x1_0000_0000 else m)
    && (m == 0 ==> digits == if empty then "" else "0")
    && (m > 0 ==> digits != "" && if base == 2 && m >= 0x1_0000_0000 then |digits| == 32 else digits[0] != '0')
  }

  lemma {:induction false} DigitsAre(v: nat, base: nat, upper: bool, room: nat)
    requires 2 <= base <= 16 && room > 0
    ensures DigitsOf(Digits(v, base, upper, room), base, upper)
    decreases room
  {
    var q := Quotient(v, base);
    if q != 0 && room > 1 {
      DigitsAre(q, base, upper, room - 1);
    }
  }

  lemma {:induction false} DigitsLead(v: nat, base: nat, upper: bool, room: nat)
    requires 2 <= base <= 16 && room > 0 && 0 < v < Pow(base, room)
    ensures var ds := Digits(v, base, upper, room); ds[|ds| - 1] != '0'
    decreases room
  {
    var q := Quotient(v, base);
    QuotientZero(v, base);
    QuotientBelow(v, base, Pow(base, room - 1));
    if q != 0 {
      DigitsLead(q, base, upper, room - 1);
    }
  }

  lemma DigitsReversed(s: string, base: nat, upper: bool)
    requires DigitsOf(s, base, upper)
    ensures DigitsOf(Reverse(s), base, upper)
  {
    forall i | 0 <= i < |s|
      ensures DigitOf(Reverse(s)[i], base, upper)
    {
      ReverseAt(s, i);
    }
  }

  lemma ZeroDigits(base: nat, upper: bool)
    requires 2 <= base <= 16
    ensures Digits(0, base, upper, BUFFER_SIZE) == "0" && Reverse("0") == "0"
  {}

  lemma NumeralIs(m: nat, base: nat, fl: Flags)
    requires m < TWO64 && (base == 2 || base == 8 || base == 10 || base == 16)
    ensures NumeralOf(Reverse(ValueDigits(m, base, fl)), m, base, fl.uppercase, fl.precision)
  {
    if m == 0 {
      ZeroDigits(base, fl.uppercase);
    } else {
      var ds := Digits(m, base, fl.uppercase, BUFFER_SIZE);
      DigitsAre(m, base, fl.uppercase, BUFFER_SIZE);
      DigitsReversed(ds, base, fl.uppercase);
      NumeralLength(m, base, fl);
      NumeralReads(m, base, fl.uppercase);
      NumeralLeads(m, base, fl.uppercase);
    }
  }

  lemma NumeralLength(m: nat, base: nat, fl: Flags)
    requires m < TWO64 && (base == 2 || base == 8 || base == 10 || base == 16)
    ensures |ValueDigits(m, base, fl)| <= if base == 2 then 32 else 22
  {
    if base != 2 {
      FewDigits(m, base, fl);
    }
  }

  lemma NumeralReads(m: nat, base: nat, upper: bool)
    requires m < TWO64 && (base == 2 || base == 8 || base == 10 || base == 16)
    ensures Read(Reverse(Digits(m, base, upper, BUFFER_SIZE)), base) == if base == 2 then m % 0x1_0000_0000 else m
  {
    Capacity(base);
    DigitsRead(m, base, upper, BUFFER_SIZE);
    ModIs(m, Pow(base, BUFFER_SIZE), Read(Reverse(Digits(m, base, upper, BUFFER_SIZE)), base));
  }

  lemma NumeralLeads(m: nat, base: nat, upper: bool)
    requires 0 < m < TWO64 && (base == 2 || base == 8 || base == 10 || base == 16)
    ensures var digits := Reverse(Digits(m, base, upper, BUFFER_SIZE));
            digits != "" && if base == 2 && m >= 0x1_0000_0000 then |digits| == 32 else digits[0] != '0'
  {
    Capacity(base);
    ReverseAt(Digits(m, base, upper, BUFFER_SIZE), 0);
    if base == 2 && m >= TWO32 {
      BinaryFull(m, upper);
    } else {
      DigitsLead(m, base, upper, BUFFER_SIZE);
    }
  }

  lemma BinaryFull(m: nat, upper: bool)
    requires m >= TWO32
    ensures |Digits(m, 2, upper, BUFFER_SIZE)| == 32
  {
    BinaryCapacity();
    DigitsCount(m, 2, upper, BUFFER_SIZE, 31);
  }

  // ----- Numbers -----

  function SignText(negative: bool, plus: bool, space: bool): string {
    if negative then "-" else if plus then "+" else if space then " " else ""
  }

  /**
   A number between spaces.  Zeros fill it up to the precision, and with zero
   padding to the width less the sign, but never beyond 32 characters; a sign
   is only shown if these are fewer.  With '-' there are no zeros at all.
   */
  function Laid(left: bool, zeropad: bool, sign: string, digits: string, prec: nat, width: nat): string {
    var goal := if left then 0 else if zeropad then Max(prec, width - |sign|) else prec;
    var zeros := Max(0, Min(goal, 32) - |digits|);
    var shown := if zeros + |digits| < 32 then sign else "";
    SpacesAround(left, zeropad, shown + Repeat('0', zeros) + digits, width)
  }

  /** Spaces behind for '-', in front without it, none with zero padding. */
  function SpacesAround(left: bool, zeropad: bool, core: string, width: nat): string {
    if left then core + Repeat(' ', width - |core|)
    else if zeropad then core else Repeat(' ', width - |core|) + core
  }

  lemma NumberLaid(m: nat, negative: bool, base: nat, prec: nat, width: nat, fl: Flags)
    requires 2 <= base <= 16 && !fl.hash
    ensures NumberText(m, negative, base, prec, width, fl)
         == Laid(fl.left, fl.zeropad, SignText(negative, fl.plus, fl.space), Reverse(ValueDigits(m, base, fl)), prec,
                 width)
  {
    var digits := Reverse(ValueDigits(m, base, fl));
    FieldShape(m, negative, base, prec, width, fl);
    BodyLaid(m, negative, base, prec, width, fl);
    SpacedLaid(Body(m, negative, base, prec, width, fl), digits, negative, prec, width, fl);
  }

  lemma BodyLaid(m: nat, negative: bool, base: nat, prec: nat, width: nat, fl: Flags)
    requires 2 <= base <= 16
    ensures var digits := Reverse(ValueDigits(m, base, fl));
            Body(m, negative, base, prec, width, fl)
            == Repeat('0', Zeros(|digits|, negative, prec, width, fl)) + digits
  {}

  lemma SpacedLaid(body: string, digits: string, negative: bool, prec: nat, width: nat, fl: Flags)
    requires body == Repeat('0', Zeros(|digits|, negative, prec, width, fl)) + digits
    ensures Spaced(ShownSign(body, negative, fl) + body, PadWidth(negative, width, fl), fl)
         == Laid(fl.left, fl.zeropad, SignText(negative, fl.plus, fl.space), digits, prec, width)
  {
    var sign := SignText(negative, fl.plus, fl.space);
    var zeros := Zeros(|digits|, negative, prec, width, fl);
    var shown := if zeros + |digits| < 32 then sign else "";
    ZerosAre(|digits|, negative, prec, width, fl, |sign|);
    SpacesAre(ShownSign(body, negative, fl) + body, negative, width, fl);
    assert ShownSign(body, negative, fl) == shown;
    LaidIs(fl.left, fl.zeropad, sign, digits, prec, width, zeros, shown, shown + body);
  }

  /** Laid, with its parts named. */
  lemma LaidIs(left: bool, zeropad: bool, sign: string, digits: string, prec: nat, width: nat, zeros: nat,
               shown: string, core: string)
    requires zeros
          == Max(0, Min(if left then 0 else if zeropad then Max(prec, width - |sign|) else prec, 32) - |digits|)
    requires shown == if zeros + |digits| < 32 then sign else ""
    requires core == shown + (Repeat('0', zeros) + digits)
    ensures Laid(left, zeropad, sign, digits, prec, width) == SpacesAround(left, zeropad, core, width)
  {
    assert shown + (Repeat('0', zeros) + digits) == shown + Repeat('0', zeros) + digits;
  }

  lemma ZerosAre(n: nat, negative: bool, prec: nat, width: nat, fl: Flags, sign: nat)
    requires sign == |SignText(negative, fl.plus, fl.space)|
    ensures Zeros(n, negative, prec, width, fl)
         == Max(0, Min(if fl.left then 0 else if fl.zeropad then Max(prec, width - sign) else prec, 32) - n)
  {}

  lemma SpacesAre(core: string, negative: bool, width: nat, fl: Flags)
    ensures Spaced(core, PadWidth(negative, width, fl), fl) == SpacesAround(fl.left, fl.zeropad, core, width)
  {
    GapIs(core, PadWidth(negative, width, fl), fl);
  }

  lemma GapIs(core: string, width: nat, fl: Flags)
    ensures Spaced(core, width, fl) == SpacesAround(fl.left, fl.zeropad, core, width)
  {}

  // ----- Integer directives -----

  function Abs(x: int): nat { if x < 0 then -x else x }

  /** An integer conversion as a number: its magnitude with a sign. */
  lemma IntegerNumber(c: char, v: int, prec: nat, width: nat, fl: Flags, r: int)
    requires IsInteger(c) && r == if IsSigned(c) then SignedArg(v, fl) else UnsignedArg(v, fl)
    requires IsSigned(c) ==> !IsMinimum(r, fl)
    ensures IntegerText(c, v, prec, width, fl)
         == NumberText(Abs(r), r < 0, BaseOf(c), prec, width, IntegerFlags(c, fl))
    ensures Abs(r) < TWO64
  {
    var f := IntegerFlags(c, fl);
    SameArg(c, v, fl);
    if IsSigned(c) {
      SignedText(c, v, prec, width, fl, f, r);
      MagnitudeIs(v, f);
    }
  }

  lemma IntegerFlagsAre(s: Spec, star: int, f: Flags)
    requires f == IntegerFlags(s.c, FlagsOf(s, star))
    ensures f.left == ('-' in s.flags || star < 0)
    ensures f.zeropad == ('0' in s.flags && s.precision.NoPrecision?)
    ensures f.plus == ('+' in s.flags && (s.c == 'd' || s.c == 'i'))
    ensures f.space == (' ' in s.flags && (s.c == 'd' || s.c == 'i'))
    ensures f.uppercase == (s.c == 'X') && f.precision == !s.precision.NoPrecision?
    ensures BaseOf(s.c) == Radix(s.c)
    ensures f.hash <==> '#' in s.flags && (s.c == 'x' || s.c == 'X' || s.c == 'o' || s.c == 'b')
  {}

  function Radix(c: char): nat {
    match c
    case 'x' => 16
    case 'X' => 16
    case 'o' => 8
    case 'b' => 2
    case _ => 10
  }

  /** '-' or a negative star. */
  predicate ToTheLeft(s: Spec, args: seq<Arg>, a: nat)
    requires ArgsFit(s, args, a)
  {
    '-' in s.flags || (s.width.StarWidth? && I32(args[a].v) < 0)
  }

  /** Every integer directive without '#': its value, its digits and the whole of its text. */
  lemma IntegerLayout(s: Spec, args: seq<Arg>, a: nat) returns (r: int, digits: string)
    requires WellWritten(s) && ArgsFit(s, args, a) && s.c in ['d', 'i', 'u', 'x', 'X', 'o', 'b']
    requires '#' in s.flags ==> s.c in ['d', 'i', 'u']
    requires s.c in ['d', 'i'] ==> !IsLeast(s.length, args[a + Stars(s)].v)
    ensures ArgValue(s.length, s.c in ['d', 'i'], args[a + Stars(s)].v, r)
    ensures NumeralOf(digits, Abs(r), Radix(s.c), s.c == 'X', !s.precision.NoPrecision?)
    ensures var signed := s.c in ['d', 'i'];
            var sign := SignText(r < 0, signed && '+' in s.flags, signed && ' ' in s.flags);
            Shown(s, args, a) == Laid(ToTheLeft(s, args, a), '0' in s.flags && s.precision.NoPrecision?, sign, digits,
                                      PrecisionValue(s, args, a), WidthValue(s, args, a))
  {
    var star, v := StarValue(s, args, a), args[a + Stars(s)].v;
    var fl := FlagsOf(s, star);
    var f := IntegerFlags(s.c, fl);
    var prec, width := PrecisionValue(s, args, a), WidthValue(s, args, a);
    r := ArgRead(s, star, v);
    IntegerFlagsAre(s, star, f);
    IntegerNumber(s.c, v, prec, width, fl, r);
    digits := Reverse(ValueDigits(Abs(r), Radix(s.c), f));
    NumeralIs(Abs(r), Radix(s.c), f);
    NumberLaid(Abs(r), r < 0, Radix(s.c), prec, width, f);
    ShownInteger(s, args, a, prec, width, fl);
  }

  lemma ArgRead(s: Spec, star: int, v: int) returns (r: int)
    requires IsSigned(s.c) ==> !IsLeast(s.length, v)
    ensures var fl := FlagsOf(s, star);
            && r == (if IsSigned(s.c) then SignedArg(v, fl) else UnsignedArg(v, fl))
            && (IsSigned(s.c) ==> !IsMinimum(r, fl))
    ensures ArgValue(s.length, IsSigned(s.c), v, r)
  {
    var fl := FlagsOf(s, star);
    r := if IsSigned(s.c) then SignedArg(v, fl) else UnsignedArg(v, fl);
    SignedArgIs(s, star, v);
    UnsignedArgIs(s, star, v);
    LeastIs(s, star, v);
  }

  lemma ShownInteger(s: Spec, args: seq<Arg>, a: nat, prec: nat, width: nat, fl: Flags)
    requires WellWritten(s) && ArgsFit(s, args, a) && IsInteger(s.c)
    requires prec == PrecisionValue(s, args, a) && width == WidthValue(s, args, a)
    requires fl == FlagsOf(s, StarValue(s, args, a))
    ensures Shown(s, args, a) == IntegerText(s.c, args[a + Stars(s)].v, prec, width, fl)
  {
    assert args[a + Stars(s)].Int?;
    OfInteger(s.c, args[a + Stars(s)], prec, width, fl);
  }

  /** What the specifier makes of each kind of argument. */
  lemma OfInteger(c: char, arg: Arg, prec: nat, width: nat, fl: Flags)
    requires arg.Int? && IsInteger(c)
    ensures ShownArg(c, arg, prec, width, fl) == IntegerText(c, arg.v, prec, width, fl)
  {}

  lemma OfPointer(arg: Arg, prec: nat, width: nat, fl: Flags)
    requires arg.Int?
    ensures ShownArg('p', arg, prec, width, fl) == PointerText(arg.v, prec, fl)
  {}

  lemma OfString(arg: Arg, prec: nat, width: nat, fl: Flags)
    requires arg.Str?
    ensures ShownArg('s', arg, prec, width, fl) == StringText(arg.s, prec, width, fl)
  {}

  /** Signed directives read back as their value, exactly if it is not negative or the sign has room. */
  lemma SignedReads(s: Spec, args: seq<Arg>, a: nat) returns (r: int)
    requires WellWritten(s) && ArgsFit(s, args, a) && s.c in ['d', 'i']
    requires !IsLeast(s.length, args[a + Stars(s)].v)
    ensures ArgValue(s.length, true, args[a + Stars(s)].v, r)
    ensures ReadField(Shown(s, args, a), 10) == r
        <==> r >= 0 || ToTheLeft(s, args, a)
             || (PrecisionValue(s, args, a) <= 31
                 && ('0' in s.flags && s.precision.NoPrecision? ==> WidthValue(s, args, a) <= 32))
  {
    var star, v := StarValue(s, args, a), args[a + Stars(s)].v;
    var fl := FlagsOf(s, star);
    var prec, width := PrecisionValue(s, args, a), WidthValue(s, args, a);
    r := ArgRead(s, star, v);
    SignedRoundTrip(s.c, v, prec, width, fl);
    ShownInteger(s, args, a, prec, width, fl);
    IntegerFlagsAre(s, star, IntegerFlags(s.c, fl));
  }

  /** Unsigned directives without '#' read back as their value in their base, in base 2 as its low 32 bits. */
  lemma UnsignedReads(s: Spec, args: seq<Arg>, a: nat) returns (r: int)
    requires WellWritten(s) && ArgsFit(s, args, a) && s.c in ['u', 'x', 'X', 'o', 'b']
    requires '#' in s.flags ==> s.c == 'u'
    ensures ArgValue(s.length, false, args[a + Stars(s)].v, r)
    ensures ReadField(Shown(s, args, a), Radix(s.c)) == if s.c == 'b' then r % 0x1_0000_0000 else r
  {
    var star, v := StarValue(s, args, a), args[a + Stars(s)].v;
    var fl := FlagsOf(s, star);
    var prec, width := PrecisionValue(s, args, a), WidthValue(s, args, a);
    r := ArgRead(s, star, v);
    IntegerFlagsAre(s, star, IntegerFlags(s.c, fl));
    UnsignedRoundTrip(s.c, v, prec, width, fl);
    ShownInteger(s, args, a, prec, width, fl);
  }

  // ----- Characters, strings and pointers -----

  /** The low 8 bits as a character, at the right end of the width or, with '-', at the left. */
  lemma CharLayout(s: Spec, args: seq<Arg>, a: nat)
    requires WellWritten(s) && ArgsFit(s, args, a) && s.c == 'c'
    ensures var ch := (args[a + Stars(s)].v % 256) as char;
            var spaces := Repeat(' ', WidthValue(s, args, a) - 1);
            Shown(s, args, a) == if ToTheLeft(s, args, a) then [ch] + spaces else spaces + [ch]
  {
    assert FlagsOf(s, StarValue(s, args, a)).left == ToTheLeft(s, args, a);
  }

  /** The string up to its NUL or the precision, whichever comes first, likewise aligned. */
  lemma StringLayout(s: Spec, args: seq<Arg>, a: nat) returns (n: nat)
    requires WellWritten(s) && ArgsFit(s, args, a) && s.c == 's' && |args[a + Stars(s)].s| < TWO32
    ensures var t, prec := args[a + Stars(s)].s, PrecisionValue(s, args, a);
            && n <= |t| && (forall i | 0 <= i < n :: t[i] != '\0')
            && (!s.precision.NoPrecision? ==> n <= prec)
            && (n < |t| ==> t[n] == '\0' || (!s.precision.NoPrecision? && n == prec))
    ensures var shown := args[a + Stars(s)].s[..n];
            var spaces := Repeat(' ', WidthValue(s, args, a) - n);
            Shown(s, args, a) == if ToTheLeft(s, args, a) then shown + spaces else spaces + shown
  {
    var t, fl := args[a + Stars(s)].s, FlagsOf(s, StarValue(s, args, a));
    var prec, width := PrecisionValue(s, args, a), WidthValue(s, args, a);
    ShownString(s, args, a, prec, width, fl);
    StringFlags(s, args, a, prec, fl);
    n := StringLaid(t, prec, width, fl);
  }

  lemma ShownString(s: Spec, args: seq<Arg>, a: nat, prec: nat, width: nat, fl: Flags)
    requires ArgsFit(s, args, a) && s.c == 's'
    requires prec == PrecisionValue(s, args, a) && width == WidthValue(s, args, a)
    requires fl == FlagsOf(s, StarValue(s, args, a))
    ensures Shown(s, args, a) == StringText(args[a + Stars(s)].s, prec, width, fl)
  {
    assert args[a + Stars(s)].Str?;
    OfString(args[a + Stars(s)], prec, width, fl);
  }

  lemma StringFlags(s: Spec, args: seq<Arg>, a: nat, prec: nat, fl: Flags)
    requires ArgsFit(s, args, a)
    requires prec == PrecisionValue(s, args, a) && fl == FlagsOf(s, StarValue(s, args, a))
    ensures fl.left == ToTheLeft(s, args, a) && fl.precision == !s.precision.NoPrecision?
    ensures !fl.precision ==> prec == 0
  {}

  lemma StringLaid(t: string, prec: nat, width: nat, fl: Flags) returns (n: nat)
    requires |t| < TWO32 && (fl.precision || prec == 0)
    ensures n <= |t| && (forall i | 0 <= i < n :: t[i] != '\0') && (fl.precision ==> n <= prec)
    ensures n < |t| ==> t[n] == '\0' || (fl.precision && n == prec)
    ensures var spaces := Repeat(' ', width - n);
            StringText(t, prec, width, fl) == if fl.left then t[..n] + spaces else spaces + t[..n]
  {
    var limit := if fl.precision then prec else -1;
    n := StrLen(t, limit);
    StrLenIs(t, limit);
    StringField(t, prec, width, fl);
    AlignedIs(t[..n], width, fl.left);
  }

  lemma AlignedIs(shown: string, width: nat, left: bool)
    ensures var spaces := Repeat(' ', width - |shown|);
            Aligned(shown, |shown|, width, left) == if left then shown + spaces else spaces + shown
  {}

  /** Pointers without '#': the low 64 bits in capital hexadecimal digits, zero padded to 16. */
  lemma PointerLayout(s: Spec, args: seq<Arg>, a: nat) returns (digits: string)
    requires WellWritten(s) && ArgsFit(s, args, a) && s.c == 'p' && '#' !in s.flags
    ensures NumeralOf(digits, args[a + Stars(s)].v % 0x1_0000_0000_0000_0000, 16, true, !s.precision.NoPrecision?)
    ensures Shown(s, args, a)
         == Laid(ToTheLeft(s, args, a), true, SignText(false, '+' in s.flags, ' ' in s.flags), digits,
                 PrecisionValue(s, args, a), 16)
  {
    var v, prec, fl := args[a + Stars(s)].v, PrecisionValue(s, args, a), FlagsOf(s, StarValue(s, args, a));
    digits := PointerLaid(v, prec, fl);
    PointerFlags(s, StarValue(s, args, a));
    ShownPointer(s, args, a, prec, fl);
  }

  lemma ShownPointer(s: Spec, args: seq<Arg>, a: nat, prec: nat, fl: Flags)
    requires ArgsFit(s, args, a) && s.c == 'p'
    requires prec == PrecisionValue(s, args, a) && fl == FlagsOf(s, StarValue(s, args, a))
    ensures Shown(s, args, a) == PointerText(args[a + Stars(s)].v, prec, fl)
  {
    assert args[a + Stars(s)].Int?;
    OfPointer(args[a + Stars(s)], prec, WidthValue(s, args, a), fl);
  }

  lemma PointerFlags(s: Spec, star: int)
    ensures var fl := FlagsOf(s, star);
            && fl.left == ('-' in s.flags || star < 0) && fl.plus == ('+' in s.flags) && fl.space == (' ' in s.flags)
            && fl.hash == ('#' in s.flags) && fl.precision == !s.precision.NoPrecision?
  {}

  lemma PointerLaid(v: int, prec: nat, fl: Flags) returns (digits: string)
    requires !fl.hash
    ensures NumeralOf(digits, v % 0x1_0000_0000_0000_0000, 16, true, fl.precision)
    ensures PointerText(v, prec, fl) == Laid(fl.left, true, SignText(false, fl.plus, fl.space), digits, prec, 16)
  {
    var f := fl.(zeropad := true, uppercase := true);
    digits := Reverse(ValueDigits(U64(v), 16, f));
    NumeralIs(U64(v), 16, f);
    NumberLaid(U64(v), false, 16, prec, 16, f);
  }

  // ----- Whole formats -----

  /** With spaces behind it up to the width. */
  function Filled(text: string, width: nat): string { text + Repeat(' ', width - |text|) }

  function ZeroFilled(digits: string, n: nat): string { Repeat('0', n - |digits|) + digits }

  function Number(v: int, digits: string): string { (if v < 0 then "-" else "") + digits }

  /** What a plain decimal directive shows of an int. */
  lemma DecimalLayout(fmt: string, s: Spec, args: seq<Arg>, v: int) returns (digits: string)
    requires s.flags in ["", "-"] && s.length.Plain? && s.c == 'd' && WellWritten(s) && ArgsFit(s, args, 0)
    requires args[Stars(s)].v == v && -0x8000_0000 < v < 0x8000_0000 && fmt == "%" + Written(s)
    ensures NumeralOf(digits, Abs(v), 10, false, !s.precision.NoPrecision?)
    ensures Format(fmt, args)
         == Some(Laid(ToTheLeft(s, args, 0), false, SignText(v < 0, false, false), digits, PrecisionValue(s, args, 0),
                      WidthValue(s, args, 0)))
  {
    NotLeast(s.length, v);
    var r;
    r, digits := IntegerLayout(s, args, 0);
    ArgValueUnique(Plain, true, v, r, v);
    FormatIs(s, args);
  }

  lemma NotLeast(l: Length, v: int)
    requires l.Plain? && -0x8000_0000 < v < 0x8000_0000
    ensures !IsLeast(l, v) && ArgValue(l, true, v, v)
  {}

  lemma PlainReads(fmt: string, s: Spec, args: seq<Arg>, v: int)
    requires WellWritten(s) && s.length.Plain? && s.c == 'd' && ArgsFit(s, args, 0) && fmt == "%" + Written(s)
    requires s.width.NoWidth? && s.precision.NoPrecision?
    requires args[Stars(s)].v == v && -0x8000_0000 < v < 0x8000_0000
    ensures var r := Format(fmt, args); r.Some? && ReadField(r.value, 10) == v
  {
    FormatIs(s, args);
    NotLeast(s.length, v);
    var r := SignedReads(s, args, 0);
    ArgValueUnique(Plain, true, v, r, v);
  }

  /** "%d" prints every int but the least so that it reads back. */
  lemma DecimalPrints(v: int)
    requires -0x8000_0000 < v < 0x8000_0000
    ensures var r := Format("%d", [Int(v)]); r.Some? && ReadField(r.value, 10) == v
  {
    var s := Spec("", NoWidth, NoPrecision, Plain, 'd');
    assert "%d" == "%" + Written(s);
    PlainReads("%d", s, [Int(v)], v);
  }

  /** Behind a number there are spaces up to the width. */
  lemma LaidLeft(v: int, digits: string, width: nat)
    requires |digits| < 32
    ensures Laid(true, false, SignText(v < 0, false, false), digits, 0, width) == Filled(Number(v, digits), width)
  {
    assert Repeat('0', 0) == "";
    assert SignText(v < 0, false, false) + "" + digits == Number(v, digits);
  }

  lemma LeftShown(fmt: string, s: Spec, args: seq<Arg>, v: int, width: nat) returns (digits: string)
    requires s.flags in ["", "-"] && s.length.Plain? && s.c == 'd' && WellWritten(s) && ArgsFit(s, args, 0)
    requires args[Stars(s)].v == v && -0x8000_0000 < v < 0x8000_0000 && fmt == "%" + Written(s)
    requires s.precision.NoPrecision? && ToTheLeft(s, args, 0) && width == WidthValue(s, args, 0)
    ensures NumeralOf(digits, Abs(v), 10, false, false)
    ensures Format(fmt, args) == Some(Filled(Number(v, digits), width))
  {
    digits := DecimalLayout(fmt, s, args, v);
    LaidLeft(v, digits, width);
  }

  /** "%-5d", for every width in the place of 5: the number, and spaces behind it up to the width. */
  lemma LeftAligned(w: string, v: int) returns (digits: string)
    requires w != [] && Decimals(w) && w[0] != '0' && -0x8000_0000 < v < 0x8000_0000
    ensures NumeralOf(digits, Abs(v), 10, false, false)
    ensures Format("%-" + w + "d", [Int(v)]) == Some(Filled(Number(v, digits), Read(w, 10) % 0x1_0000_0000))
  {
    var s := Spec("-", Wide(w), NoPrecision, Plain, 'd');
    assert "%-" + w + "d" == "%" + Written(s);
    digits := LeftShown("%-" + w + "d", s, [Int(v)], v, Read(w, 10) % 0x1_0000_0000);
  }

  lemma StarShown(fmt: string, s: Spec, args: seq<Arg>, n: int, v: int) returns (digits: string)
    requires s.flags == "" && s.length.Plain? && s.c == 'd' && WellWritten(s) && ArgsFit(s, args, 0)
    requires s.width.StarWidth? && s.precision.NoPrecision? && fmt == "%" + Written(s)
    requires 0 < n <= 0x8000_0000 && args[0].v == -n
    requires args[Stars(s)].v == v && -0x8000_0000 < v < 0x8000_0000
    ensures NumeralOf(digits, Abs(v), 10, false, false)
    ensures Format(fmt, args) == Some(Filled(Number(v, digits), n))
  {
    NegativeStar(s, args, n);
    digits := LeftShown(fmt, s, args, v, n);
  }

  lemma NegativeStar(s: Spec, args: seq<Arg>, n: int)
    requires ArgsFit(s, args, 0) && s.width.StarWidth? && args[0].v == -n && 0 < n <= 0x8000_0000
    ensures ToTheLeft(s, args, 0) && WidthValue(s, args, 0) == n
  {}

  /** "%*d" with the width -n: the number, and spaces behind it up to n. */
  lemma NegativeWidth(n: int, v: int) returns (digits: string)
    requires 0 < n <= 0x8000_0000 && -0x8000_0000 < v < 0x8000_0000
    ensures NumeralOf(digits, Abs(v), 10, false, false)
    ensures Format("%*d", [Int(-n), Int(v)]) == Some(Filled(Number(v, digits), n))
  {
    var s := Spec("", StarWidth, NoPrecision, Plain, 'd');
    assert "%*d" == "%" + Written(s);
    digits := StarShown("%*d", s, [Int(-n), Int(v)], n, v);
  }

  lemma ZerosShown(fmt: string, s: Spec, args: seq<Arg>, v: int, prec: nat) returns (digits: string)
    requires s.flags == "" && s.length.Plain? && s.c == 'd' && WellWritten(s) && ArgsFit(s, args, 0)
    requires args[Stars(s)].v == v && -0x8000_0000 < v < 0x8000_0000 && fmt == "%" + Written(s)
    requires s.width.NoWidth? && !s.precision.NoPrecision? && prec == PrecisionValue(s, args, 0) && prec <= 31
    ensures NumeralOf(digits, Abs(v), 10, false, true)
    ensures Format(fmt, args) == Some(Number(v, ZeroFilled(digits, prec)))
  {
    digits := DecimalLayout(fmt, s, args, v);
    LaidZeros(v, digits, prec);
  }

  /** "%.3d", for every precision up to 31 in the place of 3: zeros up to so many digits, and a zero is only zeros. */
  lemma AtLeastDigits(p: string, v: int) returns (digits: string)
    requires p != [] && Decimals(p) && Read(p, 10) <= 31 && -0x8000_0000 < v < 0x8000_0000
    ensures NumeralOf(digits, Abs(v), 10, false, true)
    ensures Format("%." + p + "d", [Int(v)]) == Some(Number(v, ZeroFilled(digits, Read(p, 10))))
  {
    var s := Spec("", NoWidth, Exact(p), Plain, 'd');
    assert "%." + p + "d" == "%" + Written(s);
    digits := ZerosShown("%." + p + "d", s, [Int(v)], v, Read(p, 10));
  }

  lemma LaidZeros(v: int, digits: string, prec: nat)
    requires |digits| < 32 && prec < 32
    ensures Laid(false, false, SignText(v < 0, false, false), digits, prec, 0)
         == Number(v, ZeroFilled(digits, prec))
  {
    var zeros, sign := Repeat('0', prec - |digits|), SignText(v < 0, false, false);
    assert zeros == Repeat('0', Max(0, prec - |digits|));
    assert "" + (sign + zeros + digits) == Number(v, zeros + digits);
  }

  lemma {:induction false} ReadLead(s: string, base: nat)
    requires s != [] && DigitValue(s[0]) > 0 && base > 0
    ensures Read(s, base) >= Pow(base, |s| - 1)
  {
    if |s| == 1 {
      assert s[..0] == [];
    } else {
      ReadLead(s[..|s| - 1], base);
      ProductMonotone(base, base, Pow(base, |s| - 2), Read(s[..|s| - 1], base));
    }
  }

  /** A numeral of a 64-bit value has at most sixteen hexadecimal digits. */
  lemma SixteenDigits(m: nat, digits: string)
    requires m < TWO64 && NumeralOf(digits, m, 16, true, false)
    ensures |digits| <= 16
  {
    if |digits| > 16 {
      assert DigitOf(digits[0], 16, true);
      ReadLead(digits, 16);
      assert Pow(16, 8) == TWO32;
      PowAdd(16, 8, 8);
      PowAdd(16, 16, |digits| - 17);
      PowPositive(16, |digits| - 17);
      MultipleIsLarge(Pow(16, 16), Pow(16, |digits| - 17));
    }
  }

  lemma LaidSixteen(digits: string, m: nat)
    requires |digits| <= 16 && NumeralOf(digits, m, 16, true, false)
    ensures var r := Laid(false, true, "", digits, 0, 16);
            |r| == 16 && DigitsOf(r, 16, true) && Read(r, 16) == m
  {
    var r := Repeat('0', 16 - |digits|) + digits;
    LeadingZeros(16 - |digits|, digits, 16);
    assert Laid(false, true, "", digits, 0, 16) == r;
    forall i | 0 <= i < |r|
      ensures DigitOf(r[i], 16, true)
    {
      assert i >= 16 - |digits| ==> DigitOf(digits[i - (16 - |digits|)], 16, true);
    }
  }

  lemma PointerShown(fmt: string, s: Spec, args: seq<Arg>, v: int)
    requires WellWritten(s) && s.flags == "" && s.width.NoWidth? && s.precision.NoPrecision? && s.c == 'p'
    requires ArgsFit(s, args, 0) && args[Stars(s)].v == v && fmt == "%" + Written(s)
    ensures var r := Format(fmt, args);
            && r.Some? && |r.value| == 16 && DigitsOf(r.value, 16, true)
            && Read(r.value, 16) == v % 0x1_0000_0000_0000_0000
  {
    FormatIs(s, args);
    var digits := PointerLayout(s, args, 0);
    SixteenDigits(v % TWO64, digits);
    LaidSixteen(digits, v % TWO64);
  }

  /** "%p": sixteen capital hexadecimal digits that read as the low 64 bits. */
  lemma PointerPrints(v: int)
    ensures var r := Format("%p", [Int(v)]);
            && r.Some? && |r.value| == 16 && DigitsOf(r.value, 16, true)
            && Read(r.value, 16) == v % 0x1_0000_0000_0000_0000
  {
    var s := Spec("", NoWidth, NoPrecision, Plain, 'p');
    assert "%p" == "%" + Written(s);
    PointerShown("%p", s, [Int(v)], v);
  }

  /** Other characters stand for themselves and take no argument, '%' among them. */
  lemma Itself(c: char, args: seq<Arg>)
    requires IsSpecifier(c) && !TakesArg(c)
    ensures Format("%" + [c], args) == Some([c])
  {
    var s := Spec("", NoWidth, NoPrecision, Plain, c);
    assert Written(s) == [c];
    FormatIs(s, args);
  }
}
