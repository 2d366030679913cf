/**
 kernel/src/util/printf.c as a function: the full text a format and its
 arguments stand for, whatever the output buffer is.  Floating point is
 compiled out, as is the `t` length modifier.
 */
module PrintfSpec {
  import opened Words

  datatype Option<+T> = None | Some(value: T)

  /** One variadic argument: an integer or pointer value, or a string. */
  datatype Arg = Int(v: int) | Str(s: string)

  datatype Flags = Flags(
    zeropad: bool, left: bool, plus: bool, space: bool, hash: bool, uppercase: bool,
    isChar: bool, isShort: bool, isLong: bool, isLongLong: bool, precision: bool)

  const NO_FLAGS := Flags(false, false, false, false, false, false, false, false, false, false, false)

  /** PRINTF_NTOA_BUFFER_SIZE. */
  const BUFFER_SIZE: int := 32

  // ----- Characters and strings -----

  /** What a C string of contents s holds at i: its characters, then NUL. */
  function At(s: string, i: nat): char { if i < |s| then s[i] else '\0' }

  predicate IsDigit(c: char) { '0' <= c <= '9' }

  function Repeat(c: char, n: int): (r: string)
    ensures |r| == (if n <= 0 then 0 else n)
    ensures forall i | 0 <= i < |r| :: r[i] == c
  {
    if n <= 0 then [] else Repeat(c, n - 1) + [c]
  }

  function Reverse(s: string): (r: string)
    ensures |r| == |s|
  {
    if s == [] then [] else [s[|s| - 1]] + Reverse(s[..|s| - 1])
  }

  /** Length up to the first NUL, but at most `limit`. */
  function StrLen(s: string, limit: int): (n: nat)
    ensures n <= |s| && (limit >= 0 ==> n <= limit)
  {
    if s == [] || s[0] == '\0' || limit == 0 then 0 else 1 + StrLen(s[1..], limit - 1)
  }

  // ----- Narrowing of integer arguments -----

  function Wrap(v: int, modulus: int): int
    requires modulus > 0
  {
    var u := v % modulus;
    if u < modulus / 2 then u else u - modulus
  }

  /** The value a signed conversion reads. */
  function SignedArg(v: int, fl: Flags): int {
    if fl.isLongLong || fl.isLong then Wrap(v, TWO64)
    else if fl.isChar then Wrap(v, 0x100)
    else if fl.isShort then Wrap(v, 0x1_0000)
    else I32(v)
  }

  /** The value an unsigned conversion reads. */
  function UnsignedArg(v: int, fl: Flags): (r: int)
    ensures 0 <= r < TWO64
  {
    if fl.isLongLong || fl.isLong then U64(v)
    else if fl.isChar then v % 0x100
    else if fl.isShort then v % 0x1_0000
    else U32(v)
  }

  /** `value > 0 ? value : 0 - value`, in the unsigned type of its width. */
  function Magnitude(value: int, fl: Flags): (r: int)
    ensures 0 <= r < TWO64
  {
    if value > 0 then U64(value)
    else if fl.isLongLong || fl.isLong then U64(-value) else U32(-value)
  }

  // ----- Numbers -----

  function DigitChar(d: nat, upper: bool): char
    requires d < 36
  {
    if d < 10 then ('0' as int + d) as char else ((if upper then 'A' else 'a') as int + d - 10) as char
  }

  /** Division by repeated subtraction: DivisionIs ties it to the operators. */
  function Quotient(v: nat, b: nat): nat
    requires b > 0
  {
    if v < b then 0 else 1 + Quotient(v - b, b)
  }

  function Remainder(v: nat, b: nat): (r: nat)
    requires b > 0
    ensures r < b
  {
    if v < b then v else Remainder(v - b, b)
  }

  lemma {:induction false} DivisionIs(v: nat, b: nat)
    requires b > 0
    ensures v / b == Quotient(v, b) && v % b == Remainder(v, b)
    decreases v
  {
    if v >= b {
      DivisionIs(v - b, b);
      DivisionLess(v, b);
    }
  }

  lemma DivisionLess(v: nat, b: nat)
    requires 0 < b <= v
    ensures v / b == (v - b) / b + 1 && v % b == (v - b) % b
  {
    assert v == b * ((v - b) / b + 1) + (v - b) % b;
    DivisionUnique(v, b, (v - b) / b + 1, (v - b) % b);
  }

  lemma DivisionUnique(v: nat, b: nat, q: nat, r: nat)
    requires r < b && v == b * q + r
    ensures v / b == q && v % b == r
  {
    var x, y := v / b, v % b;
    MultiplesApart(b, x, q, y, r);
  }

  lemma MultiplesApart(b: nat, x: int, q: int, y: nat, r: nat)
    requires y < b && r < b && b * x + y == b * q + r
    ensures x == q && y == r
  {
    assert b * (q - x) == y - r;
    MultipleIsLarge(b, q - x);
    MultipleIsLarge(b, x - q);
  }

  /** Digits, least significant first, at most `room` of them. */
  function Digits(value: nat, base: nat, upper: bool, room: nat): (r: string)
    requires 2 <= base <= 16 && room > 0
    ensures 0 < |r| <= room
    decreases room
  {
    [DigitChar(Remainder(value, base), upper)]
      + (if Quotient(value, base) != 0 && room > 1 then Digits(Quotient(value, base), base, upper, room - 1) else [])
  }

  /** Zeros appended until the buffer holds n characters or is full. */
  function Grow(buf: string, n: int): (r: string)
    ensures |buf| <= BUFFER_SIZE ==> |r| <= BUFFER_SIZE
  {
    buf + Repeat('0', (if n < BUFFER_SIZE then n else BUFFER_SIZE) - |buf|)
  }

  function Append(buf: string, c: char): (r: string)
    ensures |buf| <= BUFFER_SIZE ==> |r| <= BUFFER_SIZE
  {
    if |buf| < BUFFER_SIZE then buf + [c] else buf
  }

  function Shorten(buf: string, n: nat): string { if n <= |buf| then buf[..|buf| - n] else [] }

  /** The width left for the digits: one less if a sign goes in front of zero padding. */
  function PadWidth(negative: bool, width: nat, fl: Flags): nat {
    if !fl.left && width > 0 && fl.zeropad && (negative || fl.plus || fl.space) then width - 1 else width
  }

  function Padded(buf: string, negative: bool, prec: nat, width: nat, fl: Flags): string {
    if fl.left then buf
    else if fl.zeropad then Grow(Grow(buf, prec), PadWidth(negative, width, fl))
    else Grow(buf, prec)
  }

  /** The '#' prefix; it overwrites digits that exactly fill the precision or the width. */
  function Hashed(buf: string, base: nat, prec: nat, width: nat, fl: Flags): string {
    if !fl.hash then buf
    else
      var cut := if !fl.precision && |buf| > 0 && (|buf| == prec || |buf| == width)
                 then (if |buf| > 1 && base == 16 then 2 else 1) else 0;
      var b := Shorten(buf, cut);
      var c := if base == 16 then Append(b, if fl.uppercase then 'X' else 'x')
               else if base == 2 then Append(b, 'b') else b;
      Append(c, '0')
  }

  function Signed(buf: string, negative: bool, fl: Flags): string {
    if negative then Append(buf, '-')
    else if fl.plus then Append(buf, '+')
    else if fl.space then Append(buf, ' ')
    else buf
  }

  /** _out_rev: the buffer in reverse, between the spaces that fill the width. */
  function RevText(buf: string, width: nat, fl: Flags): string {
    (if !fl.left && !fl.zeropad then Repeat(' ', width - |buf|) else "")
      + Reverse(buf)
      + (if fl.left then Repeat(' ', width - |buf|) else "")
  }

  /** _ntoa_format. */
  function FieldText(digits: string, negative: bool, base: nat, prec: nat, width: nat, fl: Flags): string {
    var w := PadWidth(negative, width, fl);
    RevText(Signed(Hashed(Padded(digits, negative, prec, width, fl), base, prec, w, fl), negative, fl), w, fl)
  }

  /** Digits of a value; a zero with a precision has none. */
  function ValueDigits(value: nat, base: nat, fl: Flags): (r: string)
    requires 2 <= base <= 16
    ensures |r| <= BUFFER_SIZE
  {
    if fl.precision && value == 0 then [] else Digits(value, base, fl.uppercase, BUFFER_SIZE)
  }

  /** _ntoa_long and _ntoa_long_long. */
  function NumberText(value: nat, negative: bool, base: nat, prec: nat, width: nat, fl: Flags): string
    requires 2 <= base <= 16
  {
    var f := if value == 0 then fl.(hash := false) else fl;
    FieldText(ValueDigits(value, base, f), negative, base, prec, width, f)
  }

  // ----- Directives -----

  function FlagsFrom(fmt: string, i: nat, fl: Flags): (r: (Flags, nat))
    ensures i <= r.1 && (i <= |fmt| ==> r.1 <= |fmt|)
    decreases |fmt| - i
  {
    if At(fmt, i) == '0' then FlagsFrom(fmt, i + 1, fl.(zeropad := true))
    else if At(fmt, i) == '-' then FlagsFrom(fmt, i + 1, fl.(left := true))
    else if At(fmt, i) == '+' then FlagsFrom(fmt, i + 1, fl.(plus := true))
    else if At(fmt, i) == ' ' then FlagsFrom(fmt, i + 1, fl.(space := true))
    else if At(fmt, i) == '#' then FlagsFrom(fmt, i + 1, fl.(hash := true))
    else (fl, i)
  }

  /** _atoi from position i: the number modulo 2^32 and the position behind it. */
  function AtoiFrom(fmt: string, i: nat, acc: nat): (r: (nat, nat))
    ensures i <= r.1 && (i <= |fmt| ==> r.1 <= |fmt|)
    decreases |fmt| - i
  {
    if IsDigit(At(fmt, i)) then AtoiFrom(fmt, i + 1, U32(acc * 10 + (At(fmt, i) as int - '0' as int))) else (acc, i)
  }

  /** A parsed width or precision: its value, the flags, and where format and arguments go on. */
  datatype Parsed = Parsed(value: nat, fl: Flags, i: nat, a: nat)

  function WidthFrom(fmt: string, i: nat, args: seq<Arg>, a: nat, fl: Flags): (r: Option<Parsed>)
    ensures r.Some? ==> i <= r.value.i
  {
    if IsDigit(At(fmt, i)) then
      var (w, j) := AtoiFrom(fmt, i, 0);
      Some(Parsed(w, fl, j, a))
    else if At(fmt, i) == '*' then
      if a < |args| && args[a].Int? then
        var w := I32(args[a].v);
        Some(if w < 0 then Parsed(U32(-w), fl.(left := true), i + 1, a + 1) else Parsed(w, fl, i + 1, a + 1))
      else None
    else Some(Parsed(0, fl, i, a))
  }

  function PrecisionFrom(fmt: string, i: nat, args: seq<Arg>, a: nat, fl: Flags): (r: Option<Parsed>)
    ensures r.Some? ==> i <= r.value.i
  {
    if At(fmt, i) != '.' then Some(Parsed(0, fl, i, a))
    else
      var f := fl.(precision := true);
      if IsDigit(At(fmt, i + 1)) then
        var (p, j) := AtoiFrom(fmt, i + 1, 0);
        Some(Parsed(p, f, j, a))
      else if At(fmt, i + 1) == '*' then
        if a < |args| && args[a].Int? then
          var p := I32(args[a].v);
          Some(Parsed(if p > 0 then p else 0, f, i + 2, a + 1))
        else None
      else Some(Parsed(0, f, i + 1, a))
  }

  /** The length modifier: up to two characters c and d. */
  function LengthFlags(c: char, d: char, fl: Flags): Flags {
    fl.(isLong := fl.isLong || c == 'l' || c == 'j' || c == 'z',
        isLongLong := fl.isLongLong || (c == 'l' && d == 'l'),
        isShort := fl.isShort || c == 'h',
        isChar := fl.isChar || (c == 'h' && d == 'h'))
  }

  function LengthSize(c: char, d: char): nat {
    if c == 'l' || c == 'h' then (if c == d then 2 else 1) else if c == 'j' || c == 'z' then 1 else 0
  }

  predicate IsInteger(c: char) { c == 'd' || c == 'i' || c == 'u' || c == 'x' || c == 'X' || c == 'o' || c == 'b' }

  predicate IsSigned(c: char) { c == 'd' || c == 'i' }

  function BaseOf(c: char): (b: nat)
    ensures 2 <= b <= 16
  {
    if c == 'x' || c == 'X' then 16 else if c == 'o' then 8 else if c == 'b' then 2 else 10
  }

  /** The flags an integer conversion works with. */
  function IntegerFlags(c: char, fl: Flags): Flags {
    fl.(hash := fl.hash && BaseOf(c) != 10,
        uppercase := fl.uppercase || c == 'X',
        plus := fl.plus && IsSigned(c),
        space := fl.space && IsSigned(c),
        zeropad := fl.zeropad && !fl.precision)
  }

  function IntegerText(c: char, v: int, prec: nat, width: nat, fl: Flags): string {
    var f := IntegerFlags(c, fl);
    if IsSigned(c) then
      var value := SignedArg(v, f);
      NumberText(Magnitude(value, f), value < 0, BaseOf(c), prec, width, f)
    else
      NumberText(UnsignedArg(v, f), false, BaseOf(c), prec, width, f)
  }

  /** A text with the spaces its size leaves in the width, behind or before it. */
  function Aligned(shown: string, size: nat, width: nat, left: bool): string {
    (if left then "" else Repeat(' ', width - size)) + shown + (if left then Repeat(' ', width - size) else "")
  }

  function CharText(v: int, width: nat, fl: Flags): string {
    Aligned([(v % 256) as char], 1, width, fl.left)
  }

  /** The length of a string that its padding is reckoned from. */
  function StringSize(s: string, prec: nat, fl: Flags): nat {
    var counted := U32(StrLen(s, if prec != 0 then prec else -1));
    if fl.precision && prec < counted then prec else counted
  }

  function StringText(s: string, prec: nat, width: nat, fl: Flags): string {
    Aligned(s[..StrLen(s, if fl.precision then prec else -1)], StringSize(s, prec, fl), width, fl.left)
  }

  function PointerText(v: int, prec: nat, fl: Flags): string {
    NumberText(U64(v), false, 16, prec, 16, fl.(zeropad := true, uppercase := true))
  }

  /** What one directive puts out, and where format and arguments go on. */
  datatype Piece = Piece(text: string, i: nat, a: nat)

  /** The conversion at position i; None at the end of the format or without a fitting argument. */
  function Conversion(fmt: string, i: nat, args: seq<Arg>, a: nat, prec: nat, width: nat, fl: Flags): (r: Option<Piece>)
    ensures r.Some? ==> i < |fmt| && r.value.i == i + 1
  {
    var c := At(fmt, i);
    if c == '\0' then None
    else if IsInteger(c) || c == 'c' || c == 'p' then
      if a < |args| && args[a].Int? then
        var v := args[a].v;
        Some(Piece(if IsInteger(c) then IntegerText(c, v, prec, width, fl)
                   else if c == 'c' then CharText(v, width, fl) else PointerText(v, prec, fl), i + 1, a + 1))
      else None
    else if c == 's' then
      if a < |args| && args[a].Str? then Some(Piece(StringText(args[a].s, prec, width, fl), i + 1, a + 1)) else None
    else Some(Piece([c], i + 1, a))
  }

  /** A directive from its precision on, once its width is known. */
  function FromPrecision(fmt: string, w: Parsed, args: seq<Arg>): (r: Option<Piece>)
    ensures r.Some? ==> w.i < r.value.i <= |fmt|
  {
    var p := PrecisionFrom(fmt, w.i, args, w.a, w.fl);
    if p.None? then None else FromLength(fmt, p.value, args, w.value)
  }

  /** A directive from its length modifier on. */
  function FromLength(fmt: string, p: Parsed, args: seq<Arg>, width: nat): (r: Option<Piece>)
    ensures r.Some? ==> p.i < r.value.i <= |fmt|
  {
    var c, d := At(fmt, p.i), At(fmt, p.i + 1);
    Conversion(fmt, p.i + LengthSize(c, d), args, p.a, p.value, width, LengthFlags(c, d, p.fl))
  }

  /** The directive whose '%' is at position i - 1. */
  function Directive(fmt: string, i: nat, args: seq<Arg>, a: nat): (r: Option<Piece>)
    ensures r.Some? ==> i < r.value.i <= |fmt|
  {
    var f := FlagsFrom(fmt, i, NO_FLAGS);
    var w := WidthFrom(fmt, f.1, args, a, f.0);
    if w.None? then None else FromPrecision(fmt, w.value, args)
  }

  /** The text from position i of the format and argument a on. */
  function FormatFrom(fmt: string, i: nat, args: seq<Arg>, a: nat): Option<string>
    decreases |fmt| - i
  {
    if At(fmt, i) == '\0' then Some("")
    else if At(fmt, i) != '%' then
      var rest := FormatFrom(fmt, i + 1, args, a);
      if rest.None? then None else Some([At(fmt, i)] + rest.value)
    else
      var d := Directive(fmt, i + 1, args, a);
      if d.None? then None
      else
        var rest := FormatFrom(fmt, d.value.i, args, d.value.a);
        if rest.None? then None else Some(d.value.text + rest.value)
  }

  lemma PlainStep(fmt: string, i: nat, args: seq<Arg>, a: nat, before: string)
    requires At(fmt, i) != '\0' && At(fmt, i) != '%' && FormatFrom(fmt, i, args, a).Some?
    ensures FormatFrom(fmt, i + 1, args, a).Some?
    ensures before + FormatFrom(fmt, i, args, a).value
         == before + [At(fmt, i)] + FormatFrom(fmt, i + 1, args, a).value
    ensures |FormatFrom(fmt, i, args, a).value| == 1 + |FormatFrom(fmt, i + 1, args, a).value|
  {}

  lemma DirectiveStep(fmt: string, i: nat, args: seq<Arg>, a: nat, before: string)
    requires At(fmt, i) == '%' && FormatFrom(fmt, i, args, a).Some?
    ensures var d := Directive(fmt, i + 1, args, a);
            && d.Some? && FormatFrom(fmt, d.value.i, args, d.value.a).Some?
            && before + FormatFrom(fmt, i, args, a).value
               == before + d.value.text + FormatFrom(fmt, d.value.i, args, d.value.a).value
            && |FormatFrom(fmt, i, args, a).value|
               == |d.value.text| + |FormatFrom(fmt, d.value.i, args, d.value.a).value|
  {}

  /** The full text of a format; None if it ends inside a directive or an argument does not fit. */
  function Format(fmt: string, args: seq<Arg>): Option<string> { FormatFrom(fmt, 0, args, 0) }
}
