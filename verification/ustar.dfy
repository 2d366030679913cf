/**
 oct2bin of kernel/src/fs/ustar.c, and the formatter's own _atoi, as
 inverses of what the formatter prints.
 */
module Ustar {
  import opened Words
  import opened PrintfSpec
  import opened RoundTrip
  import opened ReadBack

  /** The octal number in a field; a character below '0' counts as a negative digit. */
  function Positional(s: string): int {
    if s == [] then 0 else Positional(s[..|s| - 1]) * 8 + (s[|s| - 1] as int - '0' as int)
  }

  lemma WrapStep(x: int, d: int)
    ensures U64(U64(U64(x) * 8) + d) == U64(x * 8 + d)
  {
    var k, m := x / TWO64, U64(x) * 8 / TWO64;
    assert x * 8 + d == U64(U64(x) * 8) + d + (k * 8 + m) * TWO64;
    U64Shift(U64(U64(x) * 8) + d, k * 8 + m);
  }

  /** oct2bin: the field as a number, modulo 2^64. */
  method Oct2Bin(str: string, size: nat) returns (n: nat)
    requires size <= |str| && size < 0x1_0000
    ensures n == U64(Positional(str[..size]))
  {
    n := 0;
    var c, left := 0, size;
    while left > 0
      invariant c == size - left && c <= size
      invariant n == U64(Positional(str[..c]))
    {
      assert str[..c + 1][..c] == str[..c];
      WrapStep(Positional(str[..c]), str[c] as int - '0' as int);
      left := left - 1;
      n := U64(n * 8);
      n := U64(n + (str[c] as int - '0' as int));
      c := c + 1;
    }
  }

  lemma {:induction false} PositionalReads(s: string)
    requires Decimals(s)
    ensures Positional(s) == Read(s, 8)
  {
    if s != [] {
      PositionalReads(s[..|s| - 1]);
    }
  }

  // ----- The two formats -----

  const OCTAL := NO_FLAGS.(zeropad := true, isLong := true)
  const DECIMAL := NO_FLAGS.(isLong := true)

  /** A format that is one directive. */
  lemma OneDirective(fmt: string, args: seq<Arg>, fl: Flags, j: nat, w: Parsed, p: Parsed, piece: Piece)
    requires At(fmt, 0) == '%' && FlagsFrom(fmt, 1, NO_FLAGS) == (fl, j)
    requires WidthFrom(fmt, j, args, 0, fl) == Some(w) && PrecisionFrom(fmt, w.i, args, w.a, w.fl) == Some(p)
    requires FromLength(fmt, p, args, w.value) == Some(piece) && piece.i == |fmt|
    ensures Format(fmt, args) == Some(piece.text)
  {
    assert FromPrecision(fmt, w, args) == Some(piece);
    assert Directive(fmt, 1, args, 0) == Some(piece);
    assert FormatFrom(fmt, |fmt|, args, piece.a) == Some("");
    assert piece.text + "" == piece.text;
  }

  lemma LongPiece(fmt: string, p: Parsed, args: seq<Arg>, width: nat, g: Flags)
    requires At(fmt, p.i) == 'l' && At(fmt, p.i + 1) != 'l' && g == LengthFlags('l', At(fmt, p.i + 1), p.fl)
    ensures FromLength(fmt, p, args, width) == Conversion(fmt, p.i + 1, args, p.a, p.value, width, g)
  {}

  lemma LongFlags(c: char, fl: Flags)
    requires c != 'l'
    ensures LengthFlags('l', c, fl) == fl.(isLong := true)
  {}

  lemma IntegerPiece(fmt: string, i: nat, args: seq<Arg>, a: nat, prec: nat, width: nat, fl: Flags, v: int)
    requires IsInteger(At(fmt, i)) && a < |args| && args[a] == Int(v)
    ensures Conversion(fmt, i, args, a, prec, width, fl)
         == Some(Piece(IntegerText(At(fmt, i), v, prec, width, fl), i + 1, a + 1))
  {}

  lemma OctalFormat(width: nat, v: nat)
    requires width < TWO32 / 2
    ensures Format("%0*lo", [Int(width), Int(v)]) == Some(IntegerText('o', v, 0, width, OCTAL))
  {
    var fmt, args := "%0*lo", [Int(width), Int(v)];
    var fl := NO_FLAGS.(zeropad := true);
    var w, p := Parsed(width, fl, 3, 1), Parsed(0, fl, 3, 1);
    assert FlagsFrom(fmt, 1, NO_FLAGS) == (fl, 2) by { assert FlagsFrom(fmt, 2, fl) == (fl, 2); }
    assert WidthFrom(fmt, 2, args, 0, fl) == Some(w);
    assert PrecisionFrom(fmt, 3, args, 1, fl) == Some(p);
    LongFlags('o', fl);
    LongPiece(fmt, p, args, width, OCTAL);
    IntegerPiece(fmt, 4, args, 1, 0, width, OCTAL, v);
    OneDirective(fmt, args, fl, 2, w, p, Piece(IntegerText('o', v, 0, width, OCTAL), 5, 2));
  }

  lemma DecimalFormat(v: nat)
    ensures Format("%lu", [Int(v)]) == Some(IntegerText('u', v, 0, 0, DECIMAL))
  {
    var fmt, args := "%lu", [Int(v)];
    var w := Parsed(0, NO_FLAGS, 1, 0);
    assert FlagsFrom(fmt, 1, NO_FLAGS) == (NO_FLAGS, 1);
    assert WidthFrom(fmt, 1, args, 0, NO_FLAGS) == Some(w);
    assert PrecisionFrom(fmt, 1, args, 0, NO_FLAGS) == Some(w);
    LongFlags('u', NO_FLAGS);
    LongPiece(fmt, w, args, 0, DECIMAL);
    IntegerPiece(fmt, 2, args, 0, 0, 0, DECIMAL, v);
    OneDirective(fmt, args, NO_FLAGS, 1, w, w, Piece(IntegerText('u', v, 0, 0, DECIMAL), 3, 1));
  }

  /** An unsigned number without spaces is its zeros and digits. */
  lemma BareBody(v: nat, base: nat, width: nat, fl: Flags)
    requires v < TWO64 && (base == 8 || base == 10)
    requires !fl.hash && !fl.plus && !fl.space && !fl.left && (fl.zeropad || width == 0)
    ensures var body := Body(v, false, base, 0, width, fl);
            NumberText(v, false, base, 0, width, fl) == body && Decimals(body) && Read(body, base) == v
  {
    var body := Body(v, false, base, 0, width, fl);
    FieldShape(v, false, base, 0, width, fl);
    assert ShownSign(body, false, fl) + body == body;
    BodyNumerals(v, false, base, 0, width, fl);
    BodyRead(v, false, base, 0, width, fl);
    Capacity(base);
    ModIs(v, Pow(base, BUFFER_SIZE), Read(body, base));
  }

  /** oct2bin inverts zero-padded octal output, and the output fills its field exactly when the value fits it. */
  lemma OctalRoundTrip(width: nat, v: nat)
    requires width < TWO32 / 2 && v < TWO64
    ensures var text := Format("%0*lo", [Int(width), Int(v)]);
            text.Some? && U64(Positional(text.value)) == v
    ensures var text := Format("%0*lo", [Int(width), Int(v)]);
            0 < width < BUFFER_SIZE ==> (|text.value| == width <==> v < Pow(8, width))
  {
    OctalFormat(width, v);
    OctalNumber(width, v);
    BareBody(v, 8, width, OCTAL);
    PositionalReads(Body(v, false, 8, 0, width, OCTAL));
    if 0 < width < BUFFER_SIZE {
      DigitsCount(v, 8, false, BUFFER_SIZE, width);
    }
  }

  lemma OctalNumber(width: nat, v: nat)
    requires v < TWO64
    ensures IntegerText('o', v, 0, width, OCTAL) == NumberText(v, false, 8, 0, width, OCTAL)
  {
    assert IntegerFlags('o', OCTAL) == OCTAL;
  }

  lemma DecimalNumber(v: nat)
    requires v < TWO64
    ensures IntegerText('u', v, 0, 0, DECIMAL) == NumberText(v, false, 10, 0, 0, DECIMAL)
  {
    assert IntegerFlags('u', DECIMAL) == DECIMAL;
  }

  // ----- _atoi -----

  lemma AtoiStep(x: nat, d: nat)
    ensures U32(U32(x) * 10 + d) == U32(x * 10 + d)
  {
    var k := x / TWO32;
    assert x * 10 + d == U32(x) * 10 + d + k * 10 * TWO32;
    U32Shift(U32(x) * 10 + d, k * 10);
  }

  lemma {:induction false} AtoiReads(s: string, i: nat)
    requires i <= |s| && Decimals(s)
    ensures AtoiFrom(s, 0, 0) == AtoiFrom(s, i, U32(Read(s[..i], 10)))
  {
    if i > 0 {
      AtoiReads(s, i - 1);
      assert s[..i] == s[..i - 1] + [s[i - 1]];
      ReadAppend(s[..i - 1], s[i - 1], 10);
      AtoiStep(Read(s[..i - 1], 10), DigitValue(s[i - 1]));
    }
  }

  /** _atoi reads printed decimals modulo 2^32, so it inverts exactly those below it. */
  lemma AtoiRoundTrip(v: nat)
    requires v < TWO64
    ensures var text := Format("%lu", [Int(v)]);
            text.Some? && AtoiFrom(text.value, 0, 0) == (U32(v), |text.value|)
    ensures AtoiFrom(Format("%lu", [Int(v)]).value, 0, 0).0 == v <==> v < TWO32
  {
    DecimalFormat(v);
    DecimalNumber(v);
    BareBody(v, 10, 0, DECIMAL);
    var text := Body(v, false, 10, 0, 0, DECIMAL);
    AtoiReads(text, |text|);
    assert text[..|text|] == text;
  }
}
