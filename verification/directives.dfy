/**
 Directives written out from their parts, and what the formatter reads in
 them: flags, width, precision, length modifier and specifier.
 */
module Directives {
  import opened Words
  import opened PrintfSpec
  import opened RoundTrip
  import opened ReadBack

  datatype Width = NoWidth | Wide(digits: string) | StarWidth
  datatype Precision = NoPrecision | Dot | Exact(digits: string) | StarPrecision
  datatype Length = Plain | Short | Char | Long | LongLong | IntMax | Size
  datatype Spec = Spec(flags: string, width: Width, precision: Precision, length: Length, c: char)

  function WidthText(w: Width): string {
    match w
    case NoWidth => ""
    case Wide(digits) => digits
    case StarWidth => "*"
  }

  function PrecisionText(p: Precision): string {
    match p
    case NoPrecision => ""
    case Dot => "."
    case Exact(digits) => "." + digits
    case StarPrecision => ".*"
  }

  function LengthText(l: Length): string {
    match l
    case Plain => ""
    case Short => "h"
    case Char => "hh"
    case Long => "l"
    case LongLong => "ll"
    case IntMax => "j"
    case Size => "z"
  }

  function FromLengthText(s: Spec): string { LengthText(s.length) + [s.c] }

  function FromPrecisionText(s: Spec): string { PrecisionText(s.precision) + FromLengthText(s) }

  function FromWidthText(s: Spec): string { WidthText(s.width) + FromPrecisionText(s) }

  /** The directive as it stands in a format, without its '%'. */
  function Written(s: Spec): string { s.flags + FromWidthText(s) }

  predicate IsFlag(c: char) { c == '0' || c == '-' || c == '+' || c == ' ' || c == '#' }

  /** The specifiers that convert an argument. */
  predicate TakesArg(c: char) {
    || c == 'd' || c == 'i' || c == 'u' || c == 'x' || c == 'X' || c == 'o' || c == 'b'
    || c == 'c' || c == 's' || c == 'p'
  }

  /** A character that ends a directive: a specifier that takes an argument, or one that stands for itself, as '%'. */
  predicate IsSpecifier(c: char) {
    && !IsFlag(c) && !IsDigit(c) && c != '*' && c != '.' && c != '\0'
    && c != 'l' && c != 'h' && c != 'j' && c != 'z'
  }

  predicate WellWritten(s: Spec) {
    && (forall i | 0 <= i < |s.flags| :: IsFlag(s.flags[i]))
    && (s.width.Wide? ==> s.width.digits != [] && Decimals(s.width.digits) && s.width.digits[0] != '0')
    && (s.precision.Exact? ==> s.precision.digits != [] && Decimals(s.precision.digits))
    && IsSpecifier(s.c)
  }

  // ----- What it means -----

  /** Arguments that stars take before the value. */
  function Stars(s: Spec): nat {
    (if s.width.StarWidth? then 1 else 0) + (if s.precision.StarPrecision? then 1 else 0)
  }

  /** The arguments from a on fit: integers for the stars and for the value, or a string. */
  predicate ArgsFit(s: Spec, args: seq<Arg>, a: nat) {
    && a + Stars(s) <= |args|
    && (forall k | a <= k < a + Stars(s) :: args[k].Int?)
    && (TakesArg(s.c) ==> a + Stars(s) < |args| && (args[a + Stars(s)].Str? <==> s.c == 's'))
  }

  /** The width argument of a star, as an int. */
  function StarValue(s: Spec, args: seq<Arg>, a: nat): int
    requires ArgsFit(s, args, a)
  {
    if s.width.StarWidth? then I32(args[a].v) else 0
  }

  /** A negative star gives its magnitude and left alignment. */
  function WidthValue(s: Spec, args: seq<Arg>, a: nat): (w: int)
    requires ArgsFit(s, args, a)
    ensures w >= 0
  {
    match s.width
    case NoWidth => 0
    case Wide(digits) => Read(digits, 10) % 0x1_0000_0000
    case StarWidth => var w := I32(args[a].v); if w < 0 then -w else w
  }

  /** A negative precision argument counts as 0. */
  function PrecisionValue(s: Spec, args: seq<Arg>, a: nat): (p: int)
    requires ArgsFit(s, args, a)
    ensures p >= 0
  {
    match s.precision
    case NoPrecision => 0
    case Dot => 0
    case Exact(digits) => Read(digits, 10) % 0x1_0000_0000
    case StarPrecision => var p := I32(args[a + Stars(s) - 1].v); if p < 0 then 0 else p
  }

  function FlagsOf(s: Spec, star: int): Flags {
    Flags('0' in s.flags, '-' in s.flags || star < 0, '+' in s.flags, ' ' in s.flags, '#' in s.flags, false,
          s.length.Char?, s.length.Short? || s.length.Char?,
          s.length.Long? || s.length.LongLong? || s.length.IntMax? || s.length.Size?, s.length.LongLong?,
          !s.precision.NoPrecision?)
  }

  // ----- Reading it back -----

  /** The text stands at position i of the format. */
  ghost predicate Has(fmt: string, i: nat, text: string) {
    forall k | 0 <= k < |text| :: At(fmt, i + k) == text[k]
  }

  lemma HasSplit(fmt: string, i: nat, x: string, y: string)
    requires Has(fmt, i, x + y)
    ensures Has(fmt, i, x) && Has(fmt, i + |x|, y)
  {
    forall k | 0 <= k < |x|
      ensures At(fmt, i + k) == x[k]
    {
      assert (x + y)[k] == x[k];
    }
    forall k | 0 <= k < |y|
      ensures At(fmt, i + |x| + k) == y[k]
    {
      assert (x + y)[|x| + k] == y[k];
    }
  }

  function Merge(fl: Flags, zeropad: bool, left: bool, plus: bool, space: bool, hash: bool): Flags {
    fl.(zeropad := fl.zeropad || zeropad, left := fl.left || left, plus := fl.plus || plus, space := fl.space || space,
        hash := fl.hash || hash)
  }

  function WithFlags(fl: Flags, fs: string): Flags {
    Merge(fl, '0' in fs, '-' in fs, '+' in fs, ' ' in fs, '#' in fs)
  }

  function WithStar(fl: Flags, star: int): Flags { if star < 0 then fl.(left := true) else fl }

  function WithPrecision(fl: Flags, p: Precision): Flags { if p.NoPrecision? then fl else fl.(precision := true) }

  function OneFlag(fl: Flags, c: char): Flags { Merge(fl, c == '0', c == '-', c == '+', c == ' ', c == '#') }

  lemma InTail(d: char, c: char, fs: string)
    ensures d in [c] + fs <==> d == c || d in fs
  {}

  lemma MergeTwice(fl: Flags, a: bool, b: bool, c: bool, d: bool, e: bool,
                   a': bool, b': bool, c': bool, d': bool, e': bool)
    ensures Merge(Merge(fl, a, b, c, d, e), a', b', c', d', e')
         == Merge(fl, a || a', b || b', c || c', d || d', e || e')
  {}

  lemma OneFlagFirst(fl: Flags, c: char, fs: string)
    ensures WithFlags(OneFlag(fl, c), fs) == WithFlags(fl, [c] + fs)
  {
    InTail('0', c, fs);
    InTail('-', c, fs);
    InTail('+', c, fs);
    InTail(' ', c, fs);
    InTail('#', c, fs);
    MergeTwice(fl, c == '0', c == '-', c == '+', c == ' ', c == '#',
               '0' in fs, '-' in fs, '+' in fs, ' ' in fs, '#' in fs);
  }

  lemma NoFlags(fl: Flags)
    ensures WithFlags(fl, "") == fl
  {}

  lemma FlagStep(fmt: string, i: nat, fl: Flags)
    requires IsFlag(At(fmt, i))
    ensures FlagsFrom(fmt, i, fl) == FlagsFrom(fmt, i + 1, OneFlag(fl, At(fmt, i)))
  {
    OneFlagIs(fl, At(fmt, i));
  }

  lemma OneFlagIs(fl: Flags, c: char)
    requires IsFlag(c)
    ensures OneFlag(fl, c)
         == if c == '0' then fl.(zeropad := true) else if c == '-' then fl.(left := true)
            else if c == '+' then fl.(plus := true) else if c == ' ' then fl.(space := true) else fl.(hash := true)
  {}

  lemma {:induction false} FlagsRead(fmt: string, i: nat, fs: string, fl: Flags)
    requires Has(fmt, i, fs) && (forall k | 0 <= k < |fs| :: IsFlag(fs[k])) && !IsFlag(At(fmt, i + |fs|))
    ensures FlagsFrom(fmt, i, fl) == (WithFlags(fl, fs), i + |fs|)
    decreases |fs|
  {
    if fs == [] {
      NoFlags(fl);
    } else {
      var c, rest := fs[0], fs[1..];
      assert fs == [c] + rest && At(fmt, i) == c && IsFlag(c);
      HasSplit(fmt, i, [c], rest);
      FlagsRead(fmt, i + 1, rest, OneFlag(fl, c));
      OneFlagFirst(fl, c, rest);
      FlagStep(fmt, i, fl);
    }
  }

  lemma WrapDigit(x: nat, d: nat)
    ensures U32(U32(x) * 10 + d) == U32(x * 10 + d)
  {
    var k := x / TWO32;
    assert x * 10 + d == U32(x) * 10 + d + k * 10 * TWO32;
    U32Shift(U32(x) * 10 + d, k * 10);
  }

  lemma {:induction false} AtoiPrefix(fmt: string, i: nat, ds: string, k: nat)
    requires k <= |ds| && Has(fmt, i, ds) && Decimals(ds)
    ensures AtoiFrom(fmt, i, 0) == AtoiFrom(fmt, i + k, U32(Read(ds[..k], 10)))
  {
    if k > 0 {
      AtoiPrefix(fmt, i, ds, k - 1);
      assert ds[..k] == ds[..k - 1] + [ds[k - 1]];
      ReadAppend(ds[..k - 1], ds[k - 1], 10);
      WrapDigit(Read(ds[..k - 1], 10), DigitValue(ds[k - 1]));
      assert At(fmt, i + (k - 1)) == ds[k - 1];
    }
  }

  lemma AtoiRead(fmt: string, i: nat, ds: string)
    requires Has(fmt, i, ds) && Decimals(ds) && !IsDigit(At(fmt, i + |ds|))
    ensures AtoiFrom(fmt, i, 0) == (Read(ds, 10) % 0x1_0000_0000, i + |ds|)
  {
    AtoiPrefix(fmt, i, ds, |ds|);
    assert ds[..|ds|] == ds;
  }

  /** The character a text begins with. */
  lemma HasFirst(fmt: string, i: nat, text: string)
    requires Has(fmt, i, text) && text != []
    ensures At(fmt, i) == text[0]
  {
    assert At(fmt, i + 0) == text[0];
  }

  lemma LengthStart(s: Spec)
    requires WellWritten(s)
    ensures FromLengthText(s) != []
    ensures var c := FromLengthText(s)[0]; !IsFlag(c) && !IsDigit(c) && c != '*' && c != '.'
  {}

  lemma PrecisionStart(s: Spec)
    requires WellWritten(s)
    ensures FromPrecisionText(s) != []
    ensures var c := FromPrecisionText(s)[0];
            !IsFlag(c) && !IsDigit(c) && c != '*' && (c == '.' <==> !s.precision.NoPrecision?)
  {
    LengthStart(s);
  }

  lemma WidthStart(s: Spec)
    requires WellWritten(s)
    ensures FromWidthText(s) != [] && !IsFlag(FromWidthText(s)[0])
  {
    PrecisionStart(s);
    if s.width.Wide? {
      assert IsDigit(s.width.digits[0]);
    }
  }

  lemma WidthRead(fmt: string, i: nat, s: Spec, args: seq<Arg>, a: nat, fl: Flags)
    requires WellWritten(s) && ArgsFit(s, args, a) && Has(fmt, i, FromWidthText(s))
    ensures WidthFrom(fmt, i, args, a, fl)
         == Some(Parsed(WidthValue(s, args, a), WithStar(fl, StarValue(s, args, a)),
                        i + |WidthText(s.width)|, a + (if s.width.StarWidth? then 1 else 0)))
  {
    HasSplit(fmt, i, WidthText(s.width), FromPrecisionText(s));
    PrecisionStart(s);
    HasFirst(fmt, i + |WidthText(s.width)|, FromPrecisionText(s));
    match s.width
    case NoWidth =>
    case Wide(digits) =>
      AtoiRead(fmt, i, digits);
      HasFirst(fmt, i, digits);
    case StarWidth =>
      HasFirst(fmt, i, "*");
  }

  lemma PrecisionRead(fmt: string, i: nat, s: Spec, args: seq<Arg>, a: nat, b: nat, fl: Flags)
    requires WellWritten(s) && ArgsFit(s, args, a) && Has(fmt, i, FromPrecisionText(s))
    requires b == a + (if s.width.StarWidth? then 1 else 0)
    ensures PrecisionFrom(fmt, i, args, b, fl)
         == Some(Parsed(PrecisionValue(s, args, a), WithPrecision(fl, s.precision),
                        i + |PrecisionText(s.precision)|, a + Stars(s)))
  {
    HasSplit(fmt, i, PrecisionText(s.precision), FromLengthText(s));
    LengthStart(s);
    HasFirst(fmt, i + |PrecisionText(s.precision)|, FromLengthText(s));
    PrecisionStart(s);
    HasFirst(fmt, i, FromPrecisionText(s));
    match s.precision
    case NoPrecision =>
    case Dot =>
    case Exact(digits) =>
      HasSplit(fmt, i, ".", digits);
      AtoiRead(fmt, i + 1, digits);
      HasFirst(fmt, i + 1, digits);
    case StarPrecision =>
      assert ".*" == "." + "*";
      HasSplit(fmt, i, ".", "*");
      HasFirst(fmt, i + 1, "*");
  }

  function WithLength(fl: Flags, l: Length): Flags {
    fl.(isChar := l.Char?, isShort := l.Short? || l.Char?, isLong := l.Long? || l.LongLong? || l.IntMax? || l.Size?,
        isLongLong := l.LongLong?)
  }

  predicate NoLength(fl: Flags) { !fl.isChar && !fl.isShort && !fl.isLong && !fl.isLongLong }

  lemma LengthRead(fmt: string, i: nat, s: Spec, fl: Flags)
    requires WellWritten(s) && Has(fmt, i, FromLengthText(s))
    requires NoLength(fl)
    ensures var c, d := At(fmt, i), At(fmt, i + 1);
            && LengthSize(c, d) == |LengthText(s.length)|
            && LengthFlags(c, d, fl) == WithLength(fl, s.length)
    ensures At(fmt, i + |LengthText(s.length)|) == s.c
  {
    HasSplit(fmt, i, LengthText(s.length), [s.c]);
    HasFirst(fmt, i + |LengthText(s.length)|, [s.c]);
    HasFirst(fmt, i, FromLengthText(s));
    if |FromLengthText(s)| > 1 {
      assert At(fmt, i + 1) == FromLengthText(s)[1];
    }
    LengthIs(s.length, s.c, At(fmt, i), At(fmt, i + 1), fl);
  }

  lemma LengthIs(l: Length, spec: char, c: char, d: char, fl: Flags)
    requires IsSpecifier(spec) && NoLength(fl)
    requires var text := LengthText(l) + [spec]; text[0] == c && (|text| > 1 ==> text[1] == d)
    ensures LengthSize(c, d) == |LengthText(l)| && LengthFlags(c, d, fl) == WithLength(fl, l)
  {}

  // ----- Whole directives -----

  /** What the specifier makes of its argument. */
  function ShownArg(c: char, arg: Arg, prec: nat, width: nat, fl: Flags): string {
    match arg
    case Str(t) => StringText(t, prec, width, fl)
    case Int(v) =>
      if c == 'c' then CharText(v, width, fl)
      else if c == 'p' then PointerText(v, prec, fl)
      else IntegerText(c, v, prec, width, fl)
  }

  /** The directive's text, with flags, precision and width as read. */
  function Shown(s: Spec, args: seq<Arg>, a: nat): string
    requires ArgsFit(s, args, a)
  {
    if !TakesArg(s.c) then [s.c]
    else ShownArg(s.c, args[a + Stars(s)], PrecisionValue(s, args, a), WidthValue(s, args, a),
                  FlagsOf(s, StarValue(s, args, a)))
  }

  function ArgsAfter(s: Spec, a: nat): nat { a + Stars(s) + (if TakesArg(s.c) then 1 else 0) }

  lemma FlagsAre(s: Spec, star: int)
    ensures var fl := WithPrecision(WithStar(WithFlags(NO_FLAGS, s.flags), star), s.precision);
            NoLength(fl) && FlagsOf(s, star) == WithLength(fl, s.length)
  {}

  lemma ArgIs(fmt: string, i: nat, c: char, args: seq<Arg>, b: nat, prec: nat, width: nat, fl: Flags)
    requires TakesArg(c) && At(fmt, i) == c && b < |args| && (args[b].Str? <==> c == 's')
    ensures Conversion(fmt, i, args, b, prec, width, fl)
         == Some(Piece(ShownArg(c, args[b], prec, width, fl), i + 1, b + 1))
  {
    if c != 's' {
      assert args[b].Int?;
    }
  }

  lemma ItselfIs(fmt: string, i: nat, c: char, args: seq<Arg>, b: nat, prec: nat, width: nat, fl: Flags)
    requires !TakesArg(c) && c != '\0' && At(fmt, i) == c
    ensures Conversion(fmt, i, args, b, prec, width, fl) == Some(Piece([c], i + 1, b))
  {}

  /** From its length modifier on a directive comes down to its conversion. */
  lemma FromLengthIs(fmt: string, s: Spec, args: seq<Arg>, p: Parsed, width: nat, fl: Flags, res: Option<Piece>)
    requires WellWritten(s) && Has(fmt, p.i, FromLengthText(s))
    requires NoLength(p.fl) && fl == WithLength(p.fl, s.length)
    requires Conversion(fmt, p.i + |LengthText(s.length)|, args, p.a, p.value, width, fl) == res
    ensures FromLength(fmt, p, args, width) == res
  {
    LengthRead(fmt, p.i, s, p.fl);
    LengthThenConversion(fmt, args, p, width, |LengthText(s.length)|, fl);
  }

  /** From its precision on a directive comes down to its length modifier. */
  lemma FromPrecisionIs(fmt: string, i: nat, s: Spec, args: seq<Arg>, a: nat, w: Parsed, p: Parsed, res: Option<Piece>)
    requires WellWritten(s) && ArgsFit(s, args, a) && Has(fmt, i, FromPrecisionText(s))
    requires w.i == i && w.a == a + (if s.width.StarWidth? then 1 else 0)
    requires p == Parsed(PrecisionValue(s, args, a), WithPrecision(w.fl, s.precision),
                         i + |PrecisionText(s.precision)|, a + Stars(s))
    requires FromLength(fmt, p, args, w.value) == res
    ensures FromPrecision(fmt, w, args) == res
  {
    PrecisionRead(fmt, i, s, args, a, w.a, w.fl);
    PrecisionThenLength(fmt, w, args, p);
  }

  /** A directive comes down to its precision. */
  lemma FromFlagsIs(fmt: string, i: nat, s: Spec, args: seq<Arg>, a: nat, w: Parsed, res: Option<Piece>)
    requires WellWritten(s) && ArgsFit(s, args, a) && Has(fmt, i, Written(s))
    requires w == Parsed(WidthValue(s, args, a), WithStar(WithFlags(NO_FLAGS, s.flags), StarValue(s, args, a)),
                         i + |s.flags| + |WidthText(s.width)|, a + (if s.width.StarWidth? then 1 else 0))
    requires FromPrecision(fmt, w, args) == res
    ensures Directive(fmt, i, args, a) == res
  {
    FlagsPart(fmt, i, s);
    WidthRead(fmt, i + |s.flags|, s, args, a, WithFlags(NO_FLAGS, s.flags));
    FlagsThenWidth(fmt, i, args, a, WithFlags(NO_FLAGS, s.flags), i + |s.flags|, w);
  }

  lemma FlagsPart(fmt: string, i: nat, s: Spec)
    requires WellWritten(s) && Has(fmt, i, Written(s))
    ensures FlagsFrom(fmt, i, NO_FLAGS) == (WithFlags(NO_FLAGS, s.flags), i + |s.flags|)
    ensures Has(fmt, i + |s.flags|, FromWidthText(s))
  {
    HasSplit(fmt, i, s.flags, FromWidthText(s));
    WidthStart(s);
    HasFirst(fmt, i + |s.flags|, FromWidthText(s));
    FlagsRead(fmt, i, s.flags, NO_FLAGS);
  }

  lemma FlagsThenWidth(fmt: string, i: nat, args: seq<Arg>, a: nat, fl: Flags, j: nat, w: Parsed)
    requires FlagsFrom(fmt, i, NO_FLAGS) == (fl, j) && WidthFrom(fmt, j, args, a, fl) == Some(w)
    ensures Directive(fmt, i, args, a) == FromPrecision(fmt, w, args)
  {}

  lemma PrecisionThenLength(fmt: string, w: Parsed, args: seq<Arg>, p: Parsed)
    requires PrecisionFrom(fmt, w.i, args, w.a, w.fl) == Some(p)
    ensures FromPrecision(fmt, w, args) == FromLength(fmt, p, args, w.value)
  {}

  lemma LengthThenConversion(fmt: string, args: seq<Arg>, p: Parsed, width: nat, k: nat, fl: Flags)
    requires LengthSize(At(fmt, p.i), At(fmt, p.i + 1)) == k && LengthFlags(At(fmt, p.i), At(fmt, p.i + 1), p.fl) == fl
    ensures FromLength(fmt, p, args, width) == Conversion(fmt, p.i + k, args, p.a, p.value, width, fl)
  {}

  lemma HasParts(fmt: string, i: nat, s: Spec)
    requires Has(fmt, i, Written(s))
    ensures Has(fmt, i + |s.flags| + |WidthText(s.width)|, FromPrecisionText(s))
    ensures Has(fmt, i + |s.flags| + |WidthText(s.width)| + |PrecisionText(s.precision)|, FromLengthText(s))
    ensures At(fmt, i + |Written(s)| - 1) == s.c
  {
    var j := i + |s.flags|;
    HasSplit(fmt, i, s.flags, FromWidthText(s));
    HasSplit(fmt, j, WidthText(s.width), FromPrecisionText(s));
    HasSplit(fmt, j + |WidthText(s.width)|, PrecisionText(s.precision), FromLengthText(s));
    var k := j + |WidthText(s.width)| + |PrecisionText(s.precision)|;
    HasSplit(fmt, k, LengthText(s.length), [s.c]);
    HasFirst(fmt, k + |LengthText(s.length)|, [s.c]);
  }

  /** A directive comes down to its conversion, with the parts as read. */
  lemma ToConversion(fmt: string, i: nat, s: Spec, args: seq<Arg>, a: nat, prec: nat, width: nat, fl: Flags,
                     res: Option<Piece>)
    requires WellWritten(s) && ArgsFit(s, args, a) && Has(fmt, i, Written(s))
    requires prec == PrecisionValue(s, args, a) && width == WidthValue(s, args, a)
    requires fl == FlagsOf(s, StarValue(s, args, a))
    requires Conversion(fmt, i + |Written(s)| - 1, args, a + Stars(s), prec, width, fl) == res
    ensures Directive(fmt, i, args, a) == res
  {
    var f1 := WithStar(WithFlags(NO_FLAGS, s.flags), StarValue(s, args, a));
    var f2 := WithPrecision(f1, s.precision);
    var j := i + |s.flags| + |WidthText(s.width)|;
    var k := j + |PrecisionText(s.precision)|;
    var p := Parsed(prec, f2, k, a + Stars(s));
    var w := Parsed(width, f1, j, a + (if s.width.StarWidth? then 1 else 0));
    HasParts(fmt, i, s);
    FlagsAre(s, StarValue(s, args, a));
    FromLengthIs(fmt, s, args, p, width, fl, res);
    FromPrecisionIs(fmt, j, s, args, a, w, p, res);
    FromFlagsIs(fmt, i, s, args, a, w, res);
  }

  /** A directive written out from its parts is read as just these parts, wherever in a format it stands. */
  lemma DirectiveIs(fmt: string, i: nat, s: Spec, args: seq<Arg>, a: nat)
    requires WellWritten(s) && ArgsFit(s, args, a) && Has(fmt, i, Written(s))
    ensures Directive(fmt, i, args, a) == Some(Piece(Shown(s, args, a), i + |Written(s)|, ArgsAfter(s, a)))
  {
    HasParts(fmt, i, s);
    var prec, width, fl := PrecisionValue(s, args, a), WidthValue(s, args, a), FlagsOf(s, StarValue(s, args, a));
    var piece := Piece(Shown(s, args, a), i + |Written(s)|, ArgsAfter(s, a));
    ConversionIs(fmt, i + |Written(s)| - 1, s, args, a, prec, width, fl, piece);
    ToConversion(fmt, i, s, args, a, prec, width, fl, Some(piece));
  }

  lemma ConversionIs(fmt: string, k: nat, s: Spec, args: seq<Arg>, a: nat, prec: nat, width: nat, fl: Flags,
                     piece: Piece)
    requires WellWritten(s) && ArgsFit(s, args, a) && At(fmt, k) == s.c
    requires prec == PrecisionValue(s, args, a) && width == WidthValue(s, args, a)
    requires fl == FlagsOf(s, StarValue(s, args, a))
    requires piece == Piece(Shown(s, args, a), k + 1, ArgsAfter(s, a))
    ensures Conversion(fmt, k, args, a + Stars(s), prec, width, fl) == Some(piece)
  {
    if TakesArg(s.c) {
      ArgIs(fmt, k, s.c, args, a + Stars(s), prec, width, fl);
    } else {
      ItselfIs(fmt, k, s.c, args, a + Stars(s), prec, width, fl);
    }
  }

  function Joined(text: string, rest: Option<string>): Option<string> {
    if rest.None? then None else Some(text + rest.value)
  }

  /** In the middle of a format: the directive's text, and then what the rest of the format stands for. */
  lemma FormatDirective(fmt: string, i: nat, s: Spec, args: seq<Arg>, a: nat)
    requires WellWritten(s) && ArgsFit(s, args, a) && Has(fmt, i, "%" + Written(s))
    ensures FormatFrom(fmt, i, args, a)
         == Joined(Shown(s, args, a), FormatFrom(fmt, i + 1 + |Written(s)|, args, ArgsAfter(s, a)))
  {
    HasSplit(fmt, i, "%", Written(s));
    HasFirst(fmt, i, "%");
    DirectiveIs(fmt, i + 1, s, args, a);
    AtDirective(fmt, i, args, a, Shown(s, args, a), i + 1 + |Written(s)|, ArgsAfter(s, a));
  }

  lemma AtDirective(fmt: string, i: nat, args: seq<Arg>, a: nat, text: string, j: nat, b: nat)
    requires At(fmt, i) == '%' && Directive(fmt, i + 1, args, a) == Some(Piece(text, j, b))
    ensures FormatFrom(fmt, i, args, a) == Joined(text, FormatFrom(fmt, j, args, b))
  {}

  lemma HasWhole(fmt: string)
    ensures Has(fmt, 0, fmt)
  {}

  lemma FormatEnds(fmt: string, args: seq<Arg>, a: nat)
    ensures FormatFrom(fmt, |fmt|, args, a) == Some("")
  {}

  /** A format that is one directive. */
  lemma FormatIs(s: Spec, args: seq<Arg>)
    requires WellWritten(s) && ArgsFit(s, args, 0)
    ensures Format("%" + Written(s), args) == Some(Shown(s, args, 0))
  {
    var fmt := "%" + Written(s);
    HasWhole(fmt);
    FormatDirective(fmt, 0, s, args, 0);
    FormatEnds(fmt, args, ArgsAfter(s, 0));
    assert Shown(s, args, 0) + "" == Shown(s, args, 0);
  }

  /** Text without '%' and NUL stands for itself. */
  lemma {:induction false} FormatPlain(fmt: string, i: nat, args: seq<Arg>, a: nat)
    requires i <= |fmt| && forall k | i <= k < |fmt| :: fmt[k] != '%' && fmt[k] != '\0'
    ensures FormatFrom(fmt, i, args, a) == Some(fmt[i..])
    decreases |fmt| - i
  {
    if i < |fmt| {
      FormatPlain(fmt, i + 1, args, a);
      assert fmt[i..] == [fmt[i]] + fmt[i + 1..];
    }
  }
}
