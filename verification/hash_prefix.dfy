/**
 The '#' flag.  A prefix is written behind digits that were cut off first if
 they exactly filled the precision or the width: what is printed still reads
 as the value exactly when the cut takes padding zeros only.
 */
module HashPrefix {
  import opened Words
  import opened PrintfSpec
  import opened RoundTrip
  import opened ReadBack

  /** Characters that give way to the prefix. */
  function Cut(n: nat, base: nat, prec: nat, width: nat, fl: Flags): (c: nat)
    ensures c <= n && c <= 2
  {
    if !fl.precision && n > 0 && (n == prec || n == width) then (if n > 1 && base == 16 then 2 else 1) else 0
  }

  function Letter(base: nat, fl: Flags): (r: string)
    ensures |r| <= 1
  {
    if base == 16 then (if fl.uppercase then "X" else "x") else if base == 2 then "b" else ""
  }

  /** The prefix as far as the buffer has room for it: the letter first, then its '0'. */
  function ShownPrefix(room: nat, base: nat, fl: Flags): string {
    var letter := Letter(base, fl);
    if room > |letter| then "0" + letter else if room == |letter| then letter else ""
  }

  /** What is left of the padded digits. */
  function Remains(buf: string, base: nat, prec: nat, width: nat, fl: Flags): string {
    buf[..|buf| - Cut(|buf|, base, prec, width, fl)]
  }

  lemma HashedIs(buf: string, base: nat, prec: nat, width: nat, fl: Flags)
    requires |buf| <= BUFFER_SIZE && fl.hash
    ensures var kept := Remains(buf, base, prec, width, fl);
            var c := if Letter(base, fl) == "" then kept else Append(kept, Letter(base, fl)[0]);
            Hashed(buf, base, prec, width, fl) == Append(c, '0')
  {}

  lemma PrefixReversed(kept: string, letter: string)
    requires |kept| <= BUFFER_SIZE && |letter| <= 1
    ensures var c := if letter == "" then kept else Append(kept, letter[0]);
            var room := BUFFER_SIZE - |kept|;
            var prefix := if room > |letter| then "0" + letter else if room == |letter| then letter else "";
            Reverse(Append(c, '0')) == prefix + Reverse(kept)
  {
    if letter == "" {
      ReverseSnoc(kept, '0');
    } else {
      ReverseSnoc(kept, letter[0]);
      ReverseSnoc(kept + [letter[0]], '0');
      assert letter == [letter[0]];
    }
  }

  /** A '#' field is spaces, the prefix, what is left of the zeros and digits, and spaces. */
  lemma HashShape(value: nat, base: nat, prec: nat, width: nat, fl: Flags)
    requires 2 <= base <= 16 && value > 0 && fl.hash && !fl.plus && !fl.space
    ensures var buf := Padded(ValueDigits(value, base, fl), false, prec, width, fl);
            var kept := Remains(buf, base, prec, width, fl);
            && |kept| <= BUFFER_SIZE
            && NumberText(value, false, base, prec, width, fl)
               == Spaced(ShownPrefix(BUFFER_SIZE - |kept|, base, fl) + Reverse(kept), width, fl)
  {
    var buf := Padded(ValueDigits(value, base, fl), false, prec, width, fl);
    BodyIs(value, false, base, prec, width, fl);
    HashedIs(buf, base, prec, width, fl);
    PrefixReversed(Remains(buf, base, prec, width, fl), Letter(base, fl));
    RevShape(Hashed(buf, base, prec, width, fl), width, fl);
  }

  // ----- Which digits survive -----

  /** Every character is a digit of the base. */
  predicate Below(s: string, base: nat) { forall i | 0 <= i < |s| :: DigitValue(s[i]) < base }

  lemma {:induction false} DigitsBelow(v: nat, base: nat, upper: bool, room: nat)
    requires 2 <= base <= 16 && room > 0
    ensures Below(Digits(v, base, upper, room), base)
    decreases room
  {
    DigitCharValue(Remainder(v, base), upper);
    if Quotient(v, base) != 0 && room > 1 {
      DigitsBelow(Quotient(v, base), base, upper, room - 1);
    }
  }

  lemma {:induction false} ReadBelow(s: string, base: nat)
    requires base > 0 && Below(s, base)
    ensures Read(Reverse(s), base) < Pow(base, |s|)
  {
    if s != [] {
      var c, rest := s[0], s[1..];
      ReadBelow(rest, base);
      assert s == [c] + rest;
      ReverseLast(rest, c);
      ReadAppend(Reverse(rest), c, base);
      DigitJoins(Read(Reverse(rest), base), DigitValue(c), base, Pow(base, |rest|));
    }
  }

  lemma DigitJoins(x: nat, d: nat, base: nat, limit: nat)
    requires x < limit && d < base
    ensures x * base + d < base * limit
  {
    MultipleIsLarge(base, limit - x);
    assert base * (limit - x) == base * limit - x * base;
  }

  /** The leading digit matters: without it, the rest reads as less than the value. */
  lemma CutDigitsRead(v: nat, base: nat, upper: bool, room: nat, k: nat, kept: string)
    requires 2 <= base <= 16 && v > 0 && room > 0 && k < |Digits(v, base, upper, room)|
    requires kept == Digits(v, base, upper, room)[..k]
    ensures Read(Reverse(kept), base) < v
  {
    DigitsBelow(v, base, upper, room);
    assert Below(kept, base);
    ReadBelow(kept, base);
    if k > 0 {
      DigitsCount(v, base, upper, room, k);
    }
  }

  /** The zeros of a '#' field. */
  function HashZeros(value: nat, base: nat, prec: nat, width: nat, fl: Flags): nat
    requires 2 <= base <= 16
  {
    Zeros(|ValueDigits(value, base, fl)|, false, prec, width, fl)
  }

  /** What is left of the digits reads as the value if and only if the cut takes no more than the padding zeros. */
  lemma CutKeepsDigits(value: nat, base: nat, prec: nat, width: nat, fl: Flags)
    requires 2 <= base <= 16 && 0 < value < Pow(base, BUFFER_SIZE) && fl.hash && !fl.plus && !fl.space
    ensures var buf := Padded(ValueDigits(value, base, fl), false, prec, width, fl);
            Read(Reverse(Remains(buf, base, prec, width, fl)), base) == value
            <==> Cut(|buf|, base, prec, width, fl) <= HashZeros(value, base, prec, width, fl)
  {
    var digits := ValueDigits(value, base, fl);
    var buf := Padded(digits, false, prec, width, fl);
    PaddedIs(digits, false, prec, width, fl);
    var z, c := HashZeros(value, base, prec, width, fl), Cut(|buf|, base, prec, width, fl);
    CutIs(digits, z, c);
    CutRead(value, base, fl.uppercase, BUFFER_SIZE, z, c, Remains(buf, base, prec, width, fl));
  }

  lemma CutRead(v: nat, base: nat, upper: bool, room: nat, z: nat, c: nat, kept: string)
    requires 2 <= base <= 16 && room > 0 && 0 < v < Pow(base, room)
    requires c <= |Digits(v, base, upper, room)| + z
    requires IsCut(Digits(v, base, upper, room), z, c, kept)
    ensures Read(Reverse(kept), base) == v <==> c <= z
  {
    if c <= z {
      ZeroPaddedRead(v, base, upper, room, z - c, kept);
    } else {
      CutDigitsRead(v, base, upper, room, |Digits(v, base, upper, room)| + z - c, kept);
    }
  }

  /** Digits with z zeros behind them, less c characters. */
  predicate IsCut(digits: string, z: nat, c: nat, kept: string)
    requires c <= |digits| + z
  {
    kept == if c <= z then digits + Repeat('0', z - c) else digits[..|digits| + z - c]
  }

  lemma CutIs(digits: string, z: nat, c: nat)
    requires c <= |digits| + z
    ensures IsCut(digits, z, c, (digits + Repeat('0', z))[..|digits| + z - c])
  {}

  lemma ZeroPaddedRead(v: nat, base: nat, upper: bool, room: nat, z: nat, kept: string)
    requires 2 <= base <= 16 && room > 0 && v < Pow(base, room)
    requires kept == Digits(v, base, upper, room) + Repeat('0', z)
    ensures Read(Reverse(kept), base) == v
  {
    var digits := Digits(v, base, upper, room);
    ReverseRepeat(digits, '0', z);
    LeadingZeros(z, Reverse(digits), base);
    DigitsRead(v, base, upper, room);
    SmallMod(v, Pow(base, room), Read(Reverse(digits), base));
  }

  lemma SmallMod(v: nat, m: nat, u: nat)
    requires v < m && IsMod(v, m, u)
    ensures u == v
  {}

  // ----- Reading a '#' field -----

  predicate IsLetter(c: char, base: nat) { (base == 16 && (c == 'x' || c == 'X')) || (base == 2 && c == 'b') }

  /** The text behind its prefix, of which the '0' may be missing. */
  function Unprefixed(s: string, base: nat): string {
    if |s| >= 2 && s[0] == '0' && IsLetter(s[1], base) then s[2..]
    else if |s| >= 1 && IsLetter(s[0], base) then s[1..]
    else s
  }

  /** The number in a '#' field. */
  function ReadHashed(s: string, base: nat): nat { Read(Unprefixed(TrimEnd(TrimFront(s)), base), base) }

  /** Digits of the base, and nothing that could be taken for a space or a prefix letter. */
  predicate DigitsOf(s: string, base: nat) { Numerals(s) && Below(s, base) }

  lemma NoLetter(s: string, base: nat)
    requires DigitsOf(s, base)
    ensures forall i | 0 <= i < |s| :: !IsLetter(s[i], base) && s[i] != ' '
    ensures Unprefixed(s, base) == s && Trimmed(s)
  {
    forall i | 0 <= i < |s|
      ensures !IsLetter(s[i], base) && s[i] != ' '
    {
      assert IsNumeral(s[i]) && DigitValue(s[i]) < base;
    }
  }

  lemma PrefixReads(room: nat, base: nat, fl: Flags, digits: string)
    requires DigitsOf(digits, base)
    ensures var s := ShownPrefix(room, base, fl) + digits;
            Trimmed(s) && Read(Unprefixed(s, base), base) == Read(digits, base)
  {
    var s := ShownPrefix(room, base, fl) + digits;
    PrefixStripped(room, base, fl, digits);
    if Unprefixed(s, base) != digits {
      LeadingZeros(1, digits, base);
    }
  }

  /** Stripping leaves the digits, or the digits behind the '0' of octal. */
  lemma PrefixStripped(room: nat, base: nat, fl: Flags, digits: string)
    requires DigitsOf(digits, base)
    ensures var s := ShownPrefix(room, base, fl) + digits;
            Trimmed(s) && (Unprefixed(s, base) == digits || Unprefixed(s, base) == Repeat('0', 1) + digits)
  {
    NoLetter(digits, base);
    var prefix := ShownPrefix(room, base, fl);
    var s := prefix + digits;
    if |prefix| == 0 {
      assert s == digits;
    } else if |prefix| == 1 && prefix[0] == '0' {
      assert Repeat('0', 1) == ['0'] == prefix;
      assert Unprefixed(s, base) == s;
    } else if |prefix| == 1 {
      assert s[1..] == digits;
    } else {
      assert s[2..] == digits;
    }
  }

  lemma ReverseDigits(s: string, base: nat)
    requires DigitsOf(s, base)
    ensures DigitsOf(Reverse(s), base)
  {
    ReverseKeeps(s);
    forall i | 0 <= i < |s|
      ensures DigitValue(Reverse(s)[i]) < base
    {
      ReverseAt(s, i);
    }
  }

  /** What is left of the padded digits are digits still. */
  lemma RemainsDigits(value: nat, base: nat, prec: nat, width: nat, fl: Flags)
    requires 2 <= base <= 16
    ensures var buf := Padded(ValueDigits(value, base, fl), false, prec, width, fl);
            |buf| <= BUFFER_SIZE && DigitsOf(Remains(buf, base, prec, width, fl), base)
  {
    var digits := ValueDigits(value, base, fl);
    DigitsNumerals(value, base, fl.uppercase, BUFFER_SIZE);
    DigitsBelow(value, base, fl.uppercase, BUFFER_SIZE);
    PaddedIs(digits, false, prec, width, fl);
    var z := HashZeros(value, base, prec, width, fl);
    ZerosAreDigits(digits, z, base);
    var buf := digits + Repeat('0', z);
    assert DigitsOf(buf[..|buf| - Cut(|buf|, base, prec, width, fl)], base);
  }

  lemma ZerosAreDigits(digits: string, z: nat, base: nat)
    requires DigitsOf(digits, base) && base > 0
    ensures DigitsOf(digits + Repeat('0', z), base)
  {}

  /** A '#' field reads as what is left of its digits. */
  lemma HashReads(value: nat, base: nat, prec: nat, width: nat, fl: Flags)
    requires 2 <= base <= 16 && value > 0 && fl.hash && !fl.plus && !fl.space
    ensures var buf := Padded(ValueDigits(value, base, fl), false, prec, width, fl);
            ReadHashed(NumberText(value, false, base, prec, width, fl), base)
            == Read(Reverse(Remains(buf, base, prec, width, fl)), base)
  {
    var buf := Padded(ValueDigits(value, base, fl), false, prec, width, fl);
    var kept := Remains(buf, base, prec, width, fl);
    HashShape(value, base, prec, width, fl);
    RemainsDigits(value, base, prec, width, fl);
    ReverseDigits(kept, base);
    PrefixReads(BUFFER_SIZE - |kept|, base, fl, Reverse(kept));
    SpacedTrims(ShownPrefix(BUFFER_SIZE - |kept|, base, fl) + Reverse(kept), width, fl);
  }

  lemma SpacedTrims(core: string, width: nat, fl: Flags)
    requires Trimmed(core)
    ensures TrimEnd(TrimFront(Spaced(core, width, fl))) == core
  {
    var gap := Max(0, width - |core|);
    TrimSpaces(if fl.left || fl.zeropad then 0 else gap, core, if fl.left then gap else 0);
  }

  /** A zero has no prefix, and reads as zero. */
  lemma ZeroReads(base: nat, prec: nat, width: nat, fl: Flags)
    requires 2 <= base <= 16 && !fl.plus && !fl.space
    ensures ReadHashed(NumberText(0, false, base, prec, width, fl), base) == 0
  {
    var f := fl.(hash := false);
    assert NumberText(0, false, base, prec, width, fl) == NumberText(0, false, base, prec, width, f);
    PlainZeroReads(base, prec, width, f);
  }

  lemma PlainZeroReads(base: nat, prec: nat, width: nat, fl: Flags)
    requires 2 <= base <= 16 && !fl.plus && !fl.space && !fl.hash
    ensures ReadHashed(NumberText(0, false, base, prec, width, fl), base) == 0
  {
    var body := Body(0, false, base, prec, width, fl);
    FieldShape(0, false, base, prec, width, fl);
    assert ShownSign(body, false, fl) + body == body;
    BodyRead(0, false, base, prec, width, fl);
    BodyDigits(base, prec, width, fl);
    NoLetter(body, base);
    SpacedTrims(body, PadWidth(false, width, fl), fl);
  }

  lemma BodyDigits(base: nat, prec: nat, width: nat, fl: Flags)
    requires 2 <= base <= 16
    ensures DigitsOf(Body(0, false, base, prec, width, fl), base)
  {
    var digits := ValueDigits(0, base, fl);
    DigitsNumerals(0, base, fl.uppercase, BUFFER_SIZE);
    DigitsBelow(0, base, fl.uppercase, BUFFER_SIZE);
    ReverseDigits(digits, base);
  }

  /** Digits beyond the buffer are lost whatever the prefix does. */
  lemma BeyondBuffer(value: nat, base: nat, prec: nat, width: nat, fl: Flags)
    requires 2 <= base <= 16 && value >= Pow(base, BUFFER_SIZE)
    ensures var buf := Padded(ValueDigits(value, base, fl), false, prec, width, fl);
            Read(Reverse(Remains(buf, base, prec, width, fl)), base) < value
  {
    var buf := Padded(ValueDigits(value, base, fl), false, prec, width, fl);
    var kept := Remains(buf, base, prec, width, fl);
    RemainsDigits(value, base, prec, width, fl);
    ReadBelow(kept, base);
    PowGrows(base, |kept|, BUFFER_SIZE);
  }

  lemma PowGrows(b: nat, m: nat, n: nat)
    requires b > 0 && m <= n
    ensures Pow(b, m) <= Pow(b, n)
  {
    PowAdd(b, m, n - m);
    PowPositive(b, m);
    PowPositive(b, n - m);
    MultipleIsLarge(Pow(b, m), Pow(b, n - m));
  }

  /** The buffer holds all digits, and the prefix displaces padding zeros only; a zero has no prefix. */
  predicate HashKeeps(value: nat, base: nat, prec: nat, width: nat, fl: Flags)
    requires 2 <= base <= 16
  {
    var z := HashZeros(value, base, prec, width, fl);
    || value == 0
    || (value < Pow(base, BUFFER_SIZE) && Cut(|ValueDigits(value, base, fl)| + z, base, prec, width, fl) <= z)
  }

  lemma RemainsRead(value: nat, base: nat, prec: nat, width: nat, fl: Flags)
    requires 2 <= base <= 16 && value > 0 && fl.hash && !fl.plus && !fl.space
    ensures var buf := Padded(ValueDigits(value, base, fl), false, prec, width, fl);
            Read(Reverse(Remains(buf, base, prec, width, fl)), base) == value
            <==> HashKeeps(value, base, prec, width, fl)
  {
    PaddedSize(value, base, prec, width, fl);
    if value < Pow(base, BUFFER_SIZE) {
      CutKeepsDigits(value, base, prec, width, fl);
    } else {
      BeyondBuffer(value, base, prec, width, fl);
    }
  }

  lemma PaddedSize(value: nat, base: nat, prec: nat, width: nat, fl: Flags)
    requires 2 <= base <= 16
    ensures |Padded(ValueDigits(value, base, fl), false, prec, width, fl)|
         == |ValueDigits(value, base, fl)| + HashZeros(value, base, prec, width, fl)
  {
    PaddedIs(ValueDigits(value, base, fl), false, prec, width, fl);
  }

  lemma HashedNumber(value: nat, base: nat, prec: nat, width: nat, fl: Flags)
    requires 2 <= base <= 16 && fl.hash && !fl.plus && !fl.space
    ensures ReadHashed(NumberText(value, false, base, prec, width, fl), base) == value
       <==> HashKeeps(value, base, prec, width, fl)
  {
    if value == 0 {
      ZeroReads(base, prec, width, fl);
    } else {
      HashReads(value, base, prec, width, fl);
      RemainsRead(value, base, prec, width, fl);
    }
  }

  /**
   A '#' field reads back as its argument if and only if the argument is 0, or
   its digits fit the buffer and the prefix displaces no more than padding
   zeros.
   */
  lemma HashRoundTrip(c: char, v: int, prec: nat, width: nat, fl: Flags)
    requires (c == 'x' || c == 'X' || c == 'o' || c == 'b') && fl.hash
    ensures ReadHashed(IntegerText(c, v, prec, width, fl), BaseOf(c)) == UnsignedArg(v, fl)
       <==> HashKeeps(UnsignedArg(v, fl), BaseOf(c), prec, width, IntegerFlags(c, fl))
  {
    var f := IntegerFlags(c, fl);
    HashedNumber(UnsignedArg(v, f), BaseOf(c), prec, width, f);
  }

  /** With '#', digits that exactly fill the width give way to the prefix: here none are left. */
  lemma HashDropsDigits()
    ensures IntegerText('x', 0x12, 0, 2, NO_FLAGS.(hash := true)) == "0x"
  {
    var f := NO_FLAGS.(hash := true);
    TwoDigits();
    assert IntegerFlags('x', f) == f;
    HashShape(0x12, 16, 0, 2, f);
    CutAll(f);
  }

  lemma CutAll(fl: Flags)
    requires fl == NO_FLAGS.(hash := true)
    ensures Padded("21", false, 0, 2, fl) == "21" && Remains("21", 16, 0, 2, fl) == ""
    ensures Spaced(ShownPrefix(32, 16, fl) + Reverse(""), 2, fl) == "0x"
  {}

  lemma TwoDigits()
    ensures Digits(0x12, 16, false, 32) == "21"
  {
    DivisionIs(0x12, 16);
    DivisionIs(0x1, 16);
    assert Digits(0x1, 16, false, 31) == "1";
  }
}
