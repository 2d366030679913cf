/**
 kernel/src/util/printf.c as it runs: the format is walked character by
 character, numbers are built backwards in a 32-byte buffer, and every
 character goes through a sink that drops what does not fit.
 */
module Printf {
  import opened Words
  import opened PrintfSpec

  /** A buffer that held `before`, after the text was written to its first maxlen places. */
  ghost function Clipped(before: string, text: string, maxlen: nat): (r: string)
    requires maxlen <= |before|
    ensures |r| == |before|
  {
    var n := if |text| < maxlen then |text| else maxlen;
    text[..n] + before[n..]
  }

  lemma ClippedGrows(before: string, text: string, maxlen: nat, c: char)
    requires maxlen <= |before|
    ensures Clipped(before, text + [c], maxlen)
         == if |text| < maxlen then Clipped(before, text, maxlen)[|text| := c] else Clipped(before, text, maxlen)
  {
    if |text| < maxlen {
      assert (text + [c])[..|text| + 1] == text + [c];
    } else {
      assert (text + [c])[..maxlen] == text[..maxlen];
    }
  }

  /** How many characters of a text fit before the NUL. */
  function Kept(total: nat, count: nat): nat {
    if total < count then total else if count > 0 then count - 1 else 0
  }

  lemma ClippedEnds(before: string, text: string, count: nat, limit: nat)
    requires count > 0 && Kept(|text|, count) < |before| && limit == (if count < |before| then count else |before|)
    ensures var n := Kept(|text|, count);
            Clipped(before, text, limit)[n := '\0'] == text[..n] + ['\0'] + before[n + 1..]
  {
    var n := Kept(|text|, count);
    var m := if |text| < limit then |text| else limit;
    assert text[..m][..n] == text[..n];
  }

  /**
   Where the text goes: _out_buffer, or _out_null when there is no buffer.
   `idx` is the running index, `text` everything put out so far.
   */
  class Sink {
    const buffer: array?<char>
    const maxlen: nat
    var idx: nat
    ghost var text: string
    ghost const before: string

    ghost predicate Valid()
      reads this, buffer
    {
      && idx == |text|
      && (buffer != null ==> |before| == buffer.Length && buffer[..] == Clipped(before, text, Limit()))
    }

    /** Places that can be written: those below maxlen that the buffer has. */
    ghost function Limit(): nat
      reads this
      requires buffer != null && |before| == buffer.Length
    {
      if maxlen < |before| then maxlen else |before|
    }

    /** n more characters and a NUL stay inside the buffer, be it that maxlen stops them. */
    ghost predicate Room(n: nat)
      reads this
    {
      buffer != null ==> maxlen <= buffer.Length || |text| + n < buffer.Length
    }

    constructor (buffer: array?<char>, maxlen: nat)
      ensures Valid() && text == "" && this.buffer == buffer && this.maxlen == maxlen
      ensures buffer != null ==> before == buffer[..]
    {
      this.buffer, this.maxlen, this.idx, this.text := buffer, maxlen, 0, "";
      this.before := if buffer == null then "" else buffer[..];
    }

    /** One call of the output function at an index of its own. */
    method Out(character: char, at: nat)
      requires buffer != null && at < maxlen ==> at < buffer.Length
      modifies buffer
      ensures buffer != null ==> buffer[..] == if at < maxlen then old(buffer[..])[at := character] else old(buffer[..])
    {
      if buffer != null && at < maxlen {
        buffer[at] := character;
      }
    }

    /** out(character, buffer, idx++, maxlen) */
    method Put(character: char)
      requires Valid() && Room(1)
      modifies this, buffer
      ensures Valid() && text == old(text) + [character]
    {
      Out(character, idx);
      if buffer != null {
        ClippedGrows(before, text, Limit(), character);
      }
      idx := idx + 1;
      text := text + [character];
    }

    /** Spaces for the places from `from` up to the width. */
    method Pad(from: nat, width: nat)
      requires Valid() && Room(|Repeat(' ', width - from)|)
      modifies this, buffer
      ensures Valid() && text == old(text) + Repeat(' ', width - from)
    {
      var l := from;
      while l < width
        invariant Valid() && from <= l && (l <= width || l == from)
        invariant text == old(text) + Repeat(' ', l - from)
      {
        Put(' ');
        l := l + 1;
      }
    }

    /** _out_rev */
    method OutRev(buf: array<char>, length: nat, width: nat, fl: Flags)
      requires Valid() && length <= buf.Length && buf != buffer && Room(|RevText(buf[..length], width, fl)|)
      modifies this, buffer
      ensures Valid() && text == old(text) + RevText(old(buf[..length]), width, fl)
    {
      if !fl.left && !fl.zeropad {
        Pad(length, width);
      }
      PutReversed(buf, length);
      if fl.left {
        Pad(length, width);
      }
    }

    method PutReversed(buf: array<char>, length: nat)
      requires Valid() && length <= buf.Length && buf != buffer && Room(length)
      modifies this, buffer
      ensures Valid() && text == old(text) + Reverse(old(buf[..length]))
    {
      ghost var s := buf[..length];
      var len := length;
      assert s[..len] == s;
      while len > 0
        invariant Valid() && len <= length && buf[..length] == s
        invariant text + Reverse(s[..len]) == old(text) + Reverse(s)
      {
        assert s[..len][..len - 1] == s[..len - 1];
        len := len - 1;
        Put(buf[len]);
      }
    }

    /** _ntoa_format; buf holds the digits, last one first. */
    method NtoaFormat(buf: array<char>, length: nat, negative: bool, base: nat, prec: nat, fieldWidth: nat, fl: Flags)
      requires Valid() && buf.Length == BUFFER_SIZE && length <= BUFFER_SIZE && buf != buffer
      requires Room(|FieldText(buf[..length], negative, base, prec, fieldWidth, fl)|)
      modifies this, buffer, buf
      ensures Valid()
      ensures text == old(text) + FieldText(old(buf[..length]), negative, base, prec, fieldWidth, fl)
    {
      var len, width := PadField(buf, length, negative, prec, fieldWidth, fl);
      len := AddPrefix(buf, len, base, prec, width, fl);
      len := AddSign(buf, len, negative, fl);
      OutRev(buf, len, width, fl);
    }

    /** _ntoa_long and _ntoa_long_long, which are the same but for the type of the value. */
    method Ntoa(number: nat, negative: bool, base: nat, prec: nat, width: nat, fl: Flags)
      requires Valid() && 2 <= base <= 16 && Room(|NumberText(number, negative, base, prec, width, fl)|)
      modifies this, buffer
      ensures Valid() && text == old(text) + NumberText(number, negative, base, prec, width, fl)
    {
      var buf := new char[BUFFER_SIZE];
      var flags := if number == 0 then fl.(hash := false) else fl;
      var len := WriteValue(buf, number, base, flags);
      NtoaFormat(buf, len, negative, base, prec, width, flags);
    }

    /** The case of the integer specifiers. */
    method PutInteger(c: char, v: int, prec: nat, width: nat, fl: Flags)
      requires Valid() && Room(|IntegerText(c, v, prec, width, fl)|)
      modifies this, buffer
      ensures Valid() && text == old(text) + IntegerText(c, v, prec, width, fl)
    {
      var base, flags := EvalInteger(c, fl);
      if c == 'i' || c == 'd' {
        var value := SignedArg(v, flags);
        Ntoa(Magnitude(value, flags), value < 0, base, prec, width, flags);
      } else {
        Ntoa(UnsignedArg(v, flags), false, base, prec, width, flags);
      }
    }

    method PutChar(v: int, width: nat, fl: Flags)
      requires Valid() && Room(|CharText(v, width, fl)|)
      modifies this, buffer
      ensures Valid() && text == old(text) + CharText(v, width, fl)
    {
      if !fl.left {
        Pad(1, width);
      }
      Put((v % 256) as char);
      if fl.left {
        Pad(1, width);
      }
    }

    method PutString(s: string, prec: nat, width: nat, fl: Flags)
      requires Valid() && Room(|StringText(s, prec, width, fl)|)
      modifies this, buffer
      ensures Valid() && text == old(text) + StringText(s, prec, width, fl)
    {
      var l := SizeOf(s, prec, fl);
      PutAligned(s, if fl.precision then prec else -1, l, width, fl.left);
    }

    method PutAligned(s: string, limit: int, l: nat, width: nat, left: bool)
      requires Valid() && Room(|Aligned(s[..StrLen(s, limit)], l, width, left)|)
      modifies this, buffer
      ensures Valid() && text == old(text) + Aligned(s[..StrLen(s, limit)], l, width, left)
    {
      PadIf(!left, l, width);
      PutChars(s, limit);
      PadIf(left, l, width);
    }

    method PadIf(wanted: bool, from: nat, width: nat)
      requires Valid() && Room(if wanted then |Repeat(' ', width - from)| else 0)
      modifies this, buffer
      ensures Valid() && text == old(text) + if wanted then Repeat(' ', width - from) else ""
    {
      if wanted {
        Pad(from, width);
      }
    }

    /** The characters of a string up to its NUL, at most `limit` of them unless that is negative. */
    method PutChars(s: string, limit: int)
      requires Valid() && Room(StrLen(s, limit))
      modifies this, buffer
      ensures Valid() && text == old(text) + s[..StrLen(s, limit)]
    {
      var p, left := 0, limit;
      while At(s, p) != '\0' && left != 0
        invariant Valid() && p <= |s| && left == limit - p
        invariant text == old(text) + s[..p]
        invariant StrLen(s, limit) == p + StrLen(s[p..], left)
        decreases |s| - p
      {
        assert s[p..][1..] == s[p + 1..] && s[..p + 1] == s[..p] + [s[p]];
        Put(s[p]);
        p, left := p + 1, left - 1;
      }
    }

    /** The switch on the specifier at position i. */
    method PutConversion(fmt: string, i: nat, args: seq<Arg>, a: nat, prec: nat, width: nat, fl: Flags)
      returns (b: nat)
      requires Valid() && Conversion(fmt, i, args, a, prec, width, fl).Some?
      requires Room(|Conversion(fmt, i, args, a, prec, width, fl).value.text|)
      modifies this, buffer
      ensures Valid()
      ensures var piece := Conversion(fmt, i, args, a, prec, width, fl).value;
              text == old(text) + piece.text && b == piece.a
    {
      var c := fmt[i];
      b := a;
      if IsInteger(c) {
        PutInteger(c, args[a].v, prec, width, fl);
        b := a + 1;
      } else if c == 'c' {
        PutChar(args[a].v, width, fl);
        b := a + 1;
      } else if c == 's' {
        PutString(args[a].s, prec, width, fl);
        b := a + 1;
      } else if c == 'p' {
        Ntoa(U64(args[a].v), false, 16, prec, 16, fl.(zeropad := true, uppercase := true));
        b := a + 1;
      } else {
        Put(c);
      }
    }

    /** A directive from its length modifier on. */
    method PutFromLength(fmt: string, p: Parsed, args: seq<Arg>, width: nat) returns (j: nat, b: nat)
      requires Valid() && FromLength(fmt, p, args, width).Some? && Room(|FromLength(fmt, p, args, width).value.text|)
      modifies this, buffer
      ensures Valid()
      ensures var piece := FromLength(fmt, p, args, width).value;
              text == old(text) + piece.text && j == piece.i && b == piece.a
    {
      var flags, k := EvalLength(fmt, p.i, p.fl);
      b := PutConversion(fmt, k, args, p.a, p.value, width, flags);
      j := k + 1;
    }

    /** A directive from its precision on. */
    method PutFromPrecision(fmt: string, w: Parsed, args: seq<Arg>) returns (j: nat, b: nat)
      requires Valid() && FromPrecision(fmt, w, args).Some? && Room(|FromPrecision(fmt, w, args).value.text|)
      modifies this, buffer
      ensures Valid()
      ensures var piece := FromPrecision(fmt, w, args).value;
              text == old(text) + piece.text && j == piece.i && b == piece.a
    {
      var p := EvalPrecision(fmt, w.i, args, w.a, w.fl);
      j, b := PutFromLength(fmt, p, args, w.value);
    }

    /** One directive, from behind its '%'. */
    method PutDirective(fmt: string, i: nat, args: seq<Arg>, a: nat) returns (j: nat, b: nat)
      requires Valid() && Directive(fmt, i, args, a).Some? && Room(|Directive(fmt, i, args, a).value.text|)
      modifies this, buffer
      ensures Valid()
      ensures var piece := Directive(fmt, i, args, a).value;
              text == old(text) + piece.text && j == piece.i && b == piece.a
    {
      var flags, k := EvalFlags(fmt, i);
      var w := EvalWidth(fmt, k, args, a, flags);
      j, b := PutFromPrecision(fmt, w, args);
    }

    /** One turn of the main loop of _vsnprintf: a plain character or a directive. */
    method Step(fmt: string, i: nat, args: seq<Arg>, a: nat) returns (j: nat, b: nat)
      requires Valid() && At(fmt, i) != '\0' && FormatFrom(fmt, i, args, a).Some?
      requires Room(|FormatFrom(fmt, i, args, a).value|)
      modifies this, buffer
      ensures Valid() && i < j
      ensures FormatFrom(fmt, j, args, b).Some?
      ensures text + FormatFrom(fmt, j, args, b).value == old(text) + FormatFrom(fmt, i, args, a).value
    {
      if fmt[i] != '%' {
        PlainStep(fmt, i, args, a, text);
        Put(fmt[i]);
        j, b := i + 1, a;
      } else {
        DirectiveStep(fmt, i, args, a, text);
        j, b := PutDirective(fmt, i + 1, args, a);
      }
    }

    /** The NUL behind the text, or in the last place there is. */
    method End()
      requires Valid() && maxlen < TWO64 && Room(0)
      modifies buffer
      ensures buffer != null && maxlen == 0 ==> buffer[..] == before
      ensures var n := Kept(|text|, maxlen);
              buffer != null && maxlen > 0 ==>
                n < |before| && buffer[..] == text[..n] + ['\0'] + before[n + 1..]
    {
      if buffer != null && maxlen > 0 {
        ClippedEnds(before, text, maxlen, Limit());
      }
      Out('\0', if idx < maxlen then idx else U64(maxlen - 1));
    }

    /** The main loop of _vsnprintf. */
    method PutFormat(fmt: string, args: seq<Arg>)
      requires Valid() && text == "" && Format(fmt, args).Some? && Room(|Format(fmt, args).value|)
      modifies this, buffer
      ensures Valid() && text == Format(fmt, args).value
    {
      ghost var full := Format(fmt, args).value;
      var i, a := 0, 0;
      while At(fmt, i) != '\0'
        invariant Valid() && FormatFrom(fmt, i, args, a).Some?
        invariant full == text + FormatFrom(fmt, i, args, a).value && Room(|FormatFrom(fmt, i, args, a).value|)
        decreases |fmt| - i
      {
        i, a := Step(fmt, i, args, a);
      }
    }
  }

  // ----- Filling the digit buffer -----

  /** The zeros in front of the digits, and the width that is left. */
  method PadField(buf: array<char>, length: nat, negative: bool, prec: nat, fieldWidth: nat, fl: Flags)
    returns (len: nat, width: nat)
    requires buf.Length == BUFFER_SIZE && length <= BUFFER_SIZE
    modifies buf
    ensures width == PadWidth(negative, fieldWidth, fl)
    ensures len <= BUFFER_SIZE && buf[..len] == Padded(old(buf[..length]), negative, prec, fieldWidth, fl)
  {
    len, width := length, fieldWidth;
    if !fl.left {
      if width != 0 && fl.zeropad && (negative || fl.plus || fl.space) {
        width := width - 1;
      }
      len := PadZeros(buf, len, prec);
      if fl.zeropad {
        len := PadZeros(buf, len, width);
      }
    }
  }

  method PadZeros(buf: array<char>, length: nat, n: nat) returns (len: nat)
    requires buf.Length == BUFFER_SIZE && length <= BUFFER_SIZE
    modifies buf
    ensures len <= BUFFER_SIZE && buf[..len] == Grow(old(buf[..length]), n)
  {
    len := length;
    while len < n && len < BUFFER_SIZE
      invariant length <= len <= BUFFER_SIZE && (len <= n || len == length)
      invariant buf[..len] == old(buf[..length]) + Repeat('0', len - length)
    {
      buf[len] := '0';
      len := len + 1;
      assert buf[..len] == buf[..len - 1] + ['0'];
    }
  }

  /** One guarded `buf[len++] = c`. */
  method Store(buf: array<char>, length: nat, c: char) returns (len: nat)
    requires buf.Length == BUFFER_SIZE && length <= BUFFER_SIZE
    modifies buf
    ensures len <= BUFFER_SIZE && buf[..len] == Append(old(buf[..length]), c)
  {
    len := length;
    if len < BUFFER_SIZE {
      buf[len] := c;
      len := len + 1;
    }
  }

  method AddPrefix(buf: array<char>, length: nat, base: nat, prec: nat, width: nat, fl: Flags) returns (len: nat)
    requires buf.Length == BUFFER_SIZE && length <= BUFFER_SIZE
    modifies buf
    ensures len <= BUFFER_SIZE && buf[..len] == Hashed(old(buf[..length]), base, prec, width, fl)
  {
    ghost var s := buf[..length];
    len := length;
    if fl.hash {
      if !fl.precision && len != 0 && (len == prec || len == width) {
        len := len - 1;
        if len != 0 && base == 16 {
          len := len - 1;
        }
      }
      assert buf[..len] == s[..len];
      if base == 16 && !fl.uppercase {
        len := Store(buf, len, 'x');
      } else if base == 16 && fl.uppercase {
        len := Store(buf, len, 'X');
      } else if base == 2 {
        len := Store(buf, len, 'b');
      }
      len := Store(buf, len, '0');
    }
  }

  method AddSign(buf: array<char>, length: nat, negative: bool, fl: Flags) returns (len: nat)
    requires buf.Length == BUFFER_SIZE && length <= BUFFER_SIZE
    modifies buf
    ensures len <= BUFFER_SIZE && buf[..len] == Signed(old(buf[..length]), negative, fl)
  {
    len := length;
    if negative {
      len := Store(buf, len, '-');
    } else if fl.plus {
      len := Store(buf, len, '+');
    } else if fl.space {
      len := Store(buf, len, ' ');
    }
  }

  method WriteValue(buf: array<char>, number: nat, base: nat, fl: Flags) returns (len: nat)
    requires buf.Length == BUFFER_SIZE && 2 <= base <= 16
    modifies buf
    ensures len <= BUFFER_SIZE && buf[..len] == ValueDigits(number, base, fl)
  {
    len := 0;
    if !fl.precision || number != 0 {
      len := WriteDigits(buf, number, base, fl.uppercase);
    }
  }

  lemma DigitsStep(full: string, done: string, value: nat, base: nat, upper: bool, room: nat, c: char, rest: nat)
    requires 2 <= base <= 16 && room > 0
    requires full == done + Digits(value, base, upper, room)
    requires c == DigitChar(Remainder(value, base), upper) && rest == Quotient(value, base)
    ensures full == done + [c] + Pending(rest != 0 && room > 1, rest, base, upper, room - 1)
  {}

  /** The digits the loop has yet to write. */
  ghost function Pending(more: bool, value: nat, base: nat, upper: bool, room: nat): string
    requires 2 <= base <= 16 && (more ==> room > 0)
  {
    if more then Digits(value, base, upper, room) else []
  }

  method NextDigit(value: nat, base: nat, upper: bool) returns (c: char, rest: nat)
    requires 2 <= base <= 16
    ensures c == DigitChar(Remainder(value, base), upper) && rest == Quotient(value, base)
  {
    DivisionIs(value, base);
    var digit := value % base;
    c := DigitChar(digit, upper);
    rest := value / base;
  }

  /** The loop body: one digit stored, and whether more follow. */
  method WriteDigit(buf: array<char>, len: nat, value: nat, base: nat, upper: bool, ghost full: string)
    returns (rest: nat, more: bool)
    requires len < buf.Length && 2 <= base <= 16
    requires full == buf[..len] + Digits(value, base, upper, buf.Length - len)
    modifies buf
    ensures more ==> len + 1 < buf.Length
    ensures full == buf[..len + 1] + Pending(more, rest, base, upper, buf.Length - len - 1)
  {
    var c;
    c, rest := NextDigit(value, base, upper);
    DigitsStep(full, buf[..len], value, base, upper, buf.Length - len, c, rest);
    buf[len] := c;
    assert buf[..len + 1] == old(buf[..len]) + [c];
    more := rest != 0 && len + 1 < buf.Length;
  }

  /** The digit loop of _ntoa_long. */
  method WriteDigits(buf: array<char>, number: nat, base: nat, upper: bool) returns (len: nat)
    requires buf.Length > 0 && 2 <= base <= 16
    modifies buf
    ensures len <= buf.Length && buf[..len] == Digits(number, base, upper, buf.Length)
  {
    ghost var full := Digits(number, base, upper, buf.Length);
    len := 0;
    var value: nat := number;
    var more := true;
    while more
      invariant len <= buf.Length && (more ==> len < buf.Length)
      invariant full == buf[..len] + Pending(more, value, base, upper, buf.Length - len)
      decreases buf.Length - len
    {
      value, more := WriteDigit(buf, len, value, base, upper, full);
      len := len + 1;
    }
  }

  // ----- Reading the format -----

  /** _strnlen_s; a negative size stands for (size_t)-1, which no string reaches. */
  method StrNLen(s: string, maxsize: int) returns (n: nat)
    ensures n == StrLen(s, maxsize)
  {
    var left := maxsize;
    n := 0;
    while At(s, n) != '\0' && left != 0
      invariant n <= |s| && left == maxsize - n
      invariant StrLen(s, maxsize) == n + StrLen(s[n..], left)
      decreases |s| - n
    {
      assert s[n..][1..] == s[n + 1..];
      n, left := n + 1, left - 1;
    }
  }

  method SizeOf(s: string, prec: nat, fl: Flags) returns (l: nat)
    ensures l == StringSize(s, prec, fl)
  {
    l := StrNLen(s, if prec != 0 then prec else -1);
    l := U32(l);
    if fl.precision && prec < l {
      l := prec;
    }
  }

  /** _atoi, at position i of the format. */
  method Atoi(fmt: string, i: nat) returns (n: nat, j: nat)
    ensures (n, j) == AtoiFrom(fmt, i, 0)
  {
    n, j := 0, i;
    while IsDigit(At(fmt, j))
      invariant AtoiFrom(fmt, i, 0) == AtoiFrom(fmt, j, n)
      decreases |fmt| - j
    {
      n, j := U32(n * 10 + (fmt[j] as int - '0' as int)), j + 1;
    }
  }

  method EvalFlags(fmt: string, i: nat) returns (fl: Flags, j: nat)
    ensures (fl, j) == FlagsFrom(fmt, i, NO_FLAGS)
  {
    fl, j := NO_FLAGS, i;
    var more := true;
    while more
      invariant FlagsFrom(fmt, i, NO_FLAGS) == FlagsFrom(fmt, j, fl)
      invariant !more ==> FlagsFrom(fmt, j, fl) == (fl, j)
      decreases more, |fmt| - j
    {
      match At(fmt, j)
      case '0' => fl, j := fl.(zeropad := true), j + 1;
      case '-' => fl, j := fl.(left := true), j + 1;
      case '+' => fl, j := fl.(plus := true), j + 1;
      case ' ' => fl, j := fl.(space := true), j + 1;
      case '#' => fl, j := fl.(hash := true), j + 1;
      case _ => more := false;
    }
  }

  method EvalWidth(fmt: string, i: nat, args: seq<Arg>, a: nat, fl: Flags) returns (p: Parsed)
    requires WidthFrom(fmt, i, args, a, fl).Some?
    ensures p == WidthFrom(fmt, i, args, a, fl).value
  {
    var width, flags, j, b := 0, fl, i, a;
    if IsDigit(At(fmt, i)) {
      width, j := Atoi(fmt, i);
    } else if At(fmt, i) == '*' {
      var w := I32(args[a].v);
      b := a + 1;
      if w < 0 {
        flags := flags.(left := true);
        width := U32(-w);
      } else {
        width := w;
      }
      j := i + 1;
    }
    p := Parsed(width, flags, j, b);
  }

  method EvalPrecision(fmt: string, i: nat, args: seq<Arg>, a: nat, fl: Flags) returns (p: Parsed)
    requires PrecisionFrom(fmt, i, args, a, fl).Some?
    ensures p == PrecisionFrom(fmt, i, args, a, fl).value
  {
    var precision, flags, j, b := 0, fl, i, a;
    if At(fmt, i) == '.' {
      flags := flags.(precision := true);
      j := i + 1;
      if IsDigit(At(fmt, j)) {
        precision, j := Atoi(fmt, j);
      } else if At(fmt, j) == '*' {
        var prec := I32(args[a].v);
        b := a + 1;
        precision := if prec > 0 then prec else 0;
        j := j + 1;
      }
    }
    p := Parsed(precision, flags, j, b);
  }

  method EvalLength(fmt: string, i: nat, fl: Flags) returns (flags: Flags, j: nat)
    ensures flags == LengthFlags(At(fmt, i), At(fmt, i + 1), fl)
    ensures j == i + LengthSize(At(fmt, i), At(fmt, i + 1))
  {
    var c, d := At(fmt, i), At(fmt, i + 1);
    var isLong, isLongLong, isShort, isChar, size := EvalModifier(c, d, fl);
    flags := fl.(isLong := isLong, isLongLong := isLongLong, isShort := isShort, isChar := isChar);
    j := i + size;
  }

  /** The switch on the length modifier. */
  method EvalModifier(c: char, d: char, fl: Flags)
    returns (isLong: bool, isLongLong: bool, isShort: bool, isChar: bool, size: nat)
    ensures isLong == (fl.isLong || c == 'l' || c == 'j' || c == 'z')
    ensures isLongLong == (fl.isLongLong || (c == 'l' && d == 'l'))
    ensures isShort == (fl.isShort || c == 'h') && isChar == (fl.isChar || (c == 'h' && d == 'h'))
    ensures size == LengthSize(c, d)
  {
    isLong, isLongLong, isShort, isChar, size := fl.isLong, fl.isLongLong, fl.isShort, fl.isChar, 0;
    if c == 'l' {
      isLong, size := true, 1;
      if d == 'l' {
        isLongLong, size := true, 2;
      }
    } else if c == 'h' {
      isShort, size := true, 1;
      if d == 'h' {
        isChar, size := true, 2;
      }
    } else if c == 'j' || c == 'z' {
      isLong, size := true, 1;
    }
  }

  /** The base of an integer specifier; decimal drops '#'. */
  method EvalBase(c: char, fl: Flags) returns (base: nat, hash: bool)
    ensures base == BaseOf(c) && hash == (fl.hash && BaseOf(c) != 10)
  {
    hash := fl.hash;
    if c == 'x' || c == 'X' {
      base := 16;
    } else if c == 'o' {
      base := 8;
    } else if c == 'b' {
      base := 2;
    } else {
      base := 10;
      hash := false;
    }
  }

  method EvalSigns(c: char, fl: Flags) returns (plus: bool, space: bool, zeropad: bool)
    ensures plus == (fl.plus && IsSigned(c)) && space == (fl.space && IsSigned(c))
    ensures zeropad == (fl.zeropad && !fl.precision)
  {
    plus, space, zeropad := fl.plus, fl.space, fl.zeropad;
    if c != 'i' && c != 'd' {
      plus, space := false, false;
    }
    if fl.precision {
      zeropad := false;
    }
  }

  /** The base and flags of an integer specifier. */
  method EvalInteger(c: char, fl: Flags) returns (base: nat, flags: Flags)
    ensures base == BaseOf(c) && flags == IntegerFlags(c, fl)
  {
    var hash;
    base, hash := EvalBase(c, fl);
    var uppercase := fl.uppercase || c == 'X';
    var plus, space, zeropad := EvalSigns(c, fl);
    flags := fl.(hash := hash, uppercase := uppercase, plus := plus, space := space, zeropad := zeropad);
  }

  // ----- vsnprintf_ -----

  /**
   The snprintf contract: the result is the length of the full text whatever
   the buffer is, the buffer holds as much of the text as fits and a NUL, and
   nothing else of it changes.
   */
  method Vsnprintf(buffer: array?<char>, count: nat, fmt: string, args: seq<Arg>) returns (ret: int)
    requires count < TWO64 && Format(fmt, args).Some?
    requires buffer != null && count > 0 ==> Kept(|Format(fmt, args).value|, count) < buffer.Length
    modifies buffer
    ensures ret == I32(|Format(fmt, args).value|)
    ensures buffer != null && count == 0 ==> buffer[..] == old(buffer[..])
    ensures var full := Format(fmt, args).value;
            var n := Kept(|full|, count);
            buffer != null && count > 0 ==> buffer[..] == full[..n] + ['\0'] + old(buffer[..])[n + 1..]
  {
    var sink := new Sink(buffer, count);
    sink.PutFormat(fmt, args);
    sink.End();
    return I32(sink.idx);
  }
}
