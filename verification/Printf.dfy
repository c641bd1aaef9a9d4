/** The formatted-output engine of printf.c: a directive parser, a digit generator
    and a layout, printing through a sink that may be full. */
module Printf {
  import opened PrintfText
  import opened PrintfProofs
  import Meaning = PrintfMeaning

  // ---------------------------------------------------------------- sinks

  /** The function a caller passes to do_printf. */
  datatype Func = DoPutchar | DoSnputchar

  /** The function and its data: the characters putchar was given, or the buffer
      and room of struct snputchar_data. */
  class Sink {
    const func: Func
    const buf: array<char>
    const size: nat               // room at the start
    var console: string
    var pos: nat                  // where p->buf points
    var len: nat                  // p->len
    ghost var accepted: string    // the characters taken so far

    constructor (func: Func, buf: array<char>, size: nat)
      requires size <= buf.Length
      ensures this.func == func && this.buf == buf && this.size == size
      ensures Valid() && accepted == "" && (func == DoSnputchar ==> len == size) && (func == DoPutchar ==> console == "")
    {
      this.func := func;
      this.buf := buf;
      this.size := size;
      console := "";
      pos := 0;
      len := size;
      accepted := "";
    }

    /** What the buffer holds when a has been accepted: the last place is a NUL's. */
    static function Stored(a: string, size: nat): string
      requires |a| <= size
    {
      if |a| == size && size > 0 then a[..size - 1] + [NUL] else a
    }

    ghost predicate Valid()
      reads this, buf
    {
      && size <= buf.Length
      && (func == DoPutchar ==> console == accepted)
      && (func == DoSnputchar ==>
            && pos == |accepted|
            && pos + len == size
            && buf[..pos] == Stored(accepted, size))
    }

    /** How many of n characters the sink takes: all, or as many as it has room for. */
    ghost function Takes(n: nat): nat
      reads this
    {
      if func == DoPutchar then n else Min(n, len)
    }

    /** The sink was offered text, took the first n characters of it, and as many
        as it could; the buffer behind them is untouched. */
    twostate predicate Printed(text: string, n: int)
      reads this, buf
    {
      && Valid()
      && n == old(Takes(|text|))
      && accepted == old(accepted) + text[..n]
      && (func == DoSnputchar ==> len == old(len) - n)
      && (func == DoSnputchar ==> forall k :: pos <= k < buf.Length ==> buf[k] == old(buf[k]))
      && (func == DoPutchar ==> forall k :: 0 <= k < buf.Length ==> buf[k] == old(buf[k]))
    }

    /** The same, told from a state with these values. */
    ghost predicate Since(before: string, room: nat, b: seq<char>, text: string, n: int)
      reads this, buf
    {
      && Valid() && |b| == buf.Length
      && n == (if func == DoPutchar then |text| else Min(|text|, room))
      && accepted == before + text[..n]
      && (func == DoSnputchar ==> len == room - n)
      && (forall k :: (if func == DoPutchar then 0 else pos) <= k < |b| ==> buf[k] == b[k])
    }

    /** Nothing follows what a full sink cut short. */
    lemma CutShort(before: string, room: nat, b: seq<char>, text: string, rest: string, n: int)
      requires Since(before, room, b, text, n) && n < |text|
      ensures Since(before, room, b, text + rest, n)
    {
      assert (text + rest)[..n] == text[..n];
    }

    /** (*func)(c, data): 0, or -1 when the sink is full, and then it stays full. */
    method Put(c: char) returns (r: int)
      requires Valid()
      modifies this, buf
      ensures r == 0 || r == -1
      ensures Printed([c], r + 1)
    {
      match func
      case DoPutchar =>
        console := console + [c];
        accepted := accepted + [c];
        r := 0;
      case DoSnputchar =>
        if len == 0 {
          return -1;
        }
        len := len - 1;
        buf[pos] := if len == 0 then NUL else c;
        pos := pos + 1;
        accepted := accepted + [c];
        r := 0;
        assert Stored(accepted, size) == Stored(accepted[..pos - 1], size) + [buf[pos - 1]];
    }
  }

  lemma TakeConcat(t: string, u: string, n: nat, k: nat)
    requires n <= |t| && k <= |u| && (n == |t| || k == 0)
    ensures (t + u)[..n + k] == t[..n] + u[..k]
  {
  }

  /** while (count--) PUTCHAR (c); */
  method Fill(sink: Sink, c: char, count: nat) returns (n: nat, ok: bool)
    requires sink.Valid()
    modifies sink, sink.buf
    ensures sink.Printed(Repeat(c, count), n)
    ensures ok <==> n == count
  {
    n := 0;
    var left := count;
    while left > 0
      invariant left == count - n
      invariant sink.Printed(Repeat(c, n), n)
    {
      left := left - 1;
      label L:
      var r := sink.Put(c);
      if r < 0 {
        return n, false;
      }
      assert Repeat(c, n + 1) == Repeat(c, n) + [c];
      n := n + 1;
    }
    ok := true;
  }

  /** while (count--) PUTCHAR (*s++); */
  method PutChars(sink: Sink, s: string) returns (n: nat, ok: bool)
    requires sink.Valid()
    modifies sink, sink.buf
    ensures sink.Printed(s, n)
    ensures ok <==> n == |s|
  {
    hide Sink.Stored;
    n := 0;
    var left := |s|;
    while left > 0
      invariant n <= |s| && left == |s| - n
      invariant sink.Printed(s[..n], n)
    {
      left := left - 1;
      var r := sink.Put(s[n]);
      if r < 0 {
        return n, false;
      }
      assert s[..n + 1] == s[..n] + [s[n]];
      n := n + 1;
    }
    assert s[..n] == s;
    ok := true;
  }

  // ---------------------------------------------------------------- digits

  /** A table of powers of the base, downwards to 1, and a 0. */
  predicate Table(sub: seq<int>, base: nat) {
    && 2 <= base && |sub| >= 2
    && sub[|sub| - 1] == 0 && sub[|sub| - 2] == 1
    && forall i :: 0 <= i < |sub| - 2 ==> sub[i] == base * sub[i + 1]
  }

  const SUB10: seq<int> := [
    10000000000000000000,
    1000000000000000000,
    100000000000000000,
    10000000000000000,
    1000000000000000,
    100000000000000,
    10000000000000,
    1000000000000,
    100000000000,
    10000000000,
    1000000000,
    100000000,
    10000000,
    1000000,
    100000,
    10000,
    1000,
    100,
    10,
    1,
    0
  ]

  const SUB8: seq<int> := [
    0x8000000000000000,
    0x1000000000000000,
    0x200000000000000,
    0x40000000000000,
    0x8000000000000,
    0x1000000000000,
    0x200000000000,
    0x40000000000,
    0x8000000000,
    0x1000000000,
    0x200000000,
    0x40000000,
    0x8000000,
    0x1000000,
    0x200000,
    0x40000,
    0x8000,
    0x1000,
    0x200,
    0x40,
    0x8,
    0x1,
    0
  ]

  const SUB16: seq<int> := [
    0x1000000000000000,
    0x100000000000000,
    0x10000000000000,
    0x1000000000000,
    0x100000000000,
    0x10000000000,
    0x1000000000,
    0x100000000,
    0x10000000,
    0x1000000,
    0x100000,
    0x10000,
    0x1000,
    0x100,
    0x10,
    0x1,
    0
  ]

  lemma Tables()
    ensures Table(SUB10, 10) && |SUB10| == 21 && U64_RANGE <= 10 * SUB10[0]
    ensures Table(SUB8, 8) && |SUB8| == 23 && U64_RANGE <= 8 * SUB8[0]
    ensures Table(SUB16, 16) && |SUB16| == 17 && U64_RANGE <= 16 * SUB16[0]
  {
  }

  /** What the digits written so far leave to write, in units of the digit before. */
  function Unit(sub: seq<int>, i: nat, base: nat): int
    requires i < |sub|
  {
    if sub[i] == 0 then 1 else base * sub[i]
  }

  lemma {:induction false} TablePositive(sub: seq<int>, base: nat, i: nat)
    requires Table(sub, base) && i < |sub| - 1
    ensures sub[i] >= 1
    decreases |sub| - i
  {
    if i < |sub| - 2 {
      TablePositive(sub, base, i + 1);
      MulMono(1, sub[i + 1], base);
    }
  }

  lemma DigitStep(v: int, q: int, base: int, s: int, r: int, d: int, rest: int)
    requires v == q * (base * s) + r && r == d * s + rest
    ensures v == (q * base + d) * s + rest
  {
  }

  lemma DigitBound(d: int, base: int, s: int, rest: int)
    requires 0 <= rest && 1 <= s && d * s + rest < base * s
    ensures d < base
  {
    if d >= base {
      MulMono(base, d, s);
    }
  }

  /** The loop of valconv that finds one digit. */
  method CountOff(r: nat, s: int) returns (digit: nat, rest: nat)
    requires s >= 1
    ensures r == digit * s + rest && rest < s
  {
    digit, rest := 0, r;
    while rest >= s
      invariant r == digit * s + rest
    {
      digit := digit + 1;
      rest := rest - s;
    }
  }

  /** valconv: the digits of val, most significant first, by repeated subtraction. */
  method Valconv(val: nat, buf: array<char>, sub: seq<int>, str: string, ghost base: nat) returns (n: nat)
    requires Table(sub, base) && |str| == base && str[0] == '0' && val < base * sub[0] && |sub| - 1 <= buf.Length
    modifies buf
    ensures n <= |sub| - 1
    ensures buf[..n] == Numeral(val, base, str)
  {
    if val == 0 {
      buf[0] := '0';
      return 1;
    }
    n := 0;
    var v, i := val, 0;
    while v < sub[i]
      invariant 0 <= i <= |sub| - 2 && v < base * sub[i]
      decreases |sub| - i
    {
      i := i + 1;
    }
    ghost var q := 0;
    TablePositive(sub, base, i);
    while sub[i] != 0
      invariant 0 <= i < |sub| && n <= i && q >= 0
      invariant 0 <= v < Unit(sub, i, base)
      invariant val == q * Unit(sub, i, base) + v
      invariant n == 0 ==> q == 0 && sub[i] != 0 && v >= sub[i]
      invariant n > 0 ==> q > 0 && buf[..n] == Numeral(q, base, str)
      decreases |sub| - i
    {
      var digit, rest := CountOff(v, sub[i]);
      NextDigit(val, q, base, sub, i, v, digit, rest, str);
      buf[n] := str[digit];
      assert n > 0 ==> buf[..n + 1] == Numeral(q, base, str) + [str[digit]];
      assert n == 0 ==> buf[..n + 1] == [str[digit]];
      v, n, i, q := rest, n + 1, i + 1, q * base + digit;
    }
  }

  /** One digit off what is left keeps valconv's accounts. */
  lemma NextDigit(val: nat, q: nat, base: nat, sub: seq<int>, i: nat, v: nat, digit: nat, rest: nat, str: string)
    requires Table(sub, base) && i < |sub| - 1 && |str| == base
    requires v < Unit(sub, i, base) && val == q * Unit(sub, i, base) + v
    requires v == digit * sub[i] + rest && rest < sub[i]
    requires q == 0 ==> v >= sub[i]
    ensures digit < base
    ensures rest < Unit(sub, i + 1, base)
    ensures q * base + digit > 0
    ensures val == (q * base + digit) * Unit(sub, i + 1, base) + rest
    ensures q > 0 ==> Numeral(q * base + digit, base, str) == Numeral(q, base, str) + [str[digit]]
    ensures q == 0 ==> q * base + digit == digit && Numeral(digit, base, str) == [str[digit]]
  {
    TablePositive(sub, base, i);
    DigitBound(digit, base, sub[i], rest);
    DigitStep(val, q, base, sub[i], v, digit, rest);
    NextUnit(sub, i, base);
    NumeralAppend(q, base, digit, str);
    if digit == 0 { assert digit * sub[i] == 0; }
  }

  lemma NextUnit(sub: seq<int>, i: nat, base: nat)
    requires Table(sub, base) && i < |sub| - 1
    ensures Unit(sub, i + 1, base) == sub[i]
  {
    if i < |sub| - 2 {
      TablePositive(sub, base, i + 1);
    }
  }

  /** Writing one more digit. */
  lemma NumeralAppend(q: nat, base: nat, d: nat, str: string)
    requires d < base && 2 <= base <= |str|
    ensures q * base + d >= 0
    ensures q > 0 ==> q * base + d > 0 && Numeral(q * base + d, base, str) == Numeral(q, base, str) + [str[d]]
    ensures q == 0 ==> Numeral(d, base, str) == [str[d]]
  {
    AtLeastTwice(q, base);
    if q > 0 {
      MulMono(1, q, base);
      QuotientUnique(q * base + d, base, q, d);
    }
  }

  lemma QuotientUnique(v: nat, base: nat, q: nat, d: nat)
    requires 2 <= base && v == q * base + d && d < base
    ensures v / base == q && v % base == d
  {
    var k := v / base - q;
    assert v == v / base * base + v % base;
    assert k * base == d - v % base;
    if k >= 1 { MulMono(1, k, base); }
    if k <= -1 { MulMono(k, -1, base); }
  }

  // ---------------------------------------------------------------- conversions

  /** The digits of do_conversion_int, in its buffer of 32 characters. */
  method ConvertDigits(val: nat, f: Flags) returns (buf: array<char>, len: nat)
    requires val < U64_RANGE
    ensures fresh(buf) && len <= buf.Length && buf[..len] == DigitsOf(val, f)
  {
    Tables();
    buf := new char[32];
    len := 0;
    if ConversionDecimal in f {
      len := Valconv(val, buf, SUB10, DEC, 10);
    } else if ConversionOctal in f {
      len := Valconv(val, buf, SUB8, OCT, 8);
    } else if ConversionHexadecimal in f && ConversionCapital in f {
      len := Valconv(val, buf, SUB16, HEX_CAPITAL, 16);
    } else if ConversionHexadecimal in f {
      len := Valconv(val, buf, SUB16, HEX_SMALL, 16);
    }
  }

  /** The lengths of the parts that do_conversion_int puts around the digits. */
  method Measure(val: nat, f: Flags, width: int, precision: int, len: nat)
    returns (leftsp: nat, leftbuf: string, leftzero: nat, rightsp: nat)
    ensures var zeros := PrecisionZeros(f, precision, len);
      var prefix := Prefix(val, f, zeros);
      var pad := Padding(f, width, |prefix| + zeros + len);
      && leftbuf == prefix
      && leftsp == (if LeftAdjusted in f || (ZeroPadded in f && HasPrecision !in f) then 0 else pad)
      && leftzero == zeros + (if PadsWithZeros(f) then pad else 0)
      && rightsp == (if LeftAdjusted in f then pad else 0)
  {
    leftsp, leftbuf, leftzero, rightsp := 0, "", 0, 0;
    if HasPrecision in f && precision > len {
      leftzero := precision - len;
    }
    if ConversionDecimal !in f && AlternateForm in f && val != 0 {
      if ConversionOctal in f && leftzero == 0 {
        leftbuf := "0";
      } else if ConversionHexadecimal in f {
        if ConversionCapital in f {
          leftbuf := "0X";
        } else {
          leftbuf := "0x";
        }
      }
    }
    if ConversionDecimal in f {
      if FlagPlus in f {
        if PositiveSign in f {
          leftbuf := "+";
        } else if PositiveBlank in f {
          leftbuf := " ";
        }
      } else if FlagMinus in f {
        leftbuf := "-";
      }
    }
    if HasWidth in f && width > |leftbuf| + leftzero + len {
      if LeftAdjusted in f {
        rightsp := width - (|leftbuf| + leftzero + len);
      } else {
        leftsp := width - (|leftbuf| + leftzero + len);
      }
    }
    if ZeroPadded in f && HasPrecision !in f {
      leftzero := leftzero + leftsp;
      leftsp := 0;
    }
  }

  method DoConversionInt(val: nat, f: Flags, width: int, precision: int, sink: Sink) returns (n: nat)
    requires sink.Valid() && val < U64_RANGE
    modifies sink, sink.buf
    ensures sink.Printed(IntText(val, f, width, precision), n)
  {
    hide Sink.Stored;
    hide DigitsOf;
    hide Padding;
    hide Layout;
    if ConversionCharacter in f {
      var r := sink.Put(Low(val));
      return if r < 0 then 0 else 1;
    }
    if HasPrecision in f && precision == 0 && val == 0 {
      return 0;
    }
    var buf, len := ConvertDigits(val, f);
    var leftsp, leftbuf, leftzero, rightsp := Measure(val, f, width, precision, len);
    IntLayout(val, f, width, precision);
    n := PrintLayout(sink, leftsp, leftbuf, leftzero, buf[..len], rightsp);
  }

  /** The output loops of do_conversion_int in front of the digits. */
  method PrintFront(sink: Sink, leftsp: nat, leftbuf: string, leftzero: nat) returns (n: nat, ok: bool)
    requires sink.Valid()
    modifies sink, sink.buf
    ensures sink.Printed(Repeat(' ', leftsp) + leftbuf + Repeat('0', leftzero), n)
    ensures ok <==> n == leftsp + |leftbuf| + leftzero
  {
    hide Repeat;
    hide Sink.Stored;
    var k: nat;
    n, ok := PrintSign(sink, leftsp, leftbuf);
    TakePrefix(Repeat(' ', leftsp) + leftbuf, Repeat('0', leftzero), n);
    if ok {
      k, ok := Fill(sink, '0', leftzero);
      TakeConcat(Repeat(' ', leftsp) + leftbuf, Repeat('0', leftzero), n, k);
      n := n + k;
    }
  }

  method PrintSign(sink: Sink, leftsp: nat, leftbuf: string) returns (n: nat, ok: bool)
    requires sink.Valid()
    modifies sink, sink.buf
    ensures sink.Printed(Repeat(' ', leftsp) + leftbuf, n)
    ensures ok <==> n == leftsp + |leftbuf|
  {
    hide Repeat;
    hide Sink.Stored;
    var k: nat;
    n, ok := Fill(sink, ' ', leftsp);
    TakePrefix(Repeat(' ', leftsp), leftbuf, n);
    if ok {
      k, ok := PutChars(sink, leftbuf);
      TakeConcat(Repeat(' ', leftsp), leftbuf, n, k);
      n := n + k;
    }
  }

  method PrintDigits(sink: Sink, digits: string, rightsp: nat) returns (n: nat)
    requires sink.Valid()
    modifies sink, sink.buf
    ensures sink.Printed(digits + Repeat(' ', rightsp), n)
  {
    hide Repeat;
    hide Sink.Stored;
    var k: nat, ok: bool;
    n, ok := PutChars(sink, digits);
    TakePrefix(digits, Repeat(' ', rightsp), n);
    if ok {
      k, ok := Fill(sink, ' ', rightsp);
      TakeConcat(digits, Repeat(' ', rightsp), n, k);
      n := n + k;
    }
  }

  /** The five output loops of do_conversion_int. */
  method PrintLayout(sink: Sink, leftsp: nat, leftbuf: string, leftzero: nat, digits: string, rightsp: nat) returns (n: nat)
    requires sink.Valid()
    modifies sink, sink.buf
    ensures sink.Printed(Layout(leftsp, leftbuf, leftzero, digits, rightsp), n)
  {
    hide Sink.Stored;
    hide Repeat;
    ghost var front, back := Repeat(' ', leftsp) + leftbuf + Repeat('0', leftzero), digits + Repeat(' ', rightsp);
    assert Layout(leftsp, leftbuf, leftzero, digits, rightsp) == front + back;
    hide Layout;
    var ok;
    n, ok := PrintFront(sink, leftsp, leftbuf, leftzero);
    TakePrefix(front, back, n);
    if ok {
      var k := PrintDigits(sink, digits, rightsp);
      TakeConcat(front, back, n, k);
      n := n + k;
    }
  }

  lemma TakePrefix(t: string, u: string, n: nat)
    requires n <= |t|
    ensures (t + u)[..n] == t[..n]
  {
  }

  /** The character at an index of a C string: its NUL stands behind it. */
  function CharAt(s: string, i: nat): char {
    if i < |s| then s[i] else NUL
  }

  lemma {:induction false} CStringIs(s: string)
    ensures var t := CString(s);
      t <= s && CharAt(s, |t|) == NUL && forall k :: 0 <= k < |t| ==> s[k] != NUL
  {
    if s != "" && s[0] != NUL {
      CStringIs(s[1..]);
      var t := CString(s[1..]);
      assert CString(s) == [s[0]] + t;
      forall k | 0 <= k < |CString(s)| ensures s[k] != NUL && s[k] == CString(s)[k] {
        if k > 0 {
          assert s[k] == s[1..][k - 1];
        }
      }
    }
  }

  /** The characters of a string that a precision lets through. */
  method MeasureString(str: string, f: Flags, precision: int) returns (len: nat)
    ensures len <= |str| && len <= |CString(str)| && str[..len] == CString(str)[..len]
    ensures len == if HasPrecision in f && precision < |CString(str)| then Max(precision, 0) else |CString(str)|
  {
    CStringIs(str);
    len := 0;
    while !(HasPrecision in f && len >= precision) && CharAt(str, len) != NUL
      invariant len <= |CString(str)|
      invariant HasPrecision in f ==> len == 0 || len <= precision
      decreases |CString(str)| - len
    {
      len := len + 1;
    }
  }

  method DoConversionString(str: string, f: Flags, width: int, precision: int, sink: Sink) returns (n: nat)
    requires sink.Valid()
    modifies sink, sink.buf
    ensures sink.Printed(StringText(str, f, width, precision), n)
  {
    hide CString;
    hide StringText;
    hide Layout;
    hide Repeat;
    var len := MeasureString(str, f, precision);
    var leftsp, rightsp := 0, 0;
    if HasWidth in f && width > len {
      if LeftAdjusted in f {
        rightsp := width - len;
      } else {
        leftsp := width - len;
      }
    }
    StringLayout(str, f, width, precision, len);
    n := PrintLayout(sink, leftsp, "", 0, str[..len], rightsp);
  }

  lemma StringLayout(str: string, f: Flags, width: int, precision: int, len: nat)
    requires len <= |CString(str)|
    requires len == if HasPrecision in f && precision < |CString(str)| then Max(precision, 0) else |CString(str)|
    ensures var text := CString(str)[..len];
      var pad := Padding(f, width, len);
      StringText(str, f, width, precision) ==
        Layout(if LeftAdjusted in f then 0 else pad, "", 0, text, if LeftAdjusted in f then pad else 0)
  {
    hide CString;
    var text := CString(str)[..len];
    var pad := Padding(f, width, len);
    LayoutEnds(pad, "", 0, text);
    assert Repeat('0', 0) == "";
    assert "" + Repeat('0', 0) + text == text;
    assert Repeat(' ', pad) + "" + Repeat('0', 0) + text == Repeat(' ', pad) + text;
  }

  // ---------------------------------------------------------------- parsing

  /** parse_format's loop over flags. */
  method ScanFlags(s: string, p: nat) returns (r: Flags, e: nat)
    requires OneString(s) && Terminated(s, p)
    ensures e == Span(s, p, IsFlag) < |s| && r == FlagsOf(s[p..e]) && Terminated(s, e)
  {
    hide OneString;
    SpanTerminated(s, p, IsFlag);
    r, e := {}, p;
    while IsFlag(s[e])
      invariant p <= e < |s| && Terminated(s, e)
      invariant Span(s, p, IsFlag) == Span(s, e, IsFlag)
      invariant r == FlagsOf(s[p..e])
      decreases |s| - e
    {
      assert s[p..e + 1] == s[p..e] + [s[e]];
      r := r + {FlagOf(s[e])};
      SpanTerminated(s, e, IsFlag);
      e := e + 1;
    }
  }

  /** parse_format's loops over digits. */
  method ScanNumber(s: string, p: nat) returns (v: int, e: nat)
    requires OneString(s) && Terminated(s, p)
    ensures e == Span(s, p, IsDigit) < |s| && v == Value(s[p..e], 10) && Terminated(s, e)
  {
    hide OneString;
    SpanTerminated(s, p, IsDigit);
    v, e := 0, p;
    while '0' <= s[e] <= '9'
      invariant p <= e < |s| && Terminated(s, e)
      invariant Span(s, p, IsDigit) == Span(s, e, IsDigit)
      invariant v == Value(s[p..e], 10)
      decreases |s| - e
    {
      assert s[p..e + 1][..e - p] == s[p..e];
      v := v * 10;
      v := v + (s[e] as int - '0' as int);
      SpanTerminated(s, e, IsDigit);
      e := e + 1;
    }
  }

  /** parse_format's loop over length modifiers. */
  method ScanLengths(s: string, p: nat, flags: Flags) returns (r: Flags, e: nat)
    requires OneString(s) && Terminated(s, p) && forall c :: c in flags ==> !IsLengthFlag(c)
    ensures e == Span(s, p, IsLength) < |s| && r == flags + LengthsOf(s[p..e]) && Terminated(s, e)
  {
    hide IsLengthFlag;
    hide Span;
    hide OneString;
    hide AddLength;
    SpanTerminated(s, p, IsLength);
    r, e := flags, p;
    while IsLength(s[e])
      invariant p <= e < |s| && Terminated(s, e)
      invariant Span(s, p, IsLength) == Span(s, e, IsLength)
      invariant r == flags + LengthsOf(s[p..e])
      decreases |s| - e
    {
      assert s[p..e + 1] == s[p..e] + [s[e]];
      LengthsStep(flags, s[p..e], s[e]);
      r := AddLength(r, s[e]);
      SpanTerminated(s, e, IsLength);
      e := e + 1;
    }
  }

  predicate IsLengthFlag(f: Flag) {
    f == LengthShort || f == LengthChar || f == LengthLong || f == LengthLongLong
    || f == LengthIntmax || f == LengthSize || f == LengthPtrdiff
  }

  /** One length character means the same whatever flags came before. */
  lemma LengthsStep(flags: Flags, t: string, c: char)
    requires IsLength(c) && forall g :: g in flags ==> !IsLengthFlag(g)
    ensures AddLength(flags + LengthsOf(t), c) == flags + LengthsOf(t + [c])
  {
    assert LengthShort !in flags && LengthLong !in flags;
    assert (t + [c])[..|t|] == t;
  }

  /** parse_format.  It reads the format by index only, and the format ends with its NUL. */
  method ParseFormat(s: string, pos: nat) returns (d: Directive)
    requires OneString(s) && Terminated(s, pos)
    ensures d == Parse(s, pos)
  {
    hide OneString;
    var r, a := ScanFlags(s, pos);
    if s[a] == NUL {
      return Directive({EndString}, 0, 0, a + 1);
    }
    hide Span;
    hide Value;
    var width, b := ScanNumber(s, a);
    if a < b {
      r := r + {HasWidth};
    }
    if s[b] == NUL {
      return Directive({EndString}, width, 0, b + 1);
    }
    d := ParseRest(s, b, r, width);
  }

  /** parse_format behind the width. */
  method ParseRest(s: string, pos: nat, flags: Flags, width: int) returns (d: Directive)
    requires OneString(s) && Terminated(s, pos) && s[pos] != NUL && forall c :: c in flags ==> !IsLengthFlag(c)
    ensures d == ParsePrecision(s, pos, flags, width)
  {
    hide OneString;
    hide Span;
    hide Value;
    var precision, b, r := 0, pos, flags;
    if s[b] == '.' {
      r := r + {HasPrecision};
      NextTerminated(s, b);
      precision, b := ScanNumber(s, b + 1);
      if s[b] == NUL {
        return Directive({EndString}, width, precision, b + 1);
      }
    }
    var e;
    r, e := ScanLengths(s, b, r);
    if s[e] == NUL {
      return Directive({EndString}, width, precision, e + 1);
    }
    r := r + ConversionOf(s[e]);
    d := Directive(r, width, precision, e + 1);
  }

  // ---------------------------------------------------------------- do_printf

  /** The conversion that a directive calls for, on its argument. */
  method Convert(d: Directive, arg: Arg, sink: Sink) returns (n: nat)
    requires sink.Valid() && ConversionNone !in d.f
    modifies sink, sink.buf
    ensures sink.Printed(DirectiveText(d, arg), n)
  {
    WordRange(arg.word);
    hide IntText;
    hide StringText;
    hide AsInt;
    hide AsLong;
    var f := Widened(d.f);
    if ConversionInt in f {
      var intval := if Wide(f) then AsLong(arg.word) else AsInt(arg.word);
      if intval < 0 {
        n := DoConversionInt(-intval, f + {FlagMinus}, d.width, d.precision, sink);
      } else {
        n := DoConversionInt(intval, f + {FlagPlus}, d.width, d.precision, sink);
      }
    } else if ConversionUint in f {
      var uintval := if Wide(f) then arg.word % U64_RANGE else arg.word % U32_RANGE;
      n := DoConversionInt(uintval, f, d.width, d.precision, sink);
    } else if ConversionVoidp in f {
      n := DoConversionInt(arg.word % U64_RANGE, f, d.width, d.precision, sink);
    } else if ConversionCharp in f {
      var charpval := if arg.word == 0 then "(null)" else arg.text;
      n := DoConversionString(charpval, f, d.width, d.precision, sink);
    } else {
      FormatError();
      n := DoConversionString("FORMAT ERROR", {ConversionCharp}, 0, 0, sink);
    }
  }

  lemma NulFree(s: string)
    requires forall k :: 0 <= k < |s| ==> s[k] != NUL
    ensures CString(s) == s
  {
    CStringIs(s);
  }

  /** Without width and precision a string is printed as it is. */
  lemma PlainText(s: string)
    requires forall k :: 0 <= k < |s| ==> s[k] != NUL
    ensures StringText(s, {ConversionCharp}, 0, 0) == s
  {
    NulFree(s);
    hide CString;
    assert Repeat(' ', 0) + s == s;
  }

  lemma FormatError()
    ensures StringText("FORMAT ERROR", {ConversionCharp}, 0, 0) == "FORMAT ERROR"
  {
    hide StringText;
    PlainText("FORMAT ERROR");
  }

  lemma WordRange(w: int)
    ensures -U64_RANGE < AsInt(w) < U64_RANGE && -U64_RANGE < AsLong(w) < U64_RANGE
    ensures 0 <= w % U64_RANGE < U64_RANGE && 0 <= w % U32_RANGE < U64_RANGE
  {
  }

  /** One turn of do_printf's loop; go is false when it leaves the loop, at the end
      of the format inside a directive or at a sink that is full. */
  method PrintItem(format: string, p: nat, arg: Arg, sink: Sink) returns (m: nat, next: nat, takes: bool, go: bool)
    requires sink.Valid() && OneString(format) && Terminated(format, p) && format[p] != NUL
    modifies sink, sink.buf
    ensures Ended(format, p) ==> m == 0 && !go && sink.Printed("", 0)
    ensures !Ended(format, p) ==>
      && sink.Printed(ItemText(format, p, arg), m)
      && next == ItemNext(format, p) && takes == ItemTakes(format, p)
      && (go || m < |ItemText(format, p, arg)|)
  {
    hide OneString;
    NextTerminated(format, p);
    hide Parse;
    go, takes, next := true, false, p + 1;
    if format[p] == '%' {
      var d := ParseFormat(format, p + 1);
      if d.f == {EndString} {
        return 0, next, takes, false;
      }
      next, takes := d.next, TakesArgument(d.f);
      if ConversionNone in d.f {
        var r := sink.Put('%');
        m, go := if r < 0 then 0 else 1, r >= 0;
      } else {
        m := Convert(d, arg, sink);
      }
    } else {
      var r := sink.Put(format[p]);
      m, go := if r < 0 then 0 else 1, r >= 0;
    }
  }

  /** The same, adding to the n characters printed of `done`. */
  method PrintNext(format: string, p: nat, arg: Arg, sink: Sink, n: nat,
                   ghost before: string, ghost room: nat, ghost b: seq<char>, ghost done: string, ghost text: string)
    returns (n': nat, next: nat, takes: bool, go: bool)
    requires OneString(format) && Terminated(format, p) && format[p] != NUL && sink.Since(before, room, b, done, n)
    requires text == if Ended(format, p) then "" else ItemText(format, p, arg)
    modifies sink, sink.buf
    ensures sink.Since(before, room, b, done + text, n')
    ensures go ==> !Ended(format, p) && next == ItemNext(format, p) && takes == ItemTakes(format, p)
    ensures !go ==> Ended(format, p) || n' < |done + text|
  {
    hide OneString;
    hide ItemText;
    hide ItemNext;
    hide ItemTakes;
    hide Ended;
    var m;
    m, next, takes, go := PrintItem(format, p, arg, sink);
    TakeConcat(done, text, n, m);
    n' := n + m;
  }

  /** do_printf's loop: all items in turn, told from the state before it. */
  method PrintAll(format: string, args: Args, sink: Sink, ghost before: string, ghost room: nat, ghost b: seq<char>)
    returns (n: nat)
    requires OneString(format) && Terminated(format, 0) && sink.Since(before, room, b, "", 0)
    modifies sink, sink.buf
    ensures sink.Since(before, room, b, Output(format, 0, args, 0), n)
  {
    hide OneString;
    hide ItemText;
    hide ItemNext;
    hide ItemTakes;
    hide Ended;
    hide Output;
    hide Sink.Since;
    ghost var full, done := Output(format, 0, args, 0), "";
    n := 0;
    var p, k := 0, 0;
    assert full == done + full;
    while format[p] != NUL
      invariant Terminated(format, p) && p < |format|
      invariant full == done + Output(format, p, args, k)
      invariant sink.Since(before, room, b, done, n)
      decreases |format| - p
    {
      ghost var text, rest := OutputStep(format, p, args, k);
      var next, takes, go;
      n, next, takes, go := PrintNext(format, p, args(k), sink, n, before, room, b, done, text);
      ConcatAssoc(done, text, rest);
      done := done + text;
      if !go {
        if n < |done| {
          sink.CutShort(before, room, b, done, rest, n);
        } else {
          assert rest == "" && full == done;
        }
        return;
      }
      p := next;
      k := if takes then k + 1 else k;
    }
    EndedAtNul(format, p);
    assert full == done;
  }

  /** do_printf without its lock.  A conversion that fails does not stop it; the
      sink, once full, stays full. */
  method DoPrintf(format: string, args: Args, sink: Sink) returns (n: nat)
    requires sink.Valid() && OneString(format) && Terminated(format, 0)
    modifies sink, sink.buf
    ensures sink.Printed(Output(format, 0, args, 0), n)
  {
    hide OneString;
    hide Output;
    n := PrintAll(format, args, sink, sink.accepted, sink.len, sink.buf[..]);
  }

  /** The first item of an output and the rest. */
  lemma OutputStep(s: string, p: nat, args: Args, k: nat) returns (text: string, rest: string)
    requires Terminated(s, p)
    ensures Output(s, p, args, k) == text + rest
    ensures Ended(s, p) ==> text == rest == ""
    ensures !Ended(s, p) ==>
      text == ItemText(s, p, args(k)) && rest == Output(s, ItemNext(s, p), args, if ItemTakes(s, p) then k + 1 else k)
  {
    if Ended(s, p) {
      text, rest := "", "";
    } else {
      text := ItemText(s, p, args(k));
      rest := Output(s, ItemNext(s, p), args, if ItemTakes(s, p) then k + 1 else k);
    }
  }

  lemma EndedAtNul(s: string, p: nat)
    requires Terminated(s, p) && s[p] == NUL
    ensures Ended(s, p) && forall args, k :: Output(s, p, args, k) == ""
  {
  }

  lemma ConcatAssoc(a: string, b: string, c: string)
    ensures a + (b + c) == (a + b) + c
  {
  }

  /** vprintf: all of the output goes to the console, and its length is returned. */
  method Vprintf(format: string, args: Args) returns (r: nat, console: string)
    requires OneString(format) && Terminated(format, 0)
    ensures console == Output(format, 0, args, 0) && r == |console|
    ensures forall items {:trigger Meaning.FormatText(items)} ::
              (forall j :: 0 <= j < |items| ==> Meaning.ItemOk(items[j])) && format == Meaning.FormatText(items) + ['\0'] ==>
                console == Meaning.OutputText(items, args, 0)
  {
    hide OneString;
    var none := new char[0];
    var sink := new Sink(DoPutchar, none, 0);
    r := DoPrintf(format, args, sink);
    console := sink.console;
    forall items | (forall j :: 0 <= j < |items| ==> Meaning.ItemOk(items[j])) && format == Meaning.FormatText(items) + ['\0']
      ensures console == Meaning.OutputText(items, args, 0)
    {
      Meaning.FormatMeans(items, args);
    }
  }

  /** vsnprintf: as much of the output as fits in front of a NUL, and nothing
      outside the buffer; the result counts the characters the buffer took, the
      one replaced by the NUL included. */
  method Vsnprintf(str: array<char>, size: nat, format: string, args: Args) returns (r: nat)
    requires OneString(format) && Terminated(format, 0) && size <= str.Length
    modifies str
    ensures r == if |Output(format, 0, args, 0)| < size then |Output(format, 0, args, 0)| else size
    ensures size == 0 ==> str[..] == old(str[..])
    ensures size > 0 ==>
      var out := Output(format, 0, args, 0);
      var m := if |out| < size then |out| else size - 1;
      str[..m] == out[..m] && str[m] == NUL && str[m + 1..] == old(str[m + 1..])
  {
    hide OneString;
    hide Output;
    var data := new Sink(DoSnputchar, str, size);
    r := DoPrintf(format, args, data);
    ghost var out := Output(format, 0, args, 0);
    assert data.accepted == out[..r];
    var last := data.Put(NUL);
    if size > 0 {
      var m := Min(|out|, size - 1);
      assert str[..data.pos] == out[..m] + [NUL];
      assert str[..m] == str[..data.pos][..m];
    }
  }
}
