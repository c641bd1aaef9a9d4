/** What the output of printf.c means: numerals, layout, reading back, parsing. */
module PrintfProofs {
  import opened PrintfText

  // ---------------------------------------------------------------- numerals

  /** An alphabet whose d-th character reads as d. */
  predicate Alphabet(digits: string, base: nat) {
    2 <= base <= 16 && base == |digits| && forall d :: 0 <= d < base ==> DigitValue(digits[d]) == d
  }

  lemma Alphabets()
    ensures Alphabet(DEC, 10) && Alphabet(OCT, 8) && Alphabet(HEX_CAPITAL, 16) && Alphabet(HEX_SMALL, 16)
  {
  }

  function Pow(b: nat, n: nat): nat {
    if n == 0 then 1 else b * Pow(b, n - 1)
  }

  /** A numeral reads back as its value, each digit is one of the base, and the
      first is zero only in the numeral of zero. */
  lemma {:induction false} NumeralReads(v: nat, base: nat, digits: string)
    requires Alphabet(digits, base)
    ensures var s := Numeral(v, base, digits);
      && Value(s, base) == v
      && (forall k :: 0 <= k < |s| ==> 0 <= DigitValue(s[k]) < base && s[k] in digits)
      && (DigitValue(s[0]) == 0 <==> v == 0)
    decreases v
  {
    var s := Numeral(v, base, digits);
    if v < base {
      assert s == [digits[v]] && s[..0] == "";
      assert Value(s, base) == Value(s[..0], base) * base + DigitValue(s[0]);
    } else {
      QuotientLess(v, base);
      NumeralReads(v / base, base, digits);
      var t := Numeral(v / base, base, digits);
      assert s == t + [digits[v % base]];
      assert s[..|s| - 1] == t;
    }
  }

  /** No shorter string of digits has the value: a numeral has n digits exactly
      when base^(n-1) <= v < base^n (one digit for zero). */
  lemma {:induction false} NumeralLength(v: nat, base: nat, digits: string)
    requires 2 <= base <= |digits|
    ensures var n := |Numeral(v, base, digits)|;
      n >= 1 && v < Pow(base, n) && (n > 1 ==> Pow(base, n - 1) <= v)
    decreases v
  {
    if v >= base {
      QuotientLess(v, base);
      NumeralLength(v / base, base, digits);
      var n := |Numeral(v / base, base, digits)|;
      Scaled(v, base, v / base, Pow(base, n), if n > 1 then Pow(base, n - 1) else 1);
      assert Pow(base, n + 1) == base * Pow(base, n);
      assert Pow(base, 1) == base * Pow(base, 0);
    } else {
      assert Pow(base, 1) == base * Pow(base, 0);
    }
  }

  lemma Scaled(v: nat, base: nat, q: nat, high: nat, low: nat)
    requires 2 <= base && q * base <= v < q * base + base && low <= q < high
    ensures base * low <= v < base * high
  {
    MulMono(q + 1, high, base);
    MulMono(low, q, base);
  }

  lemma MulMono(a: int, b: int, c: int)
    requires a <= b && 0 <= c
    ensures a * c <= b * c
  {
  }

  lemma {:induction false} PowMono(b: nat, m: nat, n: nat)
    requires m <= n && 1 <= b
    ensures 1 <= Pow(b, m) <= Pow(b, n)
    decreases n
  {
    if m < n {
      PowMono(b, m, n - 1);
      MulMono(1, b, Pow(b, n - 1));
    } else if n > 0 {
      PowMono(b, m - 1, n - 1);
      MulMono(1, b, Pow(b, n - 1));
    }
  }

  /** A numeral of a value below base^n has at most n digits. */
  lemma NumeralAtMost(v: nat, base: nat, digits: string, n: nat)
    requires 2 <= base <= |digits| && v < Pow(base, n) && n >= 1
    ensures |Numeral(v, base, digits)| <= n
  {
    NumeralLength(v, base, digits);
    var k := |Numeral(v, base, digits)|;
    if k > n {
      PowMono(base, n, k - 1);
    }
  }

  /** Every 64-bit value fits the 32-byte digit buffer: at most 20, 22 and 16 digits. */
  lemma NumeralFits(v: nat)
    requires v < U64_RANGE
    ensures |Numeral(v, 10, DEC)| <= 20
    ensures |Numeral(v, 8, OCT)| <= 22
    ensures |Numeral(v, 16, HEX_CAPITAL)| <= 16
    ensures |Numeral(v, 16, HEX_SMALL)| <= 16
  {
    assert Pow(10, 10) == 10_000_000_000;
    assert Pow(10, 20) == 100_000_000_000_000_000_000;
    assert Pow(8, 11) == 0x2_0000_0000;
    assert Pow(8, 22) == 0x4_0000_0000_0000_0000;
    assert Pow(16, 8) == 0x1_0000_0000;
    assert Pow(16, 16) == 0x1_0000_0000_0000_0000;
    NumeralAtMost(v, 10, DEC, 20);
    NumeralAtMost(v, 8, OCT, 22);
    NumeralAtMost(v, 16, HEX_CAPITAL, 16);
    NumeralAtMost(v, 16, HEX_SMALL, 16);
  }

  /** Leading zeros do not change what a string of digits reads as. */
  lemma {:induction false} ZerosRead(n: nat, s: string, base: nat)
    ensures Value(Repeat('0', n) + s, base) == Value(s, base)
  {
    var t := Repeat('0', n) + s;
    if s != [] {
      assert t[..|t| - 1] == Repeat('0', n) + s[..|s| - 1];
      ZerosRead(n, s[..|s| - 1], base);
    } else if n > 0 {
      assert t[..|t| - 1] == Repeat('0', n - 1) + s;
      ZerosRead(n - 1, s, base);
    } else {
      assert t == s;
    }
  }

  // ---------------------------------------------------------------- layout

  /** Spaces, prefix, zeros, digits, spaces. */
  function Layout(left: nat, prefix: string, zeros: nat, digits: string, right: nat): string {
    Repeat(' ', left) + prefix + Repeat('0', zeros) + digits + Repeat(' ', right)
  }

  /** A conversion to digits in exactly one base. */
  predicate OneBase(f: Flags) {
    && ConversionCharacter !in f
    && (ConversionDecimal in f || ConversionOctal in f || ConversionHexadecimal in f)
    && !(ConversionDecimal in f && ConversionOctal in f)
    && !(ConversionDecimal in f && ConversionHexadecimal in f)
    && !(ConversionOctal in f && ConversionHexadecimal in f)
  }

  function BaseOf(f: Flags): nat {
    if ConversionDecimal in f then 10 else if ConversionOctal in f then 8 else 16
  }

  function Max(a: int, b: int): int {
    if a >= b then a else b
  }

  /** The one value printed as nothing at all. */
  predicate PrintsNothing(val: nat, f: Flags, precision: int) {
    HasPrecision in f && precision == 0 && val == 0
  }

  lemma IntCases(val: nat, f: Flags, width: int, precision: int)
    requires ConversionCharacter !in f && !PrintsNothing(val, f, precision)
    ensures var digits := DigitsOf(val, f);
      var zeros := PrecisionZeros(f, precision, |digits|);
      var prefix := Prefix(val, f, zeros);
      var pad := Padding(f, width, |prefix| + zeros + |digits|);
      IntText(val, f, width, precision) ==
        if LeftAdjusted in f then prefix + Repeat('0', zeros) + digits + Repeat(' ', pad)
        else if PadsWithZeros(f) then prefix + Repeat('0', zeros + pad) + digits
        else Repeat(' ', pad) + prefix + Repeat('0', zeros) + digits
  {
    hide DigitsOf, Prefix, Repeat, Low, PrecisionZeros, Padding, PadsWithZeros;
  }

  lemma IntNumbers(f: Flags, width: int, precision: int, digits: nat, prefix: nat)
    ensures var zeros := PrecisionZeros(f, precision, digits);
      var pad := Padding(f, width, prefix + zeros + digits);
      && (HasPrecision in f ==> zeros + digits == Max(precision, digits))
      && (HasPrecision !in f ==> zeros == 0)
      && (PadsWithZeros(f) ==> LeftAdjusted !in f)
      && prefix + zeros + digits + pad
           == if HasWidth in f then Max(width, prefix + zeros + digits) else prefix + zeros + digits
  {
  }

  /** do_conversion_int lays its parts out in one order; padding is in one place,
      and the text is as wide as the width, or as its parts when they are wider. */
  lemma IntLayout(val: nat, f: Flags, width: int, precision: int)
    requires ConversionCharacter !in f && !PrintsNothing(val, f, precision)
    ensures var digits := DigitsOf(val, f);
      var zeros := PrecisionZeros(f, precision, |digits|);
      var prefix := Prefix(val, f, zeros);
      var pad := Padding(f, width, |prefix| + zeros + |digits|);
      var text := IntText(val, f, width, precision);
      && text == Layout(if LeftAdjusted in f || PadsWithZeros(f) then 0 else pad, prefix,
                        if PadsWithZeros(f) then zeros + pad else zeros, digits,
                        if LeftAdjusted in f then pad else 0)
      && (HasPrecision in f ==> zeros + |digits| == Max(precision, |digits|))
      && (HasPrecision !in f ==> zeros == 0)
      && |text| == if HasWidth in f then Max(width, |prefix| + zeros + |digits|) else |prefix| + zeros + |digits|
  {
    var digits := DigitsOf(val, f);
    var zeros := PrecisionZeros(f, precision, |digits|);
    var prefix := Prefix(val, f, zeros);
    var pad := Padding(f, width, |prefix| + zeros + |digits|);
    hide *;
    IntCases(val, f, width, precision);
    IntNumbers(f, width, precision, |digits|, |prefix|);
    LayoutEnds(pad, prefix, zeros, digits);
    LayoutEnds(0, prefix, zeros + pad, digits);
    LayoutLength(if LeftAdjusted in f || PadsWithZeros(f) then 0 else pad, prefix,
                 if PadsWithZeros(f) then zeros + pad else zeros, digits, if LeftAdjusted in f then pad else 0);
  }

  lemma LayoutEnds(pad: nat, prefix: string, zeros: nat, digits: string)
    ensures Layout(0, prefix, zeros, digits, pad) == prefix + Repeat('0', zeros) + digits + Repeat(' ', pad)
    ensures Layout(pad, prefix, zeros, digits, 0) == Repeat(' ', pad) + prefix + Repeat('0', zeros) + digits
    ensures pad == 0 ==> Layout(0, prefix, zeros, digits, 0) == prefix + Repeat('0', zeros) + digits
  {
    assert Repeat(' ', 0) == "";
    assert Repeat(' ', 0) + prefix == prefix;
    assert forall s: string :: s + "" == s;
  }

  lemma LayoutLength(left: nat, prefix: string, zeros: nat, digits: string, right: nat)
    ensures |Layout(left, prefix, zeros, digits, right)| == left + |prefix| + zeros + |digits| + right
  {
  }

  /** An integer conversion prints nothing for exactly one value, and then only
      with a precision of 0. */
  lemma EmptyText(val: nat, f: Flags, width: int, precision: int)
    requires OneBase(f)
    ensures IntText(val, f, width, precision) == "" <==> PrintsNothing(val, f, precision)
  {
    if !PrintsNothing(val, f, precision) {
      IntLayout(val, f, width, precision);
      assert DigitsOf(val, f) != "";
    }
  }

  // ---------------------------------------------------------------- reading back

  function SkipSpaces(s: string): string {
    if s != "" && s[0] == ' ' then SkipSpaces(s[1..]) else s
  }

  function BeforeSpace(s: string): string {
    if s == "" || s[0] == ' ' then "" else [s[0]] + BeforeSpace(s[1..])
  }

  function SkipSign(s: string): string {
    if s != "" && (s[0] == '-' || s[0] == '+') then s[1..] else s
  }

  function SkipHex(s: string): string {
    if |s| >= 2 && s[0] == '0' && (s[1] == 'x' || s[1] == 'X') then s[2..] else s
  }

  predicate Negative(s: string) {
    var t := SkipSpaces(s);
    t != "" && t[0] == '-'
  }

  /** A reader of numbers: spaces, a sign, 0x, digits up to a space. */
  function ReadBack(s: string, base: nat): int {
    Value(BeforeSpace(SkipHex(SkipSign(SkipSpaces(s)))), base)
  }

  lemma {:induction false} SkipRepeat(n: nat, s: string)
    ensures SkipSpaces(Repeat(' ', n) + s) == SkipSpaces(s)
  {
    if n > 0 {
      assert (Repeat(' ', n) + s)[1..] == Repeat(' ', n - 1) + s;
      SkipRepeat(n - 1, s);
    } else {
      assert Repeat(' ', 0) + s == s;
    }
  }

  lemma {:induction false} BeforeSpaces(s: string, n: nat)
    requires forall k :: 0 <= k < |s| ==> s[k] != ' '
    ensures BeforeSpace(s + Repeat(' ', n)) == s
  {
    if s != "" {
      assert (s + Repeat(' ', n))[1..] == s[1..] + Repeat(' ', n);
      BeforeSpaces(s[1..], n);
    } else {
      assert s + Repeat(' ', n) == Repeat(' ', n);
    }
  }

  predicate IsPrefix(s: string) {
    s == "" || s == "+" || s == "-" || s == " " || s == "0" || s == "0x" || s == "0X"
  }

  /** Reading a layout finds the digits and the sign, whatever surrounds them. */
  lemma ReadLayout(left: nat, prefix: string, zeros: nat, digits: string, right: nat, base: nat)
    requires IsPrefix(prefix) && Digits(digits, base)
    ensures var s := Layout(left, prefix, zeros, digits, right);
      ReadBack(s, base) == Value(digits, base) && (Negative(s) <==> prefix == "-")
  {
    if prefix == " " {
      assert Layout(left, prefix, zeros, digits, right) == Layout(left + 1, "", zeros, digits, right);
      ReadSigned(left + 1, "", zeros, digits, right, base);
    } else if prefix == "0" {
      assert Layout(left, prefix, zeros, digits, right) == Layout(left, "", zeros + 1, digits, right);
      ReadSigned(left, "", zeros + 1, digits, right, base);
    } else {
      ReadSigned(left, prefix, zeros, digits, right, base);
    }
  }

  predicate Digits(digits: string, base: nat) {
    digits != "" && base <= 16 && forall k :: 0 <= k < |digits| ==> DigitValue(digits[k]) < base
  }

  /** Digits and the spaces behind them, without a sign or a prefix. */
  lemma ReadTail(zeros: nat, digits: string, right: nat, base: nat)
    requires Digits(digits, base)
    ensures var tail := Repeat('0', zeros) + digits + Repeat(' ', right);
      && tail != "" && tail[0] != ' ' && tail[0] != '-' && tail[0] != '+'
      && SkipHex(tail) == tail
      && Value(BeforeSpace(tail), base) == Value(digits, base)
  {
    var body := Repeat('0', zeros) + digits;
    forall k | 0 <= k < |body| ensures DigitValue(body[k]) < 16 {
    }
    ReadBody(body, right);
    ZerosRead(zeros, digits, base);
  }

  lemma ReadBody(body: string, right: nat)
    requires body != "" && forall k :: 0 <= k < |body| ==> DigitValue(body[k]) < 16
    ensures var tail := body + Repeat(' ', right);
      && tail != "" && tail[0] != ' ' && tail[0] != '-' && tail[0] != '+'
      && SkipHex(tail) == tail
      && BeforeSpace(tail) == body
  {
    var tail := body + Repeat(' ', right);
    assert tail[0] == body[0];
    assert |tail| >= 2 ==> tail[1] == if |body| > 1 then body[1] else ' ';
    forall k | 0 <= k < |body| ensures body[k] != ' ' {
      assert DigitValue(body[k]) < 16;
    }
    BeforeSpaces(body, right);
  }

  /** What stands in front of the digits is skipped. */
  lemma ReadPrefixed(left: nat, prefix: string, tail: string, base: nat)
    requires prefix == "" || prefix == "+" || prefix == "-" || prefix == "0x" || prefix == "0X"
    requires tail != "" && tail[0] != ' ' && tail[0] != '-' && tail[0] != '+' && SkipHex(tail) == tail
    ensures var s := Repeat(' ', left) + (prefix + tail);
      ReadBack(s, base) == Value(BeforeSpace(tail), base) && (Negative(s) <==> prefix == "-")
  {
    hide Value;
    hide BeforeSpace;
    var s := prefix + tail;
    SkipRepeat(left, s);
    if prefix == "" {
      assert s == tail;
    } else {
      assert s[0] == prefix[0] && s[|prefix|..] == tail;
      assert SkipSpaces(s) == s;
      if |prefix| == 2 {
        assert s[1] == prefix[1];
      }
    }
  }

  lemma LayoutSplit(left: nat, prefix: string, zeros: nat, digits: string, right: nat)
    ensures Layout(left, prefix, zeros, digits, right) ==
      Repeat(' ', left) + (prefix + (Repeat('0', zeros) + digits + Repeat(' ', right)))
  {
    assert Layout(left, prefix, zeros, digits, right) ==
      Repeat(' ', left) + (prefix + (Repeat('0', zeros) + digits + Repeat(' ', right)));
  }

  lemma PrefixKinds(val: nat, f: Flags, zeros: nat)
    ensures IsPrefix(Prefix(val, f, zeros))
    ensures Prefix(val, f, zeros) == "-" <==> ConversionDecimal in f && FlagMinus in f && FlagPlus !in f
  {
  }

  lemma ReadSigned(left: nat, prefix: string, zeros: nat, digits: string, right: nat, base: nat)
    requires IsPrefix(prefix) && prefix != " " && prefix != "0" && Digits(digits, base)
    ensures var s := Layout(left, prefix, zeros, digits, right);
      ReadBack(s, base) == Value(digits, base) && (Negative(s) <==> prefix == "-")
  {
    ReadTail(zeros, digits, right, base);
    LayoutSplit(left, prefix, zeros, digits, right);
    var tail := Repeat('0', zeros) + digits + Repeat(' ', right);
    hide Layout;
    hide SkipHex;
    hide Value;
    hide BeforeSpace;
    hide ReadBack;
    hide Negative;
    ReadPrefixed(left, prefix, tail, base);
  }

  lemma DigitsRead(val: nat, f: Flags)
    requires OneBase(f)
    ensures Digits(DigitsOf(val, f), BaseOf(f)) && Value(DigitsOf(val, f), BaseOf(f)) == val
  {
    Alphabets();
    if ConversionDecimal in f {
      NumeralReads(val, 10, DEC);
    } else if ConversionOctal in f {
      NumeralReads(val, 8, OCT);
    } else if ConversionCapital in f {
      NumeralReads(val, 16, HEX_CAPITAL);
    } else {
      NumeralReads(val, 16, HEX_SMALL);
    }
  }

  lemma OneBaseDigits(f: Flags)
    requires OneBase(f)
    ensures ConversionCharacter !in f
  {
  }

  /** Every printed integer reads back: the digits give the value, the sign the sign. */
  lemma IntReadsBack(val: nat, f: Flags, width: int, precision: int)
    requires OneBase(f) && !PrintsNothing(val, f, precision)
    ensures var s := IntText(val, f, width, precision);
      && ReadBack(s, BaseOf(f)) == val
      && (Negative(s) <==> ConversionDecimal in f && FlagMinus in f && FlagPlus !in f)
  {
    var digits := DigitsOf(val, f);
    var zeros := PrecisionZeros(f, precision, |digits|);
    var prefix := Prefix(val, f, zeros);
    var pad := Padding(f, width, |prefix| + zeros + |digits|);
    OneBaseDigits(f);
    hide *;
    IntLayout(val, f, width, precision);
    DigitsRead(val, f);
    PrefixKinds(val, f, zeros);
    ReadLayout(if LeftAdjusted in f || PadsWithZeros(f) then 0 else pad, prefix,
               if PadsWithZeros(f) then zeros + pad else zeros, digits,
               if LeftAdjusted in f then pad else 0, BaseOf(f));
  }

  /** The number that an integer directive prints. */
  function ArgValue(f: Flags, arg: Arg): int {
    if ConversionInt in f then if Wide(f) then AsLong(arg.word) else AsInt(arg.word)
    else if ConversionUint in f && !Wide(f) then arg.word % U32_RANGE
    else arg.word % U64_RANGE
  }

  function Abs(v: int): nat {
    if v < 0 then -v else v
  }

  /** An integer directive's output reads back as its argument, sign included. */
  lemma DirectiveReadsBack(d: Directive, arg: Arg)
    requires OneBase(d.f) && ConversionNone !in d.f && FlagPlus !in d.f && FlagMinus !in d.f
    requires ConversionInt in d.f || ConversionUint in d.f || ConversionVoidp in d.f
    requires ConversionInt in d.f ==> ConversionDecimal in d.f
    requires !PrintsNothing(Abs(ArgValue(Widened(d.f), arg)), d.f, d.precision)
    ensures var v, s := ArgValue(Widened(d.f), arg), DirectiveText(d, arg);
      ReadBack(s, BaseOf(d.f)) == Abs(v) && (Negative(s) <==> v < 0)
  {
    hide Wide;
    hide StringText;
    hide Negative;
    hide ReadBack;
    hide IntText;
    var f := Widened(d.f);
    var v := ArgValue(f, arg);
    var g := if ConversionInt !in f then f else if v < 0 then f + {FlagMinus} else f + {FlagPlus};
    IntReadsBack(Abs(v), g, d.width, d.precision);
  }

  // ---------------------------------------------------------------- characters

  /** %c negates a negative argument before it prints its low byte, so it prints the
      character of the argument if and only if the argument is not negative or its
      low byte is its own negative. */
  lemma CharacterText(d: Directive, arg: Arg)
    requires ConversionInt in d.f && ConversionCharacter in d.f && ConversionNone !in d.f
    ensures var v := ArgValue(Widened(d.f), arg);
      DirectiveText(d, arg) == [Low(v)] <==> v >= 0 || v % 256 == 0 || v % 256 == 128
  {
    var v := ArgValue(Widened(d.f), arg);
    LowOfNegative(v);
    assert DirectiveText(d, arg) == [Low(Abs(v))];
  }

  lemma LowOfNegative(v: int)
    ensures Low(-v) == Low(v) <==> v % 256 == 0 || v % 256 == 128
  {
    NegatedByte(v);
  }

  lemma NegatedByte(v: int)
    ensures (-v) % 256 == if v % 256 == 0 then 0 else 256 - v % 256
  {
    var q, r := v / 256, v % 256;
    if r == 0 {
      RemainderIs(-v, -q, 0);
    } else {
      RemainderIs(-v, -q - 1, 256 - r);
    }
  }

  lemma RemainderIs(v: int, q: int, r: int)
    requires v == 256 * q + r && 0 <= r < 256
    ensures v % 256 == r
  {
  }

  /** The byte 0xE9, as a signed character, comes out as character 23. */
  lemma NegativeCharacter(width: int, precision: int, next: nat, text: string)
    ensures DirectiveText(Directive({ConversionInt, ConversionCharacter}, width, precision, next), Arg(U32_RANGE - 23, text))
         == [23 as char] != [Low(-23)] == [0xE9 as char]
  {
  }

  // ---------------------------------------------------------------- parsing

  datatype Option<T> = None | Some(value: T)

  datatype Length = NoLength | Short | Char | Long | LongLong | Intmax | Size | Ptrdiff

  function LengthText(l: Length): string {
    match l
    case NoLength => ""
    case Short => "h"
    case Char => "hh"
    case Long => "l"
    case LongLong => "ll"
    case Intmax => "j"
    case Size => "z"
    case Ptrdiff => "t"
  }

  function LengthFlags(l: Length): Flags {
    match l
    case NoLength => {}
    case Short => {LengthShort}
    case Char => {LengthShort, LengthChar}
    case Long => {LengthLong}
    case LongLong => {LengthLong, LengthLongLong}
    case Intmax => {LengthIntmax}
    case Size => {LengthSize}
    case Ptrdiff => {LengthPtrdiff}
  }

  function WidthText(width: nat): string {
    if width == 0 then "" else Numeral(width, 10, DEC)
  }

  function PrecisionText(precision: Option<nat>): string {
    match precision
    case None => ""
    case Some(p) => "." + Numeral(p, 10, DEC)
  }

  function PrecisionOf(precision: Option<nat>): int {
    if precision.Some? then precision.value else 0
  }

  /** The bits that a directive's text stands for. */
  function RenderedFlags(flags: string, width: nat, precision: Option<nat>, l: Length, c: char): Flags {
    With(With(FlagsOf(flags), width > 0, HasWidth), precision.Some?, HasPrecision) + LengthFlags(l) + ConversionOf(c)
  }

  /** Ends a directive: neither a flag, a digit, a point nor a length character. */
  predicate Ends(c: char) {
    c != NUL && c != '.' && !IsFlag(c) && !IsDigit(c) && !IsLength(c)
  }

  lemma {:induction false} SpanExact(s: string, p: nat, q: nat, class_: char -> bool)
    requires p <= q <= |s| && (forall k :: p <= k < q ==> class_(s[k])) && (q < |s| ==> !class_(s[q]))
    ensures Span(s, p, class_) == q
    decreases q - p
  {
    if p < q {
      SpanExact(s, p + 1, q, class_);
    }
  }

  lemma LengthReads(l: Length)
    ensures LengthsOf(LengthText(l)) == LengthFlags(l)
    ensures forall k :: 0 <= k < |LengthText(l)| ==> IsLength(LengthText(l)[k])
  {
    var t := LengthText(l);
    assert LengthsOf("") == {};
    if |t| >= 1 {
      assert LengthsOf(t[..1]) == AddLength(LengthsOf(t[..1][..0]), t[0]);
      assert t[..1][..0] == "";
      if |t| == 2 {
        assert t[..|t| - 1] == t[..1];
      } else {
        assert t[..1] == t;
      }
    }
  }

  lemma NumeralDigits(v: nat)
    ensures var s := Numeral(v, 10, DEC);
      && Value(s, 10) == v
      && (forall k :: 0 <= k < |s| ==> IsDigit(s[k]))
      && (v > 0 ==> s[0] != '0')
  {
    Alphabets();
    NumeralReads(v, 10, DEC);
    var s := Numeral(v, 10, DEC);
    forall k | 0 <= k < |s| ensures IsDigit(s[k]) {
      assert s[k] in DEC;
    }
  }

  /** The text t stands in s at p. */
  predicate Stands(s: string, p: nat, t: string) {
    p + |t| <= |s| && s[p..p + |t|] == t
  }

  lemma StandsSplit(s: string, p: nat, t: string, u: string)
    requires Stands(s, p, t + u)
    ensures Stands(s, p, t) && Stands(s, p + |t|, u)
  {
    assert (t + u)[..|t|] == t && (t + u)[|t|..] == u;
    assert s[p..p + |t + u|][..|t|] == s[p..p + |t|];
    assert s[p..p + |t + u|][|t|..] == s[p + |t|..p + |t| + |u|];
  }

  lemma StandsFirst(s: string, p: nat, t: string)
    requires Stands(s, p, t)
    ensures t != "" ==> p < |s| && s[p] == t[0]
    ensures forall k :: p <= k < p + |t| ==> s[k] == t[k - p]
  {
    forall k | p <= k < p + |t| ensures s[k] == t[k - p] {
      assert s[p..p + |t|][k - p] == s[k];
    }
  }

  lemma StandsSlice(s: string, p: nat, t: string)
    requires Stands(s, p, t)
    ensures p + |t| <= |s| && s[p..p + |t|] == t
  {
  }

  lemma SpanStands(s: string, p: nat, t: string, class_: char -> bool)
    requires Stands(s, p, t) && (forall k :: 0 <= k < |t| ==> class_(t[k]))
    requires p + |t| < |s| && !class_(s[p + |t|]) && Terminated(s, p + |t|)
    ensures Span(s, p, class_) == p + |t| && Terminated(s, p)
  {
    StandsFirst(s, p, t);
    SpanExact(s, p, p + |t|, class_);
    var k :| p + |t| <= k < |s| && s[k] == NUL;
  }

  lemma FlagsStand(s: string, p: nat, flags: string)
    requires Stands(s, p, flags) && forall k :: 0 <= k < |flags| ==> IsFlag(flags[k])
    requires var a := p + |flags|; a < |s| && !IsFlag(s[a]) && s[a] != NUL && Terminated(s, a)
    ensures Terminated(s, p) && Parse(s, p) == ParseWidth(s, p + |flags|, FlagsOf(flags))
  {
    hide ParseWidth;
    SpanStands(s, p, flags, IsFlag);
  }

  lemma WidthStands(s: string, p: nat, width: nat, f: Flags)
    requires Stands(s, p, WidthText(width))
    requires var a := p + |WidthText(width)|; a < |s| && !IsDigit(s[a]) && s[a] != NUL && Terminated(s, a)
    ensures Terminated(s, p)
    ensures ParseWidth(s, p, f) == ParsePrecision(s, p + |WidthText(width)|, With(f, width > 0, HasWidth), width)
  {
    hide ParsePrecision;
    hide Stands;
    hide Terminated;
    NumeralDigits(width);
    assert Value("", 10) == 0;
    StandsSlice(s, p, WidthText(width));
    hide Value;
    hide Numeral;
    SpanStands(s, p, WidthText(width), IsDigit);
  }

  /** A point and digits. */
  lemma PointStands(s: string, p: nat, value: nat, f: Flags, width: int)
    requires Stands(s, p, "." + Numeral(value, 10, DEC))
    requires var a := p + 1 + |Numeral(value, 10, DEC)|; a < |s| && !IsDigit(s[a]) && s[a] != NUL && Terminated(s, a)
    ensures Terminated(s, p)
    ensures ParsePrecision(s, p, f, width)
         == ParseLength(s, p + 1 + |Numeral(value, 10, DEC)|, With(f, true, HasPrecision), width, value)
  {
    hide Numeral, ParseLength, Stands;
    var n := Numeral(value, 10, DEC);
    NumeralDigits(value);
    hide Value;
    StandsSplit(s, p, ".", n);
    StandsFirst(s, p, ".");
    SpanStands(s, p + 1, n, IsDigit);
    hide Span;
    EarlierTerminated(s, p, p + 1 + |n|);
    EarlierTerminated(s, p + 1, p + 1 + |n|);
  }

  lemma EarlierTerminated(s: string, p: nat, q: nat)
    requires p <= q && Terminated(s, q)
    ensures Terminated(s, p)
  {
  }

  lemma PrecisionStands(s: string, p: nat, precision: Option<nat>, f: Flags, width: int)
    requires Stands(s, p, PrecisionText(precision))
    requires var a := p + |PrecisionText(precision)|;
      a < |s| && !IsDigit(s[a]) && s[a] != '.' && s[a] != NUL && Terminated(s, a)
    ensures Terminated(s, p)
    ensures ParsePrecision(s, p, f, width) ==
      ParseLength(s, p + |PrecisionText(precision)|, With(f, precision.Some?, HasPrecision), width, PrecisionOf(precision))
  {
    hide Numeral, ParseLength, Value, Stands;
    if precision.Some? {
      hide ParsePrecision;
      PointStands(s, p, precision.value, f, width);
    }
  }

  lemma LengthStands(s: string, p: nat, l: Length, c: char, f: Flags, width: int, precision: int)
    requires Stands(s, p, LengthText(l)) && Ends(c)
    requires var a := p + |LengthText(l)|; a < |s| && s[a] == c && Terminated(s, a)
    ensures Terminated(s, p)
    ensures ParseLength(s, p, f, width, precision) ==
      Directive(f + LengthFlags(l) + ConversionOf(c), width, precision, p + |LengthText(l)| + 1)
  {
    LengthReads(l);
    SpanStands(s, p, LengthText(l), IsLength);
  }

  /** The text of a directive: any string of flags, a width without leading zeros,
      a precision, a length modifier and a conversion. */
  function Render(flags: string, width: nat, precision: Option<nat>, l: Length, c: char): string {
    flags + (WidthText(width) + (PrecisionText(precision) + (LengthText(l) + [c])))
  }

  /** parse_format inverts the printer of directives, in any surroundings. */
  lemma ParseInverts(s: string, p: nat, flags: string, width: nat, precision: Option<nat>, l: Length, c: char)
    requires (forall k :: 0 <= k < |flags| ==> IsFlag(flags[k])) && Ends(c)
    requires Stands(s, p, Render(flags, width, precision, l, c))
    requires Terminated(s, p + |Render(flags, width, precision, l, c)|)
    ensures Terminated(s, p)
    ensures Parse(s, p) == Directive(RenderedFlags(flags, width, precision, l, c), width, PrecisionOf(precision),
                                     p + |Render(flags, width, precision, l, c)|)
  {
    hide Render;
    hide Stands;
    hide Terminated;
    hide WidthText;
    hide PrecisionText;
    hide LengthText;
    hide ParseWidth;
    RenderParts(s, p, flags, width, precision, l, c);
    FromWidth(s, p + |flags|, width, precision, l, c, FlagsOf(flags));
    FlagsStand(s, p, flags);
  }

  lemma FromWidth(s: string, x: nat, width: nat, precision: Option<nat>, l: Length, c: char, f: Flags)
    requires Ends(c)
    requires var w, q, t := WidthText(width), PrecisionText(precision), LengthText(l);
      var y := x + |w|;
      var z := y + |q|;
      var e := z + |t|;
      && Stands(s, x, w) && Stands(s, y, q) && Stands(s, z, t)
      && Terminated(s, e) && e < |s| && s[e] == c
      && s[z] == (if t == "" then c else t[0])
      && s[y] == (if q == "" then s[z] else q[0])
    ensures Terminated(s, x)
    ensures ParseWidth(s, x, f) ==
      Directive(With(With(f, width > 0, HasWidth), precision.Some?, HasPrecision) + LengthFlags(l) + ConversionOf(c), width,
                PrecisionOf(precision), x + |WidthText(width)| + |PrecisionText(precision)| + |LengthText(l)| + 1)
  {
    Heads(width, precision, l);
    hide Stands;
    hide Terminated;
    hide WidthText;
    hide PrecisionText;
    hide LengthText;
    hide ParseWidth;
    hide ParsePrecision;
    hide With;
    FromPrecision(s, x + |WidthText(width)|, precision, l, c, With(f, width > 0, HasWidth), width);
    WidthStands(s, x, width, f);
  }

  lemma AfterPrecision(l: Length, c: char)
    requires Ends(c)
    ensures var r := if LengthText(l) == "" then c else LengthText(l)[0];
      !IsDigit(r) && r != '.' && r != NUL && !IsLength(c) && c != NUL
  {
  }

  lemma FromPrecision(s: string, y: nat, precision: Option<nat>, l: Length, c: char, g: Flags, width: int)
    requires Ends(c)
    requires var q, t := PrecisionText(precision), LengthText(l);
      var z := y + |q|;
      var e := z + |t|;
      && Stands(s, y, q) && Stands(s, z, t)
      && Terminated(s, e) && e < |s| && s[e] == c
      && s[z] == (if t == "" then c else t[0])
    ensures Terminated(s, y)
    ensures ParsePrecision(s, y, g, width) ==
      Directive(With(g, precision.Some?, HasPrecision) + LengthFlags(l) + ConversionOf(c), width,
                PrecisionOf(precision), y + |PrecisionText(precision)| + |LengthText(l)| + 1)
  {
    hide *;
    AfterPrecision(l, c);
    LengthStands(s, y + |PrecisionText(precision)|, l, c, With(g, precision.Some?, HasPrecision), width, PrecisionOf(precision));
    PrecisionStands(s, y, precision, g, width);
  }

  /** How the optional parts of a directive start. */
  lemma Heads(width: nat, precision: Option<nat>, l: Length)
    ensures WidthText(width) != "" ==> IsDigit(WidthText(width)[0]) && WidthText(width)[0] != '0'
    ensures PrecisionText(precision) != "" ==> PrecisionText(precision)[0] == '.'
    ensures LengthText(l) != "" ==> IsLength(LengthText(l)[0])
  {
    NumeralDigits(width);
  }

  lemma RenderParts(s: string, p: nat, flags: string, width: nat, precision: Option<nat>, l: Length, c: char)
    requires Ends(c) && Stands(s, p, Render(flags, width, precision, l, c))
    requires Terminated(s, p + |Render(flags, width, precision, l, c)|)
    ensures var w, q, t := WidthText(width), PrecisionText(precision), LengthText(l);
      var x := p + |flags|;
      var y := x + |w|;
      var z := y + |q|;
      var e := z + |t|;
      && e + 1 == p + |Render(flags, width, precision, l, c)|
      && Stands(s, p, flags) && Stands(s, x, w) && Stands(s, y, q) && Stands(s, z, t)
      && Terminated(s, e) && e < |s| && s[e] == c
      && s[z] == (if t == "" then c else t[0])
      && s[y] == (if q == "" then s[z] else q[0])
      && !IsFlag(s[x]) && s[x] != NUL
  {
    RenderStands(s, p, flags, WidthText(width), PrecisionText(precision), LengthText(l), c);
    Heads(width, precision, l);
  }

  lemma RenderStands(s: string, p: nat, flags: string, w: string, q: string, t: string, c: char)
    requires Stands(s, p, flags + (w + (q + (t + [c])))) && Terminated(s, p + |flags| + |w| + |q| + |t| + 1)
    ensures var x := p + |flags|;
      var y := x + |w|;
      var z := y + |q|;
      var e := z + |t|;
      && Stands(s, p, flags) && Stands(s, x, w) && Stands(s, y, q) && Stands(s, z, t)
      && Terminated(s, e) && e < |s| && s[e] == c
      && s[z] == (if t == "" then c else t[0])
      && s[y] == (if q == "" then s[z] else q[0])
      && s[x] == (if w == "" then s[y] else w[0])
  {
    var x := p + |flags|;
    var y := x + |w|;
    var z := y + |q|;
    var e := z + |t|;
    StandsSplit(s, p, flags, w + (q + (t + [c])));
    StandsSplit(s, x, w, q + (t + [c]));
    StandsSplit(s, y, q, t + [c]);
    StandsSplit(s, z, t, [c]);
    StandsFirst(s, e, [c]);
    StandsFirst(s, z, t);
    StandsFirst(s, y, q);
    StandsFirst(s, x, w);
    var k :| e + 1 <= k < |s| && s[k] == NUL;
  }

  // ---------------------------------------------------------------- printing and reading

  /** Flags, width, precision and length add no conversion. */
  lemma RenderedRest(flags: string, width: nat, precision: Option<nat>, l: Length)
    ensures var g := With(With(FlagsOf(flags), width > 0, HasWidth), precision.Some?, HasPrecision) + LengthFlags(l);
      g !! {ConversionInt, ConversionDecimal, ConversionUint, ConversionOctal, ConversionHexadecimal, ConversionCharacter,
            ConversionVoidp, ConversionNone, EndString, FlagMinus, FlagPlus}
  {
  }

  lemma RenderedConversion(flags: string, width: nat, precision: Option<nat>, l: Length, c: char)
    requires c in "diouxXp"
    ensures Ends(c)
    ensures var f := RenderedFlags(flags, width, precision, l, c);
      && OneBase(f) && ConversionNone !in f && FlagPlus !in f && FlagMinus !in f
      && (ConversionInt in f || ConversionUint in f || ConversionVoidp in f)
      && (ConversionInt in f ==> ConversionDecimal in f)
      && f != {EndString}
  {
    RenderedRest(flags, width, precision, l);
    hide FlagsOf, LengthFlags, With;
  }

  /** A format that is one integer directive prints its argument so that it reads
      back, whatever the flags, width, precision and length modifier. */
  lemma PrintedReadsBack(flags: string, width: nat, precision: Option<nat>, l: Length, c: char, args: Args)
    requires (forall k :: 0 <= k < |flags| ==> IsFlag(flags[k])) && c in "diouxXp"
    requires var f := RenderedFlags(flags, width, precision, l, c);
      !PrintsNothing(Abs(ArgValue(Widened(f), args(0))), f, PrecisionOf(precision))
    ensures var s := "%" + Render(flags, width, precision, l, c) + [NUL];
      var f := RenderedFlags(flags, width, precision, l, c);
      var v := ArgValue(Widened(f), args(0));
      && Terminated(s, 0)
      && ReadBack(Output(s, 0, args, 0), BaseOf(f)) == Abs(v)
      && (Negative(Output(s, 0, args, 0)) <==> v < 0)
  {
    var r := Render(flags, width, precision, l, c);
    var s := "%" + r + [NUL];
    hide Render, RenderedFlags, ReadBack, Negative, BaseOf, DirectiveText, ArgValue, Widened, PrintsNothing;
    RenderedConversion(flags, width, precision, l, c);
    assert s[|s| - 1] == NUL;
    assert Stands(s, 1, r);
    assert Terminated(s, 1 + |r|);
    ParseInverts(s, 1, flags, width, precision, l, c);
    var d := Parse(s, 1);
    hide Parse;
    assert Ended(s, d.next);
    assert Output(s, 0, args, 0) == DirectiveText(d, args(0)) + "";
    assert DirectiveText(d, args(0)) + "" == DirectiveText(d, args(0));
    DirectiveReadsBack(d, args(0));
  }


  /** parse_format reads nothing behind the NUL: what it passes over is none, and
      it reports the end of the string exactly when it stops at one. */
  lemma ParseStopsAtNul(s: string, p: nat)
    requires Terminated(s, p)
    ensures var d := Parse(s, p);
      && (forall k :: p <= k < d.next - 1 ==> s[k] != NUL)
      && (d.f == {EndString} <==> s[d.next - 1] == NUL)
  {
    hide ParseWidth, FlagsOf;
    hide Value;
    SpanTerminated(s, p, IsFlag);
    var a := Span(s, p, IsFlag);
    if s[a] != NUL {
      FlagsNoEnd(s[p..a]);
      WidthStopsAtNul(s, a, FlagsOf(s[p..a]));
    }
  }

  lemma FlagsNoEnd(t: string)
    ensures EndString !in FlagsOf(t)
  {
  }

  lemma WidthStopsAtNul(s: string, p: nat, f: Flags)
    requires Terminated(s, p) && EndString !in f
    ensures var d := ParseWidth(s, p, f);
      && (forall k :: p <= k < d.next - 1 ==> s[k] != NUL)
      && (d.f == {EndString} <==> s[d.next - 1] == NUL)
  {
    SpanTerminated(s, p, IsDigit);
    var a := Span(s, p, IsDigit);
    hide ParsePrecision;
    hide Value;
    if s[a] != NUL {
      PrecisionStopsAtNul(s, a, With(f, p < a, HasWidth), Value(s[p..a], 10));
    }
  }

  lemma PrecisionStopsAtNul(s: string, p: nat, f: Flags, width: int)
    requires Terminated(s, p) && EndString !in f && s[p] != NUL
    ensures var d := ParsePrecision(s, p, f, width);
      && (forall k :: p <= k < d.next - 1 ==> s[k] != NUL)
      && (d.f == {EndString} <==> s[d.next - 1] == NUL)
  {
    hide ParseLength;
    hide Value;
    if s[p] == '.' {
      SpanTerminated(s, p + 1, IsDigit);
      var a := Span(s, p + 1, IsDigit);
      if s[a] != NUL {
        LengthStopsAtNul(s, a, With(f, true, HasPrecision), width, Value(s[p + 1..a], 10));
      }
    } else {
      LengthStopsAtNul(s, p, f, width, 0);
    }
  }

  lemma LengthStopsAtNul(s: string, p: nat, f: Flags, width: int, precision: int)
    requires Terminated(s, p) && EndString !in f
    ensures var d := ParseLength(s, p, f, width, precision);
      && (forall k :: p <= k < d.next - 1 ==> s[k] != NUL)
      && (d.f == {EndString} <==> s[d.next - 1] == NUL)
  {
    SpanTerminated(s, p, IsLength);
    var a := Span(s, p, IsLength);
    NoEndInLengths(s[p..a]);
  }

  lemma {:induction false} NoEndInLengths(t: string)
    ensures EndString !in LengthsOf(t)
  {
    if t != "" {
      NoEndInLengths(t[..|t| - 1]);
    }
  }
}
