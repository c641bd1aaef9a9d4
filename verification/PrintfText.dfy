/** The text that the directives of printf.c stand for: parsing, numerals, layout. */
module PrintfText {

  /** The bits of a parsed directive. */
  datatype Flag =
    | AlternateForm | ZeroPadded | LeftAdjusted | PositiveBlank | PositiveSign
    | HasWidth | HasPrecision
    | LengthShort | LengthChar | LengthLong | LengthLongLong | LengthIntmax | LengthSize | LengthPtrdiff
    | ConversionInt | ConversionDecimal | ConversionUint | ConversionOctal | ConversionCapital
    | ConversionHexadecimal | ConversionCharacter | ConversionCharp | ConversionVoidp | ConversionNone
    | EndString | FlagMinus | FlagPlus

  type Flags = set<Flag>

  const NUL: char := '\0'
  const U64_RANGE := 0x1_0000_0000_0000_0000
  const U32_RANGE := 0x1_0000_0000

  /** Conversion of an int to char. */
  function Low(c: int): char {
    (c % 256) as char
  }

  function Min(a: nat, b: nat): nat {
    if a <= b then a else b
  }

  function Repeat(c: char, n: nat): (s: string)
    ensures |s| == n && forall k :: 0 <= k < n ==> s[k] == c
  {
    seq(n, _ => c)
  }

  // ---------------------------------------------------------------- numerals

  const DEC := "0123456789"
  const OCT := "01234567"
  const HEX_CAPITAL := "0123456789ABCDEF"
  const HEX_SMALL := "0123456789abcdef"

  lemma {:induction false} AtLeastTwice(q: nat, base: nat)
    requires 2 <= base
    ensures q * base >= 2 * q
  {
    if q > 0 {
      AtLeastTwice(q - 1, base);
      assert q * base == (q - 1) * base + base;
    }
  }

  lemma QuotientLess(v: nat, base: nat)
    requires 2 <= base <= v
    ensures 0 < v / base < v && 0 <= v % base < base && v == v / base * base + v % base
  {
    var q, r := v / base, v % base;
    assert v == q * base + r && 0 <= r < base;
    assert q >= 0 && (q == 0 ==> q * base == 0);
    AtLeastTwice(q, base);
  }

  /** v in a base, most significant digit first, without leading zeros. */
  function Numeral(v: nat, base: nat, digits: string): (s: string)
    requires 2 <= base <= |digits|
    ensures s != []
    decreases v
  {
    if v < base then [digits[v]]
    else
      QuotientLess(v, base);
      Numeral(v / base, base, digits) + [digits[v % base]]
  }

  function DigitValue(c: char): int {
    if '0' <= c <= '9' then c as int - '0' as int
    else if 'a' <= c <= 'f' then c as int - 'a' as int + 10
    else if 'A' <= c <= 'F' then c as int - 'A' as int + 10
    else 16
  }

  /** The value of a string of digits. */
  function Value(s: string, base: nat): int {
    if s == [] then 0 else Value(s[..|s| - 1], base) * base + DigitValue(s[|s| - 1])
  }

  // ---------------------------------------------------------------- layout

  function DigitsOf(val: nat, f: Flags): string {
    if ConversionDecimal in f then Numeral(val, 10, DEC)
    else if ConversionOctal in f then Numeral(val, 8, OCT)
    else if ConversionHexadecimal in f && ConversionCapital in f then Numeral(val, 16, HEX_CAPITAL)
    else if ConversionHexadecimal in f then Numeral(val, 16, HEX_SMALL)
    else ""
  }

  /** Zeros asked for by the precision. */
  function PrecisionZeros(f: Flags, precision: int, len: nat): nat {
    if HasPrecision in f && precision > len then precision - len else 0
  }

  function Prefix(val: nat, f: Flags, zeros: nat): string {
    if ConversionDecimal in f then
      if FlagPlus in f then
        if PositiveSign in f then "+" else if PositiveBlank in f then " " else ""
      else if FlagMinus in f then "-" else ""
    else if AlternateForm in f && val != 0 then
      if ConversionOctal in f && zeros == 0 then "0"
      else if ConversionHexadecimal in f then
        if ConversionCapital in f then "0X" else "0x"
      else ""
    else ""
  }

  /** The columns still missing to the width. */
  function Padding(f: Flags, width: int, len: nat): nat {
    if HasWidth in f && width > len then width - len else 0
  }

  /** Padding is made of zeros only in front, and only without a precision. */
  predicate PadsWithZeros(f: Flags) {
    ZeroPadded in f && HasPrecision !in f && LeftAdjusted !in f
  }

  /** The output of do_conversion_int. */
  function IntText(val: nat, f: Flags, width: int, precision: int): string {
    if ConversionCharacter in f then [Low(val)]
    else if HasPrecision in f && precision == 0 && val == 0 then ""
    else
      var digits := DigitsOf(val, f);
      var zeros := PrecisionZeros(f, precision, |digits|);
      var prefix := Prefix(val, f, zeros);
      var pad := Padding(f, width, |prefix| + zeros + |digits|);
      if LeftAdjusted in f then prefix + Repeat('0', zeros) + digits + Repeat(' ', pad)
      else if PadsWithZeros(f) then prefix + Repeat('0', zeros + pad) + digits
      else Repeat(' ', pad) + prefix + Repeat('0', zeros) + digits
  }

  /** A C string: the characters before the first NUL. */
  function CString(s: string): string {
    if s == [] || s[0] == NUL then "" else [s[0]] + CString(s[1..])
  }

  /** The output of do_conversion_string. */
  function StringText(s: string, f: Flags, width: int, precision: int): string {
    var full := CString(s);
    var text := if HasPrecision in f && 0 <= precision < |full| then full[..precision]
                else if HasPrecision in f && precision < 0 then "" else full;
    var pad := Padding(f, width, |text|);
    if LeftAdjusted in f then text + Repeat(' ', pad) else Repeat(' ', pad) + text
  }

  // ---------------------------------------------------------------- directives

  predicate IsFlag(c: char) {
    c == '#' || c == '0' || c == '-' || c == ' ' || c == '+'
  }

  function FlagOf(c: char): Flag
    requires IsFlag(c)
  {
    match c
    case '#' => AlternateForm
    case '0' => ZeroPadded
    case '-' => LeftAdjusted
    case ' ' => PositiveBlank
    case _ => PositiveSign
  }

  predicate IsDigit(c: char) {
    '0' <= c <= '9'
  }

  predicate IsLength(c: char) {
    c == 'h' || c == 'l' || c == 'j' || c == 'z' || c == 't'
  }

  /** What one length character adds to those before it. */
  function AddLength(f: Flags, c: char): Flags {
    match c
    case 'h' => if LengthShort in f then f + {LengthChar} else f + {LengthShort}
    case 'l' => if LengthLong in f then f + {LengthLongLong} else f + {LengthLong}
    case 'j' => f + {LengthIntmax}
    case 'z' => f + {LengthSize}
    case 't' => f + {LengthPtrdiff}
    case _ => f
  }

  function LengthsOf(s: string): Flags {
    if s == [] then {} else AddLength(LengthsOf(s[..|s| - 1]), s[|s| - 1])
  }

  function FlagsOf(s: string): Flags {
    set c | c in s && IsFlag(c) :: FlagOf(c)
  }

  function ConversionOf(c: char): Flags {
    match c
    case 'd' => {ConversionInt, ConversionDecimal}
    case 'i' => {ConversionInt, ConversionDecimal}
    case 'o' => {ConversionUint, ConversionOctal}
    case 'u' => {ConversionUint, ConversionDecimal}
    case 'X' => {ConversionCapital, ConversionUint, ConversionHexadecimal}
    case 'x' => {ConversionUint, ConversionHexadecimal}
    case 'c' => {ConversionInt, ConversionCharacter}
    case 's' => {ConversionCharp}
    case 'p' => {ConversionVoidp, ConversionHexadecimal, AlternateForm}
    case '%' => {ConversionNone}
    case _ => {}
  }

  /** The end of the longest run of characters in a class that starts at p. */
  function Span(s: string, p: nat, class_: char -> bool): (e: nat)
    requires p <= |s|
    ensures p <= e <= |s|
    ensures forall k :: p <= k < e ==> class_(s[k])
    ensures e < |s| ==> !class_(s[e])
    decreases |s| - p
  {
    if p < |s| && class_(s[p]) then Span(s, p + 1, class_) else p
  }

  /** A directive: its bits, its width and precision, and where it ends. */
  datatype Directive = Directive(f: Flags, width: int, precision: int, next: nat)

  predicate Terminated(s: string, p: nat) {
    exists k :: p <= k < |s| && s[k] == NUL
  }

  /** A C string with its terminator and nothing behind it: whoever indexes it reads
      nothing past the NUL. */
  predicate OneString(s: string) {
    s != "" && s[|s| - 1] == NUL && forall k :: 0 <= k < |s| - 1 ==> s[k] != NUL
  }

  /** A NUL is in none of the classes, so a run stops in front of it. */
  lemma SpanTerminated(s: string, p: nat, class_: char -> bool)
    requires Terminated(s, p) && !class_(NUL)
    ensures p <= |s| && Span(s, p, class_) < |s| && Terminated(s, Span(s, p, class_))
  {
    var k :| p <= k < |s| && s[k] == NUL;
    var e := Span(s, p, class_);
    forall j | p <= j < e ensures s[j] != NUL {
      assert class_(s[j]);
    }
    assert e <= k;
  }

  function With(f: Flags, yes: bool, flag: Flag): Flags {
    if yes then f + {flag} else f
  }

  /** parse_format by maximal munch: flags, width, precision, length modifier and
      conversion, or the end of the string in any of them. */
  function Parse(s: string, p: nat): (d: Directive)
    requires Terminated(s, p)
    ensures p < d.next <= |s|
    ensures d.f != {EndString} ==> Terminated(s, d.next)
  {
    SpanTerminated(s, p, IsFlag);
    var a := Span(s, p, IsFlag);
    if s[a] == NUL then Directive({EndString}, 0, 0, a + 1)
    else ParseWidth(s, a, FlagsOf(s[p..a]))
  }

  function ParseWidth(s: string, p: nat, flags: Flags): (d: Directive)
    requires Terminated(s, p)
    ensures p < d.next <= |s|
    ensures d.f != {EndString} ==> Terminated(s, d.next)
  {
    SpanTerminated(s, p, IsDigit);
    var a := Span(s, p, IsDigit);
    var width := Value(s[p..a], 10);
    if s[a] == NUL then Directive({EndString}, width, 0, a + 1)
    else ParsePrecision(s, a, With(flags, p < a, HasWidth), width)
  }

  function ParsePrecision(s: string, p: nat, flags: Flags, width: int): (d: Directive)
    requires Terminated(s, p)
    ensures p < d.next <= |s|
    ensures d.f != {EndString} ==> Terminated(s, d.next)
  {
    if s[p] != '.' then ParseLength(s, p, flags, width, 0)
    else
      SpanTerminated(s, p + 1, IsDigit);
      var a := Span(s, p + 1, IsDigit);
      var precision := Value(s[p + 1..a], 10);
      if s[a] == NUL then Directive({EndString}, width, precision, a + 1)
      else ParseLength(s, a, With(flags, true, HasPrecision), width, precision)
  }

  function ParseLength(s: string, p: nat, flags: Flags, width: int, precision: int): (d: Directive)
    requires Terminated(s, p)
    ensures p < d.next <= |s|
    ensures d.f != {EndString} ==> Terminated(s, d.next)
  {
    SpanTerminated(s, p, IsLength);
    var a := Span(s, p, IsLength);
    if s[a] == NUL then Directive({EndString}, width, precision, a + 1)
    else Directive(flags + LengthsOf(s[p..a]) + ConversionOf(s[a]), width, precision, a + 1)
  }

  // ---------------------------------------------------------------- arguments

  /** One variadic argument: the 64-bit word of its slot, and the characters that
      the word points to when it is a string's address. */
  datatype Arg = Arg(word: int, text: string)

  type Args = nat -> Arg

  /** A word read as int, long, unsigned int. */
  function AsInt(w: int): int {
    var x := w % U32_RANGE;
    if x < 0x8000_0000 then x else x - U32_RANGE
  }

  function AsLong(w: int): int {
    var x := w % U64_RANGE;
    if x < 0x8000_0000_0000_0000 then x else x - U64_RANGE
  }

  /** j reads a long long, z and t a long. */
  function Widened(f: Flags): Flags {
    if LengthIntmax in f then f + {LengthLongLong}
    else if LengthSize in f || LengthPtrdiff in f then f + {LengthLong}
    else f
  }

  predicate Wide(f: Flags) {
    LengthChar !in f && LengthShort !in f && (LengthLongLong in f || LengthLong in f)
  }

  predicate TakesArgument(f: Flags) {
    ConversionNone !in f &&
    (ConversionInt in f || ConversionUint in f || ConversionVoidp in f || ConversionCharp in f)
  }

  /** What do_printf prints for a directive and its argument. */
  function DirectiveText(d: Directive, arg: Arg): string {
    var f := Widened(d.f);
    if ConversionNone in f then "%"
    else if ConversionInt in f then
      var v := if Wide(f) then AsLong(arg.word) else AsInt(arg.word);
      if v < 0 then IntText(-v, f + {FlagMinus}, d.width, d.precision)
      else IntText(v, f + {FlagPlus}, d.width, d.precision)
    else if ConversionUint in f then
      IntText(if Wide(f) then arg.word % U64_RANGE else arg.word % U32_RANGE, f, d.width, d.precision)
    else if ConversionVoidp in f then
      IntText(arg.word % U64_RANGE, f, d.width, d.precision)
    else if ConversionCharp in f then
      StringText(if arg.word == 0 then "(null)" else arg.text, f, d.width, d.precision)
    else "FORMAT ERROR"
  }

  /** The format ends at p, or in the middle of a directive there. */
  predicate Ended(s: string, p: nat)
    requires Terminated(s, p)
  {
    s[p] == NUL || (s[p] == '%' && Terminated(s, p + 1) && Parse(s, p + 1).f == {EndString})
  }

  lemma NextTerminated(s: string, p: nat)
    requires Terminated(s, p) && p < |s| && s[p] != NUL
    ensures Terminated(s, p + 1)
  {
    var k :| p <= k < |s| && s[k] == NUL;
  }

  /** What the character or directive at p prints, where it ends, and whether it
      uses up an argument. */
  function ItemText(s: string, p: nat, arg: Arg): string
    requires Terminated(s, p) && !Ended(s, p)
  {
    NextTerminated(s, p);
    if s[p] == '%' then DirectiveText(Parse(s, p + 1), arg) else [s[p]]
  }

  function ItemNext(s: string, p: nat): (next: nat)
    requires Terminated(s, p) && !Ended(s, p)
    ensures p < next <= |s| && Terminated(s, next)
  {
    NextTerminated(s, p);
    if s[p] == '%' then Parse(s, p + 1).next else p + 1
  }

  predicate ItemTakes(s: string, p: nat)
    requires Terminated(s, p) && !Ended(s, p)
  {
    NextTerminated(s, p);
    s[p] == '%' && TakesArgument(Parse(s, p + 1).f)
  }

  /** Everything that a format and its arguments print, from position p and
      argument k on. */
  function Output(s: string, p: nat, args: Args, k: nat): string
    requires Terminated(s, p)
    decreases |s| - p
  {
    if Ended(s, p) then ""
    else ItemText(s, p, args(k)) + Output(s, ItemNext(s, p), args, if ItemTakes(s, p) then k + 1 else k)
  }
}
