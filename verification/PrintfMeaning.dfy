/** What a format prints, told from its characters: each flag, letter and length
    modifier by itself, the numbers written out.  Nothing here is used by the program
    or by the text it is proved against; the last lemma says that both agree. */
module PrintfMeaning {
  import opened PrintfText
  import opened PrintfProofs

  /** An item of a format: a character, or % with flags, width (0 for none),
      precision, length modifier and letter. */
  datatype Item =
    | Plain(c: char)
    | Conv(flags: string, width: nat, precision: Option<nat>, length: Length, letter: char)

  predicate ItemOk(item: Item) {
    match item
    case Plain(c) => c != '%' && c != '\0'
    case Conv(flags, _, _, _, letter) =>
      && (forall k :: 0 <= k < |flags| ==> flags[k] in "#0- +")
      && letter != '\0' && letter !in "#0- +" && letter !in "0123456789" && letter !in ".hljzt"
  }

  function ItemFormat(item: Item): string {
    match item
    case Plain(c) => [c]
    case Conv(flags, width, precision, length, letter) => "%" + Render(flags, width, precision, length, letter)
  }

  // ---------------------------------------------------------------- values

  predicate Takes64(length: Length) {
    match length
    case NoLength => false
    case Short => false
    case Char => false
    case Long => true
    case LongLong => true
    case Intmax => true
    case Size => true
    case Ptrdiff => true
  }

  /** A slot read as a signed number of 32 or 64 bits. */
  function Signed(word: int, length: Length): int {
    if Takes64(length) then
      var x := word % 0x1_0000_0000_0000_0000;
      if x < 0x8000_0000_0000_0000 then x else x - 0x1_0000_0000_0000_0000
    else
      var x := word % 0x1_0000_0000;
      if x < 0x8000_0000 then x else x - 0x1_0000_0000
  }

  function Unsigned(word: int, length: Length): nat {
    if Takes64(length) then word % 0x1_0000_0000_0000_0000 else word % 0x1_0000_0000
  }

  // ---------------------------------------------------------------- numerals and strings

  lemma QuotientIs(v: nat, d: nat, q: nat, r: nat)
    requires v == q * d + r && r < d
    ensures v / d == q
  {
    var x, y := v / d, v % d;
    assert v == x * d + y && 0 <= y < d;
    assert (x + 1) * d == x * d + d && (q + 1) * d == q * d + d;
    if x < q {
      MulMono(x + 1, q, d);
    } else if q < x {
      MulMono(q + 1, x, d);
    }
  }

  lemma DivideTwice(v: nat, a: nat, b: nat)
    requires a > 0 && b > 0
    ensures a * b > 0 && v / a / b == v / (a * b)
  {
    var q, r := v / a, v % a;
    var x, y := q / b, q % b;
    assert v == q * a + r && q == x * b + y;
    assert q * a == x * b * a + y * a by { assert (x * b + y) * a == x * b * a + y * a; }
    assert x * b * a == x * (a * b);
    MulMono(y + 1, b, a);
    assert (y + 1) * a == y * a + a;
    assert b * a == a * b;
    MulMono(1, b, a);
    QuotientIs(v, a * b, x, y * a + r);
  }

  lemma PowPositive(b: nat, n: nat)
    requires b > 0
    ensures Pow(b, n) > 0
  {
    if n > 0 {
      PowPositive(b, n - 1);
      MulMono(1, b, Pow(b, n - 1));
    }
  }

  /** The digit k places from the right is the k-th in the positional sense. */
  lemma {:induction false} NumeralAt(v: nat, base: nat, digits: string, k: nat)
    requires 2 <= base <= |digits| && k < |Numeral(v, base, digits)|
    ensures Pow(base, k) > 0 && 0 <= v / Pow(base, k) % base < base
    ensures Numeral(v, base, digits)[|Numeral(v, base, digits)| - 1 - k] == digits[v / Pow(base, k) % base]
    decreases v
  {
    PowPositive(base, k);
    if k == 0 {
      assert v / 1 == v;
      if v < base { QuotientIs(v, base, 0, v); assert v % base == v; }
    } else {
      QuotientLess(v, base);
      NumeralAt(v / base, base, digits, k - 1);
      PowPositive(base, k - 1);
      DivideTwice(v, base, Pow(base, k - 1));
    }
  }

  /** A C string is what stands before the first NUL. */
  lemma {:induction false} CStringMeans(s: string)
    ensures CString(s) <= s && forall k :: 0 <= k < |CString(s)| ==> s[k] != '\0'
    ensures |CString(s)| < |s| ==> s[|CString(s)|] == '\0'
    decreases |s|
  {
    if s != "" && s[0] != '\0' {
      CStringMeans(s[1..]);
      var t := CString(s[1..]);
      assert t == s[1..][..|t|];
      assert s == [s[0]] + s[1..];
      forall k | 0 <= k < |CString(s)| ensures s[k] != '\0' && s[k] == CString(s)[k] {
        if k > 0 { assert s[k] == s[1..][k - 1]; }
      }
      if |t| < |s[1..]| { assert s[1..][|t|] == s[|t| + 1]; }
    }
  }

  // ---------------------------------------------------------------- layout

  /** n times the character c. */
  function Times(c: char, n: int): string
    decreases n
  {
    if n <= 0 then "" else Times(c, n - 1) + [c]
  }

  /** A sign or base prefix and digits, in `width` columns.  A precision is the least
      number of digits; the columns missing are zeros behind the prefix, if '0' is
      given without '-' and precision, and otherwise spaces, behind if '-' is given. */
  function Number(prefix: string, digits: string, flags: string, width: nat, precision: Option<nat>): string {
    var full := Times('0', if precision.Some? then precision.value - |digits| else 0) + digits;
    var missing := width - |prefix| - |full|;
    if '-' in flags then prefix + full + Times(' ', missing)
    else if '0' in flags && precision.None? then prefix + Times('0', missing) + full
    else Times(' ', missing) + prefix + full
  }

  /** Text, cut by a precision, in `width` columns. */
  function Words(text: string, flags: string, width: nat, precision: Option<nat>): string {
    var cut := if precision.Some? && precision.value < |text| then text[..precision.value] else text;
    if '-' in flags then cut + Times(' ', width - |cut|) else Times(' ', width - |cut|) + cut
  }

  /** What a conversion prints of its argument. */
  function Printed(item: Item, arg: Arg): string
    requires item.Conv?
  {
    var Conv(flags, width, precision, length, letter) := item;
    var v := Signed(arg.word, length);
    var u := Unsigned(arg.word, length);
    var address := arg.word % 0x1_0000_0000_0000_0000;
    var none := precision == Some(0);
    match letter
    case '%' => "%"
    case 'd' =>
      if v == 0 && none then "" else
      Number(if v < 0 then "-" else if '+' in flags then "+" else if ' ' in flags then " " else "",
             Numeral(if v < 0 then -v else v, 10, "0123456789"), flags, width, precision)
    case 'i' =>
      if v == 0 && none then "" else
      Number(if v < 0 then "-" else if '+' in flags then "+" else if ' ' in flags then " " else "",
             Numeral(if v < 0 then -v else v, 10, "0123456789"), flags, width, precision)
    case 'u' =>
      if u == 0 && none then "" else Number("", Numeral(u, 10, "0123456789"), flags, width, precision)
    case 'o' =>
      if u == 0 && none then "" else
      var digits := Numeral(u, 8, "01234567");
      Number(if '#' in flags && u != 0 && !(precision.Some? && precision.value > |digits|) then "0" else "",
             digits, flags, width, precision)
    case 'x' =>
      if u == 0 && none then "" else
      Number(if '#' in flags && u != 0 then "0x" else "", Numeral(u, 16, "0123456789abcdef"), flags, width, precision)
    case 'X' =>
      if u == 0 && none then "" else
      Number(if '#' in flags && u != 0 then "0X" else "", Numeral(u, 16, "0123456789ABCDEF"), flags, width, precision)
    case 'p' =>
      if address == 0 && none then "" else
      Number(if address != 0 then "0x" else "", Numeral(address, 16, "0123456789abcdef"), flags, width, precision)
    case 'c' => [((if v < 0 then -v else v) % 256) as char]
    case 's' => Words(if arg.word == 0 then "(null)" else CString(arg.text), flags, width, precision)
    case _ => "FORMAT ERROR"
  }

  // ---------------------------------------------------------------- the bits of a directive

  datatype Kind = FlagBit | LengthBit | LetterBit | OtherBit

  function KindOf(b: Flag): Kind {
    match b
    case AlternateForm => FlagBit
    case ZeroPadded => FlagBit
    case LeftAdjusted => FlagBit
    case PositiveBlank => FlagBit
    case PositiveSign => FlagBit
    case LengthShort => LengthBit
    case LengthChar => LengthBit
    case LengthLong => LengthBit
    case LengthLongLong => LengthBit
    case LengthIntmax => LengthBit
    case LengthSize => LengthBit
    case LengthPtrdiff => LengthBit
    case HasWidth => OtherBit
    case HasPrecision => OtherBit
    case EndString => OtherBit
    case FlagMinus => OtherBit
    case FlagPlus => OtherBit
    case _ => LetterBit
  }

  lemma RenderedMember(flags: string, width: nat, precision: Option<nat>, length: Length, c: char, bit: Flag)
    ensures bit in RenderedFlags(flags, width, precision, length, c)
       <==> bit in FlagsOf(flags) || (bit == HasWidth && width > 0) || (bit == HasPrecision && precision.Some?)
            || bit in LengthFlags(length) || bit in ConversionOf(c)
  {
  }

  /** A bit of a directive comes from its flags, width, precision, length or letter. */
  lemma RenderedBit(item: Item, bit: Flag)
    requires item.Conv? && ItemOk(item)
    ensures var Conv(flags, width, precision, length, c) := item;
      bit in RenderedFlags(flags, width, precision, length, c) <==>
        match KindOf(bit)
        case FlagBit => bit in FlagsOf(flags) || bit in ConversionOf(c)
        case LengthBit => bit in LengthFlags(length)
        case LetterBit => bit in ConversionOf(c)
        case OtherBit => (bit == HasWidth && width > 0) || (bit == HasPrecision && precision.Some?)
  {
    var Conv(flags, width, precision, length, c) := item;
    FlagBits(flags);
    LengthBits(length);
    LetterBits(c);
    RenderedMember(flags, width, precision, length, c, bit);
    hide FlagsOf, LengthFlags, ConversionOf, RenderedFlags;
  }

  /** What each flag character sets, and that a width or precision is there. */
  lemma RenderedFlagBits(item: Item)
    requires item.Conv? && ItemOk(item)
    ensures var Conv(flags, width, precision, length, c) := item;
      var g := RenderedFlags(flags, width, precision, length, c);
      && (AlternateForm in g <==> '#' in flags || c == 'p')
      && (ZeroPadded in g <==> '0' in flags)
      && (LeftAdjusted in g <==> '-' in flags)
      && (PositiveBlank in g <==> ' ' in flags)
      && (PositiveSign in g <==> '+' in flags)
      && (HasWidth in g <==> width > 0)
      && (HasPrecision in g <==> precision.Some?)
      && EndString !in g && FlagPlus !in g && FlagMinus !in g
  {
    hide RenderedFlags;
    FlagBits(item.flags);
    LetterBits(item.letter);
    hide FlagsOf, ConversionOf;
    RenderedBit(item, AlternateForm);
    RenderedBit(item, ZeroPadded);
    RenderedBit(item, LeftAdjusted);
    RenderedBit(item, PositiveBlank);
    RenderedBit(item, PositiveSign);
    RenderedBit(item, HasWidth);
    RenderedBit(item, HasPrecision);
    RenderedBit(item, EndString);
    RenderedBit(item, FlagPlus);
    RenderedBit(item, FlagMinus);
  }

  /** What each length modifier sets. */
  lemma RenderedLengthBits(item: Item)
    requires item.Conv? && ItemOk(item)
    ensures var Conv(flags, width, precision, length, c) := item;
      var g := RenderedFlags(flags, width, precision, length, c);
      && (LengthShort in g <==> length == Short || length == Char)
      && (LengthChar in g <==> length == Char)
      && (LengthLong in g <==> length == Long || length == LongLong)
      && (LengthLongLong in g <==> length == LongLong)
      && (LengthIntmax in g <==> length == Intmax)
      && (LengthSize in g <==> length == Size)
      && (LengthPtrdiff in g <==> length == Ptrdiff)
  {
    hide RenderedFlags;
    LengthBits(item.length);
    hide LengthFlags;
    RenderedBit(item, LengthShort);
    RenderedBit(item, LengthChar);
    RenderedBit(item, LengthLong);
    RenderedBit(item, LengthLongLong);
    RenderedBit(item, LengthIntmax);
    RenderedBit(item, LengthSize);
    RenderedBit(item, LengthPtrdiff);
  }

  /** What each letter sets. */
  lemma RenderedLetterBits(item: Item)
    requires item.Conv? && ItemOk(item)
    ensures var Conv(flags, width, precision, length, c) := item;
      var g := RenderedFlags(flags, width, precision, length, c);
      && (ConversionInt in g <==> c == 'd' || c == 'i' || c == 'c')
      && (ConversionUint in g <==> c == 'o' || c == 'u' || c == 'x' || c == 'X')
      && (ConversionDecimal in g <==> c == 'd' || c == 'i' || c == 'u')
      && (ConversionOctal in g <==> c == 'o')
      && (ConversionHexadecimal in g <==> c == 'x' || c == 'X' || c == 'p')
      && (ConversionCapital in g <==> c == 'X')
      && (ConversionCharacter in g <==> c == 'c')
      && (ConversionCharp in g <==> c == 's')
      && (ConversionVoidp in g <==> c == 'p')
      && (ConversionNone in g <==> c == '%')
  {
    hide RenderedFlags;
    LetterBits(item.letter);
    hide ConversionOf;
    RenderedBit(item, ConversionInt);
    RenderedBit(item, ConversionUint);
    RenderedBit(item, ConversionDecimal);
    RenderedBit(item, ConversionOctal);
    RenderedBit(item, ConversionHexadecimal);
    RenderedBit(item, ConversionCapital);
    RenderedBit(item, ConversionCharacter);
    RenderedBit(item, ConversionCharp);
    RenderedBit(item, ConversionVoidp);
    RenderedBit(item, ConversionNone);
  }

  lemma FlagBits(flags: string)
    ensures forall b {:trigger b in FlagsOf(flags)} :: b in FlagsOf(flags) ==> KindOf(b) == FlagBit
    ensures AlternateForm in FlagsOf(flags) <==> '#' in flags
    ensures ZeroPadded in FlagsOf(flags) <==> '0' in flags
    ensures LeftAdjusted in FlagsOf(flags) <==> '-' in flags
    ensures PositiveBlank in FlagsOf(flags) <==> ' ' in flags
    ensures PositiveSign in FlagsOf(flags) <==> '+' in flags
  {
    assert FlagOf('#') == AlternateForm && FlagOf('0') == ZeroPadded && FlagOf('-') == LeftAdjusted;
    assert FlagOf(' ') == PositiveBlank && FlagOf('+') == PositiveSign;
    forall b | b in FlagsOf(flags) ensures KindOf(b) == FlagBit {
      var c :| c in flags && IsFlag(c) && FlagOf(c) == b;
    }
  }

  lemma LengthBits(l: Length)
    ensures forall b {:trigger b in LengthFlags(l)} :: b in LengthFlags(l) ==> KindOf(b) == LengthBit
    ensures var g := LengthFlags(l);
      && (LengthShort in g <==> l == Short || l == Char)
      && (LengthChar in g <==> l == Char)
      && (LengthLong in g <==> l == Long || l == LongLong)
      && (LengthLongLong in g <==> l == LongLong)
      && (LengthIntmax in g <==> l == Intmax)
      && (LengthSize in g <==> l == Size)
      && (LengthPtrdiff in g <==> l == Ptrdiff)
  {
  }

  lemma LetterBits(c: char)
    ensures forall b {:trigger b in ConversionOf(c)} :: b in ConversionOf(c) ==> KindOf(b) == LetterBit || b == AlternateForm
    ensures var g := ConversionOf(c);
      && (AlternateForm in g <==> c == 'p')
      && (ConversionInt in g <==> c == 'd' || c == 'i' || c == 'c')
      && (ConversionUint in g <==> c == 'o' || c == 'u' || c == 'x' || c == 'X')
      && (ConversionDecimal in g <==> c == 'd' || c == 'i' || c == 'u')
      && (ConversionOctal in g <==> c == 'o')
      && (ConversionHexadecimal in g <==> c == 'x' || c == 'X' || c == 'p')
      && (ConversionCapital in g <==> c == 'X')
      && (ConversionCharacter in g <==> c == 'c')
      && (ConversionCharp in g <==> c == 's')
      && (ConversionVoidp in g <==> c == 'p')
      && (ConversionNone in g <==> c == '%')
  {
  }

  // ---------------------------------------------------------------- one item

  lemma {:induction false} TimesIs(c: char, n: int)
    ensures Times(c, n) == Repeat(c, if n > 0 then n else 0)
    decreases n
  {
    if n > 0 {
      TimesIs(c, n - 1);
      assert Repeat(c, n) == Repeat(c, n - 1) + [c];
    }
  }

  /** The flags agree with the bits, as far as the layout is concerned. */
  predicate Agree(f: Flags, flags: string, width: nat, precision: Option<nat>) {
    && (ZeroPadded in f <==> '0' in flags)
    && (LeftAdjusted in f <==> '-' in flags)
    && (HasWidth in f <==> width > 0)
    && (HasPrecision in f <==> precision.Some?)
    && ConversionCharacter !in f
  }

  lemma NumberIs(val: nat, f: Flags, flags: string, width: nat, precision: Option<nat>, prefix: string, digits: string)
    requires Agree(f, flags, width, precision) && digits == DigitsOf(val, f)
    requires prefix == Prefix(val, f, PrecisionZeros(f, PrecisionOf(precision), |digits|))
    ensures IntText(val, f, width, PrecisionOf(precision))
         == if val == 0 && precision == Some(0) then "" else Number(prefix, digits, flags, width, precision)
  {
    hide DigitsOf, Prefix, Repeat, Times;
    var zeros := PrecisionZeros(f, PrecisionOf(precision), |digits|);
    var full := Repeat('0', zeros) + digits;
    var pad := Padding(f, width, |prefix| + zeros + |digits|);
    TimesIs('0', if precision.Some? then precision.value - |digits| else 0);
    TimesIs(' ', width - |prefix| - |full|);
    TimesIs('0', width - |prefix| - |full|);
    assert prefix + full == prefix + Repeat('0', zeros) + digits;
    if zeros == 0 {
      assert Repeat('0', 0) == "" by { assert Repeat('0', 0) == ""; }
      assert prefix + Repeat('0', pad) + full == prefix + Repeat('0', pad) + digits;
    }
    assert Repeat(' ', pad) + prefix + full == Repeat(' ', pad) + prefix + Repeat('0', zeros) + digits;
  }

  lemma WordsAre(text: string, f: Flags, flags: string, width: nat, precision: Option<nat>)
    requires (LeftAdjusted in f <==> '-' in flags) && (HasWidth in f <==> width > 0) && (HasPrecision in f <==> precision.Some?)
    ensures StringText(text, f, width, PrecisionOf(precision)) == Words(CString(text), flags, width, precision)
  {
    hide CString, Repeat, Times;
    var full := CString(text);
    var cut := if precision.Some? && precision.value < |full| then full[..precision.value] else full;
    TimesIs(' ', width - |cut|);
  }

  lemma NullText()
    ensures CString("(null)") == "(null)"
  {
    var t := "(null)";
    assert CString(t[6..]) == "";
    assert CString(t[5..]) == [t[5]] + CString(t[6..]) by { assert t[5..][1..] == t[6..]; }
    assert CString(t[4..]) == [t[4]] + CString(t[5..]) by { assert t[4..][1..] == t[5..]; }
    assert CString(t[3..]) == [t[3]] + CString(t[4..]) by { assert t[3..][1..] == t[4..]; }
    assert CString(t[2..]) == [t[2]] + CString(t[3..]) by { assert t[2..][1..] == t[3..]; }
    assert CString(t[1..]) == [t[1]] + CString(t[2..]) by { assert t[1..][1..] == t[2..]; }
    assert CString(t) == [t[0]] + CString(t[1..]);
  }

  /** The bits of a directive, once its length modifier is widened. */
  predicate BitsAre(g: Flags, item: Item)
    requires item.Conv?
  {
    FlagsAre(g, item) && LettersAre(g, item.letter)
  }

  predicate FlagsAre(g: Flags, item: Item)
    requires item.Conv?
  {
    var Conv(flags, width, precision, length, c) := item;
    && (Wide(g) <==> Takes64(length))
    && (AlternateForm in g <==> '#' in flags || c == 'p')
    && (ZeroPadded in g <==> '0' in flags)
    && (LeftAdjusted in g <==> '-' in flags)
    && (PositiveBlank in g <==> ' ' in flags)
    && (PositiveSign in g <==> '+' in flags)
    && (HasWidth in g <==> width > 0)
    && (HasPrecision in g <==> precision.Some?)
    && FlagPlus !in g && FlagMinus !in g
  }

  predicate LettersAre(g: Flags, c: char) {
    && (ConversionInt in g <==> c == 'd' || c == 'i' || c == 'c')
    && (ConversionUint in g <==> c == 'o' || c == 'u' || c == 'x' || c == 'X')
    && (ConversionDecimal in g <==> c == 'd' || c == 'i' || c == 'u')
    && (ConversionOctal in g <==> c == 'o')
    && (ConversionHexadecimal in g <==> c == 'x' || c == 'X' || c == 'p')
    && (ConversionCapital in g <==> c == 'X')
    && (ConversionCharacter in g <==> c == 'c')
    && (ConversionCharp in g <==> c == 's')
    && (ConversionVoidp in g <==> c == 'p')
    && (ConversionNone in g <==> c == '%')
  }

  /** 64 bits are taken for l, ll, j, z and t. */
  lemma WideIs(f: Flags, length: Length)
    requires (LengthShort in f <==> length == Short || length == Char) && (LengthChar in f <==> length == Char)
    requires (LengthLong in f <==> length == Long || length == LongLong) && (LengthLongLong in f <==> length == LongLong)
    requires (LengthIntmax in f <==> length == Intmax) && (LengthSize in f <==> length == Size)
    requires (LengthPtrdiff in f <==> length == Ptrdiff)
    ensures Wide(Widened(f)) <==> Takes64(length)
  {
  }

  lemma WidenedKeeps(f: Flags, b: Flag)
    requires b != LengthLong && b != LengthLongLong
    ensures b in Widened(f) <==> b in f
  {
  }

  lemma DirectiveFlags(item: Item)
    requires item.Conv? && ItemOk(item)
    ensures var Conv(flags, width, precision, length, c) := item;
      FlagsAre(Widened(RenderedFlags(flags, width, precision, length, c)), item)
  {
    var Conv(flags, width, precision, length, c) := item;
    var f := RenderedFlags(flags, width, precision, length, c);
    RenderedFlagBits(item);
    RenderedLengthBits(item);
    hide RenderedFlags;
    WideIs(f, length);
    hide Widened, Wide, Takes64;
    WidenedKeeps(f, AlternateForm);
    WidenedKeeps(f, ZeroPadded);
    WidenedKeeps(f, LeftAdjusted);
    WidenedKeeps(f, PositiveBlank);
    WidenedKeeps(f, PositiveSign);
    WidenedKeeps(f, HasWidth);
    WidenedKeeps(f, HasPrecision);
    WidenedKeeps(f, FlagPlus);
    WidenedKeeps(f, FlagMinus);
  }

  lemma DirectiveLetters(item: Item)
    requires item.Conv? && ItemOk(item)
    ensures var Conv(flags, width, precision, length, c) := item;
      LettersAre(Widened(RenderedFlags(flags, width, precision, length, c)), c)
  {
    var Conv(flags, width, precision, length, c) := item;
    var f := RenderedFlags(flags, width, precision, length, c);
    RenderedLetterBits(item);
    hide RenderedFlags, Widened;
    WidenedKeeps(f, ConversionInt);
    WidenedKeeps(f, ConversionUint);
    WidenedKeeps(f, ConversionDecimal);
    WidenedKeeps(f, ConversionOctal);
    WidenedKeeps(f, ConversionHexadecimal);
    WidenedKeeps(f, ConversionCapital);
    WidenedKeeps(f, ConversionCharacter);
    WidenedKeeps(f, ConversionCharp);
    WidenedKeeps(f, ConversionVoidp);
    WidenedKeeps(f, ConversionNone);
  }

  /** c. */
  lemma CharacterIs(item: Item, arg: Arg, d: Directive)
    requires item.Conv? && item.letter == 'c'
    requires BitsAre(Widened(d.f), item) && d.width == item.width && d.precision == PrecisionOf(item.precision)
    ensures DirectiveText(d, arg) == Printed(item, arg)
  {
    hide Widened, Number, IntText, Wide, Numeral;
    var v := Signed(arg.word, item.length);
    SignedText(item, arg, d);
    hide DirectiveText;
    CharIs(if v < 0 then -v else v, Widened(d.f) + {if v < 0 then FlagMinus else FlagPlus}, d.width, d.precision);
  }

  /** d and i. */
  lemma DecimalIs(item: Item, arg: Arg, d: Directive)
    requires item.Conv? && (item.letter == 'd' || item.letter == 'i')
    requires BitsAre(Widened(d.f), item) && d.width == item.width && d.precision == PrecisionOf(item.precision)
    ensures DirectiveText(d, arg) == Printed(item, arg)
  {
    hide Widened, Number, IntText, Wide, Numeral, Signed;
    var v := Signed(arg.word, item.length);
    SignedText(item, arg, d);
    SignBits(Widened(d.f), item, v < 0);
    hide DirectiveText, BitsAre;
    SignIs(if v < 0 then -v else v, Widened(d.f) + {if v < 0 then FlagMinus else FlagPlus}, item, v < 0);
  }

  lemma SignBits(g: Flags, item: Item, minus: bool)
    requires item.Conv? && (item.letter == 'd' || item.letter == 'i') && BitsAre(g, item)
    ensures var h := g + {if minus then FlagMinus else FlagPlus};
      && ConversionDecimal in h && ConversionCharacter !in h
      && (ZeroPadded in h <==> '0' in item.flags) && (LeftAdjusted in h <==> '-' in item.flags)
      && (PositiveBlank in h <==> ' ' in item.flags) && (PositiveSign in h <==> '+' in item.flags)
      && (HasWidth in h <==> item.width > 0) && (HasPrecision in h <==> item.precision.Some?)
      && (FlagMinus in h <==> minus) && (FlagPlus in h <==> !minus)
  {
    hide Wide;
  }

  lemma SignedText(item: Item, arg: Arg, d: Directive)
    requires item.Conv? && (item.letter == 'd' || item.letter == 'i' || item.letter == 'c')
    requires BitsAre(Widened(d.f), item)
    ensures var v := Signed(arg.word, item.length);
      DirectiveText(d, arg)
        == IntText(if v < 0 then -v else v, Widened(d.f) + {if v < 0 then FlagMinus else FlagPlus}, d.width, d.precision)
  {
    hide Widened, IntText, Wide;
  }

  lemma CharIs(n: nat, h: Flags, width: int, precision: int)
    requires ConversionCharacter in h
    ensures IntText(n, h, width, precision) == [(n % 256) as char]
  {
  }

  lemma SignIs(n: nat, h: Flags, item: Item, minus: bool)
    requires item.Conv? && ConversionDecimal in h && ConversionCharacter !in h
    requires (ZeroPadded in h <==> '0' in item.flags) && (LeftAdjusted in h <==> '-' in item.flags)
    requires (PositiveBlank in h <==> ' ' in item.flags) && (PositiveSign in h <==> '+' in item.flags)
    requires (HasWidth in h <==> item.width > 0) && (HasPrecision in h <==> item.precision.Some?)
    requires (FlagMinus in h <==> minus) && (FlagPlus in h <==> !minus)
    ensures IntText(n, h, item.width, PrecisionOf(item.precision)) ==
      if n == 0 && item.precision == Some(0) then ""
      else Number(if minus then "-" else if '+' in item.flags then "+" else if ' ' in item.flags then " " else "",
                  Numeral(n, 10, "0123456789"), item.flags, item.width, item.precision)
  {
    hide Number, IntText, Numeral;
    NumberIs(n, h, item.flags, item.width, item.precision,
             if minus then "-" else if '+' in item.flags then "+" else if ' ' in item.flags then " " else "",
             Numeral(n, 10, "0123456789"));
  }

  /** o, u, x, X and p. */
  lemma UnsignedIs(item: Item, arg: Arg, d: Directive)
    requires item.Conv? && var c := item.letter; c == 'o' || c == 'u' || c == 'x' || c == 'X' || c == 'p'
    requires BitsAre(Widened(d.f), item) && d.width == item.width && d.precision == PrecisionOf(item.precision)
    ensures DirectiveText(d, arg) == Printed(item, arg)
  {
    var Conv(flags, width, precision, length, c) := item;
    var g := Widened(d.f);
    hide Widened, Number, IntText, Wide, Numeral;
    var u := if c == 'p' then arg.word % 0x1_0000_0000_0000_0000 else Unsigned(arg.word, length);
    assert DirectiveText(d, arg) == IntText(u, g, width, PrecisionOf(precision));
    var digits := DigitsOf(u, g);
    NumberIs(u, g, flags, width, precision, Prefix(u, g, PrecisionZeros(g, PrecisionOf(precision), |digits|)), digits);
  }

  /** s, % and letters without a meaning. */
  lemma OtherIs(item: Item, arg: Arg, d: Directive)
    requires item.Conv? && item.letter !in "dicouxXp"
    requires BitsAre(Widened(d.f), item) && d.width == item.width && d.precision == PrecisionOf(item.precision)
    ensures DirectiveText(d, arg) == Printed(item, arg)
  {
    hide Widened, Words, IntText, StringText, Wide, CString;
    if item.letter == 's' {
      NullText();
      WordsAre(if arg.word == 0 then "(null)" else arg.text, Widened(d.f), item.flags, item.width, item.precision);
    }
  }

  lemma TakesIs(f: Flags, item: Item)
    requires item.Conv? && BitsAre(Widened(f), item)
    ensures TakesArgument(f) <==> item.letter in "dioxXucsp"
  {
    hide Widened, Wide;
    WidenedKeeps(f, ConversionNone);
    WidenedKeeps(f, ConversionInt);
    WidenedKeeps(f, ConversionUint);
    WidenedKeeps(f, ConversionVoidp);
    WidenedKeeps(f, ConversionCharp);
  }

  /** A directive's text, letter by letter, and whether it uses up an argument. */
  lemma PrintedIs(item: Item, arg: Arg, next: nat)
    requires item.Conv? && ItemOk(item)
    ensures var Conv(flags, width, precision, length, c) := item;
      var d := Directive(RenderedFlags(flags, width, precision, length, c), width, PrecisionOf(precision), next);
      && DirectiveText(d, arg) == Printed(item, arg)
      && (TakesArgument(d.f) <==> c in "dioxXucsp")
  {
    var Conv(flags, width, precision, length, c) := item;
    var d := Directive(RenderedFlags(flags, width, precision, length, c), width, PrecisionOf(precision), next);
    DirectiveFlags(item);
    DirectiveLetters(item);
    hide FlagsAre, LettersAre;
    assert BitsAre(Widened(d.f), item);
    hide RenderedFlags, BitsAre, DirectiveText, Printed, TakesArgument, Widened;
    TakesIs(d.f, item);
    if c == 'c' {
      CharacterIs(item, arg, d);
    } else if c == 'd' || c == 'i' {
      DecimalIs(item, arg, d);
    } else if c == 'o' || c == 'u' || c == 'x' || c == 'X' || c == 'p' {
      UnsignedIs(item, arg, d);
    } else {
      OtherIs(item, arg, d);
    }
  }

  // ---------------------------------------------------------------- whole formats

  function FormatText(items: seq<Item>): string {
    if items == [] then "" else ItemFormat(items[0]) + FormatText(items[1..])
  }

  /** The items' texts in order.  A conversion with one of the nine letters takes the
      next argument, a character, %% or another letter none. */
  function OutputText(items: seq<Item>, args: Args, k: nat): string {
    if items == [] then ""
    else
      match items[0]
      case Plain(c) => [c] + OutputText(items[1..], args, k)
      case Conv(_, _, _, _, letter) =>
        Printed(items[0], args(k)) + OutputText(items[1..], args, if letter in "dioxXucsp" then k + 1 else k)
  }

  lemma ConvFormat(item: Item)
    requires item.Conv? && ItemOk(item)
    ensures ItemFormat(item) == "%" + Render(item.flags, item.width, item.precision, item.length, item.letter)
    ensures Ends(item.letter) && forall k :: 0 <= k < |item.flags| ==> IsFlag(item.flags[k])
    ensures Takes(item) <==> item.letter in "dioxXucsp"
  {
    hide Render;
    FlagCharacters(item.flags);
  }

  lemma DirectiveMeans(s: string, p: nat, item: Item, arg: Arg)
    requires item.Conv? && ItemOk(item) && Stands(s, p, ItemFormat(item)) && Terminated(s, p + |ItemFormat(item)|)
    ensures p < |s| && s[p] == '%' && Terminated(s, p + 1) && Parse(s, p + 1).next == p + |ItemFormat(item)|
    ensures Parse(s, p + 1).f != {EndString}
    ensures DirectiveText(Parse(s, p + 1), arg) == Printed(item, arg)
    ensures TakesArgument(Parse(s, p + 1).f) <==> Takes(item)
  {
    var Conv(flags, width, precision, length, c) := item;
    var r := Render(flags, width, precision, length, c);
    ConvFormat(item);
    hide *;
    StandsSplit(s, p, "%", r);
    StandsFirst(s, p, "%");
    ParseInverts(s, p + 1, flags, width, precision, length, c);
    PrintedIs(item, arg, Parse(s, p + 1).next);
    RenderedFlagBits(item);
  }

  lemma ItemMeans(s: string, p: nat, item: Item, arg: Arg)
    requires ItemOk(item) && Stands(s, p, ItemFormat(item)) && Terminated(s, p + |ItemFormat(item)|)
    ensures Terminated(s, p) && !Ended(s, p) && ItemNext(s, p) == p + |ItemFormat(item)|
    ensures ItemText(s, p, arg) == TextOf(item, arg) && (ItemTakes(s, p) <==> Takes(item))
  {
    hide Printed, DirectiveText, TakesArgument, Parse;
    if item.Conv? {
      DirectiveMeans(s, p, item, arg);
    } else {
      StandsFirst(s, p, ItemFormat(item));
    }
  }

  lemma FlagCharacters(flags: string)
    requires forall k :: 0 <= k < |flags| ==> flags[k] in "#0- +"
    ensures forall k :: 0 <= k < |flags| ==> IsFlag(flags[k])
  {
  }

  /** Whether an item takes an argument, and what it prints. */
  predicate Takes(item: Item) {
    item.Conv? && item.letter in "dioxXucsp"
  }

  function TextOf(item: Item, arg: Arg): string {
    if item.Plain? then [item.c] else Printed(item, arg)
  }

  lemma FormatStep(items: seq<Item>)
    requires items != []
    ensures FormatText(items) == ItemFormat(items[0]) + FormatText(items[1..])
  {
  }

  lemma OutputTextStep(items: seq<Item>, args: Args, k: nat)
    requires items != []
    ensures OutputText(items, args, k)
         == TextOf(items[0], args(k)) + OutputText(items[1..], args, if Takes(items[0]) then k + 1 else k)
  {
  }

  lemma OutputNext(s: string, p: nat, args: Args, k: nat)
    requires Terminated(s, p) && !Ended(s, p)
    ensures Output(s, p, args, k)
         == ItemText(s, p, args(k)) + Output(s, ItemNext(s, p), args, if ItemTakes(s, p) then k + 1 else k)
  {
  }

  lemma NoItems(args: Args, k: nat)
    ensures FormatText([]) == "" == OutputText([], args, k)
  {
  }

  lemma EndMeans(s: string, p: nat, args: Args, k: nat)
    requires p < |s| && s[p] == '\0'
    ensures Terminated(s, p) && Output(s, p, args, k) == ""
  {
  }

  lemma {:induction false} ItemsMean(s: string, p: nat, items: seq<Item>, args: Args, k: nat)
    requires (forall j :: 0 <= j < |items| ==> ItemOk(items[j])) && Stands(s, p, FormatText(items))
    requires p + |FormatText(items)| == |s| - 1 && s[|s| - 1] == '\0'
    ensures Terminated(s, p) && Output(s, p, args, k) == OutputText(items, args, k)
    decreases |items|
  {
    hide *;
    if items == [] {
      NoItems(args, k);
      EndMeans(s, p, args, k);
    } else {
      FormatStep(items);
      OutputTextStep(items, args, k);
      var first, rest := ItemFormat(items[0]), FormatText(items[1..]);
      StandsSplit(s, p, first, rest);
      var next := if Takes(items[0]) then k + 1 else k;
      assert forall j :: 0 <= j < |items[1..]| ==> items[1..][j] == items[j + 1];
      ItemsMean(s, p + |first|, items[1..], args, next);
      ItemMeans(s, p, items[0], args(k));
      OutputNext(s, p, args, k);
    }
  }

  /** A format of items prints, of any arguments, what its items print one after the
      other, each conversion of the argument whose turn it is. */
  lemma FormatMeans(items: seq<Item>, args: Args)
    requires forall j :: 0 <= j < |items| ==> ItemOk(items[j])
    ensures var s := FormatText(items) + ['\0'];
      Terminated(s, 0) && Output(s, 0, args, 0) == OutputText(items, args, 0)
  {
    var s := FormatText(items) + ['\0'];
    assert Stands(s, 0, FormatText(items));
    ItemsMean(s, 0, items, args, 0);
  }

  // ---------------------------------------------------------------- any directive

  lemma {:induction false} LengthsMean(t: string)
    requires forall k :: 0 <= k < |t| ==> IsLength(t[k])
    ensures forall b {:trigger b in LengthsOf(t)} :: b in LengthsOf(t) ==> KindOf(b) == LengthBit
    ensures var g := LengthsOf(t);
      && (LengthShort in g <==> multiset(t)['h'] >= 1) && (LengthChar in g <==> multiset(t)['h'] >= 2)
      && (LengthLong in g <==> multiset(t)['l'] >= 1) && (LengthLongLong in g <==> multiset(t)['l'] >= 2)
      && (LengthIntmax in g <==> multiset(t)['j'] >= 1) && (LengthSize in g <==> multiset(t)['z'] >= 1)
      && (LengthPtrdiff in g <==> multiset(t)['t'] >= 1)
    decreases |t|
  {
    if t != "" {
      var n := |t| - 1;
      LengthsMean(t[..n]);
      assert t == t[..n] + [t[n]];
      assert LengthsOf(t) == AddLength(LengthsOf(t[..n]), t[n]);
      LengthMore(LengthsOf(t[..n]), t[n]);
      hide LengthsOf, AddLength;
    }
  }

  lemma LengthMore(f: Flags, c: char)
    requires IsLength(c)
    ensures var g := AddLength(f, c);
      && f <= g && (forall b {:trigger b in g} :: b in g && b !in f ==> KindOf(b) == LengthBit)
      && (LengthShort in g <==> LengthShort in f || c == 'h')
      && (LengthChar in g <==> LengthChar in f || (c == 'h' && LengthShort in f))
      && (LengthLong in g <==> LengthLong in f || c == 'l')
      && (LengthLongLong in g <==> LengthLongLong in f || (c == 'l' && LengthLong in f))
      && (LengthIntmax in g <==> LengthIntmax in f || c == 'j')
      && (LengthSize in g <==> LengthSize in f || c == 'z')
      && (LengthPtrdiff in g <==> LengthPtrdiff in f || c == 't')
  {
  }

  /** Where the parts of a directive end: flags at a, width at b, precision at c, length
      modifiers at e, where the letter is. */
  predicate Parts(s: string, p: nat, a: nat, b: nat, c: nat, e: nat) {
    && p <= a <= b <= c <= e < |s|
    && (forall k :: p <= k < a ==> IsFlag(s[k])) && !IsFlag(s[a])
    && (forall k :: a <= k < b ==> IsDigit(s[k])) && !IsDigit(s[b])
    && (if s[b] == '.' then b < c && (forall k :: b < k < c ==> IsDigit(s[k])) && !IsDigit(s[c]) else c == b)
    && (forall k :: c <= k < e ==> IsLength(s[k])) && !IsLength(s[e])
  }

  lemma LengthPart(s: string, p: nat, f: Flags, width: int, precision: int) returns (e: nat)
    requires Terminated(s, p) && ParseLength(s, p, f, width, precision).f != {EndString}
    ensures p <= e < |s| && (forall k :: p <= k < e ==> IsLength(s[k])) && !IsLength(s[e]) && s[e] != '\0'
    ensures ParseLength(s, p, f, width, precision) == Directive(f + LengthsOf(s[p..e]) + ConversionOf(s[e]), width, precision, e + 1)
  {
    SpanTerminated(s, p, IsLength);
    e := Span(s, p, IsLength);
    hide LengthsOf, ConversionOf;
  }

  lemma PrecisionPart(s: string, p: nat, f: Flags, width: int) returns (c: nat, e: nat)
    requires Terminated(s, p) && p < |s| && s[p] != '\0' && !IsDigit(s[p]) && ParsePrecision(s, p, f, width).f != {EndString}
    ensures p <= c <= e < |s|
    ensures if s[p] == '.' then p < c && (forall k :: p < k < c ==> IsDigit(s[k])) && !IsDigit(s[c]) else c == p
    ensures (forall k :: c <= k < e ==> IsLength(s[k])) && !IsLength(s[e]) && s[e] != '\0'
    ensures ParsePrecision(s, p, f, width)
         == Directive(With(f, s[p] == '.', HasPrecision) + LengthsOf(s[c..e]) + ConversionOf(s[e]), width,
                      if s[p] == '.' then Value(s[p + 1..c], 10) else 0, e + 1)
  {
    c := p;
    if s[p] == '.' {
      SpanTerminated(s, p + 1, IsDigit);
      c := Span(s, p + 1, IsDigit);
      hide Value, ParseLength;
      e := LengthPart(s, c, With(f, true, HasPrecision), width, Value(s[p + 1..c], 10));
    } else {
      hide ParseLength;
      e := LengthPart(s, c, f, width, 0);
    }
    hide LengthsOf, ConversionOf;
  }

  lemma PartsOf(s: string, p: nat) returns (a: nat, b: nat, c: nat, e: nat)
    requires Terminated(s, p) && Parse(s, p).f != {EndString}
    ensures p <= a <= b <= c <= e < |s| && Parts(s, p, a, b, c, e) && s[e] != '\0'
    ensures Parse(s, p) == Directive(
      With(With(FlagsOf(s[p..a]), a < b, HasWidth), s[b] == '.', HasPrecision) + LengthsOf(s[c..e]) + ConversionOf(s[e]),
      Value(s[a..b], 10), if s[b] == '.' then Value(s[b + 1..c], 10) else 0, e + 1)
  {
    hide Value, LengthsOf, ConversionOf, FlagsOf, ParsePrecision, ParseLength, With;
    SpanTerminated(s, p, IsFlag);
    a := Span(s, p, IsFlag);
    SpanTerminated(s, a, IsDigit);
    b := Span(s, a, IsDigit);
    var f, width := With(FlagsOf(s[p..a]), a < b, HasWidth), Value(s[a..b], 10);
    assert s[a] != NUL && s[b] != NUL && Parse(s, p) == ParsePrecision(s, b, f, width);
    hide Parse, ParseWidth, Span;
    c, e := PrecisionPart(s, b, f, width);
  }

  /** A union of bits from flags, lengths and a letter. */
  lemma PartBit(f: Flags, wide: bool, precise: bool, l: Flags, g: Flags, bit: Flag)
    requires forall x {:trigger x in f} :: x in f ==> KindOf(x) == FlagBit
    requires forall x {:trigger x in l} :: x in l ==> KindOf(x) == LengthBit
    requires forall x {:trigger x in g} :: x in g ==> KindOf(x) == LetterBit || x == AlternateForm
    ensures bit in With(With(f, wide, HasWidth), precise, HasPrecision) + l + g <==>
      match KindOf(bit)
      case FlagBit => bit in f || bit in g
      case LengthBit => bit in l
      case LetterBit => bit in g
      case OtherBit => (bit == HasWidth && wide) || (bit == HasPrecision && precise)
  {
  }

  lemma PartSlices(s: string, p: nat, a: nat, b: nat, c: nat, e: nat)
    requires p <= a <= b <= c <= e < |s| && Parts(s, p, a, b, c, e)
    ensures forall k :: 0 <= k < |s[p..a]| ==> IsFlag(s[p..a][k])
    ensures forall k :: 0 <= k < |s[c..e]| ==> IsLength(s[c..e][k])
  {
    hide IsFlag, IsLength;
  }

  /** On any format, in any form: the parts of a directive that is not cut short, and
      the bits that each of them sets. */
  lemma ParseParts(s: string, p: nat) returns (a: nat, b: nat, c: nat, e: nat)
    requires Terminated(s, p) && Parse(s, p).f != {EndString}
    ensures Parts(s, p, a, b, c, e) && s[e] != '\0'
    ensures var d := Parse(s, p);
      && d.next == e + 1 && d.width == Value(s[a..b], 10) && (HasWidth in d.f <==> a < b)
      && (HasPrecision in d.f <==> s[b] == '.')
      && d.precision == if s[b] == '.' then Value(s[b + 1..c], 10) else 0
    ensures var d := Parse(s, p);
      && (AlternateForm in d.f <==> '#' in s[p..a] || s[e] == 'p')
      && (ZeroPadded in d.f <==> '0' in s[p..a])
      && (LeftAdjusted in d.f <==> '-' in s[p..a])
      && (PositiveBlank in d.f <==> ' ' in s[p..a])
      && (PositiveSign in d.f <==> '+' in s[p..a])
    ensures var d, t := Parse(s, p), multiset(s[c..e]);
      && (LengthShort in d.f <==> t['h'] >= 1) && (LengthChar in d.f <==> t['h'] >= 2)
      && (LengthLong in d.f <==> t['l'] >= 1) && (LengthLongLong in d.f <==> t['l'] >= 2)
      && (LengthIntmax in d.f <==> t['j'] >= 1) && (LengthSize in d.f <==> t['z'] >= 1)
      && (LengthPtrdiff in d.f <==> t['t'] >= 1)
    ensures LettersAre(Parse(s, p).f, s[e])
  {
    hide *;
    a, b, c, e := PartsOf(s, p);
    PartSlices(s, p, a, b, c, e);
    PartsSetFlags(s[p..a], a < b, s[b] == '.', s[c..e], s[e], Parse(s, p).f);
    PartsSetLengths(s[p..a], a < b, s[b] == '.', s[c..e], s[e], Parse(s, p).f);
    PartsSetLetters(s[p..a], a < b, s[b] == '.', s[c..e], s[e], Parse(s, p).f);
  }

  lemma PartsSetFlags(flags: string, wide: bool, precise: bool, lengths: string, letter: char, f: Flags)
    requires forall k :: 0 <= k < |flags| ==> IsFlag(flags[k])
    requires forall k :: 0 <= k < |lengths| ==> IsLength(lengths[k])
    requires f == With(With(FlagsOf(flags), wide, HasWidth), precise, HasPrecision) + LengthsOf(lengths) + ConversionOf(letter)
    ensures && (HasWidth in f <==> wide) && (HasPrecision in f <==> precise)
      && (AlternateForm in f <==> '#' in flags || letter == 'p')
      && (ZeroPadded in f <==> '0' in flags) && (LeftAdjusted in f <==> '-' in flags)
      && (PositiveBlank in f <==> ' ' in flags) && (PositiveSign in f <==> '+' in flags)
  {
    hide With, FlagsOf, LengthsOf, ConversionOf;
    FlagBits(flags);
    LengthsMean(lengths);
    LetterBits(letter);
    var q, l, g := FlagsOf(flags), LengthsOf(lengths), ConversionOf(letter);
    PartBit(q, wide, precise, l, g, HasWidth);
    PartBit(q, wide, precise, l, g, HasPrecision);
    PartBit(q, wide, precise, l, g, AlternateForm);
    PartBit(q, wide, precise, l, g, ZeroPadded);
    PartBit(q, wide, precise, l, g, LeftAdjusted);
    PartBit(q, wide, precise, l, g, PositiveBlank);
    PartBit(q, wide, precise, l, g, PositiveSign);
  }

  lemma PartsSetLengths(flags: string, wide: bool, precise: bool, lengths: string, letter: char, f: Flags)
    requires forall k :: 0 <= k < |flags| ==> IsFlag(flags[k])
    requires forall k :: 0 <= k < |lengths| ==> IsLength(lengths[k])
    requires f == With(With(FlagsOf(flags), wide, HasWidth), precise, HasPrecision) + LengthsOf(lengths) + ConversionOf(letter)
    ensures var t := multiset(lengths);
      && (LengthShort in f <==> t['h'] >= 1) && (LengthChar in f <==> t['h'] >= 2)
      && (LengthLong in f <==> t['l'] >= 1) && (LengthLongLong in f <==> t['l'] >= 2)
      && (LengthIntmax in f <==> t['j'] >= 1) && (LengthSize in f <==> t['z'] >= 1)
      && (LengthPtrdiff in f <==> t['t'] >= 1)
  {
    hide With, FlagsOf, LengthsOf, ConversionOf;
    FlagBits(flags);
    LengthsMean(lengths);
    LetterBits(letter);
    var q, l, g := FlagsOf(flags), LengthsOf(lengths), ConversionOf(letter);
    PartBit(q, wide, precise, l, g, LengthShort);
    PartBit(q, wide, precise, l, g, LengthChar);
    PartBit(q, wide, precise, l, g, LengthLong);
    PartBit(q, wide, precise, l, g, LengthLongLong);
    PartBit(q, wide, precise, l, g, LengthIntmax);
    PartBit(q, wide, precise, l, g, LengthSize);
    PartBit(q, wide, precise, l, g, LengthPtrdiff);
  }

  lemma PartLetter(f: Flags, wide: bool, precise: bool, l: Flags, g: Flags, bit: Flag)
    requires forall x {:trigger x in f} :: x in f ==> KindOf(x) == FlagBit
    requires forall x {:trigger x in l} :: x in l ==> KindOf(x) == LengthBit
    requires KindOf(bit) == LetterBit
    ensures bit in With(With(f, wide, HasWidth), precise, HasPrecision) + l + g <==> bit in g
  {
  }

  lemma PartKinds(flags: string, lengths: string)
    requires forall k :: 0 <= k < |lengths| ==> IsLength(lengths[k])
    ensures forall x {:trigger x in FlagsOf(flags)} :: x in FlagsOf(flags) ==> KindOf(x) == FlagBit
    ensures forall x {:trigger x in LengthsOf(lengths)} :: x in LengthsOf(lengths) ==> KindOf(x) == LengthBit
  {
    FlagBits(flags);
    LengthsMean(lengths);
  }

  lemma PartsSetLetters(flags: string, wide: bool, precise: bool, lengths: string, letter: char, f: Flags)
    requires forall k :: 0 <= k < |flags| ==> IsFlag(flags[k])
    requires forall k :: 0 <= k < |lengths| ==> IsLength(lengths[k])
    requires f == With(With(FlagsOf(flags), wide, HasWidth), precise, HasPrecision) + LengthsOf(lengths) + ConversionOf(letter)
    ensures LettersAre(f, letter)
  {
    hide With, FlagsOf, LengthsOf, ConversionOf;
    PartKinds(flags, lengths);
    LetterBits(letter);
    var q, l, g := FlagsOf(flags), LengthsOf(lengths), ConversionOf(letter);
    PartLetter(q, wide, precise, l, g, ConversionInt);
    PartLetter(q, wide, precise, l, g, ConversionUint);
    PartLetter(q, wide, precise, l, g, ConversionDecimal);
    PartLetter(q, wide, precise, l, g, ConversionOctal);
    PartLetter(q, wide, precise, l, g, ConversionHexadecimal);
    PartLetter(q, wide, precise, l, g, ConversionCapital);
    PartLetter(q, wide, precise, l, g, ConversionCharacter);
    PartLetter(q, wide, precise, l, g, ConversionCharp);
    PartLetter(q, wide, precise, l, g, ConversionVoidp);
    PartLetter(q, wide, precise, l, g, ConversionNone);
  }
}
