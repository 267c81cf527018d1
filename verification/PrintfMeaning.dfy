/**
  What formats mean, said without the printing code: the characters of a field, the value
  that reads back from each conversion, and the text of a format written out from its items
  (src/RTT/SEGGER_RTT_printf.c:346-463, 498-511).
 */
module PrintfMeaning {
  import opened Machine
  import opened NumberFormat
  import opened PrintfSpec
  import opened PrintfCode
  import opened PrintfFormat

  // ---- Fields ----

  lemma CharsAre(digits: seq<nat>, i: nat)
    requires AreDigits(digits, 16) && i < |digits|
    ensures Chars(digits)[i] == "0123456789ABCDEF"[digits[i]] as int
  {
  }

  /** Where the padding of a field is: behind, between sign and digits as zeros, or in front. */
  lemma FieldShape(sign: seq<byte>, body: seq<byte>, width: nat, precision: nat, f: Flags)
    ensures var s, n := Field(sign, body, width, precision, f), |sign| + |body|;
            && |s| == Max(width, n)
            && (f.left ==> s[..n] == sign + body && forall i :: n <= i < |s| ==> s[i] == ' ' as int)
            && (!f.left && f.zero && precision == 0 ==>
                  s[..|sign|] == sign && s[|s| - |body|..] == body && forall i :: |sign| <= i < |s| - |body| ==> s[i] == '0' as int)
            && (!f.left && !(f.zero && precision == 0) ==>
                  s[|s| - n..] == sign + body && forall i :: 0 <= i < |s| - n ==> s[i] == ' ' as int)
  {
  }

  /** The text of an unsigned number: its digits in the field, read back in the base. */
  ghost predicate IsUnsigned(text: seq<byte>, n: u32, base: nat, precision: nat, width: nat, f: Flags)
    requires base == 10 || base == 16
  {
    && text == UnsignedText(n, base, precision, width, f)
    && ReadNumber(text, base) == n
    && |text| == Max(width, Max(precision, NumLen(n, base)))
  }

  ghost predicate IsSigned(text: seq<byte>, v: i32, precision: nat, width: nat, f: Flags) {
    && text == IntText(v, precision, width, f)
    && ReadNumber(text, 10) == v
    && (v < 0 ==> '-' as int in text) && (v >= 0 && f.plus ==> '+' as int in text)
  }

  lemma SignIsThere(v: i32, precision: nat, width: nat, f: Flags, c: byte)
    requires c in SignText(v, f)
    ensures c in IntText(v, precision, width, f)
  {
    var sign, body := SignText(v, f), NumberText(Abs(v), 10, precision);
    var s := IntText(v, precision, width, f);
    FieldShape(sign, body, width, precision, f);
    assert c == sign[0];
    if f.left {
      assert s[..|sign| + |body|][0] == c;
    } else if f.zero && precision == 0 {
      assert s[..|sign|][0] == c;
    } else {
      assert s[|s| - |sign| - |body|..][0] == c;
    }
  }

  // ---- Conversions ----

  /** The precision is within what the digit loop can do. */
  predicate Within(conv: byte, precision: int) {
    && (conv == 'd' as int || conv == 'u' as int ==> precision <= 10)
    && (conv == 'x' as int || conv == 'X' as int ==> precision <= 8)
  }

  /** What a conversion prints, by its character. */
  ghost predicate Depicts(text: seq<byte>, conv: byte, f: Flags, width: nat, precision: int, arg: Option<Arg>) {
    var p := if precision < 0 then 0 else precision;
    if conv == 'd' as int then
      arg.Some? && arg.value.Int? && IsSigned(text, arg.value.v, p, width, f)
    else if conv == 'u' as int then
      arg.Some? && arg.value.Int? && IsUnsigned(text, arg.value.v % 0x1_0000_0000, 10, p, width, f)
    else if conv == 'x' as int || conv == 'X' as int then
      arg.Some? && arg.value.Int? && IsUnsigned(text, arg.value.v % 0x1_0000_0000, 16, p, width, f)
    else if conv == 'p' as int then
      arg.Some? && arg.value.Int? && IsUnsigned(text, arg.value.v % 0x1_0000_0000, 16, 8, 8, Flags(false, false, false)) && |text| == 8
    else if conv == 'c' as int then
      arg.Some? && arg.value.Int? && text == [arg.value.v % 256]
    else if conv == 's' as int then
      && arg.Some? && !arg.value.Int?
      && (arg.value.Null? ==> text == ['(' as int, 'N' as int, 'U' as int, 'L' as int, 'L' as int, ')' as int])
      && (arg.value.Str? && precision < 0 ==> text == arg.value.s)
      && (arg.value.Str? && precision >= 0 ==> text <= arg.value.s && |text| == Min(precision, |arg.value.s|))
    else if conv == '%' as int then text == ['%' as int]
    else text == []
  }

  lemma ToUnsignedIsRemainder(v: i32)
    ensures ToUnsigned(v) == v % 0x1_0000_0000 && ToUnsigned(v) % 256 == v % 256
  {
    assert v < 0 ==> v == ToUnsigned(v) - 0x100_0000 * 256;
  }

  lemma UnsignedMeans(u: u32, base: nat, precision: nat, width: nat, f: Flags)
    requires (base == 10 && precision <= 10) || (base == 16 && precision <= 8)
    ensures Printable(u, base, precision)
    ensures IsUnsigned(CodeUnsigned(u, base, precision, width, f), u, base, precision, width, f)
  {
    UnsignedRight(u, base, precision, width, f);
    UnsignedRoundTrip(u, base, precision, width, f);
  }

  lemma SignedMeans(v: i32, precision: nat, width: nat, f: Flags)
    requires precision <= 10
    ensures Printable(Abs(v), 10, precision) && IsSigned(CodeInt(v, precision, width, f), v, precision, width, f)
  {
    IntFromUnsigned(v, precision, width, f);
    IntRoundTrip(v, precision, width, f);
    if v < 0 {
      SignIsThere(v, precision, width, f, '-' as int);
    } else if f.plus {
      SignIsThere(v, precision, width, f, '+' as int);
    }
  }

  /** The unsigned conversions, by the code they run. */
  lemma ConvertUnsigned(conv: byte, f: Flags, width: u32, precision: int, v: i32)
    ensures var p := if precision < 0 then 0 else precision;
            && (conv == 'u' as int ==> Convert(Actual, conv, f, width, precision, Some(Int(v))) == UnsignedBy(Actual, ToUnsigned(v), 10, p, width, f))
            && (conv == 'x' as int || conv == 'X' as int ==> Convert(Actual, conv, f, width, precision, Some(Int(v))) == UnsignedBy(Actual, ToUnsigned(v), 16, p, width, f))
            && (conv == 'p' as int ==> Convert(Actual, conv, f, width, precision, Some(Int(v))) == UnsignedBy(Actual, ToUnsigned(v), 16, 8, 8, Flags(false, false, false)))
  {
  }

  lemma UnsignedByMeans(u: u32, base: nat, precision: nat, width: nat, f: Flags)
    requires (base == 10 && precision <= 10) || (base == 16 && precision <= 8)
    ensures UnsignedBy(Actual, u, base, precision, width, f).Some?
    ensures IsUnsigned(UnsignedBy(Actual, u, base, precision, width, f).value, u, base, precision, width, f)
  {
    UnsignedMeans(u, base, precision, width, f);
  }

  lemma NumberMeans(conv: byte, f: Flags, width: u32, precision: int, v: i32)
    requires conv == 'u' as int || conv == 'x' as int || conv == 'X' as int || conv == 'p' as int
    requires Within(conv, precision)
    ensures Convert(Actual, conv, f, width, precision, Some(Int(v))).Some?
    ensures Depicts(Convert(Actual, conv, f, width, precision, Some(Int(v))).value, conv, f, width, precision, Some(Int(v)))
  {
    ToUnsignedIsRemainder(v);
    ConvertUnsigned(conv, f, width, precision, v);
    var p := if precision < 0 then 0 else precision;
    if conv == 'u' as int {
      UnsignedByMeans(ToUnsigned(v), 10, p, width, f);
    } else if conv == 'p' as int {
      EightDigits(ToUnsigned(v));
      UnsignedByMeans(ToUnsigned(v), 16, 8, 8, Flags(false, false, false));
    } else {
      UnsignedByMeans(ToUnsigned(v), 16, p, width, f);
    }
  }

  lemma EightDigits(u: u32)
    ensures NumLen(u, 16) <= 8
  {
    Powers();
    assert Pow(16, 8) == 16 * Pow(16, 7);
    if NumLen(u, 16) > 8 {
      NumLenBounds(u, 16);
      PowMonotonic(16, 8, NumLen(u, 16) - 1);
    }
  }

  lemma ConvertInt(f: Flags, width: u32, precision: int, v: i32)
    requires v > INT_MIN
    ensures Convert(Actual, 'd' as int, f, width, precision, Some(Int(v))) == IntBy(Actual, v, if precision < 0 then 0 else precision, width, f)
  {
  }

  lemma IntByMeans(v: i32, precision: nat, width: nat, f: Flags)
    requires precision <= 10
    ensures IntBy(Actual, v, precision, width, f).Some? && IsSigned(IntBy(Actual, v, precision, width, f).value, v, precision, width, f)
  {
    SignedMeans(v, precision, width, f);
  }

  lemma IntMeans(f: Flags, width: u32, precision: int, v: i32)
    requires v > INT_MIN && precision <= 10
    ensures Convert(Actual, 'd' as int, f, width, precision, Some(Int(v))).Some?
    ensures Depicts(Convert(Actual, 'd' as int, f, width, precision, Some(Int(v))).value, 'd' as int, f, width, precision, Some(Int(v)))
  {
    ConvertInt(f, width, precision, v);
    IntByMeans(v, if precision < 0 then 0 else precision, width, f);
  }

  /** The argument a conversion wants: an integer, a string, or none. */
  predicate Suits(conv: byte, arg: Option<Arg>) {
    if conv == 'c' as int || conv == 'u' as int || conv == 'x' as int || conv == 'X' as int || conv == 'p' as int then
      arg.Some? && arg.value.Int?
    else if conv == 'd' as int then arg.Some? && arg.value.Int? && arg.value.v > -0x8000_0000
    else if conv == 's' as int then arg.Some? && !arg.value.Int?
    else true
  }

  lemma OtherMeans(conv: byte, f: Flags, width: u32, precision: int, arg: Option<Arg>)
    requires conv != 'd' as int && conv != 'u' as int && conv != 'x' as int && conv != 'X' as int && conv != 'p' as int
    ensures Convert(Actual, conv, f, width, precision, arg).Some? <==> Suits(conv, arg)
    ensures Suits(conv, arg) ==> Depicts(Convert(Actual, conv, f, width, precision, arg).value, conv, f, width, precision, arg)
  {
    if conv == 'c' as int && arg.Some? && arg.value.Int? {
      ToUnsignedIsRemainder(arg.value.v);
    }
  }

  /** A conversion with a precision within the limits is defined exactly for a suitable argument, and prints what its character says. */
  lemma ConversionMeans(conv: byte, f: Flags, width: u32, precision: int, arg: Option<Arg>)
    requires Within(conv, precision)
    ensures Convert(Actual, conv, f, width, precision, arg).Some? <==> Suits(conv, arg)
    ensures Suits(conv, arg) ==> Depicts(Convert(Actual, conv, f, width, precision, arg).value, conv, f, width, precision, arg)
  {
    if conv == 'd' as int {
      if Suits(conv, arg) {
        IntMeans(f, width, precision, arg.value.v);
      }
    } else if conv == 'u' as int || conv == 'x' as int || conv == 'X' as int || conv == 'p' as int {
      if Suits(conv, arg) {
        NumberMeans(conv, f, width, precision, arg.value.v);
      }
    } else {
      OtherMeans(conv, f, width, precision, arg);
    }
  }

  // ---- Decimal numbers in a format ----

  lemma {:induction false} ValueSnoc(digits: seq<nat>, d: nat, base: nat)
    requires base >= 2
    ensures Value(digits + [d], base) == Value(digits, base) * base + d
    decreases |digits|
  {
    var all := digits + [d];
    if digits == [] {
      assert all[1..] == [] && Pow(base, 0) == 1;
    } else {
      assert all[1..] == digits[1..] + [d];
      ValueSnoc(digits[1..], d, base);
      Distribute(digits[0], Pow(base, |digits| - 1), Value(digits[1..], base), base);
      assert Pow(base, |digits|) == base * Pow(base, |digits| - 1);
      assert digits[0] * Pow(base, |digits|) == digits[0] * (base * Pow(base, |digits| - 1));
    }
  }

  lemma Distribute(d: nat, p: nat, v: nat, base: nat)
    ensures (d * p + v) * base == d * (base * p) + v * base
  {
    assert d * p * base == d * (p * base);
  }

  /** Scanning digits gives their value, modulo 2^32. */
  lemma {:induction false} DecimalIsValue(s: seq<byte>)
    requires forall i :: 0 <= i < |s| ==> Is(s[i], DigitChars)
    ensures Decimal(s) == Value(DigitValues(s), 10) % TWO_32
    decreases |s|
  {
    if s != [] {
      var front, d := s[..|s| - 1], s[|s| - 1] - ZERO;
      DecimalIsValue(front);
      assert DigitValues(s) == DigitValues(front) + [d];
      ValueSnoc(DigitValues(front), d, 10);
      WrapTen(Value(DigitValues(front), 10), d);
    }
  }

  lemma WrapTen(a: nat, d: nat)
    ensures (a % TWO_32 * 10 + d) % TWO_32 == (a * 10 + d) % TWO_32
  {
    var q := a / TWO_32;
    assert a * 10 + d == a % TWO_32 * 10 + d + 10 * q * TWO_32;
    ModShift(a % TWO_32 * 10 + d, 10 * q);
  }

  lemma {:induction false} ModShift(x: nat, k: nat)
    ensures (x + k * TWO_32) % TWO_32 == x % TWO_32
    decreases k
  {
    if k > 0 {
      ModShift(x, k - 1);
      assert x + k * TWO_32 == x + (k - 1) * TWO_32 + TWO_32;
    }
  }

  /** A number written out in decimal. */
  function DecimalText(n: u32): (s: seq<byte>)
    ensures |s| >= 1
  {
    NumberText(n, 10, 0)
  }

  lemma DecimalTextIs(n: u32)
    ensures forall i :: 0 <= i < |DecimalText(n)| ==> Is(DecimalText(n)[i], DigitChars)
    ensures Decimal(DecimalText(n)) == n
    ensures n > 0 ==> DecimalText(n)[0] != ZERO
  {
    var len := NumLen(n, 10);
    var digits := Numeral(n, 10, len);
    NumeralDigits(n, 10, len);
    CharsReadBack(digits);
    DecimalIsValue(DecimalText(n));
    if n > 0 {
      LeadIsNotZero(n);
    }
  }

  lemma LeadIsNotZero(n: u32)
    requires n > 0
    ensures DecimalText(n)[0] != ZERO
  {
    var p := Pow(10, NumLen(n, 10) - 1);
    NumLenBounds(n, 10);
    NumeralDigits(n, 10, NumLen(n, 10));
    assert Numeral(n, 10, NumLen(n, 10))[0] == n / p;
    DivLess(n, p, 1);
  }

  // ---- Formats written out from their items ----

  /** A piece of a format: plain text, or a conversion with all that can be said in its specification. */
  datatype Item =
    | Plain(s: seq<byte>)
    | Conversion(f: Flags, width: u32, precision: Precision, modifiers: seq<byte>, conv: byte)

  /** Plain text has no percent sign; a conversion character is none that belongs to the specification. */
  predicate Proper(item: Item) {
    match item
    case Plain(s) => '%' as int !in s
    case Conversion(_, _, _, modifiers, conv) =>
      && (forall c :: c in modifiers ==> c == 'l' as int || c == 'h' as int)
      && !Is(conv, FlagChars) && !Is(conv, DigitChars) && !Is(conv, LengthChars) && conv != '.' as int
  }

  function FlagText(f: Flags): seq<byte> {
    (if f.left then ['-' as int] else []) + (if f.zero then ['0' as int] else []) + (if f.plus then ['+' as int] else [])
  }

  function WidthText(width: u32): seq<byte> {
    if width == 0 then [] else DecimalText(width)
  }

  function PrecisionText(p: Precision): seq<byte> {
    match p
    case Unset => []
    case Literal(n) => ['.' as int] + DecimalText(n)
    case FromArgument => ['.' as int, '*' as int]
  }

  /** A specification without its percent sign and conversion character. */
  function SpecText(item: Item): seq<byte>
    requires item.Conversion?
  {
    FlagText(item.f) + WidthText(item.width) + PrecisionText(item.precision) + item.modifiers
  }

  function ItemText(item: Item): seq<byte> {
    match item
    case Plain(s) => s
    case Conversion(_, _, _, _, conv) => ['%' as int] + SpecText(item) + [conv]
  }

  function Written(items: seq<Item>): seq<byte> {
    if items == [] then [] else ItemText(items[0]) + Written(items[1..])
  }

  /** What a format means: plain text stands for itself, and the conversions take the arguments from left to right. */
  function Meaning(how: Numbers, items: seq<Item>, args: seq<Arg>): Option<seq<byte>>
    decreases |items|, 1
  {
    if items == [] then Some([])
    else match items[0]
      case Plain(s) => Append(Some(s), Meaning(how, items[1..], args))
      case Conversion(f, width, Unset, _, conv) => OneConversion(how, conv, f, width, -1, args, items)
      case Conversion(f, width, Literal(n), _, conv) => OneConversion(how, conv, f, width, n, args, items)
      case Conversion(f, width, FromArgument, _, conv) =>
        if args == [] || !args[0].Int? then None
        else OneConversion(how, conv, f, width, args[0].v % 0x1_0000_0000, args[1..], items)
  }

  function OneConversion(how: Numbers, conv: byte, f: Flags, width: u32, precision: int, args: seq<Arg>, items: seq<Item>): Option<seq<byte>>
    requires items != []
    decreases |items|, 0
  {
    if conv == 'c' as int || conv == 'd' as int || conv == 'u' as int || conv == 'x' as int || conv == 'X' as int || conv == 's' as int || conv == 'p' as int then
      if args == [] then None
      else Append(Convert(how, conv, f, width, precision, Some(args[0])), Meaning(how, items[1..], args[1..]))
    else Append(Convert(how, conv, f, width, precision, None), Meaning(how, items[1..], args))
  }

  /** Where a run of characters of a class ends. */
  lemma {:induction false} SpanIs(fmt: seq<byte>, i: nat, e: nat, cls: Class)
    requires i <= e <= |fmt| && (e < |fmt| ==> !Is(fmt[e], cls))
    requires forall k :: i <= k < e ==> Is(fmt[k], cls)
    ensures SpanEnd(fmt, i, cls) == e
    decreases e - i
  {
    if i < e {
      SpanIs(fmt, i + 1, e, cls);
    }
  }

  lemma FlagsReadBack(f: Flags)
    ensures FlagsOf(FlagText(f)) == f && forall i :: 0 <= i < |FlagText(f)| ==> Is(FlagText(f)[i], FlagChars)
  {
  }

  /** The specification of `item` and its conversion character stand in `fmt` from position `i` on. */
  ghost predicate Placed(fmt: seq<byte>, i: nat, item: Item) {
    && item.Conversion? && i + |SpecText(item)| < |fmt|
    && fmt[i..i + |SpecText(item)|] == SpecText(item) && fmt[i + |SpecText(item)|] == item.conv
  }

  /** Where its parts stand. */
  lemma PartsPlaced(fmt: seq<byte>, i: nat, item: Item, a: nat, b: nat, c: nat, d: nat)
    requires Placed(fmt, i, item)
    requires a == i + |FlagText(item.f)| && b == a + |WidthText(item.width)| && c == b + |PrecisionText(item.precision)| && d == c + |item.modifiers|
    ensures d < |fmt| && fmt[d] == item.conv
    ensures fmt[i..a] == FlagText(item.f) && fmt[a..b] == WidthText(item.width)
    ensures fmt[b..c] == PrecisionText(item.precision) && fmt[c..d] == item.modifiers
  {
    PartsOf(fmt, i, SpecText(item), FlagText(item.f), WidthText(item.width), PrecisionText(item.precision), item.modifiers, a, b, c, d);
  }

  lemma PartsOf(fmt: seq<byte>, i: nat, t: seq<byte>, w: seq<byte>, x: seq<byte>, y: seq<byte>, z: seq<byte>, a: nat, b: nat, c: nat, d: nat)
    requires t == w + x + y + z && i + |t| < |fmt| && fmt[i..i + |t|] == t
    requires a == i + |w| && b == a + |x| && c == b + |y| && d == c + |z|
    ensures d == i + |t| && fmt[i..a] == w && fmt[a..b] == x && fmt[b..c] == y && fmt[c..d] == z
  {
    SlicePlaced(fmt, i, t, 0, |w|);
    SlicePlaced(fmt, i, t, |w|, |w| + |x|);
    SlicePlaced(fmt, i, t, |w| + |x|, |w| + |x| + |y|);
    SlicePlaced(fmt, i, t, |w| + |x| + |y|, |t|);
    FourParts(t, w, x, y, z);
  }

  lemma FourParts(t: seq<byte>, w: seq<byte>, x: seq<byte>, y: seq<byte>, z: seq<byte>)
    requires t == w + x + y + z
    ensures |t| == |w| + |x| + |y| + |z|
    ensures t[0..|w|] == w && t[|w|..|w| + |x|] == x && t[|w| + |x|..|w| + |x| + |y|] == y && t[|w| + |x| + |y|..|t|] == z
  {
  }

  lemma SlicePlaced(fmt: seq<byte>, i: nat, t: seq<byte>, lo: nat, hi: nat)
    requires i + |t| <= |fmt| && fmt[i..i + |t|] == t && lo <= hi <= |t|
    ensures fmt[i + lo..i + hi] == t[lo..hi]
  {
    var part := fmt[i + lo..i + hi];
    forall k | 0 <= k < |part|
      ensures part[k] == t[lo..hi][k]
    {
      assert part[k] == fmt[i..i + |t|][lo + k];
    }
  }

  /** The length modifiers end at the conversion character. */
  lemma ModifiersEnd(fmt: seq<byte>, c: nat, d: nat, item: Item)
    requires item.Conversion? && Proper(item) && c <= d < |fmt| && fmt[d] == item.conv && fmt[c..d] == item.modifiers
    ensures SpanEnd(fmt, c, LengthChars) == d
    ensures !Is(fmt[c], DigitChars) && !Is(fmt[c], FlagChars) && fmt[c] != DOT
  {
    forall k | c <= k < d
      ensures fmt[k] == 'l' as int || fmt[k] == 'h' as int
    {
      assert fmt[k] == fmt[c..d][k - c] == item.modifiers[k - c];
      assert item.modifiers[k - c] in item.modifiers;
    }
    SpanIs(fmt, c, d, LengthChars);
  }

  lemma DigitsPlaced(fmt: seq<byte>, i: nat, n: u32)
    requires i + |DecimalText(n)| < |fmt| && fmt[i..i + |DecimalText(n)|] == DecimalText(n) && !Is(fmt[i + |DecimalText(n)|], DigitChars)
    ensures SpanEnd(fmt, i, DigitChars) == i + |DecimalText(n)| && Is(fmt[i], DigitChars)
    ensures Decimal(fmt[i..i + |DecimalText(n)|]) == n
    ensures n > 0 ==> fmt[i] != ZERO
  {
    DecimalTextIs(n);
    var e := i + |DecimalText(n)|;
    forall k | i <= k < e
      ensures fmt[k] == DecimalText(n)[k - i]
    {
      assert fmt[k] == fmt[i..e][k - i];
    }
    SpanIs(fmt, i, e, DigitChars);
  }

  lemma PrecisionEnds(fmt: seq<byte>, b: nat, c: nat, p: Precision)
    requires b <= c < |fmt| && fmt[b..c] == PrecisionText(p) && !Is(fmt[c], DigitChars) && fmt[c] != DOT
    ensures ParsePrecision(fmt, b) == (p, c)
    ensures !Is(fmt[b], DigitChars) && (p.Unset? || fmt[b] == DOT)
  {
    match p
    case Unset =>
    case FromArgument =>
      assert fmt[b] == fmt[b..c][0] && fmt[b + 1] == fmt[b..c][1];
    case Literal(n) =>
      assert fmt[b] == fmt[b..c][0];
      assert fmt[b + 1..c] == fmt[b..c][1..] == DecimalText(n);
      DigitsPlaced(fmt, b + 1, n);
  }

  lemma WidthEnds(fmt: seq<byte>, a: nat, b: nat, width: u32)
    requires a <= b < |fmt| && fmt[a..b] == WidthText(width) && !Is(fmt[b], DigitChars) && (a == b ==> !Is(fmt[b], FlagChars))
    ensures SpanEnd(fmt, a, DigitChars) == b && Decimal(fmt[a..b]) == width && !Is(fmt[a], FlagChars)
  {
    if width > 0 {
      DigitsPlaced(fmt, a, width);
    } else {
      SpanIs(fmt, a, b, DigitChars);
    }
  }

  /** A specification that is written out parses back to what it was written from. */
  lemma SpecReadsBack(fmt: seq<byte>, i: nat, item: Item)
    requires Placed(fmt, i, item) && Proper(item)
    ensures ParseSpec(fmt, i) == Spec(item.f, item.width, item.precision, i + |SpecText(item)|)
  {
    var a := i + |FlagText(item.f)|;
    var b := a + |WidthText(item.width)|;
    var c := b + |PrecisionText(item.precision)|;
    var d := c + |item.modifiers|;
    PartsPlaced(fmt, i, item, a, b, c, d);
    ModifiersEnd(fmt, c, d, item);
    PrecisionEnds(fmt, b, c, item.precision);
    WidthEnds(fmt, a, b, item.width);
    FlagsEnd(fmt, i, a, item.f);
  }

  lemma FlagsEnd(fmt: seq<byte>, i: nat, a: nat, f: Flags)
    requires i <= a < |fmt| && fmt[i..a] == FlagText(f) && !Is(fmt[a], FlagChars)
    ensures SpanEnd(fmt, i, FlagChars) == a && FlagsOf(fmt[i..a]) == f
  {
    FlagsReadBack(f);
    forall k | i <= k < a
      ensures Is(fmt[k], FlagChars)
    {
      assert fmt[k] == fmt[i..a][k - i];
    }
    SpanIs(fmt, i, a, FlagChars);
  }

  /** Plain text renders as itself. */
  lemma {:induction false} PlainRendersWith(text: Piece -> Option<seq<byte>>, fmt: seq<byte>, i: nat, n: nat, args: seq<Arg>)
    requires i + n <= |fmt| && '%' as int !in fmt[i..i + n]
    ensures RenderWith(text, fmt, i, args) == Append(Some(fmt[i..i + n]), RenderWith(text, fmt, i + n, args))
    decreases n
  {
    if n == 0 {
      AppendNothing(RenderWith(text, fmt, i, args));
    } else {
      assert fmt[i..i + n] == [fmt[i]] + fmt[i + 1..i + n];
      assert fmt[i] == fmt[i..i + n][0];
      PlainRendersWith(text, fmt, i + 1, n - 1, args);
      AppendAssociates(fmt[i], fmt[i + 1..i + n], RenderWith(text, fmt, i + n, args));
    }
  }

  lemma AppendNothing(rest: Option<seq<byte>>)
    ensures Append(Some([]), rest) == rest
  {
    if rest.Some? {
      assert [] + rest.value == rest.value;
    }
  }

  lemma AppendAssociates(c: byte, s: seq<byte>, rest: Option<seq<byte>>)
    ensures Append(Some([c]), Append(Some(s), rest)) == Append(Some([c] + s), rest)
  {
    if rest.Some? {
      assert [c] + (s + rest.value) == [c] + s + rest.value;
    }
  }

  /** A format without a percent sign is printed as it is. */
  lemma PlainFormat(how: Numbers, fmt: seq<byte>, args: seq<Arg>)
    requires '%' as int !in fmt
    ensures Render(how, fmt, 0, args) == Some(fmt)
  {
    assert fmt[0..|fmt|] == fmt;
    PlainRendersWith(TextBy(how), fmt, 0, |fmt|, args);
    RenderIsWith(how, fmt, 0, args);
    assert fmt + [] == fmt;
  }

  // ---- The same with any text for the conversions ----

  /** What a conversion is given. */
  datatype Piece = Piece(conv: byte, f: Flags, width: u32, precision: int, arg: Option<Arg>)

  function PieceOf(d: Directive): Piece {
    Piece(d.conv, d.sp.flags, d.sp.width, d.precision, d.arg)
  }

  function TextBy(how: Numbers): Piece -> Option<seq<byte>> {
    (p: Piece) => Convert(how, p.conv, p.f, p.width, p.precision, p.arg)
  }

  function RenderWith(text: Piece -> Option<seq<byte>>, fmt: seq<byte>, i: nat, args: seq<Arg>): Option<seq<byte>>
    requires i <= |fmt|
    decreases |fmt| - i
  {
    if i == |fmt| then Some([])
    else if fmt[i] != PERCENT then Append(Some([fmt[i]]), RenderWith(text, fmt, i + 1, args))
    else
      var d := DirectiveAt(fmt, i, args);
      if d.None? then None else Append(text(PieceOf(d.value)), RenderWith(text, fmt, d.value.sp.end + 1, d.value.left))
  }

  /** What an item is given, and the arguments it leaves. */
  function Given(item: Item, args: seq<Arg>): Option<(Piece, seq<Arg>)>
    requires item.Conversion?
  {
    var p, rest := PrecisionOf(item.precision, args), AfterStar(item.precision, args);
    if p.None? then None
    else Some((Piece(item.conv, item.f, item.width, p.value, ArgOf(item.conv, rest)), AfterConv(item.conv, rest)))
  }

  function MeaningWith(text: Piece -> Option<seq<byte>>, items: seq<Item>, args: seq<Arg>): Option<seq<byte>> {
    if items == [] then Some([])
    else if items[0].Plain? then Append(Some(items[0].s), MeaningWith(text, items[1..], args))
    else
      var g := Given(items[0], args);
      if g.None? then None else Append(text(g.value.0), MeaningWith(text, items[1..], g.value.1))
  }

  lemma {:induction false} RenderIsWith(how: Numbers, fmt: seq<byte>, i: nat, args: seq<Arg>)
    requires i <= |fmt|
    ensures Render(how, fmt, i, args) == RenderWith(TextBy(how), fmt, i, args)
    decreases |fmt| - i
  {
    if i < |fmt| {
      if fmt[i] != PERCENT {
        RenderIsWith(how, fmt, i + 1, args);
      } else if DirectiveAt(fmt, i, args).Some? {
        var d := DirectiveAt(fmt, i, args).value;
        RenderIsWith(how, fmt, d.sp.end + 1, d.left);
        assert TextOf(how, d) == TextBy(how)(PieceOf(d));
      }
    }
  }

  lemma {:induction false} MeaningIsWith(how: Numbers, items: seq<Item>, args: seq<Arg>)
    ensures Meaning(how, items, args) == MeaningWith(TextBy(how), items, args)
    decreases |items|
  {
    if items != [] {
      if items[0].Plain? {
        MeaningIsWith(how, items[1..], args);
      } else {
        MeaningStep(how, items, args);
        var g := Given(items[0], args);
        if g.Some? {
          MeaningIsWith(how, items[1..], g.value.1);
          var p := g.value.0;
          assert TextBy(how)(p) == Convert(how, p.conv, p.f, p.width, p.precision, p.arg);
        }
      }
    }
  }

  /** Every format that is written out from its items renders as they mean. */
  lemma FormatMeans(how: Numbers, fmt: seq<byte>, items: seq<Item>, args: seq<Arg>)
    requires Writes(items, fmt)
    ensures Render(how, fmt, 0, args) == Meaning(how, items, args)
  {
    assert fmt[0..] == fmt;
    ItemsRender(TextBy(how), fmt, 0, items, args);
    RenderIsWith(how, fmt, 0, args);
    MeaningIsWith(how, items, args);
  }

  lemma {:induction false} ItemsRender(text: Piece -> Option<seq<byte>>, fmt: seq<byte>, i: nat, items: seq<Item>, args: seq<Arg>)
    requires i <= |fmt| && fmt[i..] == Written(items) && forall item :: item in items ==> Proper(item)
    ensures RenderWith(text, fmt, i, args) == MeaningWith(text, items, args)
    decreases |items|
  {
    if items == [] {
      assert |fmt[i..]| == 0;
    } else {
      assert Proper(items[0]) && forall item :: item in items[1..] ==> Proper(item);
      if items[0].Plain? {
        var e := FirstPlain(fmt, i, items);
        ItemsRender(text, fmt, e, items[1..], args);
        PlainStep(text, fmt, i, items, args, e);
      } else {
        var e := FirstConversion(text, fmt, i, items, args);
        if Given(items[0], args).Some? {
          ItemsRender(text, fmt, e, items[1..], Given(items[0], args).value.1);
        }
      }
    }
  }

  lemma PlainStep(text: Piece -> Option<seq<byte>>, fmt: seq<byte>, i: nat, items: seq<Item>, args: seq<Arg>, e: nat)
    requires items != [] && items[0].Plain? && '%' as int !in items[0].s
    requires i <= e <= |fmt| && fmt[i..e] == items[0].s && RenderWith(text, fmt, e, args) == MeaningWith(text, items[1..], args)
    ensures RenderWith(text, fmt, i, args) == MeaningWith(text, items, args)
  {
    PlainRendersWith(text, fmt, i, e - i, args);
  }

  /** A conversion, by what it is given, and then the rest from position `e` on. */
  function GivenThen(text: Piece -> Option<seq<byte>>, item: Item, args: seq<Arg>, fmt: seq<byte>, e: nat): Option<seq<byte>>
    requires item.Conversion? && e <= |fmt|
  {
    var g := Given(item, args);
    if g.None? then None else Append(text(g.value.0), RenderWith(text, fmt, e, g.value.1))
  }

  lemma FirstPlain(fmt: seq<byte>, i: nat, items: seq<Item>) returns (e: nat)
    requires i <= |fmt| && items != [] && items[0].Plain? && fmt[i..] == Written(items)
    ensures i <= e <= |fmt| && fmt[i..e] == items[0].s && fmt[e..] == Written(items[1..])
  {
    e := i + |items[0].s|;
    Divide(fmt, i, items[0].s, Written(items[1..]));
  }

  lemma FirstConversion(text: Piece -> Option<seq<byte>>, fmt: seq<byte>, i: nat, items: seq<Item>, args: seq<Arg>) returns (e: nat)
    requires i <= |fmt| && items != [] && items[0].Conversion? && Proper(items[0]) && fmt[i..] == Written(items)
    ensures i <= e <= |fmt| && fmt[e..] == Written(items[1..])
    ensures RenderWith(text, fmt, i, args) == GivenThen(text, items[0], args, fmt, e)
  {
    var t := ItemText(items[0]);
    Divide(fmt, i, t, Written(items[1..]));
    e := i + |t|;
    ScanStep(text, fmt, i, items[0], args, e, t);
  }

  lemma ScanStep(text: Piece -> Option<seq<byte>>, fmt: seq<byte>, i: nat, item: Item, args: seq<Arg>, e: nat, t: seq<byte>)
    requires item.Conversion? && Proper(item) && t == ItemText(item)
    requires e == i + |t| <= |fmt| && fmt[i..e] == t
    ensures RenderWith(text, fmt, i, args) == GivenThen(text, item, args, fmt, e)
  {
    ConversionPlaced(fmt, i, item);
    DirectiveStep(text, fmt, i, item, args, e);
  }

  lemma DirectiveStep(text: Piece -> Option<seq<byte>>, fmt: seq<byte>, i: nat, item: Item, args: seq<Arg>, e: nat)
    requires item.Conversion? && i + 1 < e <= |fmt| && fmt[i] == PERCENT && fmt[e - 1] == item.conv
    requires ParseSpec(fmt, i + 1) == Spec(item.f, item.width, item.precision, e - 1)
    ensures RenderWith(text, fmt, i, args) == GivenThen(text, item, args, fmt, e)
  {
  }

  lemma Divide(fmt: seq<byte>, i: nat, t: seq<byte>, rest: seq<byte>)
    requires i <= |fmt| && fmt[i..] == t + rest
    ensures i + |t| <= |fmt| && fmt[i..i + |t|] == t && fmt[i + |t|..] == rest
  {
    assert fmt[i..i + |t|] == fmt[i..][..|t|] && fmt[i + |t|..] == fmt[i..][|t|..];
  }

  lemma ConversionPlaced(fmt: seq<byte>, i: nat, item: Item)
    requires item.Conversion? && Proper(item) && i + |ItemText(item)| <= |fmt| && fmt[i..i + |ItemText(item)|] == ItemText(item)
    ensures fmt[i] == PERCENT && ParseSpec(fmt, i + 1) == Spec(item.f, item.width, item.precision, i + |ItemText(item)| - 1)
    ensures fmt[i + |ItemText(item)| - 1] == item.conv
  {
    var t := ItemText(item);
    SlicePlaced(fmt, i, t, 1, |t| - 1);
    assert t[1..|t| - 1] == SpecText(item);
    assert fmt[i] == fmt[i..i + |t|][0] && fmt[i + |t| - 1] == fmt[i..i + |t|][|t| - 1];
    SpecReadsBack(fmt, i + 1, item);
  }

  /** One conversion, and then the text of the rest. */
  function ConvertThen(how: Numbers, conv: byte, f: Flags, width: u32, p: Precision, args: seq<Arg>, rest: Option<seq<byte>>): Option<seq<byte>> {
    if PrecisionOf(p, args).None? then None
    else Append(Convert(how, conv, f, width, PrecisionOf(p, args).value, ArgOf(conv, AfterStar(p, args))), rest)
  }

  lemma MeaningStep(how: Numbers, items: seq<Item>, args: seq<Arg>)
    requires items != [] && items[0].Conversion?
    ensures var item := items[0];
            Meaning(how, items, args) ==
              ConvertThen(how, item.conv, item.f, item.width, item.precision, args,
                          Meaning(how, items[1..], AfterConv(item.conv, AfterStar(item.precision, args))))
  {
    var item, p := items[0], PrecisionOf(items[0].precision, args);
    if item.precision.FromArgument? && args != [] && args[0].Int? {
      ToUnsignedIsRemainder(args[0].v);
    }
    if p.Some? {
      OneStep(how, item.conv, item.f, item.width, p.value, AfterStar(item.precision, args), items);
    }
  }

  lemma OneStep(how: Numbers, conv: byte, f: Flags, width: u32, precision: int, args: seq<Arg>, items: seq<Item>)
    requires items != []
    ensures OneConversion(how, conv, f, width, precision, args, items) ==
              Append(Convert(how, conv, f, width, precision, ArgOf(conv, args)), Meaning(how, items[1..], AfterConv(conv, args)))
  {
  }

  /** The format is written out from these items. */
  ghost predicate Writes(items: seq<Item>, fmt: seq<byte>) {
    fmt == Written(items) && forall item :: item in items ==> Proper(item)
  }

  lemma WrittenMeans(how: Numbers, fmt: seq<byte>, args: seq<Arg>)
    ensures forall items :: Writes(items, fmt) ==> Render(how, fmt, 0, args) == Meaning(how, items, args)
  {
    forall items | Writes(items, fmt)
      ensures Render(how, fmt, 0, args) == Meaning(how, items, args)
    {
      FormatMeans(how, fmt, items, args);
    }
  }

  lemma ConversionDepicts(conv: byte, f: Flags, width: u32, precision: int, arg: Option<Arg>)
    requires Convert(Actual, conv, f, width, precision, arg).Some?
    ensures Within(conv, precision) ==> Depicts(Convert(Actual, conv, f, width, precision, arg).value, conv, f, width, precision, arg)
  {
    if Within(conv, precision) {
      ConversionMeans(conv, f, width, precision, arg);
    }
  }

  // ---- Where a refused chunk is offered again ----

  /** The span is the `n` digits behind a sign of length `sign`, if blanks follow them, and empty otherwise. */
  predicate IsBefore(span: (nat, nat), sign: nat, n: nat, width: nat, f: Flags) {
    if f.left && sign + n < width then span == (sign, sign + n) else span.0 == span.1
  }

  /** After a refusal the code stores once more exactly behind the digits of a left-justified number that has blanks to come. */
  lemma RetryMeans(conv: byte, f: Flags, width: u32, precision: int, v: i32)
    requires Within(conv, precision) && Convert(Actual, conv, f, width, precision, Some(Int(v))).Some?
    ensures var span, p := RetrySpan(conv, f, width, precision, Some(Int(v))), if precision < 0 then 0 else precision;
            var u := v % 0x1_0000_0000;
            if conv == 'd' as int then IsBefore(span, |SignText(v, f)|, Max(p, NumLen(Abs(v), 10)), width, f)
            else if conv == 'u' as int then IsBefore(span, 0, Max(p, NumLen(u, 10)), width, f)
            else if conv == 'x' as int || conv == 'X' as int then IsBefore(span, 0, Max(p, NumLen(u, 16)), width, f)
            else span.0 == span.1
  {
    ToUnsignedIsRemainder(v);
    var p := if precision < 0 then 0 else precision;
    if conv == 'd' as int {
      IntRetries(v, p, width, f);
    } else if conv == 'u' as int {
      UnsignedRetries(ToUnsigned(v), 10, p, width, f);
    } else if conv == 'x' as int || conv == 'X' as int {
      UnsignedRetries(ToUnsigned(v), 16, p, width, f);
    }
  }

  lemma UnsignedRetries(u: u32, base: nat, p: nat, width: nat, f: Flags)
    requires (base == 10 && p <= 10) || (base == 16 && p <= 8)
    ensures Printable(u, base, p) && IsBefore(UnsignedSpan(u, base, p, width, f), 0, Max(p, NumLen(u, base)), width, f)
  {
    BodyRight(u, base, p);
  }

  lemma IntRetries(v: i32, p: nat, width: nat, f: Flags)
    requires p <= 10
    ensures Printable(Abs(v), 10, p) && IsBefore(IntSpan(v, p, width, f), |SignText(v, f)|, Max(p, NumLen(Abs(v), 10)), width, f)
  {
    UnsignedRetries(Abs(v), 10, p, WidthLeft(v, p, width, f), f);
  }
}
