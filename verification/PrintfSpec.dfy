/**
  The numbers RTT printf is meant to print (src/RTT/SEGGER_RTT_printf.c:498-511), and how
  they read back.
 */
module PrintfSpec {
  import opened Machine
  import opened NumberFormat

  const SPACE: byte := 32
  const HASH: byte := 35
  const PERCENT: byte := 37
  const STAR: byte := 42
  const PLUS: byte := 43
  const MINUS: byte := 45
  const DOT: byte := 46
  const ZERO: byte := 48
  const NINE: byte := 57
  const UPPER_X: byte := 88
  const LOWER_C: byte := 99
  const LOWER_D: byte := 100
  const LOWER_H: byte := 104
  const LOWER_L: byte := 108
  const LOWER_P: byte := 112
  const LOWER_S: byte := 115
  const LOWER_U: byte := 117
  const LOWER_X: byte := 120

  const INT_MIN := -0x8000_0000

  type i32 = n: int | INT_MIN <= n < 0x8000_0000

  function ToUnsigned(v: i32): u32 {
    if v < 0 then v + TWO_32 else v
  }

  function Abs(v: i32): (r: u32) {
    if v < 0 then 0 - v else v
  }

  // ---- Numbers ----

  datatype Flags = Flags(left: bool, zero: bool, plus: bool)

  function DigitChar(d: nat): byte
    requires d < 16
  {
    if d < 10 then 48 + d else 55 + d
  }

  function DigitValue(c: byte): nat {
    if 48 <= c <= 57 then c - 48 else if 65 <= c <= 70 then c - 55 else 0
  }

  function Chars(digits: seq<nat>): (s: seq<byte>)
    requires AreDigits(digits, 16)
    ensures |s| == |digits|
    ensures forall i :: 0 <= i < |s| ==> s[i] != SPACE && s[i] != PLUS && s[i] != MINUS
  {
    seq(|digits|, i requires 0 <= i < |digits| => DigitChar(digits[i]))
  }

  function Fill(c: byte, n: nat): (s: seq<byte>)
    ensures |s| == n
    ensures forall i :: 0 <= i < n ==> s[i] == c
  {
    seq(n, _ => c)
  }

  /** Padding characters that bring `used` up to `width`. */
  function Missing(width: nat, used: nat): nat {
    if used < width then width - used else 0
  }

  /** The digits of `v`, with leading zeros up to the precision. */
  function NumberText(v: u32, base: nat, precision: nat): (s: seq<byte>)
    requires base == 10 || base == 16
    ensures |s| == Max(precision, NumLen(v, base))
  {
    NumeralDigits(v, base, Max(precision, NumLen(v, base)));
    Chars(Numeral(v, base, Max(precision, NumLen(v, base))))
  }

  lemma NumeralDigits(v: u32, base: nat, n: nat)
    requires 2 <= base <= 16 && n >= NumLen(v, base)
    ensures AreDigits(Numeral(v, base, n), base)
    ensures AreDigits(Numeral(v, base, n), 16)
    ensures Value(Numeral(v, base, n), base) == v
  {
    NumLenBounds(v, base);
    PowMonotonic(base, NumLen(v, base), n);
    NumeralRoundTrip(v, base, n);
  }

  /** A sign and a body in a field: '-' justifies left, '0' without precision pads with zeros after the sign. */
  function Field(sign: seq<byte>, body: seq<byte>, width: nat, precision: nat, f: Flags): (s: seq<byte>)
    ensures |s| == Max(width, |sign| + |body|)
  {
    var n := Missing(width, |sign| + |body|);
    if f.left then sign + body + Fill(SPACE, n)
    else if f.zero && precision == 0 then sign + Fill(ZERO, n) + body
    else Fill(SPACE, n) + sign + body
  }

  function UnsignedText(v: u32, base: nat, precision: nat, width: nat, f: Flags): (s: seq<byte>)
    requires base == 10 || base == 16
    ensures |s| == Max(width, Max(precision, NumLen(v, base)))
  {
    Field([], NumberText(v, base, precision), width, precision, f)
  }

  function SignText(v: i32, f: Flags): (s: seq<byte>)
    ensures v < 0 ==> s == ['-' as int]
    ensures v >= 0 && f.plus ==> s == ['+' as int]
    ensures v >= 0 && !f.plus ==> s == []
  {
    if v < 0 then [MINUS] else if f.plus then [PLUS] else []
  }

  function IntText(v: i32, precision: nat, width: nat, f: Flags): (s: seq<byte>)
    ensures |s| == Max(width, |SignText(v, f)| + Max(precision, NumLen(Abs(v), 10)))
  {
    Field(SignText(v, f), NumberText(Abs(v), 10, precision), width, precision, f)
  }

  // ---- Reading numbers back ----

  function TrimLeft(s: seq<byte>): seq<byte> {
    if s != [] && s[0] == SPACE then TrimLeft(s[1..]) else s
  }

  function TrimRight(s: seq<byte>): seq<byte> {
    if s != [] && s[|s| - 1] == SPACE then TrimRight(s[..|s| - 1]) else s
  }

  function DigitValues(s: seq<byte>): seq<nat> {
    seq(|s|, i requires 0 <= i < |s| => DigitValue(s[i]))
  }

  /** The number in a text: blanks are ignored, a leading sign counts. */
  function ReadNumber(s: seq<byte>, base: nat): int
    requires base >= 2
  {
    var t := TrimRight(TrimLeft(s));
    if t != [] && t[0] == MINUS then 0 - Value(DigitValues(t[1..]), base)
    else if t != [] && t[0] == PLUS then Value(DigitValues(t[1..]), base)
    else Value(DigitValues(t), base)
  }

  lemma {:induction false} TrimLeftFill(n: nat, s: seq<byte>)
    requires s != [] && s[0] != SPACE
    ensures TrimLeft(Fill(SPACE, n) + s) == s
  {
    if n == 0 {
      assert Fill(SPACE, 0) + s == s;
    } else {
      assert (Fill(SPACE, n) + s)[1..] == Fill(SPACE, n - 1) + s;
      TrimLeftFill(n - 1, s);
    }
  }

  lemma {:induction false} TrimRightFill(s: seq<byte>, n: nat)
    requires s != [] && s[|s| - 1] != SPACE
    ensures TrimRight(s + Fill(SPACE, n)) == s
  {
    if n == 0 {
      assert s + Fill(SPACE, 0) == s;
    } else {
      var t := s + Fill(SPACE, n);
      assert t[..|t| - 1] == s + Fill(SPACE, n - 1);
      TrimRightFill(s, n - 1);
    }
  }

  /** Leading zeros do not change the value. */
  lemma {:induction false} LeadingZeros(digits: seq<nat>, n: nat, base: nat)
    requires base >= 2
    ensures Value(seq(n, _ => 0) + digits, base) == Value(digits, base)
    decreases n
  {
    if n == 0 {
      assert seq(0, _ => 0) + digits == digits;
    } else {
      var all := seq(n, _ => 0) + digits;
      assert all[1..] == seq(n - 1, _ => 0) + digits;
      ValueStep(all, base, 0, all[1..], Pow(base, |all| - 1));
      LeadingZeros(digits, n - 1, base);
    }
  }

  lemma CharsReadBack(digits: seq<nat>)
    requires AreDigits(digits, 16)
    ensures DigitValues(Chars(digits)) == digits
  {
  }

  ghost predicate IsSign(sign: seq<byte>) {
    sign == [] || sign == [MINUS] || sign == [PLUS]
  }

  function Signed(sign: seq<byte>, n: nat): int {
    if sign == [MINUS] then 0 - n else n
  }

  /** Blanks, a sign, digits, blanks: the number is the value of the digits under the sign. */
  lemma PaddedReads(sign: seq<byte>, digits: seq<nat>, base: nat, s: seq<byte>, before: nat, after: nat)
    requires base >= 2 && AreDigits(digits, 16) && digits != [] && IsSign(sign)
    requires s == Fill(SPACE, before) + sign + Chars(digits) + Fill(SPACE, after)
    ensures ReadNumber(s, base) == Signed(sign, Value(digits, base))
  {
    var body := Chars(digits);
    FieldCore(sign, body, s, before, after);
    CharsReadBack(digits);
    assert sign != [] ==> (sign + body)[1..] == body;
    assert sign == [] ==> sign + body == body;
  }

  lemma ZeroFilledReads(sign: seq<byte>, digits: seq<nat>, base: nat, s: seq<byte>, n: nat)
    requires base >= 2 && AreDigits(digits, 16) && digits != [] && IsSign(sign)
    requires s == sign + Fill(ZERO, n) + Chars(digits)
    ensures ReadNumber(s, base) == Signed(sign, Value(digits, base))
  {
    var all := seq(n, _ => 0) + digits;
    assert Chars(all) == Fill(ZERO, n) + Chars(digits);
    assert s == Fill(SPACE, 0) + sign + Chars(all) + Fill(SPACE, 0);
    PaddedReads(sign, all, base, s, 0, 0);
    LeadingZeros(digits, n, base);
  }

  /** A field reads as the value of its digits under its sign. */
  lemma FieldReads(sign: seq<byte>, digits: seq<nat>, base: nat, width: nat, precision: nat, f: Flags)
    requires base >= 2 && AreDigits(digits, 16) && digits != [] && IsSign(sign)
    ensures ReadNumber(Field(sign, Chars(digits), width, precision, f), base) == Signed(sign, Value(digits, base))
  {
    var s := Field(sign, Chars(digits), width, precision, f);
    var n := Missing(width, |sign| + |digits|);
    if f.left {
      assert s == Fill(SPACE, 0) + sign + Chars(digits) + Fill(SPACE, n);
      PaddedReads(sign, digits, base, s, 0, n);
    } else if f.zero && precision == 0 {
      ZeroFilledReads(sign, digits, base, s, n);
    } else {
      assert s == Fill(SPACE, n) + sign + Chars(digits) + Fill(SPACE, 0);
      PaddedReads(sign, digits, base, s, n, 0);
    }
  }

  /** Trimming a blank-padded, signed body. */
  lemma FieldCore(sign: seq<byte>, body: seq<byte>, s: seq<byte>, before: nat, after: nat)
    requires body != [] && IsSign(sign)
    requires forall i :: 0 <= i < |body| ==> body[i] != SPACE && body[i] != PLUS && body[i] != MINUS
    requires s == Fill(SPACE, before) + sign + body + Fill(SPACE, after)
    ensures TrimRight(TrimLeft(s)) == sign + body
  {
    var rest := sign + body + Fill(SPACE, after);
    assert s == Fill(SPACE, before) + rest;
    TrimLeftFill(before, rest);
    assert rest == (sign + body) + Fill(SPACE, after);
    TrimRightFill(sign + body, after);
  }

  /** Printing then reading an unsigned number gives it back, whatever the field. */
  lemma UnsignedRoundTrip(v: u32, base: nat, precision: nat, width: nat, f: Flags)
    requires base == 10 || base == 16
    ensures ReadNumber(UnsignedText(v, base, precision, width, f), base) == v
  {
    var n := Max(precision, NumLen(v, base));
    NumeralDigits(v, base, n);
    FieldReads([], Numeral(v, base, n), base, width, precision, f);
  }

  /** Printing then reading a signed number gives it back, whatever the field. */
  lemma IntRoundTrip(v: i32, precision: nat, width: nat, f: Flags)
    ensures ReadNumber(IntText(v, precision, width, f), 10) == v
  {
    var n := Max(precision, NumLen(Abs(v), 10));
    NumeralDigits(Abs(v), 10, n);
    FieldReads(SignText(v, f), Numeral(Abs(v), 10, n), 10, width, precision, f);
  }
}
