/**
  The numbers RTT printf does print: lead, digits and tail as `_PrintUnsigned` and
  `_PrintInt` lay them out (src/RTT/SEGGER_RTT_printf.c:137-297), and exactly when that is
  the intended text.
 */
module PrintfCode {
  import opened Machine
  import opened NumberFormat
  import opened PrintfSpec

  lemma EmitDigits(v: u32, base: nat, digit: u32)
    requires base >= 2 && digit > 0
    ensures Emit(v, base, digit).Some? ==> AreDigits(Emit(v, base, digit).value, 16) && Emit(v, base, digit).value != []
    decreases digit
  {
    if v / digit < 16 && Lower(digit, base) > 0 {
      EmitDigits(Left(v, digit), base, Lower(digit, base));
    }
  }

  /** One round of the digit loop. */
  lemma EmitHead(v: u32, base: nat, digit: u32, digits: seq<nat>)
    requires base >= 2 && digit > 0 && Emit(v, base, digit) == Some(digits)
    ensures digits != [] && digits[0] == v / digit < 16
    ensures if Lower(digit, base) == 0 then |digits| == 1
            else Emit(Left(v, digit), base, Lower(digit, base)) == Some(digits[1..])
  {
    if Lower(digit, base) > 0 {
      var rest := Emit(Left(v, digit), base, Lower(digit, base));
      assert rest.Some? && digits == [v / digit] + rest.value;
    }
  }

  /** Is printing `v` with this precision defined at all? */
  predicate Printable(v: u32, base: nat, precision: nat)
    requires base >= 2
  {
    CodeDigits(v, base, precision).Some?
  }

  /** Lead, digits and tail of `_PrintUnsigned`. */
  function CodeBody(v: u32, base: nat, precision: nat): (s: seq<byte>)
    requires base >= 2 && Printable(v, base, precision)
  {
    EmitDigits(v, base, Grow(v, base, Raise(1, base, Max(precision, 1) - 1)));
    Chars(CodeDigits(v, base, precision).value)
  }

  function CodeLead(width: nat, used: nat, precision: nat, f: Flags): seq<byte> {
    if f.left then [] else Fill(if f.zero && precision == 0 then ZERO else SPACE, Missing(width, used))
  }

  function CodeTail(width: nat, used: nat, f: Flags): seq<byte> {
    if f.left then Fill(SPACE, Missing(width, used)) else []
  }

  function CodeUnsigned(v: u32, base: nat, precision: nat, width: nat, f: Flags): (s: seq<byte>)
    requires base >= 2 && Printable(v, base, precision)
  {
    var used := Max(precision, NumLen(v, base));
    CodeLead(width, used, precision, f) + CodeBody(v, base, precision) + CodeTail(width, used, f)
  }

  /**
    The characters after which the code makes one more store although a chunk was refused:
    the digits of a left-justified number that has blanks behind it.
   */
  function UnsignedSpan(v: u32, base: nat, precision: nat, width: nat, f: Flags): (nat, nat)
    requires base >= 2 && Printable(v, base, precision)
  {
    if CodeTail(width, Max(precision, NumLen(v, base)), f) == [] then (0, 0) else (0, |CodeBody(v, base, precision)|)
  }

  lemma UnsignedRight(v: u32, base: nat, precision: nat, width: nat, f: Flags)
    requires base == 10 || base == 16
    requires precision <= MaxPrecision(base)
    ensures Printable(v, base, precision) && CodeUnsigned(v, base, precision, width, f) == UnsignedText(v, base, precision, width, f)
  {
    BodyRight(v, base, precision);
    var used, body := Max(precision, NumLen(v, base)), NumberText(v, base, precision);
    var lead, tail := CodeLead(width, used, precision, f), CodeTail(width, used, f);
    assert lead + body + tail == UnsignedText(v, base, precision, width, f);
  }

  lemma UnsignedWrong(v: u32, base: nat, precision: nat, width: nat, f: Flags)
    requires base == 10 || base == 16
    requires precision > MaxPrecision(base) && Printable(v, base, precision)
    ensures |CodeUnsigned(v, base, precision, width, f)| < |UnsignedText(v, base, precision, width, f)|
  {
    DigitsWrong(v, base, precision);
    var used := Max(precision, NumLen(v, base));
    assert |CodeLead(width, used, precision, f)| + |CodeTail(width, used, f)| == Missing(width, used);
  }

  /** `_PrintUnsigned` prints the number in its field exactly for the precisions a 32-bit divisor allows. */
  lemma UnsignedExact(v: u32, base: nat, precision: nat, width: nat, f: Flags)
    requires base == 10 || base == 16
    ensures (Printable(v, base, precision) && CodeUnsigned(v, base, precision, width, f) == UnsignedText(v, base, precision, width, f))
       <==> precision <= MaxPrecision(base)
  {
    if precision <= MaxPrecision(base) {
      UnsignedRight(v, base, precision, width, f);
    } else if Printable(v, base, precision) {
      UnsignedWrong(v, base, precision, width, f);
    }
  }

  lemma BodyRight(v: u32, base: nat, precision: nat)
    requires base == 10 || base == 16
    requires precision <= MaxPrecision(base)
    ensures Printable(v, base, precision) && CodeBody(v, base, precision) == NumberText(v, base, precision)
  {
    DigitsRight(v, base, precision);
  }

  /** A field already used up is not padded again. */
  lemma NoSecondPadding(v: u32, precision: nat, width: nat, f: Flags)
    requires precision <= MaxPrecision(10) && !f.left && width <= Max(precision, NumLen(v, 10))
    ensures Printable(v, 10, precision)
    ensures CodeUnsigned(v, 10, precision, width, f) == NumberText(v, 10, precision)
  {
    BodyRight(v, 10, precision);
    var used := Max(precision, NumLen(v, 10));
    assert CodeLead(width, used, precision, f) == [] && CodeTail(width, used, f) == [];
  }

  lemma LeftJustified(v: u32, precision: nat, width: nat, f: Flags)
    requires precision <= MaxPrecision(10) && f.left
    ensures Printable(v, 10, precision)
    ensures CodeUnsigned(v, 10, precision, width, f) ==
              NumberText(v, 10, precision) + Fill(SPACE, Missing(width, Max(precision, NumLen(v, 10))))
  {
    BodyRight(v, 10, precision);
  }

  /** The field width that `_PrintInt` leaves for the digits. */
  function DigitWidth(v: i32, width: nat, f: Flags): nat {
    if width > 0 then width - |SignText(v, f)| else width
  }

  /** Blanks, sign and zeros that `_PrintInt` prints before it hands over to `_PrintUnsigned`. */
  function IntLead(v: i32, precision: nat, width: nat, f: Flags): seq<byte> {
    var n := Missing(DigitWidth(v, width, f), Max(precision, NumLen(Abs(v), 10)));
    if f.left then SignText(v, f)
    else if f.zero && precision == 0 then SignText(v, f) + Fill(ZERO, n)
    else Fill(SPACE, n) + SignText(v, f)
  }

  /** The field width that is left after that. */
  function WidthLeft(v: i32, precision: nat, width: nat, f: Flags): nat {
    var w := DigitWidth(v, width, f);
    if f.left then w else w - Missing(w, Max(precision, NumLen(Abs(v), 10)))
  }

  /** Between them, `_PrintInt` and `_PrintUnsigned` pad the field once. */
  lemma IntFromUnsigned(v: i32, precision: nat, width: nat, f: Flags)
    requires precision <= MaxPrecision(10)
    ensures Printable(Abs(v), 10, precision)
    ensures IntText(v, precision, width, f) ==
              IntLead(v, precision, width, f) + CodeUnsigned(Abs(v), 10, precision, WidthLeft(v, precision, width, f), f)
  {
    var u, w, body := Abs(v), WidthLeft(v, precision, width, f), NumberText(Abs(v), 10, precision);
    var n := Missing(DigitWidth(v, width, f), |body|);
    assert n == Missing(width, |SignText(v, f)| + |body|);
    if f.left {
      LeftJustified(u, precision, w, f);
      assert SignText(v, f) + (body + Fill(SPACE, n)) == SignText(v, f) + body + Fill(SPACE, n);
    } else {
      NoSecondPadding(u, precision, w, f);
    }
  }

  /** What `_PrintInt` prints. */
  function CodeInt(v: i32, precision: nat, width: nat, f: Flags): (s: seq<byte>)
    requires Printable(Abs(v), 10, precision)
  {
    IntLead(v, precision, width, f) + CodeUnsigned(Abs(v), 10, precision, WidthLeft(v, precision, width, f), f)
  }

  function IntSpan(v: i32, precision: nat, width: nat, f: Flags): (nat, nat)
    requires Printable(Abs(v), 10, precision)
  {
    var n, span := |IntLead(v, precision, width, f)|, UnsignedSpan(Abs(v), 10, precision, WidthLeft(v, precision, width, f), f);
    (n + span.0, n + span.1)
  }

  lemma IntWrong(v: i32, precision: nat, width: nat, f: Flags)
    requires precision > MaxPrecision(10) && Printable(Abs(v), 10, precision)
    ensures |CodeInt(v, precision, width, f)| < |IntText(v, precision, width, f)|
  {
    var w, used := DigitWidth(v, width, f), Max(precision, NumLen(Abs(v), 10));
    var left := WidthLeft(v, precision, width, f);
    UnsignedWrong(Abs(v), 10, precision, left, f);
    assert |UnsignedText(Abs(v), 10, precision, left, f)| == Max(left, used);
    assert Missing(width, |SignText(v, f)| + used) == Missing(w, used);
  }

  /** `_PrintInt` prints the number in its field exactly for the same precisions. */
  lemma IntExact(v: i32, precision: nat, width: nat, f: Flags)
    ensures (Printable(Abs(v), 10, precision) && CodeInt(v, precision, width, f) == IntText(v, precision, width, f))
       <==> precision <= MaxPrecision(10)
  {
    if precision <= MaxPrecision(10) {
      IntFromUnsigned(v, precision, width, f);
    } else if Printable(Abs(v), 10, precision) {
      IntWrong(v, precision, width, f);
    }
  }
}
