/**
  Formats (src/RTT/SEGGER_RTT_printf.c:322-468) without the scanning loops and the staging
  buffer: conversion specifications, and the text of a format with numbers as intended or as
  printed.
 */
module PrintfFormat {
  import opened Machine
  import opened NumberFormat
  import opened PrintfSpec
  import opened PrintfCode

  datatype Class = FlagChars | DigitChars | LengthChars

  predicate Is(c: byte, cls: Class) {
    match cls
    case FlagChars => c == MINUS || c == ZERO || c == PLUS || c == HASH
    case DigitChars => ZERO <= c <= NINE
    case LengthChars => c == LOWER_L || c == LOWER_H
  }

  /** End of the longest run of characters of a class that starts at `i`. */
  function SpanEnd(fmt: seq<byte>, i: nat, cls: Class): (e: nat)
    requires i <= |fmt|
    ensures i <= e <= |fmt|
    ensures forall k :: i <= k < e ==> Is(fmt[k], cls)
    ensures e < |fmt| ==> !Is(fmt[e], cls)
    decreases |fmt| - i
  {
    if i < |fmt| && Is(fmt[i], cls) then SpanEnd(fmt, i + 1, cls) else i
  }

  function FlagsOf(s: seq<byte>): Flags {
    Flags(MINUS in s, ZERO in s, PLUS in s)
  }

  /** A decimal number, modulo 2^32 as the scanner computes it. */
  function Decimal(s: seq<byte>): u32
    requires forall i :: 0 <= i < |s| ==> Is(s[i], DigitChars)
  {
    if s == [] then 0 else (Decimal(s[..|s| - 1]) * 10 + (s[|s| - 1] - ZERO)) % TWO_32
  }

  datatype Precision = Unset | Literal(n: u32) | FromArgument

  /** A conversion specification: `end` is the position of its conversion character. */
  datatype Spec = Spec(flags: Flags, width: u32, precision: Precision, end: nat)

  /** The specification that starts at `i`, just after the percent sign. */
  function ParseSpec(fmt: seq<byte>, i: nat): (sp: Spec)
    requires i <= |fmt|
    ensures i <= sp.end <= |fmt|
  {
    var f := SpanEnd(fmt, i, FlagChars);
    var w := SpanEnd(fmt, f, DigitChars);
    var (precision, e) := ParsePrecision(fmt, w);
    Spec(FlagsOf(fmt[i..f]), Decimal(fmt[f..w]), precision, SpanEnd(fmt, e, LengthChars))
  }

  function ParsePrecision(fmt: seq<byte>, w: nat): (r: (Precision, nat))
    requires w <= |fmt|
    ensures w <= r.1 <= |fmt|
  {
    if w < |fmt| && fmt[w] == DOT then
      if w + 1 < |fmt| && fmt[w + 1] == STAR then (FromArgument, w + 2)
      else
        var e := SpanEnd(fmt, w + 1, DigitChars);
        (if e == w + 1 then Unset else Literal(Decimal(fmt[w + 1..e])), e)
    else (Unset, w)
  }

  /** A C string without its terminator. */
  type CString = s: seq<byte> | 0 !in s

  /** An argument: a null string pointer is `Null`. */
  datatype Arg = Int(v: i32) | Str(s: CString) | Null

  const NULL_TEXT: seq<byte> := [40, 78, 85, 76, 76, 41]   // "(NULL)"

  /** Does the conversion take an argument? */
  predicate TakesArg(conv: byte) {
    conv == LOWER_C || conv == LOWER_D || conv == LOWER_U || conv == LOWER_X || conv == UPPER_X || conv == LOWER_S || conv == LOWER_P
  }

  const NO_PRECISION: int := -1

  /** The number of digits a precision asks for. */
  function Bound(precision: int): nat {
    if precision < 0 then 0 else precision
  }

  /** Numbers as they are meant to be, or as the code prints them. */
  datatype Numbers = Intended | Actual

  function UnsignedBy(how: Numbers, v: u32, base: nat, precision: nat, width: nat, f: Flags): Option<seq<byte>>
    requires base == 10 || base == 16
  {
    if how.Intended? then Some(UnsignedText(v, base, precision, width, f))
    else if Printable(v, base, precision) then Some(CodeUnsigned(v, base, precision, width, f))
    else None
  }

  function IntBy(how: Numbers, v: i32, precision: nat, width: nat, f: Flags): Option<seq<byte>> {
    if how.Intended? then Some(IntText(v, precision, width, f))
    else if Printable(Abs(v), 10, precision) then Some(CodeInt(v, precision, width, f))
    else None
  }

  /**
    The text of one conversion; `None` when it is undefined: the argument is missing or of
    the wrong type, the least integer is negated or, as the code prints numbers, the digit
    loop divides by zero or reads beyond its table.
   */
  function Convert(how: Numbers, conv: byte, f: Flags, width: u32, precision: int, arg: Option<Arg>): Option<seq<byte>> {
    if conv == PERCENT then Some([PERCENT])
    else if !TakesArg(conv) then Some([])
    else if arg.None? then None
    else if conv == LOWER_S then
      match arg.value
      case Int(_) => None
      case Null => Some(NULL_TEXT)
      case Str(s) => Some(if precision < 0 then s else s[..Min(precision, |s|)])
    else if !arg.value.Int? then None
    else
      var v := arg.value.v;
      if conv == LOWER_C then Some([ToUnsigned(v) % 256])
      else if conv == LOWER_P then UnsignedBy(how, ToUnsigned(v), 16, 8, 8, Flags(false, false, false))
      else if conv == LOWER_D then if v == INT_MIN then None else IntBy(how, v, Bound(precision), width, f)
      else UnsignedBy(how, ToUnsigned(v), BaseOf(conv), Bound(precision), width, f)
  }

  function BaseOf(conv: byte): nat {
    if conv == LOWER_U || conv == LOWER_D then 10 else 16
  }

  /** The precision is one the conversion prints right. */
  predicate InLimit(conv: byte, precision: int) {
    conv == LOWER_D || conv == LOWER_U || conv == LOWER_X || conv == UPPER_X ==> precision <= MaxPrecision(BaseOf(conv))
  }

  /** The precision a specification asks for; `None` when its argument is missing. */
  function PrecisionOf(p: Precision, args: seq<Arg>): Option<int> {
    match p
    case Unset => Some(NO_PRECISION)
    case Literal(n) => Some(n)
    case FromArgument => if args == [] || !args[0].Int? then None else Some(ToUnsigned(args[0].v))
  }

  /** The arguments left for the conversion itself, and then for the rest of the format. */
  function AfterStar(p: Precision, args: seq<Arg>): seq<Arg> {
    if p.FromArgument? && args != [] then args[1..] else args
  }

  function ArgOf(conv: byte, args: seq<Arg>): Option<Arg> {
    if TakesArg(conv) && args != [] then Some(args[0]) else None
  }

  function AfterConv(conv: byte, args: seq<Arg>): seq<Arg> {
    if TakesArg(conv) && args != [] then args[1..] else args
  }

  /** One conversion: where it is, what it is given, and what it leaves to the rest of the format. */
  datatype Directive = Directive(conv: byte, sp: Spec, precision: int, arg: Option<Arg>, left: seq<Arg>)

  /** The conversion whose percent sign is at position `i`; `None` when it runs into the terminator or its precision is missing. */
  function DirectiveAt(fmt: seq<byte>, i: nat, args: seq<Arg>): (d: Option<Directive>)
    requires i < |fmt|
    ensures d.Some? ==> i < d.value.sp.end < |fmt|
  {
    var sp := ParseSpec(fmt, i + 1);
    var precision := PrecisionOf(sp.precision, args);
    if sp.end == |fmt| || precision.None? then None
    else
      var conv, rest := fmt[sp.end], AfterStar(sp.precision, args);
      Some(Directive(conv, sp, precision.value, ArgOf(conv, rest), AfterConv(conv, rest)))
  }

  function TextOf(how: Numbers, d: Directive): Option<seq<byte>> {
    Convert(how, d.conv, d.sp.flags, d.sp.width, d.precision, d.arg)
  }

  function SpanOf(d: Directive): (nat, nat)
    requires TextOf(Actual, d).Some?
  {
    RetrySpan(d.conv, d.sp.flags, d.sp.width, d.precision, d.arg)
  }

  ghost predicate Starts(d: Directive, fmt: seq<byte>, i: nat, args: seq<Arg>) {
    i < |fmt| && fmt[i] == PERCENT && DirectiveAt(fmt, i, args) == Some(d)
  }

  /** The text of a format from position `i` on; `None` when a conversion runs into the terminator or is undefined. */
  function Render(how: Numbers, fmt: seq<byte>, i: nat, args: seq<Arg>): Option<seq<byte>>
    requires i <= |fmt|
    decreases |fmt| - i
  {
    if i == |fmt| then Some([])
    else if fmt[i] != PERCENT then Append(Some([fmt[i]]), Render(how, fmt, i + 1, args))
    else
      var d := DirectiveAt(fmt, i, args);
      if d.None? then None else Append(TextOf(how, d.value), Render(how, fmt, d.value.sp.end + 1, d.value.left))
  }

  /** The characters of a conversion after which the code makes one more store although a chunk was refused. */
  function RetrySpan(conv: byte, f: Flags, width: u32, precision: int, arg: Option<Arg>): (nat, nat)
    requires Convert(Actual, conv, f, width, precision, arg).Some?
  {
    if conv == LOWER_D then IntSpan(arg.value.v, Bound(precision), width, f)
    else if conv == LOWER_U || conv == LOWER_X || conv == UPPER_X then
      UnsignedSpan(ToUnsigned(arg.value.v), BaseOf(conv), Bound(precision), width, f)
    else (0, 0)
  }

  /** Is character `k` of the text, from position `i` of the format on, such a character? */
  predicate RetriesAt(fmt: seq<byte>, i: nat, args: seq<Arg>, k: nat)
    requires i <= |fmt|
    decreases |fmt| - i
  {
    if i == |fmt| then false
    else if fmt[i] != PERCENT then k > 0 && RetriesAt(fmt, i + 1, args, k - 1)
    else
      var d := DirectiveAt(fmt, i, args);
      if d.None? || TextOf(Actual, d.value).None? then false
      else
        var n := |TextOf(Actual, d.value).value|;
        if k < n then SpanOf(d.value).0 <= k < SpanOf(d.value).1
        else RetriesAt(fmt, d.value.sp.end + 1, d.value.left, k - n)
  }

  /** Every conversion from position `i` on has a precision it prints right. */
  predicate InLimits(fmt: seq<byte>, i: nat, args: seq<Arg>)
    requires i <= |fmt|
    decreases |fmt| - i
  {
    if i == |fmt| then true
    else if fmt[i] != PERCENT then InLimits(fmt, i + 1, args)
    else
      var d := DirectiveAt(fmt, i, args);
      d.None? || (InLimit(d.value.conv, d.value.precision) && InLimits(fmt, d.value.sp.end + 1, d.value.left))
  }

  function Append(a: Option<seq<byte>>, b: Option<seq<byte>>): Option<seq<byte>> {
    if a.None? || b.None? then None else Some(a.value + b.value)
  }

  /** A text printed in place of another: the same, or shorter. */
  ghost predicate SameOrShorter(actual: Option<seq<byte>>, intended: Option<seq<byte>>, same: bool) {
    if same then actual == intended
    else intended.Some? && (actual.Some? ==> |actual.value| < |intended.value|)
  }

  lemma ConvertExact(conv: byte, f: Flags, width: u32, precision: int, arg: Option<Arg>)
    requires Convert(Intended, conv, f, width, precision, arg).Some?
    ensures SameOrShorter(Convert(Actual, conv, f, width, precision, arg),
                          Convert(Intended, conv, f, width, precision, arg), InLimit(conv, precision))
  {
    if TakesArg(conv) && conv != LOWER_S && conv != LOWER_C {
      var v := arg.value.v;
      if conv == LOWER_P {
        UnsignedRight(ToUnsigned(v), 16, 8, 8, Flags(false, false, false));
      } else if conv == LOWER_D {
        IntChanges(v, Bound(precision), width, f);
      } else {
        UnsignedChanges(ToUnsigned(v), BaseOf(conv), Bound(precision), width, f);
      }
    }
  }

  lemma UnsignedChanges(v: u32, base: nat, precision: nat, width: nat, f: Flags)
    requires base == 10 || base == 16
    ensures SameOrShorter(UnsignedBy(Actual, v, base, precision, width, f), UnsignedBy(Intended, v, base, precision, width, f),
                          precision <= MaxPrecision(base))
  {
    if precision <= MaxPrecision(base) {
      UnsignedRight(v, base, precision, width, f);
    } else if Printable(v, base, precision) {
      UnsignedWrong(v, base, precision, width, f);
    }
  }

  lemma IntChanges(v: i32, precision: nat, width: nat, f: Flags)
    ensures SameOrShorter(IntBy(Actual, v, precision, width, f), IntBy(Intended, v, precision, width, f), precision <= MaxPrecision(10))
  {
    if precision <= MaxPrecision(10) {
      IntFromUnsigned(v, precision, width, f);
    } else if Printable(Abs(v), 10, precision) {
      IntWrong(v, precision, width, f);
    }
  }

  lemma AppendChanges(a: Option<seq<byte>>, a': Option<seq<byte>>, p: bool, b: Option<seq<byte>>, b': Option<seq<byte>>, q: bool)
    requires a'.Some? && b'.Some? && SameOrShorter(a, a', p) && SameOrShorter(b, b', q)
    ensures SameOrShorter(Append(a, b), Append(a', b'), p && q)
  {
  }

  lemma RenderStarts(how: Numbers, d: Directive, fmt: seq<byte>, i: nat, args: seq<Arg>)
    requires Starts(d, fmt, i, args)
    ensures Render(how, fmt, i, args) == Append(TextOf(how, d), Render(how, fmt, d.sp.end + 1, d.left))
    ensures InLimits(fmt, i, args) == (InLimit(d.conv, d.precision) && InLimits(fmt, d.sp.end + 1, d.left))
  {
  }

  lemma SomeDirective(how: Numbers, fmt: seq<byte>, i: nat, args: seq<Arg>) returns (d: Directive)
    requires i < |fmt| && fmt[i] == PERCENT && Render(how, fmt, i, args).Some?
    ensures Starts(d, fmt, i, args)
  {
    d := DirectiveAt(fmt, i, args).value;
  }

  lemma {:induction false} RenderChanges(fmt: seq<byte>, i: nat, args: seq<Arg>)
    requires i <= |fmt| && Render(Intended, fmt, i, args).Some?
    ensures SameOrShorter(Render(Actual, fmt, i, args), Render(Intended, fmt, i, args), InLimits(fmt, i, args))
    decreases |fmt| - i
  {
    if i < |fmt| {
      if fmt[i] != PERCENT {
        RenderChanges(fmt, i + 1, args);
        AppendChanges(Some([fmt[i]]), Some([fmt[i]]), true,
                      Render(Actual, fmt, i + 1, args), Render(Intended, fmt, i + 1, args), InLimits(fmt, i + 1, args));
      } else {
        var d := SomeDirective(Intended, fmt, i, args);
        RenderStarts(Intended, d, fmt, i, args);
        RenderChanges(fmt, d.sp.end + 1, d.left);
        DirectiveChanges(d, fmt, i, args);
      }
    }
  }

  lemma DirectiveChanges(d: Directive, fmt: seq<byte>, i: nat, args: seq<Arg>)
    requires Starts(d, fmt, i, args) && Render(Intended, fmt, i, args).Some?
    requires SameOrShorter(Render(Actual, fmt, d.sp.end + 1, d.left), Render(Intended, fmt, d.sp.end + 1, d.left), InLimits(fmt, d.sp.end + 1, d.left))
    ensures SameOrShorter(Render(Actual, fmt, i, args), Render(Intended, fmt, i, args), InLimits(fmt, i, args))
  {
    RenderStarts(Intended, d, fmt, i, args);
    RenderStarts(Actual, d, fmt, i, args);
    ConvertExact(d.conv, d.sp.flags, d.sp.width, d.precision, d.arg);
    AppendChanges(TextOf(Actual, d), TextOf(Intended, d), InLimit(d.conv, d.precision),
                  Render(Actual, fmt, d.sp.end + 1, d.left), Render(Intended, fmt, d.sp.end + 1, d.left), InLimits(fmt, d.sp.end + 1, d.left));
  }

  /** A format is printed as intended exactly when all its numeric precisions are within the limits; otherwise the text is too short. */
  lemma RenderExact(fmt: seq<byte>, args: seq<Arg>)
    requires Render(Intended, fmt, 0, args).Some?
    ensures Render(Actual, fmt, 0, args) == Render(Intended, fmt, 0, args) <==> InLimits(fmt, 0, args)
  {
    RenderChanges(fmt, 0, args);
  }

  /** What the code can print is also intended to be printed. */
  lemma {:induction false} ActualIsIntended(fmt: seq<byte>, i: nat, args: seq<Arg>)
    requires i <= |fmt| && Render(Actual, fmt, i, args).Some?
    ensures Render(Intended, fmt, i, args).Some?
    decreases |fmt| - i
  {
    if i < |fmt| {
      if fmt[i] != PERCENT {
        ActualIsIntended(fmt, i + 1, args);
      } else {
        var d := SomeDirective(Actual, fmt, i, args);
        ActualIsIntended(fmt, d.sp.end + 1, d.left);
      }
    }
  }

  lemma AppendStep(done: seq<byte>, piece: seq<byte>, rest: Option<seq<byte>>, text: seq<byte>)
    requires Append(Some(done), Append(Some(piece), rest)) == Some(text)
    ensures rest.Some? && text == done + piece + rest.value
    ensures Append(Some(done + piece), rest) == Some(text)
  {
    assert done + (piece + rest.value) == done + piece + rest.value;
  }
}
