/**
  Numbers as `_PrintUnsigned` writes them (src/RTT/SEGGER_RTT_printf.c:137-225):
  the positional notation it is meant to produce, and the digits its 32-bit divisor
  arithmetic does produce.
 */
module NumberFormat {
  import opened Machine

  function Pow(b: nat, e: nat): (r: nat)
    requires b >= 1
    ensures r >= 1
  {
    if e == 0 then 1 else b * Pow(b, e - 1)
  }

  // ---- Arithmetic the solver does not find by itself ----

  lemma {:induction false} MulLe(a: nat, b: nat, c: nat)
    requires a <= b
    ensures a * c <= b * c
    decreases c
  {
    if c > 0 {
      MulLe(a, b, c - 1);
      assert a * c == a * (c - 1) + a && b * c == b * (c - 1) + b;
    }
  }

  lemma DivMod(v: nat, p: nat)
    requires p >= 1
    ensures v / p * p + v % p == v && v % p < p
  {
  }

  lemma DivShrinks(d: nat, base: nat)
    requires base >= 2 && d > 0
    ensures d / base < d
  {
    DivMod(d, base);
    if d / base >= d {
      MulLe(d, d / base, base);
      MulLe(2, base, d);
    }
  }

  lemma {:induction false} PowMonotonic(b: nat, d: nat, e: nat)
    requires b >= 2 && d <= e
    ensures Pow(b, d) <= Pow(b, e)
    decreases e
  {
    if d < e {
      PowMonotonic(b, d, e - 1);
      var p := Pow(b, e - 1);
      MulLe(1, b, p);
      assert Pow(b, e) == b * p;
    }
  }

  // ---- Positional notation ----

  /** The number a digit string stands for, most significant digit first. */
  function Value(digits: seq<nat>, base: nat): nat
    requires base >= 2
  {
    if digits == [] then 0 else digits[0] * Pow(base, |digits| - 1) + Value(digits[1..], base)
  }

  ghost predicate AreDigits(digits: seq<nat>, base: nat) {
    forall i :: 0 <= i < |digits| ==> digits[i] < base
  }

  /** How many digits `v` has. */
  function NumLen(v: nat, base: nat): (n: nat)
    requires base >= 2
    ensures n >= 1
  {
    if v < base then 1
    else
      DivShrinks(v, base);
      1 + NumLen(v / base, base)
  }

  /** `v` written with `n` digits. */
  function Numeral(v: nat, base: nat, n: nat): (digits: seq<nat>)
    requires base >= 2
    ensures |digits| == n
  {
    if n == 0 then [] else [v / Pow(base, n - 1)] + Numeral(v % Pow(base, n - 1), base, n - 1)
  }

  lemma DivLess(v: nat, p: nat, base: nat)
    requires p >= 1
    ensures v < base * p <==> v / p < base
  {
    DivMod(v, p);
    if v / p >= base {
      MulLe(base, v / p, p);
    } else {
      MulLe(v / p + 1, base, p);
      assert (v / p + 1) * p == v / p * p + p;
    }
  }

  lemma ValueStep(digits: seq<nat>, base: nat, d: nat, rest: seq<nat>, p: nat)
    requires base >= 2 && digits == [d] + rest && p == Pow(base, |rest|)
    ensures Value(digits, base) == d * p + Value(rest, base)
  {
    assert digits[1..] == rest;
  }

  /** Reading back what was written: the numeral has proper digits and stands for the number. */
  lemma {:induction false} NumeralRoundTrip(v: nat, base: nat, n: nat)
    requires base >= 2 && v < Pow(base, n)
    ensures AreDigits(Numeral(v, base, n), base)
    ensures Value(Numeral(v, base, n), base) == v
  {
    if n > 0 {
      var p := Pow(base, n - 1);
      var d, r := v / p, v % p;
      assert d < base by { DivLess(v, p, base); }
      assert d * p + r == v && r < p by { DivMod(v, p); }
      NumeralRoundTrip(r, base, n - 1);
      ValueStep(Numeral(v, base, n), base, d, Numeral(r, base, n - 1), p);
    }
  }

  lemma LeadingDigit(d: nat, base: nat, p: nat, x: nat)
    requires d < base && x < p
    ensures d * p + x < base * p
  {
    MulLe(d + 1, base, p);
    assert (d + 1) * p == d * p + p;
  }

  /** A digit string of `n` digits is below base^n. */
  lemma {:induction false} ValueBound(digits: seq<nat>, base: nat)
    requires base >= 2 && AreDigits(digits, base)
    ensures Value(digits, base) < Pow(base, |digits|)
  {
    if digits != [] {
      ValueBound(digits[1..], base);
      LeadingDigit(digits[0], base, Pow(base, |digits| - 1), Value(digits[1..], base));
    }
  }

  lemma SameLead(a: nat, b: nat, p: nat, x: nat, y: nat)
    requires x < p && y < p && a * p + x == b * p + y
    ensures a == b && x == y
  {
    if a < b {
      LeadingDigit(a, b, p, x);
    } else if b < a {
      LeadingDigit(b, a, p, y);
    }
  }

  /** Equal length and equal value: equal digits.  So the numeral is the only right answer. */
  lemma {:induction false} NotationUnique(a: seq<nat>, b: seq<nat>, base: nat)
    requires base >= 2 && AreDigits(a, base) && AreDigits(b, base)
    requires |a| == |b| && Value(a, base) == Value(b, base)
    ensures a == b
  {
    if a != [] {
      ValueBound(a[1..], base);
      ValueBound(b[1..], base);
      SameLead(a[0], b[0], Pow(base, |a| - 1), Value(a[1..], base), Value(b[1..], base));
      NotationUnique(a[1..], b[1..], base);
    }
  }

  lemma ScaleBounds(v: nat, base: nat, q: nat, lo: nat, hi: nat)
    requires base >= 2 && q == v / base && lo <= q < hi
    ensures base * lo <= v < base * hi
  {
    DivMod(v, base);
    MulLe(lo, q, base);
    MulLe(q + 1, hi, base);
    assert (q + 1) * base == q * base + base;
  }

  lemma {:induction false} NumLenBounds(v: nat, base: nat)
    requires base >= 2
    ensures v < Pow(base, NumLen(v, base))
    ensures v > 0 ==> Pow(base, NumLen(v, base) - 1) <= v
  {
    if v >= base {
      var q, n := v / base, NumLen(v / base, base);
      DivShrinks(v, base);
      NumLenBounds(q, base);
      assert q > 0 by { DivLess(v, base, 1); }
      ScaleBounds(v, base, q, Pow(base, n - 1), Pow(base, n));
    } else {
      assert Pow(base, 1) == base * Pow(base, 0);
    }
  }

  /** The number of digits is pinned down by the powers around the number. */
  lemma NumLenIs(v: nat, base: nat, n: nat)
    requires base >= 2 && n >= 1 && v < Pow(base, n)
    ensures NumLen(v, base) <= n
    ensures n > 1 && Pow(base, n - 1) <= v ==> NumLen(v, base) == n
  {
    NumLenBounds(v, base);
    var k := NumLen(v, base);
    if k > n {
      assert v > 0;
      PowMonotonic(base, n, k - 1);
    }
    if k < n && n > 1 && Pow(base, n - 1) <= v {
      PowMonotonic(base, k, n - 1);
    }
  }

  // ---- The divisor arithmetic of the code ----

  /** Largest precision whose divisor fits 32 bits. */
  function MaxPrecision(base: nat): nat {
    if base == 10 then 10 else 8
  }

  /** `Digit * Base` modulo 2^32. */
  function Times(digit: u32, base: nat): u32 {
    digit * base % TWO_32
  }

  /** `v - Div * Digit`, what the digit loop carries on with. */
  function Left(v: u32, digit: u32): (r: u32)
    requires digit > 0
    ensures r == v % digit
  {
    DivMod(v, digit);
    v - v / digit * digit
  }

  /** `Digit *= Base`, `times` times. */
  function Raise(digit: u32, base: nat, times: nat): u32
    decreases times
  {
    if times == 0 then digit else Raise(Times(digit, base), base, times - 1)
  }

  /** Raises the divisor until it extracts the highest digit of `v`. */
  function Grow(v: u32, base: nat, digit: u32): (r: u32)
    requires base >= 2 && digit > 0
    ensures r > 0
    decreases v - digit
  {
    if v / digit < base then digit
    else
      GrowsSafely(v, base, digit);
      Grow(v, base, Times(digit, base))
  }

  /** While the divisor is too small its next value does not exceed `v`. */
  lemma GrowsSafely(v: u32, base: nat, digit: u32)
    requires base >= 2 && digit > 0 && v / digit >= base
    ensures digit < base * digit <= v
    ensures Times(digit, base) == base * digit
  {
    DivLess(v, digit, base);
    MulLe(2, base, digit);
  }

  /** `Digit / Base`, the divisor of the next digit. */
  function Lower(digit: u32, base: nat): (r: u32)
    requires base >= 2 && digit > 0
    ensures r < digit
  {
    DivShrinks(digit, base);
    digit / base
  }

  /** The digit loop; `None` when the digit table would be indexed beyond its 16 entries. */
  function Emit(v: u32, base: nat, digit: u32): (r: Option<seq<nat>>)
    requires base >= 2 && digit > 0
    decreases digit
  {
    if v / digit >= 16 then None
    else if Lower(digit, base) == 0 then Some([v / digit])
    else Prefix(v / digit, Emit(Left(v, digit), base, Lower(digit, base)))
  }

  function Prefix(d: nat, r: Option<seq<nat>>): Option<seq<nat>> {
    match r
    case None => None
    case Some(rest) => Some([d] + rest)
  }

  /** All digits the code prints for `v`; `None` when it divides by zero or reads beyond its table. */
  function CodeDigits(v: u32, base: nat, precision: nat): (r: Option<seq<nat>>)
    requires base >= 2
  {
    var digit := Raise(1, base, Max(precision, 1) - 1);
    if digit == 0 then None else Emit(v, base, Grow(v, base, digit))
  }

  lemma {:induction false} RaiseIsPow(base: nat, e: nat, times: nat)
    requires base >= 2 && Pow(base, e + times) < TWO_32
    ensures Pow(base, e) < TWO_32
    ensures Raise(Pow(base, e), base, times) == Pow(base, e + times)
    decreases times
  {
    PowMonotonic(base, e, e + times);
    if times > 0 {
      PowMonotonic(base, e + 1, e + times);
      assert Times(Pow(base, e), base) == Pow(base, e + 1) by { assert Pow(base, e + 1) == base * Pow(base, e); }
      RaiseIsPow(base, e + 1, times - 1);
    }
  }

  /** From base^(p-1) the divisor grows to base^(w-1), where w is the larger of p and the digit count. */
  lemma {:induction false} GrowIsPow(v: u32, base: nat, p: nat, e: nat)
    requires base >= 2 && 1 <= p <= e + 1 && Pow(base, e) < TWO_32
    requires e + 1 == p || Pow(base, e) <= v
    ensures Grow(v, base, Pow(base, e)) == Pow(base, Max(p, NumLen(v, base)) - 1)
    ensures v < Pow(base, Max(p, NumLen(v, base)))
    decreases v - Pow(base, e)
  {
    var digit := Pow(base, e);
    assert Pow(base, e + 1) == base * digit;
    if v / digit < base {
      assert v < base * digit by { DivLess(v, digit, base); }
      NumLenIs(v, base, e + 1);
    } else {
      GrowsSafely(v, base, digit);
      GrowIsPow(v, base, p, e + 1);
    }
  }

  lemma PowDiv(base: nat, e: nat)
    requires base >= 2
    ensures Pow(base, e + 1) / base == Pow(base, e)
  {
    var q := Pow(base, e);
    assert base * q == q * base;
    DivMod(q * base, base);
    DivLess(q * base, base, q + 1);
    DivLess(q * base, base, q);
  }

  /** One round of the digit loop, with the divisor a power of the base. */
  lemma EmitRound(v: u32, base: nat, n: nat, p: u32)
    requires base == 10 || base == 16
    requires n >= 1 && p == Pow(base, n - 1) && v < base * p
    ensures v / p < base && Left(v, p) < p
    ensures if n == 1 then Lower(p, base) == 0 else Lower(p, base) == Pow(base, n - 2)
    ensures Numeral(v, base, n) == [v / p] + Numeral(Left(v, p), base, n - 1)
  {
    DivLess(v, p, base);
    DivMod(v, p);
    if n > 1 {
      PowDiv(base, n - 2);
    }
  }

  lemma {:induction false} EmitIsNumeral(v: u32, base: nat, n: nat, p: u32)
    requires base == 10 || base == 16
    requires n >= 1 && p == Pow(base, n - 1) && v < base * p
    ensures Emit(v, base, p) == Some(Numeral(v, base, n))
    decreases n
  {
    EmitRound(v, base, n, p);
    if n == 1 {
      assert Numeral(v, base, 1) == [v / p];
    } else {
      var q := Lower(p, base);
      assert p == base * q;
      EmitIsNumeral(Left(v, p), base, n - 1, q);
    }
  }

  /** The digit loop cannot print more digits than its divisor has. */
  lemma {:induction false} EmitLength(v: u32, digit: u32, n: nat)
    requires digit > 0 && n >= 1 && digit < Pow(10, n)
    ensures Emit(v, 10, digit).Some? ==> |Emit(v, 10, digit).value| <= n
    decreases digit
  {
    if v / digit < 16 && digit / 10 > 0 {
      assert n > 1 by { assert Pow(10, 1) == 10 * Pow(10, 0); }
      assert Pow(10, n) == 10 * Pow(10, n - 1);
      EmitLength(v % digit, digit / 10, n - 1);
    }
  }

  lemma {:induction false} RaiseToZero(times: nat)
    ensures Raise(0, 16, times) == 0
    decreases times
  {
    if times > 0 {
      RaiseToZero(times - 1);
    }
  }

  lemma {:induction false} RaiseSplits(digit: u32, base: nat, a: nat, b: nat)
    ensures Raise(digit, base, a + b) == Raise(Raise(digit, base, a), base, b)
    decreases a
  {
    if a > 0 {
      RaiseSplits(Times(digit, base), base, a - 1, b);
    }
  }

  lemma Powers()
    ensures Pow(10, 9) == 1_000_000_000 && Pow(10, 10) == 10_000_000_000
    ensures Pow(16, 7) == 0x1000_0000
  {
  }

  /** Sixteen to the eighth is 2^32: the divisor becomes zero. */
  lemma HexOverflow(times: nat)
    requires times >= 8
    ensures Raise(1, 16, times) == 0
  {
    var d := Raise(1, 16, 7);
    assert d == 0x1000_0000 by { Powers(); RaiseIsPow(16, 0, 7); }
    RaiseSplits(1, 16, 7, times - 7);
    assert Times(d, 16) == 0;
    assert Raise(d, 16, times - 7) == Raise(Times(d, 16), 16, times - 8);
    RaiseToZero(times - 8);
  }

  /** The divisor the digit loop starts with. */
  lemma StartDivisor(v: u32, base: nat, p: nat)
    requires base == 10 || base == 16
    requires 1 <= p <= MaxPrecision(base)
    ensures var w, digit := Max(p, NumLen(v, base)), Raise(1, base, p - 1);
            && digit > 0
            && Grow(v, base, digit) == Pow(base, w - 1)
            && v < base * Pow(base, w - 1)
  {
    assert Pow(base, p - 1) < TWO_32 by { Powers(); PowMonotonic(base, p - 1, MaxPrecision(base) - 1); }
    RaiseIsPow(base, 0, p - 1);
    GrowIsPow(v, base, p, p - 1);
  }

  lemma DigitsRight(v: u32, base: nat, precision: nat)
    requires base == 10 || base == 16
    requires precision <= MaxPrecision(base)
    ensures CodeDigits(v, base, precision) == Some(Numeral(v, base, Max(precision, NumLen(v, base))))
  {
    var p := Max(precision, 1);
    var w, digit := Max(p, NumLen(v, base)), Raise(1, base, p - 1);
    StartDivisor(v, base, p);
    EmitIsNumeral(v, base, w, Grow(v, base, digit));
  }

  lemma DigitsWrong(v: u32, base: nat, precision: nat)
    requires base == 10 || base == 16
    requires precision > MaxPrecision(base)
    ensures CodeDigits(v, base, precision).Some? ==> |CodeDigits(v, base, precision).value| < precision
  {
    if base == 16 {
      HexOverflow(precision - 1);
    } else {
      var digit := Raise(1, 10, precision - 1);
      if digit > 0 {
        Powers();
        EmitLength(v, Grow(v, 10, digit), 10);
      }
    }
  }

  /**
    The digits are those of the number, padded with zeros to the precision, exactly
    when the precision is within what a 32-bit divisor can hold.
   */
  lemma DigitsExact(v: u32, base: nat, precision: nat)
    requires base == 10 || base == 16
    ensures CodeDigits(v, base, precision) == Some(Numeral(v, base, Max(precision, NumLen(v, base))))
       <==> precision <= MaxPrecision(base)
  {
    if precision <= MaxPrecision(base) {
      DigitsRight(v, base, precision);
    } else {
      DigitsWrong(v, base, precision);
    }
  }
}
