/**
 * PHP's floatval() on a string, over exact reals: the value of the longest
 * leading decimal number of the text (an optional sign, digits with an
 * optional fractional part, an optional exponent), or 0 when the text does
 * not start with a number.
 */
module PhpFloat {

  predicate IsDigit(c: char) {
    '0' <= c <= '9'
  }

  predicate AllDigits(d: string) {
    forall k | 0 <= k < |d| :: IsDigit(d[k])
  }

  function DigitValue(c: char): (v: nat)
    requires IsDigit(c)
    ensures v < 10
  {
    c as int - '0' as int
  }

  function Pow10(n: nat): (p: nat)
    ensures p >= 1
  {
    if n == 0 then 1 else 10 * Pow10(n - 1)
  }

  /** Reference reading of a digit string as a natural number, from its
      last digit. */
  function DigitsValue(d: string): nat
    requires AllDigits(d)
  {
    if d == [] then 0 else 10 * DigitsValue(d[..|d| - 1]) + DigitValue(d[|d| - 1])
  }

  /** Length of the leading run of digits of s. */
  function DigitRun(s: string): (n: nat)
    ensures n <= |s|
    ensures forall k | 0 <= k < n :: IsDigit(s[k])
    ensures n < |s| ==> !IsDigit(s[n])
  {
    if s != [] && IsDigit(s[0]) then 1 + DigitRun(s[1..]) else 0
  }

  /** The scanner's accumulation over the leading digits of s, left to
      right (Horner's rule), starting from acc. */
  function ScanDigits(s: string, acc: nat): nat
  {
    if s != [] && IsDigit(s[0]) then ScanDigits(s[1..], 10 * acc + DigitValue(s[0])) else acc
  }

  /** The scale factor of an exponent part at the head of s ("e3", "E-2",
      "e+5"); 1 when s does not start with a complete exponent. */
  function ExponentScale(s: string): real
  {
    if |s| >= 2 && (s[0] == 'e' || s[0] == 'E') then
      var digits := if s[1] == '-' || s[1] == '+' then s[2..] else s[1..];
      if DigitRun(digits) == 0 then 1.0
      else
        var e := ScanDigits(digits, 0);
        if s[1] == '-' then 1.0 / Pow10(e) as real else Pow10(e) as real
    else 1.0
  }

  /** The value of the unsigned decimal number at the head of s, or 0 when
      s does not start with digits or with a point followed by digits. */
  function UnsignedValue(s: string): real
  {
    var n1 := DigitRun(s);
    var hasPoint := n1 < |s| && s[n1] == '.';
    var frac := if hasPoint then s[n1 + 1..] else [];
    var n2 := DigitRun(frac);
    if n1 == 0 && n2 == 0 then 0.0
    else
      var mantissa := ScanDigits(s, 0) as real + ScanDigits(frac, 0) as real / Pow10(n2) as real;
      var after := if hasPoint then frac[n2..] else s[n1..];
      mantissa * ExponentScale(after)
  }

  /** floatval() of a string. */
  function FloatVal(s: string): real
  {
    if s != [] && s[0] == '-' then -UnsignedValue(s[1..])
    else if s != [] && s[0] == '+' then UnsignedValue(s[1..])
    else UnsignedValue(s)
  }

  /** The text starts with a number: after an optional sign, a digit, or a
      point followed by a digit. */
  predicate StartsNumeric(s: string) {
    var body := if s != [] && (s[0] == '-' || s[0] == '+') then s[1..] else s;
    (body != [] && IsDigit(body[0])) ||
    (|body| >= 2 && body[0] == '.' && IsDigit(body[1]))
  }

  /** Text that does not start with a number reads as 0. */
  lemma FloatValNonNumeric(s: string)
    requires !StartsNumeric(s)
    ensures FloatVal(s) == 0.0
  {
    var body := if s != [] && (s[0] == '-' || s[0] == '+') then s[1..] else s;
    assert DigitRun(body) == 0;
    assert UnsignedValue(body) == 0.0 by {
      if 0 < |body| && body[0] == '.' {
        assert DigitRun(body[1..]) == 0;
      }
    }
  }

  /** Prepending a digit to a digit string adds its place value. */
  lemma {:induction false} DigitsValueCons(c: char, d: string)
    requires IsDigit(c) && AllDigits(d)
    ensures AllDigits([c] + d)
    ensures DigitsValue([c] + d) == DigitValue(c) * Pow10(|d|) + DigitsValue(d)
  {
    var cd := [c] + d;
    if d == [] {
      assert cd[..0] == [];
    } else {
      var init, last := d[..|d| - 1], d[|d| - 1];
      assert cd[..|cd| - 1] == [c] + init;
      assert cd[|cd| - 1] == last;
      DigitsValueCons(c, init);
      var v, p := DigitValue(c), Pow10(|init|);
      assert DigitsValue(cd) == 10 * (v * p + DigitsValue(init)) + DigitValue(last);
      assert Pow10(|d|) == 10 * p;
      ShiftDistributes(v, p, DigitsValue(init));
    }
  }

  /** The arithmetic step shared by the two readings of a digit string. */
  lemma ShiftDistributes(v: nat, p: nat, rest: nat)
    ensures 10 * (v * p + rest) == v * (10 * p) + 10 * rest
  {
  }

  /** The left-to-right scan of a digit string computes its reference
      value, shifted past the digits already scanned. */
  lemma {:induction false} ScanDigitsValue(d: string, acc: nat)
    requires AllDigits(d)
    ensures ScanDigits(d, acc) == acc * Pow10(|d|) + DigitsValue(d)
  {
    if d != [] {
      var v, p, tail := DigitValue(d[0]), Pow10(|d| - 1), d[1..];
      assert ScanDigits(d, acc) == ScanDigits(tail, 10 * acc + v);
      ScanDigitsValue(tail, 10 * acc + v);
      DigitsValueCons(d[0], tail);
      assert [d[0]] + tail == d;
      assert Pow10(|d|) == 10 * p;
      HornerStep(acc, v, p);
    }
  }

  /** Horner's step: shifting the accumulator and adding a digit, then
      shifting by the rest. */
  lemma HornerStep(acc: nat, v: nat, p: nat)
    ensures (10 * acc + v) * p == acc * (10 * p) + v * p
  {
  }

  /** The scan stops at the first character that is not a digit. */
  lemma {:induction false} ScanDigitsStops(d: string, rest: string, acc: nat)
    requires AllDigits(d)
    requires rest == [] || !IsDigit(rest[0])
    ensures ScanDigits(d + rest, acc) == ScanDigits(d, acc)
    ensures DigitRun(d + rest) == |d|
  {
    if d == [] {
      assert d + rest == rest;
    } else {
      assert (d + rest)[1..] == d[1..] + rest;
      ScanDigitsStops(d[1..], rest, 10 * acc + DigitValue(d[0]));
    }
  }

  /** A plain digit string reads as its integer value. */
  lemma FloatValInteger(d: string)
    requires d != [] && AllDigits(d)
    ensures FloatVal(d) == DigitsValue(d) as real
  {
    ScanDigitsStops(d, [], 0);
    assert d + [] == d;
    ScanDigitsValue(d, 0);
    assert DigitRun([]) == 0;
  }

  /** The pieces the scanner finds in "ddd.fff": the whole digits, then
      the point, then the fraction digits and nothing after them. */
  lemma DecimalPieces(whole: string, fraction: string)
    requires AllDigits(whole) && AllDigits(fraction)
    ensures var s := whole + "." + fraction;
      DigitRun(s) == |whole| && |whole| < |s| && s[|whole|] == '.' &&
      s[|whole| + 1..] == fraction &&
      ScanDigits(s, 0) == DigitsValue(whole) &&
      DigitRun(fraction) == |fraction| &&
      ScanDigits(fraction, 0) == DigitsValue(fraction) &&
      fraction[|fraction|..] == []
  {
    var s := whole + "." + fraction;
    assert s == whole + ("." + fraction);
    ScanDigitsStops(whole, "." + fraction, 0);
    ScanDigitsValue(whole, 0);
    ScanDigitsStops(fraction, [], 0);
    assert fraction + [] == fraction;
    ScanDigitsValue(fraction, 0);
  }

  /** A plain decimal "ddd.fff" reads as its value. */
  lemma FloatValDecimal(whole: string, fraction: string)
    requires AllDigits(whole) && AllDigits(fraction)
    requires whole != [] || fraction != []
    ensures FloatVal(whole + "." + fraction) ==
      DigitsValue(whole) as real + DigitsValue(fraction) as real / Pow10(|fraction|) as real
  {
    var s := whole + "." + fraction;
    DecimalPieces(whole, fraction);
    assert ExponentScale([]) == 1.0;
    var m := DigitsValue(whole) as real + DigitsValue(fraction) as real / Pow10(|fraction|) as real;
    assert UnsignedValue(s) == m * 1.0;
    assert s[0] != '-' && s[0] != '+' by {
      if whole != [] { assert s[0] == whole[0]; } else { assert s[0] == '.'; }
    }
  }

  /** A leading minus sign negates what follows, unless another sign
      follows it. */
  lemma FloatValNegative(s: string)
    requires s == [] || (s[0] != '-' && s[0] != '+')
    ensures FloatVal("-" + s) == -FloatVal(s)
  {
    assert ("-" + s)[1..] == s;
  }

  /** The decimal digits of a natural number, without leading zeros. */
  function NatToDigits(n: nat): (d: string)
    ensures d != [] && AllDigits(d)
  {
    if n < 10 then ['0' + n as char]
    else NatToDigits(n / 10) + ['0' + (n % 10) as char]
  }

  /** Reading back the digits of a natural number gives the number. */
  lemma {:induction false} DigitsValueOfNat(n: nat)
    ensures DigitsValue(NatToDigits(n)) == n
  {
    var d := NatToDigits(n);
    if n >= 10 {
      DigitsValueOfNat(n / 10);
      assert d[..|d| - 1] == NatToDigits(n / 10);
      assert d[|d| - 1] == '0' + (n % 10) as char;
    } else {
      assert d[..0] == [];
    }
  }

  /** floatval() of a printed natural number is that number. */
  lemma FloatValOfNat(n: nat)
    ensures FloatVal(NatToDigits(n)) == n as real
  {
    DigitsValueOfNat(n);
    FloatValInteger(NatToDigits(n));
  }
}
