/** The number conversions content.js relies on: `parseInt(s, 10)`, `parseFloat(s)`, the
    decimal text of an integer (template literals and `String(n)`), and `toFixed(3)`.
    Numbers are exact: integers are `int` and decimals are `real`, so nothing here rounds
    the way IEEE doubles do. */
module Numbers {
  import opened Wrappers
  import opened Text

  predicate IsDigit(c: char) {
    '0' <= c <= '9'
  }

  predicate AllDigits(s: string) {
    forall i :: 0 <= i < |s| ==> IsDigit(s[i])
  }

  function DigitValue(c: char): (d: nat)
    requires IsDigit(c)
    ensures d < 10
  {
    c as int - '0' as int
  }

  function DigitChar(d: nat): (c: char)
    requires d < 10
    ensures IsDigit(c) && DigitValue(c) == d
  {
    ('0' as int + d) as char
  }

  /** The value of a string of decimal digits, most significant digit first. */
  function DigitsValue(s: string): nat
    requires AllDigits(s)
  {
    if s == [] then 0 else DigitsValue(s[..|s| - 1]) * 10 + DigitValue(s[|s| - 1])
  }

  /** The decimal text of a natural number, with no leading zero. */
  function Decimal(n: nat): (r: string)
    ensures r != [] && AllDigits(r)
    ensures r[0] == '0' <==> n == 0
    ensures n == 0 ==> r == "0"
  {
    if n < 10 then [DigitChar(n)] else Decimal(n / 10) + [DigitChar(n % 10)]
  }

  /** The text JavaScript prints for an integer-valued number (`${w}`). */
  function IntToString(i: int): (r: string)
    ensures r != []
    ensures i < 0 <==> r[0] == '-'
  {
    if i < 0 then "-" + Decimal(-i) else Decimal(i)
  }

  /** The value of the digits after a decimal point: "25" is one quarter. */
  function Fraction(s: string): (r: real)
    requires AllDigits(s)
    ensures 0.0 <= r <= 1.0
  {
    if s == [] then 0.0 else ((DigitValue(s[0]) as real) + Fraction(s[1..])) / 10.0
  }

  /** The number of decimal digits `s` starts with. */
  function DigitRun(s: string): (n: nat)
    ensures n <= |s|
    ensures forall i :: 0 <= i < n ==> IsDigit(s[i])
    ensures n < |s| ==> !IsDigit(s[n])
  {
    if s != [] && IsDigit(s[0]) then 1 + DigitRun(s[1..]) else 0
  }

  /** The longest prefix of `s` made of decimal digits. */
  function DigitPrefix(s: string): (r: string)
    ensures IsPrefix(r, s) && AllDigits(r)
    ensures |r| < |s| ==> !IsDigit(s[|r|])
  {
    s[..DigitRun(s)]
  }

  /** `s` without one leading `+` or `-`. */
  function DropSign(s: string): (r: string)
    ensures |r| <= |s|
  {
    if s != [] && (s[0] == '-' || s[0] == '+') then s[1..] else s
  }

  /** The reading `parseInt` makes once leading white space is gone: one optional sign, then
      the longest run of digits; `None` (NaN) when that run is empty. */
  function SignedInt(t: string): Option<int> {
    var z := DigitPrefix(DropSign(t));
    if z == [] then None
    else if t[0] == '-' then Some(-(DigitsValue(z) as int))
    else Some(DigitsValue(z))
  }

  /** `parseInt(s, 10)`: leading white space is skipped, one sign is accepted, and the
      longest run of digits after it is the value; `None` (NaN) when that run is empty.
      Trailing text such as the "x" of "3x" is ignored. */
  function ParseInt(s: string): Option<int> {
    SignedInt(TrimStart(s))
  }

  /** The value of an optional exponent part `e12`, `E-3`, `e+4`; 0 when it is absent or
      has no digits (then `parseFloat` stops before the `e`). */
  function ExponentValue(s: string): int {
    if s != [] && (s[0] == 'e' || s[0] == 'E') then
      var d := DigitPrefix(DropSign(s[1..]));
      if d == [] then 0
      else if s[1] == '-' then -(DigitsValue(d) as int)
      else DigitsValue(d)
    else 0
  }

  /** `x` times 10 to the power `e`. */
  function Scale(x: real, e: int): real
    decreases if e >= 0 then e else -e
  {
    if e == 0 then x else if e > 0 then Scale(x * 10.0, e - 1) else Scale(x / 10.0, e + 1)
  }

  /** The decimal number with integer digits `ip` and fraction digits `fp`. */
  function FixedValue(ip: string, fp: string): real
    requires AllDigits(ip) && AllDigits(fp)
  {
    (DigitsValue(ip) as real) + Fraction(fp)
  }

  /** The longest prefix of `u` of the form digits* (. digits*)? exponent? with at least one
      digit before the exponent, read exactly; `None` when there is none. */
  function UnsignedDecimal(u: string): Option<real> {
    var ip := DigitPrefix(u);
    var afterInt := u[|ip|..];
    var hasDot := afterInt != [] && afterInt[0] == '.';
    var fp := if hasDot then DigitPrefix(afterInt[1..]) else [];
    if ip == [] && fp == [] then None
    else
      var rest := if hasDot then afterInt[1 + |fp|..] else afterInt;
      Some(Scale(FixedValue(ip, fp), ExponentValue(rest)))
  }

  /** The reading `parseFloat` makes once leading white space is gone. */
  function SignedDecimal(t: string): Option<real> {
    match UnsignedDecimal(DropSign(t))
    case None => None
    case Some(v) => Some(if t[0] == '-' then -v else v)
  }

  /** `parseFloat(s)` on finite decimal literals: leading white space is skipped, one sign
      is accepted, and the longest decimal literal after it is read exactly; `None` (NaN)
      when there is none. */
  function ParseFloat(s: string): Option<real> {
    SignedDecimal(TrimStart(s))
  }

  /** Three digits, with leading zeros, for a number below 1000. */
  function Pad3(m: nat): (r: string)
    requires m < 1000
    ensures |r| == 3 && AllDigits(r)
  {
    [DigitChar(m / 100), DigitChar(m / 10 % 10), DigitChar(m % 10)]
  }

  /** `x.toFixed(3)` for |x| below 10^21: the magnitude is rounded to the nearest thousandth
      (a tie goes up) and printed with exactly three decimals, preceded by "-" when `x` is
      negative. */
  function ToFixed3(x: real): string {
    (if x < 0.0 then "-" else "") + Fixed3Digits(Thousandths(x))
  }

  /** The unsigned text of `n` thousandths, with exactly three decimals. */
  function Fixed3Digits(n: nat): string {
    Decimal(n / 1000) + "." + Pad3(n % 1000)
  }

  /** The magnitude of `x` in thousandths, rounded to the nearest (a tie goes up). */
  function Thousandths(x: real): nat {
    var a := if x < 0.0 then -x else x;
    (a * 1000.0 + 0.5).Floor
  }

  // ---------------------------------------------------------------------------------------
  // Round trips between the parsers and the printers

  lemma {:induction false} DecimalValue(n: nat)
    ensures DigitsValue(Decimal(n)) == n
  {
    if n >= 10 {
      DecimalValue(n / 10);
      var d := Decimal(n / 10) + [DigitChar(n % 10)];
      assert d[..|d| - 1] == Decimal(n / 10);
    }
  }

  lemma {:induction false} DigitRunOfDigits(d: string, rest: string)
    requires AllDigits(d)
    requires rest == [] || !IsDigit(rest[0])
    ensures DigitRun(d + rest) == |d|
    decreases |d|
  {
    if d != [] {
      assert (d + rest)[1..] == d[1..] + rest;
      DigitRunOfDigits(d[1..], rest);
    }
  }

  lemma DigitPrefixOfDigits(d: string, rest: string)
    requires AllDigits(d)
    requires rest == [] || !IsDigit(rest[0])
    ensures DigitPrefix(d + rest) == d
  {
    DigitRunOfDigits(d, rest);
    assert (d + rest)[..|d|] == d;
  }

  lemma Pad3Value(m: nat)
    requires m < 1000
    ensures Fraction(Pad3(m)) == (m as real) / 1000.0
  {
    var p := Pad3(m);
    var a, b, c := m / 100, m / 10 % 10, m % 10;
    assert p[1..][1..][1..] == [];
    assert Fraction(p[1..][1..]) == (c as real) / 10.0;
    assert Fraction(p[1..]) == ((b as real) + (c as real) / 10.0) / 10.0;
    assert Fraction(p) == ((a as real) + ((b as real) + (c as real) / 10.0) / 10.0) / 10.0;
    assert m == a * 100 + b * 10 + c;
  }

  lemma TrimStartKeeps(s: string)
    requires s != [] && (IsDigit(s[0]) || s[0] == '-')
    ensures TrimStart(s) == s
  {
    assert !IsWhitespace(s[0]);
  }


  lemma SignedIntOfDigits(d: string, rest: string)
    requires AllDigits(d) && d != []
    requires rest == [] || !IsDigit(rest[0])
    ensures SignedInt(d + rest) == Some(DigitsValue(d) as int)
  {
    assert (d + rest)[0] == d[0];
    DigitPrefixOfDigits(d, rest);
  }

  lemma SignedIntOfNegatedDigits(d: string, rest: string)
    requires AllDigits(d) && d != []
    requires rest == [] || !IsDigit(rest[0])
    ensures SignedInt("-" + (d + rest)) == Some(-(DigitsValue(d) as int))
  {
    var t := "-" + (d + rest);
    assert t[0] == '-' && t[1..] == d + rest;
    DigitPrefixOfDigits(d, rest);
    assert DigitPrefix(DropSign(t)) == d;
  }

  /** `parseInt` reads a run of digits, whatever non-digit text follows. */
  lemma ParseIntOfDigits(d: string, rest: string)
    requires AllDigits(d) && d != []
    requires rest == [] || !IsDigit(rest[0])
    ensures ParseInt(d + rest) == Some(DigitsValue(d) as int)
  {
    assert (d + rest)[0] == d[0];
    TrimStartKeeps(d + rest);
    SignedIntOfDigits(d, rest);
  }

  /** `parseInt` reads a negated run of digits, whatever non-digit text follows. */
  lemma ParseIntOfNegatedDigits(d: string, rest: string)
    requires AllDigits(d) && d != []
    requires rest == [] || !IsDigit(rest[0])
    ensures ParseInt("-" + d + rest) == Some(-(DigitsValue(d) as int))
  {
    var s := "-" + (d + rest);
    assert "-" + d + rest == s;
    TrimStartKeeps(s);
    SignedIntOfNegatedDigits(d, rest);
  }

  /** `parseInt` reads back the integer `${i}` prints, whatever non-digit text follows. */
  lemma ParseIntOfIntToString(i: int, rest: string)
    requires rest == [] || !IsDigit(rest[0])
    ensures ParseInt(IntToString(i) + rest) == Some(i)
  {
    var n: nat := if i < 0 then -i else i;
    DecimalValue(n);
    var d := Decimal(n);
    if i < 0 {
      assert IntToString(i) == "-" + d;
      ParseIntOfNegatedDigits(d, rest);
    } else {
      ParseIntOfDigits(d, rest);
    }
  }

  lemma UnsignedDecimalOfFixed(d: string, frac: string)
    requires AllDigits(d) && d != [] && AllDigits(frac)
    ensures UnsignedDecimal(d + "." + frac) == Some(FixedValue(d, frac))
  {
    var u := d + "." + frac;
    assert u == d + ("." + frac);
    DigitPrefixOfDigits(d, "." + frac);
    var afterInt := u[|d|..];
    assert afterInt == "." + frac;
    assert afterInt[1..] == frac + [];
    DigitPrefixOfDigits(frac, []);
    assert afterInt[1 + |frac|..] == [];
    assert Scale(FixedValue(d, frac), ExponentValue([])) == FixedValue(d, frac);
  }

  lemma ParseFloatNegative(u: string, v: real)
    requires u != [] && IsDigit(u[0])
    requires UnsignedDecimal(u) == Some(v)
    ensures ParseFloat("-" + u) == Some(-v)
  {
    var s := "-" + u;
    TrimStartKeeps(s);
    assert DropSign(s) == u;
  }

  lemma ParseFloatNonNegative(u: string, v: real)
    requires u != [] && IsDigit(u[0])
    requires UnsignedDecimal(u) == Some(v)
    ensures ParseFloat(u) == Some(v)
  {
    TrimStartKeeps(u);
  }

  /** Rounding to the nearest thousandth moves a magnitude by at most half a thousandth. */
  lemma RoundingBound(x: real)
    ensures var a := if x < 0.0 then -x else x;
      -0.0005 <= (Thousandths(x) as real) / 1000.0 - a <= 0.0005
  {
    var a := if x < 0.0 then -x else x;
    var n := (a * 1000.0 + 0.5).Floor;
    assert n as real <= a * 1000.0 + 0.5 < n as real + 1.0;
  }

  /** The whole thousands and the remaining thousandths of `n` add up to `n / 1000`. */
  lemma ThousandthsSplit(n: nat)
    ensures ((n / 1000) as real) + ((n % 1000) as real) / 1000.0 == (n as real) / 1000.0
  {
    var q, m := n / 1000, n % 1000;
    assert (q * 1000 + m) as real == (n as real);
  }

  /** The unsigned text of `n` thousandths reads back as `n / 1000`. */
  lemma ThousandthsRead(n: nat)
    ensures UnsignedDecimal(Fixed3Digits(n)) == Some((n as real) / 1000.0)
  {
    var q, m := n / 1000, n % 1000;
    var d, p := Decimal(q), Pad3(m);
    UnsignedDecimalOfFixed(d, p);
    DecimalValue(q);
    Pad3Value(m);
    ThousandthsSplit(n);
  }

  /** The unsigned text of a number of thousandths is digits around one decimal point, and
      starts with a digit. */
  lemma Fixed3DigitsChars(n: nat)
    ensures var u := Fixed3Digits(n);
      u != [] && IsDigit(u[0]) && forall i :: 0 <= i < |u| ==> IsDigit(u[i]) || u[i] == '.'
  {
    var d, p := Decimal(n / 1000), Pad3(n % 1000);
    var u := d + "." + p;
    assert u[0] == d[0];
    forall i | 0 <= i < |u| ensures IsDigit(u[i]) || u[i] == '.' {
      if i < |d| {
        assert u[i] == d[i];
      } else if i > |d| {
        assert u[i] == p[i - |d| - 1];
      }
    }
  }

  /** An optional minus sign before an unsigned literal that starts with a digit negates
      what `parseFloat` reads. */
  lemma SignedRead(neg: bool, u: string, v: real)
    requires u != [] && IsDigit(u[0])
    requires UnsignedDecimal(u) == Some(v)
    ensures ParseFloat((if neg then "-" else "") + u) == Some(if neg then -v else v)
  {
    if neg {
      ParseFloatNegative(u, v);
    } else {
      assert "" + u == u;
      ParseFloatNonNegative(u, v);
    }
  }

  /** The text of `n` thousandths, signed or not, reads back as `n / 1000` with that sign. */
  lemma SignedThousandthsRead(neg: bool, n: nat)
    ensures var v := (n as real) / 1000.0;
      ParseFloat((if neg then "-" else "") + Fixed3Digits(n)) == Some(if neg then -v else v)
  {
    ThousandthsRead(n);
    Fixed3DigitsChars(n);
    SignedRead(neg, Fixed3Digits(n), (n as real) / 1000.0);
  }

  /** The text `toFixed(3)` prints denotes a number within half a thousandth of its argument:
      reading it back with `parseFloat` succeeds and lands that close to `x`. */
  lemma ToFixed3Accurate(x: real)
    ensures ParseFloat(ToFixed3(x)).Some?
    ensures -0.0005 <= ParseFloat(ToFixed3(x)).value - x <= 0.0005
  {
    SignedThousandthsRead(x < 0.0, Thousandths(x));
    RoundingBound(x);
  }

  /** `toFixed(3)` prints only digits, a minus sign and a decimal point. */
  lemma ToFixed3Chars(x: real)
    ensures forall i :: 0 <= i < |ToFixed3(x)| ==> IsDigit(ToFixed3(x)[i]) || ToFixed3(x)[i] == '-' || ToFixed3(x)[i] == '.'
  {
    var sign, u := (if x < 0.0 then "-" else ""), Fixed3Digits(Thousandths(x));
    Fixed3DigitsChars(Thousandths(x));
    var t := sign + u;
    forall i | 0 <= i < |t| ensures IsDigit(t[i]) || t[i] == '-' || t[i] == '.' {
      if i >= |sign| {
        assert t[i] == u[i - |sign|];
      }
    }
  }
}
