/** Decimal coordinates. Stored coordinates carry exactly 8 fractional digits
    and are kept as integers scaled by 10^8; the views turn query-string text
    into numbers with `Decimal(text)` or `float(text)`, modelled here by
    `ParseDecimal` for plain literals such as "25.1234", "-0.5", "7." or ".5". */
module Decimals {
  import opened Wrappers

  /** 10^8: the scale of a field with 8 decimal places. */
  const Scale: nat := 100000000

  /** The value in degrees of a coordinate stored as a multiple of 10^-8. */
  function Degrees(e8: int): real {
    e8 as real / Scale as real
  }

  predicate IsDigit(c: char) {
    '0' <= c <= '9'
  }

  predicate AllDigits(s: string) {
    forall i :: 0 <= i < |s| ==> IsDigit(s[i])
  }

  /** The number written by a string of decimal digits (the empty string is 0). */
  function DigitsValue(s: string): nat
    requires AllDigits(s)
  {
    if s == [] then 0 else DigitsValue(s[..|s| - 1]) * 10 + (s[|s| - 1] as int - '0' as int)
  }

  function Pow10(n: nat): (r: nat)
    ensures r >= 1
  {
    if n == 0 then 1 else 10 * Pow10(n - 1)
  }

  /** Position of the first '.' in `s`, or |s| when there is none. */
  function FindDot(s: string): (k: nat)
    ensures k <= |s|
    ensures k < |s| ==> s[k] == '.'
    ensures forall i :: 0 <= i < k ==> s[i] != '.'
  {
    if s == [] || s[0] == '.' then 0 else 1 + FindDot(s[1..])
  }

  /** An unsigned literal: digits, optionally a point and more digits, with at
      least one digit in all. Its value is all its digits read as one integer,
      divided by 10 to the number of fractional digits. */
  function ParseUnsigned(s: string): Option<real> {
    var k := FindDot(s);
    var whole := s[..k];
    var frac := if k < |s| then s[k + 1..] else "";
    if AllDigits(whole) && AllDigits(frac) && |whole| + |frac| > 0 then
      assert AllDigits(whole + frac);
      Some(DigitsValue(whole + frac) as real / Pow10(|frac|) as real)
    else
      None
  }

  /** `Decimal(s)` / `float(s)` on a plain literal with an optional sign; None
      stands for the exception the views turn into "Invalid coordinate format". */
  function ParseDecimal(s: string): Option<real> {
    if s != [] && (s[0] == '+' || s[0] == '-') then
      match ParseUnsigned(s[1..])
      case None => None
      case Some(v) => Some(if s[0] == '-' then -v else v)
    else
      ParseUnsigned(s)
  }

  /** Accepted unsigned text is made of digits and points only. */
  lemma UnsignedChars(s: string)
    requires ParseUnsigned(s).Some?
    ensures forall i :: 0 <= i < |s| ==> IsDigit(s[i]) || s[i] == '.'
  {
    var k := FindDot(s);
    var whole := s[..k];
    var frac := if k < |s| then s[k + 1..] else "";
    assert forall i :: 0 <= i < k ==> s[i] == whole[i];
    assert forall i :: k < i < |s| ==> s[i] == frac[i - k - 1];
  }

  /** Accepted text is made of digits and points, after an optional sign. */
  lemma ParseDecimalChars(s: string)
    requires ParseDecimal(s).Some?
    ensures forall i :: 0 <= i < |s| ==>
      IsDigit(s[i]) || s[i] == '.' || (i == 0 && (s[i] == '+' || s[i] == '-'))
  {
    if s != [] && (s[0] == '+' || s[0] == '-') {
      UnsignedChars(s[1..]);
      assert forall j :: 1 <= j < |s| ==> s[j] == s[1..][j - 1];
    } else {
      UnsignedChars(s);
    }
  }

  /** In the plain-literal grammar, only text that starts with '-' reads as a negative number. */
  lemma NegativeNeedsMinus(s: string)
    requires ParseDecimal(s).Some? && ParseDecimal(s).value < 0.0
    ensures s != [] && s[0] == '-'
  {
    NonNegativeUnsigned(s);
    if s != [] && (s[0] == '+' || s[0] == '-') {
      NonNegativeUnsigned(s[1..]);
    }
  }

  lemma NonNegativeUnsigned(u: string)
    ensures ParseUnsigned(u).Some? ==> ParseUnsigned(u).value >= 0.0
  {
  }

  /** In the plain-literal grammar, text with no digit at all is never a number. */
  lemma NoDigitNoNumber(s: string)
    requires forall i :: 0 <= i < |s| ==> !IsDigit(s[i])
    ensures ParseDecimal(s) == None
  {
    var u := if s != [] && (s[0] == '+' || s[0] == '-') then s[1..] else s;
    var k := FindDot(u);
    var frac := if k < |u| then u[k + 1..] else "";
    if |u[..k]| > 0 {
      assert !IsDigit(u[..k][0]);
    } else if |frac| > 0 {
      assert !IsDigit(frac[0]);
    }
  }

  function DigitChar(d: nat): char
    requires d < 10
  {
    ('0' as int + d) as char
  }

  /** The decimal digits of `n`, without leading zeros. */
  function NatDigits(n: nat): (r: string)
    ensures AllDigits(r) && |r| >= 1
  {
    if n < 10 then [DigitChar(n)] else NatDigits(n / 10) + [DigitChar(n % 10)]
  }

  /** `s` preceded by enough zeros to reach width `w`. */
  function PadLeft(s: string, w: nat): string {
    if |s| >= w then s else seq(w - |s|, _ => '0') + s
  }

  /** A stored coordinate as text with exactly 8 fractional digits, as the
      serialised Decimal value reads ("25.12340000", "-0.50000000"). */
  function RenderE8(n: int): string {
    if n < 0 then "-" + RenderUnsigned(-n) else RenderUnsigned(n)
  }

  /** The magnitude part of `RenderE8`: whole digits, a point, 8 fractional digits. */
  function RenderUnsigned(m: nat): string {
    NatDigits(m / Scale) + "." + PadLeft(NatDigits(m % Scale), 8)
  }

  lemma {:induction false} DigitsValueAppend(a: string, b: string)
    requires AllDigits(a) && AllDigits(b)
    ensures AllDigits(a + b)
    ensures DigitsValue(a + b) == DigitsValue(a) * Pow10(|b|) + DigitsValue(b)
  {
    if b != [] {
      var b' := b[..|b| - 1];
      DigitsValueAppend(a, b');
      assert (a + b)[..|a + b| - 1] == a + b';
      assert b[..|b| - 1] == b';
      var d := b[|b| - 1] as int - '0' as int;
      var x, y, p := DigitsValue(a), DigitsValue(b'), Pow10(|b'|);
      assert DigitsValue(a + b) == (x * p + y) * 10 + d;
      assert Pow10(|b|) == p * 10;
      assert DigitsValue(b) == y * 10 + d;
      ShiftDigit(x, p, y, d);
    } else {
      assert a + b == a;
    }
  }

  /** Appending a digit multiplies the shifted prefix's weight by ten. */
  lemma ShiftDigit(x: int, p: int, y: int, d: int)
    ensures (x * p + y) * 10 + d == x * (p * 10) + (y * 10 + d)
  {
  }

  lemma {:induction false} NatDigitsValue(n: nat)
    ensures DigitsValue(NatDigits(n)) == n
  {
    if n >= 10 {
      NatDigitsValue(n / 10);
      var r := NatDigits(n);
      assert r[..|r| - 1] == NatDigits(n / 10);
    }
  }

  lemma {:induction false} NatDigitsLength(n: nat, w: nat)
    requires 1 <= w && n < Pow10(w)
    ensures |NatDigits(n)| <= w
  {
    if n >= 10 {
      NatDigitsLength(n / 10, w - 1);
    }
  }

  lemma {:induction false} ZerosValue(k: nat)
    ensures AllDigits(seq(k, _ => '0')) && DigitsValue(seq(k, _ => '0')) == 0
  {
    if k > 0 {
      ZerosValue(k - 1);
      assert seq(k, _ => '0')[..k - 1] == seq(k - 1, _ => '0');
    }
  }

  lemma PadLeftValue(s: string, w: nat)
    requires AllDigits(s) && |s| <= w
    ensures AllDigits(PadLeft(s, w)) && |PadLeft(s, w)| == w
    ensures DigitsValue(PadLeft(s, w)) == DigitsValue(s)
  {
    if |s| < w {
      ZerosValue(w - |s|);
      DigitsValueAppend(seq(w - |s|, _ => '0'), s);
    }
  }

  /** The unsigned text "<whole>.<frac>" reads back as the integer m / 10^8. */
  lemma UnsignedRoundTrip(m: nat)
    ensures RenderUnsigned(m) != [] && IsDigit(RenderUnsigned(m)[0])
    ensures ParseUnsigned(RenderUnsigned(m)) == Some(m as real / Scale as real)
  {
    var whole := NatDigits(m / Scale);
    var frac := PadLeft(NatDigits(m % Scale), 8);
    var u := whole + "." + frac;
    assert Pow10(8) == Scale;
    NatDigitsLength(m % Scale, 8);
    PadLeftValue(NatDigits(m % Scale), 8);
    NatDigitsValue(m % Scale);
    NatDigitsValue(m / Scale);
    var k := FindDot(u);
    assert u[|whole|] == '.';
    forall i | 0 <= i < |whole| ensures u[i] != '.' {
      assert u[i] == whole[i];
    }
    assert k == |whole|;
    assert u[..k] == whole;
    assert u[k + 1..] == frac;
    DigitsValueAppend(whole, frac);
    assert DigitsValue(whole + frac) == m;
    assert u[0] == whole[0];
  }

  /** An unsigned literal reads the same alone and negated after a '-'. */
  lemma SignedLiteral(u: string, v: real)
    requires u != [] && IsDigit(u[0]) && ParseUnsigned(u) == Some(v)
    ensures ParseDecimal(u) == Some(v)
    ensures ParseDecimal("-" + u) == Some(-v)
  {
    assert ("-" + u)[1..] == u;
  }

  lemma NegativeLiteral(u: string, v: real, d: real)
    requires u != [] && IsDigit(u[0]) && ParseUnsigned(u) == Some(v) && d == -v
    ensures ParseDecimal("-" + u) == Some(d)
  {
    SignedLiteral(u, v);
  }

  lemma NegatedDegrees(m: nat)
    ensures -(m as real / Scale as real) == Degrees(-(m as int))
  {
  }

  lemma NegativeRoundTrip(m: nat)
    requires m > 0
    ensures ParseDecimal(RenderE8(-(m as int))) == Some(Degrees(-(m as int)))
  {
    var u := RenderUnsigned(m);
    assert RenderE8(-(m as int)) == "-" + u;
    UnsignedRoundTrip(m);
    NegatedDegrees(m);
    NegativeLiteral(RenderUnsigned(m), m as real / Scale as real, Degrees(-(m as int)));
  }

  /** Text rendered from a stored coordinate parses back to that coordinate. */
  lemma RenderRoundTrip(n: int)
    ensures ParseDecimal(RenderE8(n)) == Some(Degrees(n))
  {
    if n < 0 {
      NegativeRoundTrip(-n);
    } else {
      UnsignedRoundTrip(n);
      SignedLiteral(RenderUnsigned(n), n as real / Scale as real);
    }
  }

  /** The tolerance used when the request names none. */
  lemma DefaultToleranceValue()
    ensures ParseDecimal("0.001") == Some(0.001)
  {
    var s := "0.001";
    assert s[1..] == ".001";
    assert FindDot(s) == 1;
    assert s[..1] == "0" && s[2..] == "001";
    assert "0" + "001" == "0001";
    assert DigitsValue("0001") == 1 by {
      assert "0001"[..3] == "000";
      assert "000"[..2] == "00";
      assert "00"[..1] == "0";
      assert "0"[..0] == "";
    }
    assert Pow10(3) == 1000;
    assert ParseUnsigned(s) == Some(1 as real / 1000 as real);
  }
}
