/** Exact decimal amounts, the part of `java.math.BigDecimal` the transfer uses:
    `new BigDecimal(String)` for a plain literal (optional sign, digits, optional
    fraction) and comparison by value. Values are Dafny reals, so 1.0 and 1.00 are
    the same value, as they are under `compareTo`. */
module Decimal {
  import opened Results

  predicate IsDigit(c: char) {
    '0' <= c <= '9'
  }

  predicate AllDigits(s: string) {
    forall i :: 0 <= i < |s| ==> IsDigit(s[i])
  }

  function DigitValue(c: char): nat
    requires IsDigit(c)
  {
    c as int - '0' as int
  }

  function DigitChar(d: nat): (c: char)
    requires d < 10
    ensures IsDigit(c) && DigitValue(c) == d
  {
    ('0' as int + d) as char
  }

  function Pow10(n: nat): (r: nat)
    ensures r >= 1
  {
    if n == 0 then 1 else 10 * Pow10(n - 1)
  }

  /** The number a string of decimal digits denotes, most significant digit first;
      leading zeros are allowed and the empty string denotes 0. */
  function DigitsValue(s: string): nat
    requires AllDigits(s)
  {
    if |s| == 0 then 0 else DigitsValue(s[..|s| - 1]) * 10 + DigitValue(s[|s| - 1])
  }

  /** Index of the first '.' in s, or |s| when s has none. */
  function PointIndex(s: string): (k: nat)
    ensures k <= |s|
    ensures k < |s| ==> s[k] == '.'
    ensures forall i :: 0 <= i < k ==> s[i] != '.'
  {
    if |s| == 0 || s[0] == '.' then 0 else 1 + PointIndex(s[1..])
  }

  /** An unsigned literal: digits, optionally one '.' followed by more digits, and at
      least one digit in all ("1", "1.", ".5", "1.50"; not "", ".", "1.2.3"). */
  function ParseUnsigned(s: string): (r: Option<real>)
    ensures r.Some? ==> r.value >= 0.0
    ensures r.Some? ==> |s| > 0
  {
    var k := PointIndex(s);
    var whole := s[..k];
    var frac := if k < |s| then s[k + 1..] else "";
    if AllDigits(whole) && AllDigits(frac) && |whole| + |frac| > 0 then
      assert AllDigits(whole + frac);
      Some(DigitsValue(whole + frac) as real / Pow10(|frac|) as real)
    else
      None
  }

  /** `new BigDecimal(s)` for plain literals: an optional '+' or '-' and an unsigned
      literal. None stands for the NumberFormatException the constructor throws. */
  function ParseDecimal(s: string): (r: Option<real>)
    ensures r.Some? ==> |s| > 0
  {
    if |s| > 0 && (s[0] == '+' || s[0] == '-') then
      match ParseUnsigned(s[1..])
      case None => None
      case Some(v) => Some(if s[0] == '-' then -v else v)
    else
      ParseUnsigned(s)
  }

  // ----- The inverse: rendering a scaled integer as a plain literal -----

  /** Decimal digits of n, without leading zeros ("0" for zero). */
  function NatToDigits(n: nat): (s: string)
    ensures |s| > 0 && AllDigits(s)
  {
    if n < 10 then [DigitChar(n)] else NatToDigits(n / 10) + [DigitChar(n % 10)]
  }

  function Zeros(n: nat): (s: string)
    ensures |s| == n && AllDigits(s)
    ensures forall i :: 0 <= i < n ==> s[i] == '0'
  {
    if n == 0 then "" else Zeros(n - 1) + "0"
  }

  /** Digits of m, left-padded with zeros so that more than `scale` digits remain. */
  function Padded(m: nat, scale: nat): (s: string)
    ensures |s| > scale && AllDigits(s)
  {
    var digits := NatToDigits(m);
    if |digits| <= scale then Zeros(scale + 1 - |digits|) + digits else digits
  }

  /** The plain literal of m / 10^scale: at least one digit before the point and
      exactly `scale` digits after it (no point when scale is 0). */
  function RenderUnsigned(m: nat, scale: nat): (s: string)
    ensures |s| > 0 && IsDigit(s[0])
  {
    var padded := Padded(m, scale);
    var whole := padded[..|padded| - scale];
    var frac := padded[|padded| - scale..];
    whole + (if scale == 0 then "" else "." + frac)
  }

  /** The plain literal of units / 10^scale, as `BigDecimal.toPlainString` writes it. */
  function Render(units: int, scale: nat): string {
    if units < 0 then "-" + RenderUnsigned(-units, scale) else RenderUnsigned(units, scale)
  }

  lemma {:induction false} DigitsOfNat(n: nat)
    ensures DigitsValue(NatToDigits(n)) == n
  {
    var s := NatToDigits(n);
    if n < 10 {
      assert s[..0] == "";
    } else {
      assert s[..|s| - 1] == NatToDigits(n / 10);
      DigitsOfNat(n / 10);
    }
  }

  /** Appending digits b shifts a left by |b| places. */
  lemma {:induction false} DigitsConcat(a: string, b: string)
    requires AllDigits(a) && AllDigits(b)
    ensures AllDigits(a + b)
    ensures DigitsValue(a + b) == DigitsValue(a) * Pow10(|b|) + DigitsValue(b)
  {
    assert AllDigits(a + b);
    if |b| == 0 {
      assert a + b == a;
    } else {
      var b' := b[..|b| - 1];
      assert (a + b)[..|a + b| - 1] == a + b';
      DigitsConcat(a, b');
      var x, p, y, d := DigitsValue(a), Pow10(|b'|), DigitsValue(b'), DigitValue(b[|b| - 1]);
      assert DigitsValue(a + b) == DigitsValue(a + b') * 10 + d;
      assert DigitsValue(b) == y * 10 + d by { assert b[..|b| - 1] == b'; }
      assert Pow10(|b|) == p * 10;
      ShiftStep(x, p, y, d);
    }
  }

  lemma ShiftStep(x: int, p: int, y: int, d: int)
    ensures (x * p + y) * 10 + d == x * (p * 10) + (y * 10 + d)
  {
  }

  lemma {:induction false} ZerosValue(n: nat)
    ensures DigitsValue(Zeros(n)) == 0
  {
    if n > 0 {
      assert Zeros(n)[..n - 1] == Zeros(n - 1);
      ZerosValue(n - 1);
    }
  }

  lemma {:induction false} PaddedValue(m: nat, scale: nat)
    ensures DigitsValue(Padded(m, scale)) == m
  {
    var digits := NatToDigits(m);
    DigitsOfNat(m);
    if |digits| <= scale {
      var z := Zeros(scale + 1 - |digits|);
      DigitsConcat(z, digits);
      ZerosValue(scale + 1 - |digits|);
      assert DigitsValue(z + digits) == 0 * Pow10(|digits|) + m;
      assert Padded(m, scale) == z + digits;
    } else {
      assert Padded(m, scale) == digits;
    }
  }

  /** A literal with a non-empty integer part and, when frac is non-empty, a point. */
  lemma {:induction false} UnsignedWithPoint(whole: string, frac: string)
    requires AllDigits(whole) && AllDigits(frac) && |whole| > 0
    ensures AllDigits(whole + frac)
    ensures ParseUnsigned(whole + (if |frac| == 0 then "" else "." + frac))
         == Some(DigitsValue(whole + frac) as real / Pow10(|frac|) as real)
  {
    assert AllDigits(whole + frac);
    var tail := if |frac| == 0 then "" else "." + frac;
    var body := whole + tail;
    PointAfterDigits(whole, tail);
    assert body[..|whole|] == whole;
    if |frac| == 0 {
      assert body == whole + frac;
    } else {
      assert body[|whole| + 1..] == frac;
    }
  }

  lemma {:induction false} RenderUnsignedRoundTrip(m: nat, scale: nat)
    ensures ParseUnsigned(RenderUnsigned(m, scale)) == Some(m as real / Pow10(scale) as real)
  {
    var padded := Padded(m, scale);
    var whole := padded[..|padded| - scale];
    var frac := padded[|padded| - scale..];
    assert whole + frac == padded;
    PaddedValue(m, scale);
    UnsignedWithPoint(whole, frac);
  }

  /** Parsing a rendered amount gives back its exact value. */
  lemma {:induction false} RenderRoundTrip(units: int, scale: nat)
    ensures ParseDecimal(Render(units, scale)) == Some(units as real / Pow10(scale) as real)
  {
    if units < 0 {
      NegativeRoundTrip(-units, scale);
    } else {
      var body := RenderUnsigned(units, scale);
      RenderUnsignedRoundTrip(units, scale);
      assert body[0] != '-' && body[0] != '+';
    }
  }

  lemma {:induction false} NegativeRoundTrip(m: nat, scale: nat)
    ensures ParseDecimal("-" + RenderUnsigned(m, scale)) == Some(-(m as real) / Pow10(scale) as real)
  {
    RenderUnsignedRoundTrip(m, scale);
    NegatedQuotient(m as real, Pow10(scale) as real);
    NegativeLiteral(RenderUnsigned(m, scale), m as real / Pow10(scale) as real, -(m as real) / Pow10(scale) as real);
  }

  /** A leading '-' negates the value of the unsigned literal after it. The negated
      value is a parameter `r` so that a caller can name it in the form its own goal
      uses (say `(-x) / p` for `-(x / p)`); otherwise the solver has to relate the
      two forms alongside the parse, which is slow. */
  lemma NegativeLiteral(body: string, q: real, r: real)
    requires ParseUnsigned(body) == Some(q) && r == -q
    ensures ParseDecimal("-" + body) == Some(r)
  {
    assert ("-" + body)[1..] == body;
  }

  /** A leading '+' leaves the value of the unsigned literal after it unchanged. */
  lemma PlusLiteral(body: string)
    requires ParseUnsigned(body).Some?
    ensures ParseDecimal("+" + body) == ParseUnsigned(body)
  {
    assert ("+" + body)[1..] == body;
  }

  /** A literal with a point: either side of it may be empty ("1.", ".5"), but not
      both; the digits after the point are the scale. */
  lemma {:induction false} PointLiteral(whole: string, frac: string)
    requires AllDigits(whole) && AllDigits(frac) && |whole| + |frac| > 0
    ensures AllDigits(whole + frac)
    ensures ParseUnsigned(whole + "." + frac) == Some(DigitsValue(whole + frac) as real / Pow10(|frac|) as real)
  {
    assert AllDigits(whole + frac);
    var s := whole + "." + frac;
    assert s == whole + ("." + frac);
    PointAfterDigits(whole, "." + frac);
    assert s[..|whole|] == whole;
    assert s[|whole| + 1..] == frac;
  }

  lemma UnsignedInteger(s: string)
    requires |s| > 0 && AllDigits(s)
    ensures ParseUnsigned(s) == Some(DigitsValue(s) as real)
  {
    UnsignedWithPoint(s, "");
    assert s + "" == s;
    DivideByOne(DigitsValue(s) as real, Pow10(0) as real);
  }

  /** A string of digits parses to the integer it denotes. */
  lemma IntegerLiteral(s: string)
    requires |s| > 0 && AllDigits(s)
    ensures ParseDecimal(s) == Some(DigitsValue(s) as real)
  {
    UnsignedInteger(s);
    assert IsDigit(s[0]);
  }

  lemma UnsignedCharacters(s: string)
    requires ParseUnsigned(s).Some?
    ensures forall i :: 0 <= i < |s| ==> IsDigit(s[i]) || s[i] == '.'
  {
    var k := PointIndex(s);
    forall i | 0 <= i < |s| ensures IsDigit(s[i]) || s[i] == '.' {
      if i < k {
        assert s[i] == s[..k][i];
      } else if i > k {
        assert s[i] == s[k + 1..][i - k - 1];
      }
    }
  }

  /** Only digits, points and one leading sign can make up an accepted amount. */
  lemma LiteralCharacters(s: string)
    requires ParseDecimal(s).Some?
    ensures forall i :: 0 <= i < |s| ==>
      IsDigit(s[i]) || s[i] == '.' || (i == 0 && (s[i] == '+' || s[i] == '-'))
  {
    if s[0] == '+' || s[0] == '-' {
      UnsignedCharacters(s[1..]);
      assert forall i :: 1 <= i < |s| ==> s[i] == s[1..][i - 1];
    } else {
      UnsignedCharacters(s);
    }
  }

  /** An accepted unsigned literal has at most one point and at least one digit. */
  lemma UnsignedShape(s: string)
    requires ParseUnsigned(s).Some?
    ensures forall i, j :: 0 <= i < j < |s| && s[i] == '.' ==> s[j] != '.'
    ensures exists i :: 0 <= i < |s| && IsDigit(s[i])
  {
    var k := PointIndex(s);
    var whole := s[..k];
    var frac := if k < |s| then s[k + 1..] else "";
    assert AllDigits(whole) && AllDigits(frac) && |whole| + |frac| > 0;
    forall i, j | 0 <= i < j < |s| && s[i] == '.' ensures s[j] != '.' {
      assert s[j] == frac[j - k - 1];
    }
    if |whole| > 0 {
      assert s[0] == whole[0];
    } else {
      assert s[k + 1] == frac[0];
    }
  }

  /** An accepted literal has at most one point and at least one digit. With
      `LiteralCharacters` this is the whole grammar: an optional sign, then digits
      with at most one point among them. */
  lemma LiteralShape(s: string)
    requires ParseDecimal(s).Some?
    ensures forall i, j :: 0 <= i < j < |s| && s[i] == '.' ==> s[j] != '.'
    ensures exists i :: 0 <= i < |s| && IsDigit(s[i])
  {
    if s[0] == '+' || s[0] == '-' {
      var t := s[1..];
      UnsignedShape(t);
      assert forall i :: 1 <= i < |s| ==> s[i] == t[i - 1];
      var d :| 0 <= d < |t| && IsDigit(t[d]);
      assert IsDigit(s[d + 1]);
    } else {
      UnsignedShape(s);
    }
  }

  /** Text with two points is refused ("1.2.3"). */
  lemma TwoPointsRefused(s: string, i: nat, j: nat)
    requires i < j < |s| && s[i] == '.' && s[j] == '.'
    ensures ParseDecimal(s) == None
  {
    if ParseDecimal(s).Some? {
      LiteralShape(s);
    }
  }

  /** Text without a digit is refused (".", "-", "+", "-."). */
  lemma NoDigitRefused(s: string)
    requires forall i :: 0 <= i < |s| ==> !IsDigit(s[i])
    ensures ParseDecimal(s) == None
  {
    if ParseDecimal(s).Some? {
      LiteralShape(s);
    }
  }

  /** Amounts the service's tests reject: text and the empty string. */
  lemma NonNumericSamples()
    ensures ParseDecimal("INVALID_AMOUNT") == None
    ensures ParseDecimal("") == None
  {
    if ParseDecimal("INVALID_AMOUNT").Some? {
      LiteralCharacters("INVALID_AMOUNT");
    }
  }

  lemma ZeroSample()
    ensures ParseDecimal("0") == Some(0.0)
  {
    IntegerLiteral("0");
    assert DigitsValue("0") == 0 by { assert "0"[..0] == ""; }
  }

  lemma MinusOneSample()
    ensures ParseDecimal("-1") == Some(-1.0)
  {
    UnsignedInteger("1");
    assert DigitsValue("1") == 1 by { assert "1"[..0] == ""; }
    NegativeLiteral("1", 1.0, -1.0);
    assert "-" + "1" == "-1";
  }

  /** The amount "10" of the service's tests. */
  lemma TenSample()
    ensures ParseDecimal("10") == Some(10.0)
  {
    IntegerLiteral("10");
    assert DigitsValue("10") == 10 by {
      assert "10"[..1] == "1" && "1"[..0] == "";
    }
  }

  lemma DivideByOne(x: real, one: real)
    requires one == 1.0
    ensures x / one == x
  {
  }

  lemma NegatedQuotient(x: real, p: real)
    requires p > 0.0
    ensures -(x / p) == (-x) / p
  {
  }

  lemma {:induction false} PointAfterDigits(a: string, b: string)
    requires AllDigits(a)
    requires |b| == 0 || b[0] == '.'
    ensures PointIndex(a + b) == |a|
  {
    if |a| > 0 {
      assert (a + b)[0] == a[0];
      assert (a + b)[1..] == a[1..] + b;
      PointAfterDigits(a[1..], b);
    } else {
      assert a + b == b;
    }
  }
}
