/** Numeric literals: a run of digits and a scale, how text becomes one, and the integer a literal truncates to. */
module NumericLiteral {
  import opened Arithmetic
  import opened Wrappers
  import opened Text
  import opened Decimal

  /** `digits` times ten to the minus `scale`; a negative scale is trailing zeros the text did not spell out. */
  datatype DecimalLiteral = DecimalLiteral(negative: bool, digits: string, scale: int)

  /** A number as a sign, a numerator and a denominator. */
  datatype Rational = Rational(negative: bool, num: nat, den: nat)
  {
    predicate Proper() { den > 0 }

    /** The value without its fraction. */
    function Whole(): int
      requires Proper()
    {
      Signed(negative, num / den)
    }

    predicate Integral()
      requires Proper()
    {
      num % den == 0
    }
  }

  const MAX_EXPANSION: nat := 1_048_576

  predicate WellFormed(l: DecimalLiteral) {
    l.digits != [] && AllDigits(l.digits)
  }

  /** What a literal means. */
  function Meaning(l: DecimalLiteral): (r: Rational)
    requires WellFormed(l)
    ensures r.Proper()
  {
    if l.scale <= 0 then Rational(l.negative, Value(l.digits) * Pow10(-l.scale), 1)
    else Rational(l.negative, Value(l.digits), Pow10(l.scale))
  }

  // ----- the operations -----

  function TrimStartZeros(s: string): (r: string)
    ensures |r| <= |s| && r == s[|s| - |r|..]
    ensures AllDigits(s) ==> AllDigits(r)
  {
    if s != [] && s[0] == '0' then TrimStartZeros(s[1..]) else s
  }

  function Significant(l: DecimalLiteral): (s: string)
    requires WellFormed(l)
    ensures s != [] && AllDigits(s)
  {
    var trimmed := TrimStartZeros(l.digits);
    if trimmed == [] then "0" else trimmed
  }

  predicate AllZeros(s: string) {
    forall k :: 0 <= k < |s| ==> s[k] == '0'
  }

  /** Zeros a plain rendering would have to make up. */
  function SynthesisedDigits(l: DecimalLiteral): int
    requires WellFormed(l)
  {
    if l.scale <= 0 then (if AllZeros(l.digits) then 0 else -l.scale)
    else if l.scale > |Significant(l)| then l.scale - |Significant(l)|
    else 0
  }

  /** The digits left of the point, written out. */
  function WholeDigits(l: DecimalLiteral): (s: string)
    requires WellFormed(l)
    ensures s != [] && AllDigits(s)
  {
    if l.scale <= 0 then Significant(l) + Decimal.Zeros(-l.scale)
    else if |l.digits| > l.scale then l.digits[..|l.digits| - l.scale]
    else "0"
  }

  /** The value truncated toward zero, or nothing when it does not fit an `i128`. */
  function ToInteger(l: DecimalLiteral): Option<int>
    requires WellFormed(l)
  {
    if AllZeros(l.digits) then Some(0)
    else if l.scale <= 0 && SynthesisedDigits(l) > MAX_EXPANSION then None
    else
      match ParseSigned(WholeDigits(l), I128_MIN, I128_MAX)
      case Err(_) => None
      case Ok(magnitude) => Some(Signed(l.negative, magnitude))
  }

  predicate FractionIsZero(l: DecimalLiteral) {
    if l.scale < 0 then true
    else AllZeros(if |l.digits| >= l.scale then l.digits[|l.digits| - l.scale..] else l.digits)
  }

  // ----- what they compute -----

  lemma {:induction false} ZeroIffAllZeros(s: string)
    requires AllDigits(s)
    ensures Value(s) == 0 <==> AllZeros(s)
    decreases |s|
  {
    if s != [] {
      ZeroIffAllZeros(s[..|s| - 1]);
      assert forall k :: 0 <= k < |s| - 1 ==> s[..|s| - 1][k] == s[k];
    }
  }

  lemma {:induction false} LeadingZerosAreFree(s: string)
    requires AllDigits(s)
    ensures Value(TrimStartZeros(s)) == Value(s)
    decreases |s|
  {
    hide Value;
    if s != [] && s[0] == '0' {
      LeadingZerosAreFree(s[1..]);
      ZeroHead(s);
    }
  }

  lemma ZeroHead(s: string)
    requires AllDigits(s) && s != [] && s[0] == '0'
    ensures Value(s) == Value(s[1..])
  {
    hide Value, Pow10;
    ValueHead(s);
  }

  lemma SignificantValue(l: DecimalLiteral)
    requires WellFormed(l)
    ensures Value(Significant(l)) == Value(l.digits)
  {
    LeadingZerosAreFree(l.digits);
    OneDigit('0');
    assert Value("") == 0;
  }

  /** Cutting `scale` digits off the right divides by their power of ten, and what is cut off is the remainder. */
  lemma CutDivides(s: string, scale: nat)
    requires AllDigits(s) && 0 < scale
    ensures var v, p := Value(s), Pow10(scale);
      if |s| > scale then v / p == Value(s[..|s| - scale]) && v % p == Value(s[|s| - scale..])
      else v / p == 0 && v % p == v
  {
    hide Value, Pow10;
    if |s| > scale {
      var a, b := s[..|s| - scale], s[|s| - scale..];
      assert s == a + b;
      ValueAppend(a, b);
      ValueBelowPow(b);
      DivMod(Value(a), Pow10(scale), Value(b));
    } else {
      ValueBelowPow(s);
      PowGrows(|s|, scale);
      DivMod(0, Pow10(scale), Value(s));
    }
  }

  lemma DivMod(q: nat, p: nat, r: nat)
    requires r < p
    ensures (q * p + r) / p == q && (q * p + r) % p == r
  {
    var n: int := q * p + r;
    assert n == n / p * p + n % p;
    var d: int := n / p - q;
    assert d * p == r - n % p;
    NonZeroMultiple(d, p);
  }

  lemma NonZeroMultiple(d: int, p: nat)
    ensures (d >= 1 ==> d * p >= p) && (d <= -1 ==> d * p <= -(p as int))
  {
  }

  lemma {:induction false} PowGrows(a: nat, b: nat)
    requires a <= b
    ensures Pow10(a) <= Pow10(b)
    decreases b - a
  {
    if a < b { PowGrows(a, b - 1); }
  }

  lemma {:induction false} PowAdds(a: nat, b: nat)
    ensures Pow10(a + b) == Pow10(a) * Pow10(b)
    decreases a
  {
    if a > 0 {
      PowAdds(a - 1, b);
      hide Pow10;
      PowStep(a);
      PowStep(a + b);
      Associates(Pow10(a - 1), Pow10(b));
    }
  }

  lemma Associates(p: nat, q: nat)
    ensures 10 * (p * q) == 10 * p * q
  {
  }

  lemma TenToTheFifth()
    ensures Pow10(5) == 100_000
  {
    assert Pow10(1) == 10 && Pow10(2) == 100 && Pow10(3) == 1000 && Pow10(4) == 10_000;
  }

  lemma TenToTheThirteenth()
    ensures Pow10(13) == 10_000_000_000_000
  {
    hide Pow10;
    TenToTheFifth();
    PowAdds(5, 5);
    PowStep(11);
    PowStep(12);
    PowStep(13);
  }

  /** More zeros than the bound allows are more than an `i128` holds. */
  lemma ExpansionOverflows(k: nat)
    requires k > MAX_EXPANSION
    ensures Pow10(k) > I128_MAX
  {
    hide Pow10;
    TenToTheThirteenth();
    PowAdds(13, 13);
    PowAdds(26, 13);
    PowGrows(39, k);
  }

  lemma WholeDigitsValue(l: DecimalLiteral)
    requires WellFormed(l)
    ensures Value(WholeDigits(l)) == Meaning(l).num / Meaning(l).den
  {
    hide Value, Pow10, TrimStartZeros;
    if l.scale <= 0 {
      SignificantValue(l);
      ValueAppend(Significant(l), Decimal.Zeros(-l.scale));
      ZerosValue(-l.scale);
    } else {
      CutDivides(l.digits, l.scale);
      OneDigit('0');
    }
  }

  /**
   The integer of a literal is its value cut off toward zero, and is refused
   exactly when an `i128` cannot hold that.
   */
  lemma ToIntegerTruncates(l: DecimalLiteral)
    requires WellFormed(l)
    ensures ToInteger(l) == if Abs(Meaning(l).Whole()) <= I128_MAX then Some(Meaning(l).Whole()) else None
  {
    hide Value, Pow10, ParseSigned, Significant;
    ZeroIffAllZeros(l.digits);
    if AllZeros(l.digits) {
      if l.scale <= 0 { ZeroTimes(Pow10(-l.scale), 1); } else { ZeroTimes(0, Pow10(l.scale)); }
    } else {
      WholeDigitsValue(l);
      ParseReadsDigits(WholeDigits(l), I128_MIN, I128_MAX);
      if l.scale <= 0 && -l.scale > MAX_EXPANSION {
        ExpansionOverflows(-l.scale);
        AtLeast(Value(l.digits), Pow10(-l.scale));
      }
    }
  }

  lemma ZeroTimes(p: int, q: nat)
    requires q > 0
    ensures 0 * p == 0 && 0 / q == 0
  {
  }

  lemma AtLeast(v: nat, p: nat)
    requires v > 0
    ensures v * p / 1 == v * p >= p
  {
  }

  /** A literal has a fraction to lose exactly when its value is not whole. */
  lemma FractionIsZeroIffIntegral(l: DecimalLiteral)
    requires WellFormed(l)
    ensures FractionIsZero(l) <==> Meaning(l).Integral()
  {
    hide Value, Pow10;
    if l.scale > 0 {
      CutDivides(l.digits, l.scale);
      if |l.digits| > l.scale {
        ZeroIffAllZeros(l.digits[|l.digits| - l.scale..]);
      } else {
        ZeroIffAllZeros(l.digits);
        assert |l.digits| == l.scale ==> l.digits[0..] == l.digits;
      }
    } else if l.scale == 0 {
      assert l.digits[|l.digits|..] == [];
    }
  }

  // ----- from text -----

  /** The literal of the digits around a point, unless they are no digits or their scale leaves its type. */
  function Assemble(negative: bool, intPart: string, fracPart: string, exponent: int): (r: Option<DecimalLiteral>)
    ensures r.Some? ==> WellFormed(r.value)
  {
    if (intPart == [] && fracPart == []) || !AllDigits(intPart) || !AllDigits(fracPart) then None
    else
      var scale := |fracPart| - exponent;
      if |fracPart| > I32_MAX || scale < I32_MIN || scale > I32_MAX then None
      else Some(DecimalLiteral(negative, intPart + fracPart, scale))
  }

  function ParseMantissa(negative: bool, mantissa: string, exponent: int): Option<DecimalLiteral> {
    match SplitOnce(mantissa, '.')
    case None => Assemble(negative, mantissa, "", exponent)
    case Some((intPart, fracPart)) => Assemble(negative, intPart, fracPart, exponent)
  }

  function StripSign(t: string): (bool, string) {
    if t == [] then (false, t)
    else if t[0] == '-' then (true, t[1..])
    else if t[0] == '+' then (false, t[1..])
    else (false, t)
  }

  /** Optional sign, digits with an optional point, optional exponent. */
  function ParseNumericLiteral(s: string): Option<DecimalLiteral> {
    var (negative, rest) := StripSign(Trim(s));
    match SplitOnceEither(rest, 'e', 'E')
    case None => ParseMantissa(negative, rest, 0)
    case Some((mantissa, e)) =>
      match ParseSigned(e, I32_MIN, I32_MAX)
      case Err(_) => None
      case Ok(exponent) => ParseMantissa(negative, mantissa, exponent)
  }

  lemma ParsedIsWellFormed(s: string)
    ensures ParseNumericLiteral(s).Some? ==> WellFormed(ParseNumericLiteral(s).value)
  {
    hide WellFormed, Trim, StripSign, SplitOnceEither, ParseSigned;
  }
}
