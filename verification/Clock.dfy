/** Clock text: `hh:mm:ss`, with the fraction's significant digits behind a point when there are any. */
module Clock {
  import opened Arithmetic
  import opened Wrappers
  import opened Text
  import opened Decimal

  const BILLION: nat := 1_000_000_000

  /** A fraction of a second in billionths, without its trailing zeros. */
  function FractionText(fraction: nat): string {
    if fraction == 0 then "" else "." + TrimEndZeros(Pad(fraction, 9))
  }

  function SecondText(second: nat, fraction: nat): string {
    Pad(second, 2) + FractionText(fraction)
  }

  function ClockText(hour: nat, minute: nat, second: nat, fraction: nat): string {
    Pad(hour, 2) + ":" + (Pad(minute, 2) + ":" + SecondText(second, fraction))
  }

  /** A decimal fraction in billionths, cut off. */
  function Billionths(digits: string): nat
    requires AllDigits(digits)
  {
    Quotient(Value(digits) * BILLION, Pow10(|digits|))
  }

  lemma NineDigits()
    ensures Pow10(9) == BILLION
  {
    assert Pow10(0) == 1 && Pow10(1) == 10 && Pow10(2) == 100 && Pow10(3) == 1000 && Pow10(4) == 10_000;
    assert Pow10(5) == 100_000 && Pow10(6) == 1_000_000 && Pow10(7) == 10_000_000 && Pow10(8) == 100_000_000;
  }

  const MAX_FRACTION: nat := 0xFFFF_FFFF

  /** What nine digits keep of a printed fraction: all of it, or its first nine digits when it has ten. */
  function Kept(fraction: nat): nat {
    if fraction < BILLION then fraction else fraction / 10
  }

  lemma TenDigits()
    ensures Pow10(10) == 10 * BILLION
  {
    NineDigits();
    PowStep(10);
  }

  lemma FractionIsShown(fraction: nat)
    requires 0 < fraction
    ensures var d := TrimEndZeros(Pad(fraction, 9)); d != [] && AllDigits(d)
  {
    hide Value, Pad, TrimEndZeros;
    PadRoundTrips(fraction, 9);
    TrimmedIsNonEmpty(Pad(fraction, 9));
  }

  lemma PaddedLength(fraction: nat)
    requires fraction <= MAX_FRACTION
    ensures |Pad(fraction, 9)| == if fraction < BILLION then 9 else 10
  {
    hide Value, Show, Pow10;
    NineDigits();
    TenDigits();
    PadRoundTrips(fraction, 9);
    PadRoundTrips(fraction, 10);
    ValueBelowPow(Pad(fraction, 9));
    if |Pad(fraction, 9)| == 9 { assert fraction < BILLION; }
    if fraction >= BILLION { ShowLength(fraction, 10); }
  }

  /** The first nine digits of ten are the number without its last digit. */
  lemma NineOfTen(s: string)
    requires |s| == 10 && AllDigits(s)
    ensures Value(s[..9]) == Value(s) / 10
  {
    assert Value(s) == 10 * Value(s[..9]) + DigitValue(s[9]);
  }

  lemma FitNine(d: string, s: string)
    requires AllDigits(d) && |d| <= 10 && |s| == 10 && FitRight(d, 10) == s
    ensures FitRight(d, 9) == s[..9]
  {
    if |d| < 9 {
      ZerosGrow(9 - |d|);
      hide Decimal.Zeros;
      assert s == d + Decimal.Zeros(9 - |d|) + "0";
    } else if |d| == 9 {
      assert d + Decimal.Zeros(1) == s;
      assert d == s[..9] && d + Decimal.Zeros(0) == d;
    }
  }

  /** Cutting to nine digits after the trailing zeros are gone is cutting before. */
  lemma FitTrimmed(s: string)
    requires |s| == 10 && AllDigits(s)
    ensures FitRight(TrimEndZeros(s), 9) == s[..9]
  {
    FitRestoresZeros(s);
    hide TrimEndZeros, FitRight;
    FitNine(TrimEndZeros(s), s);
  }

  /** The digits a fraction prints, cut or padded to nine, are what is kept of it. */
  lemma FractionReads(fraction: nat)
    requires 0 < fraction <= MAX_FRACTION
    ensures var d := TrimEndZeros(Pad(fraction, 9));
      d != [] && AllDigits(d) && |d| <= 10 && Value(FitRight(d, 9)) == Kept(fraction)
    ensures fraction < BILLION ==> |TrimEndZeros(Pad(fraction, 9))| <= 9
  {
    hide Value, Pad, TrimEndZeros, FitRight, Pow10;
    var s := Pad(fraction, 9);
    PaddedLength(fraction);
    PadRoundTrips(fraction, 9);
    FractionIsShown(fraction);
    if fraction < BILLION {
      FitRestoresZeros(s);
    } else {
      FitTrimmed(s);
      NineOfTen(s);
    }
  }

  lemma DigitsLack(s: string, c: char)
    requires AllDigits(s) && !IsDigit(c)
    ensures c !in s
  {
  }

  /** The seconds come apart at the point, when there is one. */
  lemma SecondSplits(second: nat, fraction: nat)
    ensures var text := SecondText(second, fraction);
      && ':' !in text && ' ' !in text && '-' !in text && 'T' !in text
      && text != [] && IsDigit(text[0]) && IsDigit(text[|text| - 1])
      && SplitOnce(text, '.') == if fraction == 0 then None else Some((Pad(second, 2), TrimEndZeros(Pad(fraction, 9))))
  {
    hide Value, Pad, TrimEndZeros, FitRight, Pow10, SplitOnceEither;
    var s := Pad(second, 2);
    if fraction == 0 {
      DigitsLack(s, '.');
      SplitNowhere(s, '.', '.');
      assert s + "" == s;
    } else {
      FractionIsShown(fraction);
      var d := TrimEndZeros(Pad(fraction, 9));
      DigitsLack(s, '.');
      SplitAtFirst(s, '.', d, '.', '.');
      assert s + ("." + d) == s + ['.'] + d;
    }
  }

  /** The clock comes apart at its first two colons. */
  lemma ClockSplits(hour: nat, minute: nat, second: nat, fraction: nat)
    ensures var text, late := ClockText(hour, minute, second, fraction), SecondText(second, fraction);
      && ' ' !in text && '-' !in text && 'T' !in text
      && text != [] && IsDigit(text[0]) && IsDigit(text[|text| - 1])
      && SplitOnce(text, ':') == Some((Pad(hour, 2), Pad(minute, 2) + ":" + late))
      && SplitOnce(Pad(minute, 2) + ":" + late, ':') == Some((Pad(minute, 2), late))
      && Split(text, ':') == [Pad(hour, 2), Pad(minute, 2), late]
  {
    hide Pad, SecondText, SplitOnceEither, Split;
    SecondSplits(second, fraction);
    var h, m, late := Pad(hour, 2), Pad(minute, 2), SecondText(second, fraction);
    DigitsLack(h, ':');
    DigitsLack(m, ':');
    SplitAtFirst(m, ':', late, ':', ':');
    SplitAtFirst(h, ':', m + ":" + late, ':', ':');
    SplitFirst(h, ':', m + ":" + late);
    SplitFirst(m, ':', late);
    SplitNone(late, ':');
    assert [h] + ([m] + [late]) == [h, m, late];
  }
}
