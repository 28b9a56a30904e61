/** Reading an interval from its text, and which printed literals come back as the value they were printed from. */
module IntervalParser {
  import opened Arithmetic
  import opened Wrappers
  import opened Text
  import opened Decimal
  import opened Clock
  import opened Interval
  import opened IntervalText
  import opened NumericLiteral

  datatype IntervalValue =
    | YearMonth(years: int, months: int, precision: Precision)
    | DayTime(totalNanoseconds: int, precision: Precision)

  /** 22018 and 22015. */
  datatype IntervalError = InvalidCast | FieldOverflow

  predicate Digits(f: string) {
    f != [] && AllDigits(f)
  }

  function ParseYearMonth(y: string, m: string, negative: bool, target: Precision)
    : Result<(IntervalValue, bool), IntervalError>
  {
    if !(IsYearMonth(target) && Digits(y) && Digits(m)) then Err(InvalidCast)
    else
      match (ParseSigned(y, I32_MIN, I32_MAX), ParseSigned(m, I32_MIN, I32_MAX))
      case (Err(_), _) => Err(FieldOverflow)
      case (_, Err(_)) => Err(InvalidCast)
      case (Ok(years), Ok(months)) =>
        if months > 11 then Err(InvalidCast)
        else Ok((YearMonth(Signed(negative, years), Signed(negative, months), YearToMonth), false))
  }

  /** The value of the five fields, and whether a non-zero digit past the ninth was dropped. */
  function Compose(d: string, h: string, m: string, sec: string, frac: string, negative: bool, target: Precision)
    : Result<(IntervalValue, bool), IntervalError>
    requires AllDigits(frac)
  {
    if IsYearMonth(target) || !(Digits(d) && Digits(h) && Digits(m) && Digits(sec)) then Err(InvalidCast)
    else
      match (ParseSigned(d, I128_MIN, I128_MAX), ParseSigned(h, I128_MIN, I128_MAX),
             ParseSigned(m, I128_MIN, I128_MAX), ParseSigned(sec, I128_MIN, I128_MAX))
      case (Ok(days), Ok(hours), Ok(minutes), Ok(seconds)) =>
        if hours > 23 || minutes > 59 || seconds > 59 then Err(InvalidCast)
        else
          var dropped := exists k :: 9 <= k < |frac| && frac[k] != '0';
          var total := days * NANOS_PER_DAY + hours * NANOS_PER_HOUR + minutes * NANOS_PER_MINUTE
                       + seconds * NANOS_PER_SECOND + Value(FitRight(frac, 9));
          if total > I128_MAX then Err(FieldOverflow)
          else Ok((DayTime(Signed(negative, total), DayToSecond), dropped))
      case _ => Err(FieldOverflow)
  }

  function ParseDayTime(d: string, time: string, negative: bool, target: Precision)
    : Result<(IntervalValue, bool), IntervalError>
  {
    match SplitOnce(time, ':')
    case None => Err(InvalidCast)
    case Some((h, late)) =>
      match SplitOnce(late, ':')
      case None => Err(InvalidCast)
      case Some((m, seconds)) =>
        match SplitOnce(seconds, '.')
        case None => Compose(d, h, m, seconds, "", negative, target)
        case Some((sec, frac)) =>
          if Digits(frac) then Compose(d, h, m, sec, frac, negative, target) else Err(InvalidCast)
  }

  function ParseUnsignedText(body: string, negative: bool, target: Precision)
    : Result<(IntervalValue, bool), IntervalError>
  {
    match SplitOnce(body, '-')
    case Some((y, m)) => ParseYearMonth(y, m, negative, target)
    case None =>
      match SplitOnce(body, ' ')
      case None => Err(InvalidCast)
      case Some((d, time)) => ParseDayTime(d, time, negative, target)
  }

  function ParseIntervalText(s: string, target: Precision)
    : Result<(IntervalValue, bool), IntervalError>
  {
    var t := Trim(s);
    var negative := t != [] && t[0] == '-';
    ParseUnsignedText(if negative then t[1..] else t, negative, target)
  }

  // ----- the round trips -----

  /** The text a character target is given: "0" for a value whose split does not exist. */
  function TextOf(r: Option<Parts>, precision: Precision): string {
    match r case None => "0" case Some(p) => Literal(p, precision)
  }

  /** A literal's sign comes off again. */
  lemma SignComesOff(p: Parts, u: string, target: Precision)
    requires u != [] && IsDigit(u[0]) && IsDigit(u[|u| - 1])
    ensures ParseIntervalText(Sign(p) + u, target) == ParseUnsignedText(u, p.negative, target)
  {
    hide ParseUnsignedText;
    var s := Sign(p) + u;
    TrimKeeps(s);
    hide Trim;
    assert p.negative ==> s[1..] == u;
    assert !p.negative ==> s == u;
  }

  /** The fields' texts give the fields back. */
  lemma ComposeReads(p: Parts, total: int, frac: string, target: Precision)
    requires IsSplit(total, DayToSecond, p) && p.day <= U32_MAX && !IsYearMonth(target)
    requires AllDigits(frac) && |frac| <= 9 && Value(FitRight(frac, 9)) == p.fraction
    ensures Compose(Show(p.day), Pad(p.hour, 2), Pad(p.minute, 2), Pad(p.second, 2), frac, p.negative, target)
            == Ok((DayTime(total, DayToSecond), false))
  {
    hide Value, Show, Pad, FitRight, ParseSigned;
    ShowRoundTrips(p.day);
    PadRoundTrips(p.hour, 2);
    PadRoundTrips(p.minute, 2);
    PadRoundTrips(p.second, 2);
    ParseReadsDigits(Show(p.day), I128_MIN, I128_MAX);
    ParseReadsDigits(Pad(p.hour, 2), I128_MIN, I128_MAX);
    ParseReadsDigits(Pad(p.minute, 2), I128_MIN, I128_MAX);
    ParseReadsDigits(Pad(p.second, 2), I128_MIN, I128_MAX);
  }

  lemma NoFraction(second: nat)
    ensures Value(FitRight("", 9)) == 0 && SecondText(second, 0) == Pad(second, 2)
  {
    hide Pad;
    ZerosValue(9);
    assert Pad(second, 2) + "" == Pad(second, 2);
    assert "" + Decimal.Zeros(9) == Decimal.Zeros(9);
  }

  lemma DayTimeLiteralReads(p: Parts, total: int, target: Precision)
    requires IsSplit(total, DayToSecond, p) && p.day <= U32_MAX && !IsYearMonth(target)
    ensures ParseIntervalText(Literal(p, DayToSecond), target) == Ok((DayTime(total, DayToSecond), false))
  {
    hide Value, Show, Pad, FitRight, SplitOnceEither, Split, Trim, TrimEndZeros, Compose, SecondText, ClockText,
         ParseIntervalText;
    var d, clock := Show(p.day), ClockText(p.hour, p.minute, p.second, p.fraction);
    var u := d + " " + clock;
    ClockSplits(p.hour, p.minute, p.second, p.fraction);
    SecondSplits(p.second, p.fraction);
    DigitsLack(d, '-');
    DigitsLack(d, ' ');
    SignComesOff(p, u, target);
    SplitNowhere(u, '-', '-');
    SplitAtFirst(d, ' ', clock, ' ', ' ');
    if p.fraction == 0 {
      NoFraction(p.second);
      ComposeReads(p, total, "", target);
    } else {
      FractionReads(p.fraction);
      ComposeReads(p, total, TrimEndZeros(Pad(p.fraction, 9)), target);
    }
  }

  lemma ZeroIsNoInterval(target: Precision)
    ensures ParseIntervalText("0", target) == Err(InvalidCast)
  {
    hide Trim;
    TrimKeeps("0");
    SplitNowhere("0", '-', '-');
    SplitNowhere("0", ' ', ' ');
  }

  /** A DAY TO SECOND text reads back as the total it was printed from, exactly when its day count fits a `u32`. */
  lemma DayTimeRoundTrip(total: int, r: Option<Parts>, target: Precision)
    requires SplitsTo(total, DayToSecond, r) && !IsYearMonth(target)
    ensures ParseIntervalText(TextOf(r, DayToSecond), target) ==
              if Abs(total) / NANOS_PER_DAY <= U32_MAX then
                    Ok((DayTime(total, DayToSecond), false)) else Err(InvalidCast)
  {
    hide ParseIntervalText, Literal;
    ZeroIsNoInterval(target);
    if r.Some? {
      DayCountFits(total, r.value);
      DayTimeLiteralReads(r.value, total, target);
    }
  }

  lemma DayCountFits(total: int, p: Parts)
    requires IsSplit(total, DayToSecond, p)
    ensures p.day == Abs(total) / NANOS_PER_DAY
  {
    SplitBrackets(total, DayToSecond, p);
  }

  lemma YearMonthReads(p: Parts, total: int, target: Precision)
    requires IsMonthSplit(total, YearToMonth, p) && IsYearMonth(target)
    ensures ParseYearMonth(Show(p.day), Pad(p.hour, 2), p.negative, target) ==
              if p.day <= I32_MAX then
                    Ok((YearMonth(Signed(p.negative, p.day), Signed(p.negative, p.hour), YearToMonth), false))
              else Err(FieldOverflow)
  {
    hide Value, Show, Pad, ParseSigned;
    ShowRoundTrips(p.day);
    PadRoundTrips(p.hour, 2);
    ParseReadsDigits(Show(p.day), I32_MIN, I32_MAX);
    ParseReadsDigits(Pad(p.hour, 2), I32_MIN, I32_MAX);
  }

  /**
   A YEAR TO MONTH text of `i32` years and months reads back as the same number
   of months, whole years apart, exactly when those years fit an `i32` again.
   */
  lemma YearMonthRoundTrip(years: int, months: int, r: Option<Parts>, target: Precision)
    requires I32_MIN <= years <= I32_MAX && I32_MIN <= months <= I32_MAX && IsYearMonth(target)
    requires MonthsSplitTo(12 * years + months, YearToMonth, r)
    ensures var total := 12 * years + months;
      ParseIntervalText(TextOf(r, YearToMonth), target) ==
        if Abs(total) / 12 > I32_MAX then Err(FieldOverflow)
        else Ok((YearMonth(Signed(total < 0, Abs(total) / 12), Signed(total < 0, Abs(total) % 12), YearToMonth), false))
  {
    hide Value, Show, Pad, SplitOnceEither, Trim, ParseYearMonth, ParseIntervalText;
    var total := 12 * years + months;
    assert Abs(total) / 12 <= U32_MAX;
    var p := r.value;
    var y, m := Show(p.day), Pad(p.hour, 2);
    var u := y + "-" + m;
    SignComesOff(p, u, target);
    DigitsLack(y, '-');
    SplitAtFirst(y, '-', m, '-', '-');
    YearMonthReads(p, total, target);
  }

  // ----- what a text means -----

  /** A day-time text as its digits: any digits, leading zeros and long fractions included. */
  datatype Spelled = Spelled(negative: bool, d: string, h: string, m: string, sec: string, frac: Option<string>)
  {
    function Frac(): string {
      match frac case None => "" case Some(f) => f
    }

    predicate Shaped() {
      Digits(d) && Digits(h) && Digits(m) && Digits(sec) && AllDigits(Frac()) && (frac.Some? ==> frac.value != [])
    }

    predicate OnTheClock()
      requires Shaped()
    {
      Value(h) <= 23 && Value(m) <= 59 && Value(sec) <= 59
    }

    predicate Valid() {
      Shaped() && OnTheClock()
    }

    function Seconds(): string {
      sec + match frac case None => "" case Some(f) => "." + f
    }

    function Body(): string {
      d + " " + (h + ":" + (m + ":" + Seconds()))
    }

    function Text(): string {
      (if negative then "-" else "") + Body()
    }

    /** The fraction in billionths, cut off. */
    function Nanos(): nat
      requires Shaped()
    {
      Billionths(Frac())
    }

    function Total(): int
      requires Shaped()
    {
      Value(d) * NANOS_PER_DAY + Value(h) * NANOS_PER_HOUR + Value(m) * NANOS_PER_MINUTE
            + Value(sec) * NANOS_PER_SECOND + Nanos()
    }
  }

  lemma {:induction false} ZerosShift(s: string, k: nat)
    requires AllDigits(s)
    ensures AllDigits(s + Decimal.Zeros(k)) && Value(s + Decimal.Zeros(k)) == Value(s) * Pow10(k)
  {
    hide Value, Pow10;
    ValueAppend(s, Decimal.Zeros(k));
    ZerosValue(k);
  }

  /** Nine digits of a fraction are its billionths cut off, and a non-zero digit beyond them is exactly what is cut. */
  lemma FractionTruncates(frac: string)
    requires AllDigits(frac)
    ensures Value(FitRight(frac, 9)) == Billionths(frac)
    ensures (exists k :: 9 <= k < |frac| && frac[k] != '0') <==> Value(frac) * BILLION % Pow10(|frac|) != 0
  {
    hide Value, Pow10;
    NineDigits();
    var v, n := Value(frac), |frac|;
    if n > 9 {
      PowAdds(n - 9, 9);
      CutDivides(frac, n - 9);
      assert frac[..n - (n - 9)] == frac[..9] && frac[n - (n - 9)..] == frac[9..];
      ZeroIffAllZeros(frac[9..]);
      ScaleBoth(v, BILLION, Pow10(n - 9));
      assert (exists k :: 9 <= k < n && frac[k] != '0') <==> !AllZeros(frac[9..]) by { PastNine(frac); }
    } else {
      PowAdds(9 - n, n);
      ZerosShift(frac, 9 - n);
      assert n == 9 ==> frac[..9] == frac && frac + Decimal.Zeros(0) == frac;
      Exactly(v, Pow10(9 - n), Pow10(n));
    }
  }

  lemma PastNine(frac: string)
    requires |frac| > 9
    ensures (exists k :: 9 <= k < |frac| && frac[k] != '0') <==> !AllZeros(frac[9..])
  {
    if !AllZeros(frac[9..]) {
      var k :| 0 <= k < |frac[9..]| && frac[9..][k] != '0';
      assert frac[9 + k] != '0';
    }
    if k :| 9 <= k < |frac| && frac[k] != '0' { assert frac[9..][k - 9] != '0'; }
  }

  lemma ScaleBoth(v: nat, b: nat, p: nat)
    requires b > 0 && p > 0
    ensures v * b / (p * b) == v / p && (v * b % (p * b) != 0 <==> v % p != 0)
  {
    var q, r := v / p, v % p;
    assert v == q * p + r;
    assert v * b == q * (p * b) + r * b;
    Smaller(r, p, b);
    DivMod(q, p * b, r * b);
  }

  lemma Smaller(r: nat, p: nat, b: nat)
    requires r < p && b > 0
    ensures 0 <= r * b < p * b && (r * b == 0 <==> r == 0)
  {
  }

  lemma Exactly(v: nat, a: nat, p: nat)
    requires p > 0
    ensures v * (a * p) / p == v * a && v * (a * p) % p == 0
  {
    assert v * (a * p) == (v * a) * p + 0;
    DivMod(v * a, p, 0);
  }

  lemma ComposeMeans(t: Spelled, target: Precision)
    requires t.Valid() && !IsYearMonth(target)
    ensures Compose(t.d, t.h, t.m, t.sec, t.Frac(), t.negative, target) ==
              if t.Total() > I128_MAX then Err(FieldOverflow)
              else Ok((DayTime(Signed(t.negative, t.Total()), DayToSecond),
                       Value(t.Frac()) * BILLION % Pow10(|t.Frac()|) != 0))
  {
    hide Value, FitRight, ParseSigned, Pow10;
    FractionTruncates(t.Frac());
    ParseReadsDigits(t.d, I128_MIN, I128_MAX);
    ParseReadsDigits(t.h, I128_MIN, I128_MAX);
    ParseReadsDigits(t.m, I128_MIN, I128_MAX);
    ParseReadsDigits(t.sec, I128_MIN, I128_MAX);
  }

  lemma SpelledSplits(t: Spelled)
    requires t.Shaped()
    ensures var clock, late := t.h + ":" + (t.m + ":" + t.Seconds()), t.m + ":" + t.Seconds();
      && t.Body() != [] && '-' !in t.Body() && IsDigit(t.Body()[0]) && IsDigit(t.Body()[|t.Body()| - 1])
      && SplitOnce(t.Body(), ' ') == Some((t.d, clock))
      && SplitOnce(clock, ':') == Some((t.h, late)) && SplitOnce(late, ':') == Some((t.m, t.Seconds()))
      && SplitOnce(t.Seconds(), '.') == match t.frac case None => None case Some(f) => Some((t.sec, f))
  {
    hide Value, SplitOnceEither;
    SecondsSplit(t);
    DigitsLack(t.d, ' ');
    DigitsLack(t.h, ':');
    DigitsLack(t.m, ':');
    SplitAtFirst(t.d, ' ', t.h + ":" + (t.m + ":" + t.Seconds()), ' ', ' ');
    SplitAtFirst(t.h, ':', t.m + ":" + t.Seconds(), ':', ':');
    SplitAtFirst(t.m, ':', t.Seconds(), ':', ':');
  }

  lemma SecondsSplit(t: Spelled)
    requires t.Shaped()
    ensures var late := t.Seconds();
      && late != [] && '-' !in late && IsDigit(late[|late| - 1])
      && (t.frac.None? ==> late == t.sec)
      && SplitOnce(late, '.') == match t.frac case None => None case Some(f) => Some((t.sec, f))
  {
    hide Value, SplitOnceEither;
    DigitsLack(t.sec, '.');
    match t.frac {
      case None =>
        assert t.sec + "" == t.sec;
        SplitNowhere(t.sec, '.', '.');
      case Some(f) =>
        SplitAtFirst(t.sec, '.', f, '.', '.');
        assert t.sec + ("." + f) == t.sec + ['.'] + f;
    }
  }

  /**
   Every `[-]d hh:mm:ss[.f]` text whose fields are in range is read as exactly
   the nanoseconds it spells, cut off below a nanosecond and flagged exactly when
   that cut something, and refused as too large exactly when an `i128` cannot
   hold the total.
   */
  lemma DayTimeTextMeans(t: Spelled, target: Precision)
    requires t.Valid() && !IsYearMonth(target)
    ensures ParseIntervalText(t.Text(), target) ==
              if t.Total() > I128_MAX then Err(FieldOverflow)
              else Ok((DayTime(Signed(t.negative, t.Total()), DayToSecond),
                       Value(t.Frac()) * BILLION % Pow10(|t.Frac()|) != 0))
  {
    hide Value, Pow10, SplitOnceEither, ParseIntervalText, Compose, Spelled.Body, Spelled.Seconds, Spelled.Total;
    var p := NO_PARTS.(negative := t.negative);
    SpelledSplits(t);
    SignComesOff(p, t.Body(), target);
    SplitNowhere(t.Body(), '-', '-');
    ComposeMeans(t, target);
    SecondsSplit(t);
  }

  // ----- what is accepted -----

  /** The values a text can spell: fields in range, every field of one sign. */
  predicate Canonical(v: IntervalValue) {
    match v
    case YearMonth(y, m, p) =>
      p == YearToMonth && Abs(y) <= I32_MAX && Abs(m) <= 11 && (y > 0 ==> m >= 0) && (y < 0 ==> m <= 0)
    case DayTime(total, p) => p == DayToSecond && Abs(total) <= I128_MAX
  }

  lemma ComposeIsCanonical(d: string, h: string, m: string, sec: string, frac: string, negative: bool,
                           target: Precision)
    requires AllDigits(frac)
    ensures var r := Compose(d, h, m, sec, frac, negative, target);
      r.Ok? ==> !IsYearMonth(target) && r.value.0.DayTime? && Canonical(r.value.0)
  {
    hide Value, FitRight, ParseSigned;
    if Digits(d) && Digits(h) && Digits(m) && Digits(sec) {
      ParseReadsDigits(d, I128_MIN, I128_MAX);
      ParseReadsDigits(h, I128_MIN, I128_MAX);
      ParseReadsDigits(m, I128_MIN, I128_MAX);
      ParseReadsDigits(sec, I128_MIN, I128_MAX);
    }
  }

  lemma YearMonthIsCanonical(y: string, m: string, negative: bool, target: Precision)
    ensures var r := ParseYearMonth(y, m, negative, target);
      r.Ok? ==> IsYearMonth(target) && r.value.0.YearMonth? && Canonical(r.value.0) && !r.value.1
  {
    hide Value, ParseSigned;
    if Digits(y) && Digits(m) {
      ParseReadsDigits(y, I32_MIN, I32_MAX);
      ParseReadsDigits(m, I32_MIN, I32_MAX);
    }
  }

  /** Accepted text is of the target's own family, and its value is canonical. */
  lemma AcceptedIsCanonical(s: string, target: Precision)
    ensures var r := ParseIntervalText(s, target);
      r.Ok? ==> Canonical(r.value.0) && r.value.0.YearMonth? == IsYearMonth(target)
  {
    hide Trim, SplitOnceEither, Compose, ParseYearMonth, Canonical;
    forall y, m, negative { YearMonthIsCanonical(y, m, negative, target); }
    forall d, h, m, sec, frac, negative | AllDigits(frac) { ComposeIsCanonical(d, h, m, sec, frac, negative, target); }
  }

  ghost predicate ValueSplitsTo(v: IntervalValue, r: Option<Parts>) {
    match v
    case YearMonth(y, m, p) => MonthsSplitTo(12 * y + m, p, r)
    case DayTime(total, p) => SplitsTo(total, p, r)
  }

  /** Printing what a text was read as, and reading that, changes nothing (while a day count fits its field). */
  lemma AcceptedTextNormalises(s: string, target: Precision, r: Option<Parts>)
    requires ParseIntervalText(s, target).Ok?
    requires ValueSplitsTo(ParseIntervalText(s, target).value.0, r)
    ensures var v := ParseIntervalText(s, target).value.0;
      ParseIntervalText(TextOf(r, v.precision), target) ==
        if v.DayTime? && Abs(v.totalNanoseconds) / NANOS_PER_DAY > U32_MAX then Err(InvalidCast) else Ok((v, false))
  {
    hide ParseIntervalText, TextOf, SplitsTo, MonthsSplitTo;
    AcceptedIsCanonical(s, target);
    match ParseIntervalText(s, target).value.0 {
      case YearMonth(y, m, _) => YearMonthRoundTrip(y, m, r, target); TwelfthsAreUnique(y, m);
      case DayTime(total, _) => DayTimeRoundTrip(total, r, target);
    }
  }

  lemma TwelfthsAreUnique(y: int, m: int)
    requires Abs(m) <= 11 && (y > 0 ==> m >= 0) && (y < 0 ==> m <= 0)
    ensures var total := 12 * y + m; y == Signed(total < 0, Abs(total) / 12) && m == Signed(total < 0, Abs(total) % 12)
  {
  }

  /**
   Of the thirteen literals only the two that span their whole family describe
   themselves, and only to a target of that family.
   */
  lemma OtherLiteralsAreRefused(p: Parts, precision: Precision, target: Precision)
    requires !(precision == DayToSecond && !IsYearMonth(target)) && !(precision == YearToMonth && IsYearMonth(target))
    ensures ParseIntervalText(Literal(p, precision), target) == Err(InvalidCast)
  {
    hide *;
    var u := Unsigned(p, precision);
    LiteralEnds(p, precision);
    SignComesOff(p, u, target);
    assert Literal(p, precision) == Sign(p) + u by { LiteralIs(p, precision); }
    if precision == YearToMonth {
      WrongFamilyYearMonth(p, p.negative, target);
    } else if precision == DayToSecond {
      WrongFamilyDayTime(p, p.negative, target);
    } else if precision == DayToHour || precision == DayToMinute {
      TooFewFields(p, precision, p.negative, target);
    } else {
      NoSeparator(p, precision, p.negative, target);
    }
  }

  lemma LiteralIs(p: Parts, precision: Precision)
    ensures Literal(p, precision) == Sign(p) + Unsigned(p, precision)
  {
  }

  lemma LiteralEnds(p: Parts, precision: Precision)
    ensures var u := Unsigned(p, precision); u != [] && IsDigit(u[0]) && IsDigit(u[|u| - 1])
  {
    hide Show, Pad, ClockText, SecondText, FractionText;
    ClockSplits(p.hour, p.minute, p.second, p.fraction);
    SecondSplits(p.second, p.fraction);
    SecondFraction(p);
  }

  lemma SecondFraction(p: Parts)
    ensures var t := Show(p.second) + FractionText(p.fraction); '-' !in t && ' ' !in t && IsDigit(t[|t| - 1])
  {
    hide Show, Pad, TrimEndZeros;
    if p.fraction != 0 { FractionIsShown(p.fraction); }
  }

  lemma WrongFamilyYearMonth(p: Parts, negative: bool, target: Precision)
    requires !IsYearMonth(target)
    ensures ParseUnsignedText(Unsigned(p, YearToMonth), negative, target) == Err(InvalidCast)
  {
    hide Show, Pad, SplitOnceEither;
    DigitsLack(Show(p.day), '-');
    SplitAtFirst(Show(p.day), '-', Pad(p.hour, 2), '-', '-');
  }

  lemma WrongFamilyDayTime(p: Parts, negative: bool, target: Precision)
    requires IsYearMonth(target)
    ensures ParseUnsignedText(Unsigned(p, DayToSecond), negative, target) == Err(InvalidCast)
  {
    hide Show, Pad, SplitOnceEither, ClockText;
    var d, clock := Show(p.day), ClockText(p.hour, p.minute, p.second, p.fraction);
    ClockSplits(p.hour, p.minute, p.second, p.fraction);
    DigitsLack(d, '-');
    SplitNowhere(d + " " + clock, '-', '-');
  }

  lemma TooFewFields(p: Parts, precision: Precision, negative: bool, target: Precision)
    requires precision == DayToHour || precision == DayToMinute
    ensures ParseUnsignedText(Unsigned(p, precision), negative, target) == Err(InvalidCast)
  {
    hide Show, Pad, SplitOnceEither;
    var d, h, m := Show(p.day), Pad(p.hour, 2), Pad(p.minute, 2);
    var rest := if precision == DayToHour then h else h + ":" + m;
    assert Unsigned(p, precision) == d + " " + rest by { JoinRest(d, h, m); }
    SplitNowhere(d + " " + rest, '-', '-');
    SplitAtFirst(d, ' ', rest, ' ', ' ');
    SplitNowhere(h, ':', ':');
    SplitNowhere(m, ':', ':');
    SplitAtFirst(h, ':', m, ':', ':');
  }

  lemma JoinRest(d: string, h: string, m: string)
    ensures d + " " + h + ":" + m == d + " " + (h + ":" + m)
  {
  }

  lemma NoSeparator(p: Parts, precision: Precision, negative: bool, target: Precision)
    requires precision != DayToHour && precision != DayToMinute && precision != DayToSecond
    requires precision != YearToMonth
    ensures ParseUnsignedText(Unsigned(p, precision), negative, target) == Err(InvalidCast)
  {
    hide Show, Pad, SplitOnceEither, SecondText, FractionText;
    var u := Unsigned(p, precision);
    SecondSplits(p.second, p.fraction);
    SecondFraction(p);
    SplitNowhere(u, '-', '-');
    SplitNowhere(u, ' ', ' ');
  }

  // ----- the overflow the printer hides -----

  /**
   `i32` years and months always have a year-month split, save one case: a MONTH
   interval of more months than a `u32` holds. It is printed as "0".
   */
  lemma MonthsOverflowIff(years: int, months: int, precision: Precision, r: Option<Parts>)
    requires I32_MIN <= years <= I32_MAX && I32_MIN <= months <= I32_MAX && IsYearMonth(precision)
    requires MonthsSplitTo(12 * years + months, precision, r)
    ensures r == None <==> precision == MonthP && Abs(12 * years + months) > U32_MAX
    ensures r == None ==> TextOf(r, precision) == "0"
  {
  }

  lemma MonthsOverflowWitness()
    ensures 400_000_000 <= I32_MAX && MonthsSplitTo(12 * 400_000_000, MonthP, None) && TextOf(None, MonthP) == "0"
  {
  }
}
