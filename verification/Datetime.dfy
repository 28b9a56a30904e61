/** Date, time and timestamp text: printing, reading, and what reading accepts. */
module Datetime {
  import opened Arithmetic
  import opened Wrappers
  import opened Text
  import opened Decimal
  import opened Clock
  import opened Calendar

  datatype Time = Time(hour: int, minute: int, second: int, fraction: int)

  datatype Timestamp = Timestamp(date: Date, time: Time)

  /** 22018 and 22007. */
  datatype DatetimeError = InvalidCast | InvalidFormat

  const U16_MAX: nat := 0xFFFF
  const I16_MAX: nat := 0x7FFF
  const I16_MIN: int := -0x8000

  const MIDNIGHT := Time(0, 0, 0, 0)

  /** 60 is a leap second. */
  predicate OnTheClock(t: Time) {
    0 <= t.hour <= 23 && 0 <= t.minute <= 59 && 0 <= t.second <= 60
  }

  predicate ValidTime(t: Time) {
    OnTheClock(t) && 0 <= t.fraction < BILLION
  }

  /** The time as its text reads back: a fraction of ten digits loses the last. */
  function AsRead(t: Time): Time
    requires t.fraction >= 0
  {
    t.(fraction := Kept(t.fraction))
  }

  // ----- printing -----

  /** Zero-padded to four columns, the sign included. */
  function YearText(year: int): string {
    if year < 0 then "-" + Pad(-year, 3) else Pad(year, 4)
  }

  function DateText(d: Date): string
    requires d.month >= 0 && d.day >= 0
  {
    YearText(d.year) + "-" + (Pad(d.month, 2) + "-" + Pad(d.day, 2))
  }

  function TimeText(t: Time): string
    requires t.hour >= 0 && t.minute >= 0 && t.second >= 0 && t.fraction >= 0
  {
    ClockText(t.hour, t.minute, t.second, t.fraction)
  }

  function TimestampText(t: Timestamp): string
    requires InTypeRange(t)
  {
    DateText(t.date) + " " + TimeText(t.time)
  }

  /** The fields fit the types that hold them; nothing says they make a date. */
  predicate DateInRange(d: Date) {
    I16_MIN <= d.year <= I16_MAX && 0 <= d.month <= U16_MAX && 0 <= d.day <= U16_MAX
  }

  predicate TimeInRange(t: Time) {
    0 <= t.hour <= U16_MAX && 0 <= t.minute <= U16_MAX && 0 <= t.second <= U16_MAX && 0 <= t.fraction <= U32_MAX
  }

  predicate InTypeRange(t: Timestamp) {
    DateInRange(t.date) && TimeInRange(t.time)
  }

  // ----- reading -----

  /** Out of range is a format error; anything else wrong with a field is a cast error. */
  function Field(r: Result<int, ParseError>): Result<int, DatetimeError> {
    match r
    case Ok(n) => Ok(n)
    case Err(Overflow) => Err(InvalidFormat)
    case Err(BadDigit) => Err(InvalidCast)
  }

  function ParseU16(s: string): Result<int, DatetimeError> {
    match ParseUnsigned(s, U16_MAX) case Ok(n) => Ok(n) case Err(e) => Field(Err(e))
  }

  function ParseDateFields(s: string): Result<Date, DatetimeError> {
    var parts := Split(s, '-');
    if |parts| != 3 then Err(InvalidCast)
    else
      var year :- Field(ParseSigned(parts[0], I16_MIN, I16_MAX));
      var month :- ParseU16(parts[1]);
      var day :- ParseU16(parts[2]);
      if !(1 <= month <= 12) || !(1 <= day <= DaysInMonth(year, month)) then Err(InvalidFormat)
      else Ok(Date(year, month, day))
  }

  /** Seconds and billionths. */
  function ParseSeconds(s: string): Result<(int, int), DatetimeError> {
    match SplitOnce(s, '.')
    case None =>
      var second :- ParseU16(s);
      Ok((second, 0))
    case Some((sec, frac)) =>
      var second :- ParseU16(sec);
      if frac == "" || !AllDigits(frac) then Err(InvalidCast) else Ok((second, Value(FitRight(frac, 9))))
  }

  function TimeFields(s: string): Result<Time, DatetimeError> {
    var parts := Split(s, ':');
    if |parts| != 2 && |parts| != 3 then Err(InvalidCast)
    else
      var hour :- ParseU16(parts[0]);
      var minute :- ParseU16(parts[1]);
      var (second, fraction) :- ParseSeconds(if |parts| == 3 then parts[2] else "0");
      if hour > 23 || minute > 59 || second > 60 then Err(InvalidFormat)
      else Ok(Time(hour, minute, second, fraction))
  }

  function ParseSqlTime(s: string): Result<Time, DatetimeError> {
    TimeFields(Trim(s))
  }

  function ParseSqlTimestamp(s: string): Result<Timestamp, DatetimeError> {
    var t := Trim(s);
    var (datePart, timePart) := match SplitOnceEither(t, ' ', 'T')
      case Some((d, rest)) => (d, Trim(rest))
      case None => (t, "");
    var date :- ParseDateFields(datePart);
    var time :- if timePart == "" then Ok(MIDNIGHT) else TimeFields(timePart);
    Ok(Timestamp(date, time))
  }

  /** Cut to nine digits, then padded one zero at a time. */
  method NineDigitFraction(frac: string) returns (n: nat)
    requires AllDigits(frac)
    ensures n == Value(FitRight(frac, 9)) && n < BILLION
  {
    hide Value, Pow10;
    var digits := if |frac| > 9 then frac[..9] else frac;
    ghost var added := 0;
    assert digits + Zeros(0) == digits;
    ghost var start := digits;
    while |digits| < 9
      invariant |start| <= |digits| <= 9 && digits == start + Zeros(|digits| - |start|)
    {
      ZerosGrow(|digits| - |start|);
      digits := digits + "0";
    }
    ValueBelowPow(digits);
    NineDigits();
    ParseReadsDigits(digits, 0, U32_MAX);
    var parsed := ParseUnsigned(digits, U32_MAX);
    n := parsed.value;
  }

  method ParseTimeFields(s: string) returns (r: Result<Time, DatetimeError>)
    ensures r == TimeFields(s)
  {
    hide Value, FitRight, ParseUnsigned;
    var parts := Split(s, ':');
    if |parts| < 2 { return Err(InvalidCast); }
    var h, m := parts[0], parts[1];
    var secPart := if |parts| > 2 then parts[2] else "0";
    if |parts| > 3 { return Err(InvalidCast); }
    var hour := ParseU16(h);
    if hour.Err? { return Err(hour.error); }
    var minute := ParseU16(m);
    if minute.Err? { return Err(minute.error); }
    var pair := SplitOnce(secPart, '.');
    var second := ParseU16(if pair.Some? then pair.value.0 else secPart);
    if second.Err? { return Err(second.error); }
    var fraction := 0;
    if pair.Some? {
      var frac := pair.value.1;
      if frac == "" || !AllDigits(frac) { return Err(InvalidCast); }
      fraction := NineDigitFraction(frac);
    }
    if hour.value > 23 || minute.value > 59 || second.value > 60 { return Err(InvalidFormat); }
    r := Ok(Time(hour.value, minute.value, second.value, fraction));
  }

  // ----- round trips -----

  lemma PadParses(n: nat, width: nat, max: nat)
    ensures ParseUnsigned(Pad(n, width), max) == if n <= max then Ok(n) else Err(Overflow)
    ensures forall min :: min <= 0 ==> ParseSigned(Pad(n, width), min, max) == if n <= max then Ok(n) else Err(Overflow)
  {
    hide Pad, Value, ParseUnsigned, ParseSigned;
    PadRoundTrips(n, width);
    forall min: int | min <= 0 { ParseReadsDigits(Pad(n, width), min, max); }
    ParseReadsDigits(Pad(n, width), 0, max);
  }

  lemma DatePieces(d: Date)
    requires DateInRange(d)
    ensures var y, m, day := Pad(if d.year < 0 then -d.year else d.year, if d.year < 0 then 3 else 4), Pad(d.month, 2),
          Pad(d.day, 2);
      Split(DateText(d), '-') == if d.year < 0 then ["", y, m, day] else [y, m, day]
    ensures var t := DateText(d);
      t != [] && (IsDigit(t[0]) || t[0] == '-') && IsDigit(t[|t| - 1]) && ' ' !in t && 'T' !in t
  {
    hide Pad, Split;
    var y, m, day := Pad(if d.year < 0 then -d.year else d.year, if d.year < 0 then 3 else 4), Pad(d.month, 2),
          Pad(d.day, 2);
    DigitsLack(y, '-');
    DigitsLack(m, '-');
    DigitsLack(day, '-');
    SplitNone(day, '-');
    SplitFirst(m, '-', day);
    SplitFirst(y, '-', m + "-" + day);
    SplitFirst("", '-', y + "-" + (m + "-" + day));
    assert "" + ['-'] + (y + "-" + (m + "-" + day)) == "-" + y + "-" + (m + "-" + day);
  }

  /** A date's text reads back as the date exactly when it is one and its year is not negative. */
  lemma DateReads(d: Date)
    requires DateInRange(d)
    ensures ParseDateFields(DateText(d)) ==
              if d.year < 0 then Err(InvalidCast) else if Valid(d) then Ok(d) else Err(InvalidFormat)
  {
    hide Pad, Split, DateText, ParseSigned, ParseUnsigned;
    DatePieces(d);
    if d.year >= 0 { PadParses(d.year, 4, I16_MAX); }
    PadParses(d.month, 2, U16_MAX);
    PadParses(d.day, 2, U16_MAX);
  }

  lemma SecondsRead(second: nat, fraction: nat)
    requires second <= U16_MAX && fraction <= U32_MAX
    ensures ParseSeconds(SecondText(second, fraction)) == Ok((second, Kept(fraction)))
  {
    hide Pad, Value, FitRight, TrimEndZeros, SplitOnceEither, ParseSigned, ParseUnsigned;
    SecondSplits(second, fraction);
    PadParses(second, 2, U16_MAX);
    if fraction > 0 { FractionReads(fraction); } else { assert SecondText(second, fraction) == Pad(second, 2); }
  }

  /** A time's text reads back, cut to nine digits of fraction, exactly when its fields are on the clock. */
  lemma TimeReads(t: Time)
    requires TimeInRange(t)
    ensures TimeFields(TimeText(t)) ==
              if OnTheClock(t) then Ok(AsRead(t)) else Err(InvalidFormat)
  {
    hide Pad, Split, SecondText, ParseSeconds, ClockText, ParseUnsigned, SplitOnceEither;
    ClockSplits(t.hour, t.minute, t.second, t.fraction);
    SecondsRead(t.second, t.fraction);
    PadParses(t.hour, 2, U16_MAX);
    PadParses(t.minute, 2, U16_MAX);
  }

  /**
   Any timestamp its types can hold. Its text is refused exactly when the year is
   negative or the fields make no date or no time of day; otherwise it reads back
   as the same seven fields, save that a fraction of ten digits loses its last.
   So all seven come back exactly when the fraction is below a second as well.
   */
  lemma TimestampRoundTrip(t: Timestamp)
    requires InTypeRange(t)
    ensures ParseSqlTimestamp(TimestampText(t)) ==
              if t.date.year < 0 then Err(InvalidCast)
              else if Valid(t.date) && OnTheClock(t.time) then Ok(Timestamp(t.date, AsRead(t.time)))
              else Err(InvalidFormat)
    ensures ParseSqlTimestamp(TimestampText(t)) == Ok(t) <==> t.date.year >= 0 && Valid(t.date) && ValidTime(t.time)
  {
    hide DateText, TimeText, ParseDateFields, TimeFields, SplitOnceEither, Split, Valid, OnTheClock, Trim;
    var d, c := DateText(t.date), TimeText(t.time);
    DatePieces(t.date);
    DateReads(t.date);
    TimeReads(t.time);
    ClockEnds(t.time);
    TrimKeeps(d + " " + c);
    TrimKeeps(c);
    SplitAtFirst(d, ' ', c, ' ', 'T');
  }

  const WHOLE_SECOND := Timestamp(Date(2024, 1, 2), Time(10, 30, 15, 1_000_000_000))

  /** A fraction of a whole second, which its type can hold, is read back as a tenth and not refused. */
  lemma LongFractionWitness()
    ensures InTypeRange(WHOLE_SECOND)
    ensures ParseSqlTimestamp(TimestampText(WHOLE_SECOND))
          == Ok(Timestamp(Date(2024, 1, 2), Time(10, 30, 15, 100_000_000)))
  {
    hide ParseSqlTimestamp, TimestampText;
    TimestampRoundTrip(WHOLE_SECOND);
  }

  lemma ClockEnds(t: Time)
    requires TimeInRange(t)
    ensures var c := TimeText(t); c != [] && IsDigit(c[0]) && IsDigit(c[|c| - 1])
  {
    hide ClockText, Split, SplitOnceEither;
    ClockSplits(t.hour, t.minute, t.second, t.fraction);
  }

  /** A bare date is the timestamp at midnight, and a time is read on its own, under the same condition. */
  lemma DateAndTimeRoundTrip(d: Date, t: Time)
    requires DateInRange(d) && TimeInRange(t)
    ensures ParseSqlTimestamp(DateText(d)) ==
              if d.year < 0 then Err(InvalidCast) else if Valid(d) then
                    Ok(Timestamp(d, MIDNIGHT)) else Err(InvalidFormat)
    ensures ParseSqlTime(TimeText(t)) ==
              if OnTheClock(t) then Ok(AsRead(t)) else Err(InvalidFormat)
  {
    hide DateText, TimeText, ParseDateFields, TimeFields, SplitOnceEither, Split, Valid, OnTheClock, Trim;
    DatePieces(d);
    DateReads(d);
    TimeReads(t);
    ClockEnds(t);
    TrimKeeps(DateText(d));
    TrimKeeps(TimeText(t));
    SplitNowhere(DateText(d), ' ', 'T');
  }

  // ----- what is accepted -----

  lemma {:induction false} SplitPartsLack(s: string, c: char)
    ensures forall p :: p in Split(s, c) ==> c !in p
    decreases |s|
  {
    hide SplitOnceEither;
    SplitShortens(s, c, c);
    match SplitOnce(s, c)
    case None =>
    case Some((_, after)) => SplitPartsLack(after, c);
  }

  lemma {:induction false} ParsedAtMost(s: string, acc: nat, max: nat)
    requires acc <= max
    ensures ParseDigits(s, acc, max).Ok? ==> ParseDigits(s, acc, max).value <= max
    decreases |s|
  {
    if s != [] && IsDigit(s[0]) && 10 * acc + DigitValue(s[0]) <= max {
      ParsedAtMost(s[1..], 10 * acc + DigitValue(s[0]), max);
    }
  }

  lemma UnsignedAtMost(s: string, min: int, max: nat)
    requires min <= 0
    ensures ParseUnsigned(s, max).Ok? ==> ParseUnsigned(s, max).value <= max
    ensures '-' !in s && ParseSigned(s, min, max).Ok? ==> 0 <= ParseSigned(s, min, max).value <= max
  {
    if s != [] {
      ParsedAtMost(s, 0, max);
      ParsedAtMost(s[1..], 0, max);
    }
  }

  lemma AcceptedDate(s: string)
    ensures var r := ParseDateFields(s); r.Ok? ==> Valid(r.value) && 0 <= r.value.year <= I16_MAX
  {
    hide Split, ParseSigned, ParseUnsigned;
    SplitPartsLack(s, '-');
    var parts := Split(s, '-');
    if |parts| == 3 { UnsignedAtMost(parts[0], I16_MIN, I16_MAX); }
  }

  lemma AcceptedTime(s: string)
    ensures var r := TimeFields(s); r.Ok? ==> ValidTime(r.value)
  {
    hide Split, SplitOnceEither, ParseUnsigned, Value, Pow10;
    NineDigits();
    forall frac | AllDigits(frac) ensures Value(FitRight(frac, 9)) < BILLION { ValueBelowPow(FitRight(frac, 9)); }
  }

  /**
   Whatever the parser accepts is a real moment: its date is the one of exactly
   one day number, and what it was read as prints and reads back unchanged.
   */
  lemma AcceptedTimestamp(s: string)
    requires ParseSqlTimestamp(s).Ok?
    ensures var t := ParseSqlTimestamp(s).value;
      && Valid(t.date) && ValidTime(t.time) && 0 <= t.date.year <= I16_MAX
      && (forall n :: CivilFromDays(n) == t.date <==> n == DayNumber(t.date))
      && InTypeRange(t) && ParseSqlTimestamp(TimestampText(t)) == Ok(t)
  {
    hide DateText, TimeText, ParseDateFields, TimeFields, SplitOnceEither, Trim, CivilFromDays, DayNumber,
         TimestampText;
    forall d { AcceptedDate(d); }
    forall c { AcceptedTime(c); }
    var t := ParseSqlTimestamp(s).value;
    CivilIsOnto(t.date);
    MonthsAreShort(t.date);
    TimestampRoundTrip(t);
  }

  lemma MonthsAreShort(d: Date)
    requires Valid(d)
    ensures 1 <= d.month <= 12 && 1 <= d.day <= 31
  {
  }

  /** Every day the calendar counts in the years the type holds is accepted, and read as that day. */
  lemma EveryDayIsAccepted(days: int)
    requires 0 <= CivilFromDays(days).year <= I16_MAX
    ensures Valid(CivilFromDays(days))
    ensures ParseSqlTimestamp(DateText(CivilFromDays(days))) == Ok(Timestamp(CivilFromDays(days), MIDNIGHT))
  {
    hide CivilFromDays, DayNumber, DateText, ParseSqlTimestamp;
    CivilIsValid(days);
    MonthsAreShort(CivilFromDays(days));
    DateAndTimeRoundTrip(CivilFromDays(days), MIDNIGHT);
  }
}
