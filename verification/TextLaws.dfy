/** What the text and the bytes of a column value say: read back, they are the value. */
module TextLaws {
  import opened Arithmetic
  import opened Wrappers
  import opened Bytes
  import opened Encoding
  import opened Decoding
  import opened Text
  import opened Decimal
  import opened Clock
  import opened Calendar
  import opened Datetime
  import opened DatetimeSpelling
  import opened Interval
  import opened IntervalText
  import opened IntervalParser
  import opened IntervalLiterals
  import opened NumericLiteral
  import opened NumericSpelling
  import opened Narrowing
  import opened ChunkWriter
  import opened Column
  import opened ColumnWriter
  import opened NumberLaws
  import opened StructureLaws

  // ----- numbers -----

  lemma IntegerSpells(n: int)
    ensures NumberLaws.Spells(ShowInt(n), WholeNumber(n))
  {
    hide Value, Show;
    var p := Spelling("", if n < 0 then "-" else "", Show(Abs(n)), None, None, "");
    ShowRoundTrips(Abs(n));
    NoDigits();
    assert p.intPart + "" == p.intPart;
    assert p.Text() == ShowInt(n);
    assert p.Number() == WholeNumber(n);
  }

  lemma NoDigits()
    ensures Value("") == 0 && Pow10(0) == 1
  {
  }

  /** The text of an integer or a truth value holds the number the value holds. */
  lemma NumberTextHoldsIt(v: ColumnValue, q: Rational)
    requires WellTyped(v) && HoldsNumber(v, q) && (v.I8? || v.I16? || v.I32? || v.I64? || v.Bool?)
    ensures HoldsNumber(String(ToText(v)), q)
  {
    hide NumberLaws.Spells, Show, WholeNumber;
    if v.Bool? {
      IntegerSpells(if v.b then 1 else 0);
      OneDigitIsShown();
    } else {
      IntegerSpells(v.n);
    }
  }

  lemma OneDigitIsShown()
    ensures ShowInt(0) == "0" && ShowInt(1) == "1"
  {
  }

  // ----- bytes in hexadecimal -----

  function HexValue(c: char): Option<nat> {
    if '0' <= c <= '9' then Some(c as int - '0' as int)
    else if 'A' <= c <= 'F' then Some(c as int - 'A' as int + 10)
    else None
  }

  function ReadHex(s: string): Option<seq<byte>> {
    if s == "" then Some([])
    else if |s| < 2 then None
    else
      match (HexValue(s[0]), HexValue(s[1]), ReadHex(s[2..]))
      case (Some(high), Some(low), Some(rest)) => Some([(16 * high + low) as byte] + rest)
      case _ => None
  }

  lemma DigitsAreRead(n: nat)
    requires n < 0x100
    ensures HexValue(HexDigit(n / 16)) == Some(n / 16) && HexValue(HexDigit(n % 16)) == Some(n % 16)
  {
  }

  lemma {:induction false} HexIsRead(data: seq<byte>)
    ensures ReadHex(Hex(data)) == Some(data) && |Hex(data)| == 2 * |data|
    decreases |data|
  {
    hide HexValue, HexDigit;
    if data != [] {
      var n, s := data[0] as int, Hex(data);
      DigitsAreRead(n);
      HexIsRead(data[1..]);
      assert s[2..] == Hex(data[1..]);
      assert [data[0]] + data[1..] == data;
    }
  }

  lemma {:induction false} HexJoins(a: seq<byte>, b: seq<byte>)
    ensures Hex(a + b) == Hex(a) + Hex(b)
    decreases |a|
  {
    hide HexDigit;
    if a == [] {
      assert a + b == b;
    } else {
      assert (a + b)[0] == a[0] && (a + b)[1..] == a[1..] + b;
      HexJoins(a[1..], b);
      Regroup([HexDigit(a[0] as int / 16), HexDigit(a[0] as int % 16)], Hex(a[1..]), Hex(b));
    }
  }

  lemma BinaryTextIsRead(data: seq<byte>)
    ensures WellTyped(Binary(data)) && ReadHex(ToText(Binary(data))) == Some(data)
  {
    hide Hex, ReadHex;
    HexIsRead(data);
  }

  /** A GUID's text: thirty-two digits with a hyphen behind the eighth, twelfth, sixteenth and twentieth. */
  lemma GuidTextIsRead(g: seq<byte>)
    requires |g| == 16
    ensures WellTyped(Guid(g))
    ensures var t := ToText(Guid(g));
      && |t| == 36 && t[8] == t[13] == t[18] == t[23] == '-'
      && ReadHex(t[..8] + t[9..13] + t[14..18] + t[19..23] + t[24..]) == Some(g)
  {
    hide Hex, ReadHex;
    var a, b, c, d, e := g[..4], g[4..6], g[6..8], g[8..10], g[10..];
    HexIsRead(a);
    HexIsRead(b);
    HexIsRead(c);
    HexIsRead(d);
    HexIsRead(e);
    HexIsRead(g);
    assert g == a + b + c + d + e;
    HexJoins(a + b + c + d, e);
    HexJoins(a + b + c, d);
    HexJoins(a + b, c);
    HexJoins(a, b);
    FiveGroups(Hex(a), Hex(b), Hex(c), Hex(d), Hex(e));
  }

  lemma FiveGroups(a: string, b: string, c: string, d: string, e: string)
    requires |a| == 8 && |b| == |c| == |d| == 4 && |e| == 12
    ensures var t := a + "-" + b + "-" + c + "-" + d + "-" + e;
      && |t| == 36 && t[8] == t[13] == t[18] == t[23] == '-'
      && t[..8] == a && t[9..13] == b && t[14..18] == c && t[19..23] == d && t[24..] == e
  {
  }

  // ----- dates and times -----

  /** The texts of dates, times and timestamps, under the conditions of their round trips. */
  lemma MomentTextIsRead(ts: Timestamp)
    requires InTypeRange(ts)
    ensures WellTyped(DateValue(ts.date)) && WellTyped(TimeValue(ts.time)) && WellTyped(TimestampValue(ts))
    ensures ParseSqlTimestamp(ToText(DateValue(ts.date))) ==
              if ts.date.year < 0 then Err(DatetimeError.InvalidCast)
              else if Valid(ts.date) then Ok(Timestamp(ts.date, MIDNIGHT)) else Err(InvalidFormat)
    ensures ParseSqlTime(ToText(TimeValue(ts.time))) ==
              if OnTheClock(ts.time) then Ok(AsRead(ts.time)) else Err(InvalidFormat)
    ensures ParseSqlTimestamp(ToText(TimestampValue(ts))) ==
              if ts.date.year < 0 then Err(DatetimeError.InvalidCast)
              else if Valid(ts.date) && OnTheClock(ts.time) then Ok(Timestamp(ts.date, AsRead(ts.time)))
              else Err(InvalidFormat)
  {
    hide ParseSqlTimestamp, ParseSqlTime, DateText, TimeText, TimestampText, Valid, OnTheClock;
    DateAndTimeRoundTrip(ts.date, ts.time);
    TimestampRoundTrip(ts);
  }

  lemma TenTimes()
    ensures Pow10(2) == 100 && Pow10(4) == 10_000
  {
    assert Pow10(1) == 10 && Pow10(3) == 1000;
  }

  /** Dates are `yyyy-mm-dd` and times `hh:mm:ss`, with a fraction only where there is one and no zero at its end. */
  lemma MomentTextShape(ts: Timestamp)
    requires InTypeRange(ts) && Valid(ts.date) && 0 <= ts.date.year <= 9999 && OnTheClock(ts.time)
    ensures WellTyped(DateValue(ts.date)) && WellTyped(TimeValue(ts.time)) && WellTyped(TimestampValue(ts))
    ensures var d, t := ToText(DateValue(ts.date)), ToText(TimeValue(ts.time));
      && |d| == 10 && d[4] == d[7] == '-'
      && |t| >= 8 && t[2] == t[5] == ':' && (ts.time.fraction == 0 <==> |t| == 8)
      && (ts.time.fraction != 0 ==> |t| >= 10 && t[8] == '.' && t[|t| - 1] != '0')
      && ToText(TimestampValue(ts)) == d + " " + t
  {
    hide Value, Pad, Pow10, TrimEndZeros, DaysInMonth;
    TenTimes();
    MonthsAreShort(ts.date);
    PadRoundTrips(ts.date.year, 4);
    PadRoundTrips(ts.date.month, 2);
    PadRoundTrips(ts.date.day, 2);
    PadRoundTrips(ts.time.hour, 2);
    PadRoundTrips(ts.time.minute, 2);
    PadRoundTrips(ts.time.second, 2);
    if ts.time.fraction != 0 { FractionIsShown(ts.time.fraction); }
  }

  /** An offset in minutes: a sign, hours and minutes. */
  function ReadOffset(s: string): Option<int> {
    if s == "" || (s[0] != '+' && s[0] != '-') then None
    else
      match SplitOnce(s[1..], ':')
      case Some((h, m)) =>
        if Digits(h) && Digits(m) && |m| == 2 && Value(m) < 60 then Some(Signed(s[0] == '-', 60 * Value(h) + Value(m)))
        else None
      case None => None
  }

  lemma OffsetIsRead(minutes: int)
    ensures ReadOffset(OffsetText(minutes)) == Some(minutes)
  {
    hide Pad, Value, SplitOnceEither;
    var h, m := Pad(Abs(minutes) / 60, 2), Pad(Abs(minutes) % 60, 2);
    PadRoundTrips(Abs(minutes) / 60, 2);
    TwoDigits();
    PadRoundTrips(Abs(minutes) % 60, 2);
    DigitsLack(h, ':');
    SplitAtFirst(h, ':', m, ':', ':');
    var s := OffsetText(minutes);
    assert s[1..] == h + [':'] + m;
  }

  lemma TwoDigits()
    ensures Pow10(2) == 100
  {
    assert Pow10(1) == 10;
  }

  /** The clock of a zoned timestamp, which shows nine digits of fraction or none. */
  function ZonedClock(t: Time): ClockSpelling
    requires TimeInRange(t)
  {
    ClockSpelling(Pad(t.hour, 2), Pad(t.minute, 2), Some(Pad(t.second, 2)),
                  if t.fraction == 0 then None else Some(Pad(t.fraction, 9)))
  }

  lemma PaddedField(n: nat)
    ensures IsField(Pad(n, 2)) && NumberIn(Pad(n, 2)) == n
  {
    hide Value;
    PadRoundTrips(n, 2);
  }

  lemma ZonedFraction(fraction: nat)
    requires 0 < fraction <= MAX_FRACTION
    ensures Billionths(Pad(fraction, 9)) == Kept(fraction)
  {
    hide Value, Pad, Billionths, FitRight;
    var s := Pad(fraction, 9);
    PadRoundTrips(fraction, 9);
    PaddedLength(fraction);
    FractionTruncates(s);
    if fraction < BILLION { WholeFit(s); } else { CutFit(s); NineOfTen(s); }
  }

  lemma WholeFit(s: string)
    requires AllDigits(s) && |s| == 9
    ensures FitRight(s, 9) == s
  {
  }

  lemma CutFit(s: string)
    requires AllDigits(s) && |s| == 10
    ensures FitRight(s, 9) == s[..9]
  {
  }

  lemma ZonedClockIs(t: Time)
    requires TimeInRange(t)
    ensures var p := ZonedClock(t);
      && p.Shaped() && p.Clock() == AsRead(t) && (p.InRange() <==> OnTheClock(t))
      && p.Text() == TimeText(t.(fraction := 0)) + (if t.fraction == 0 then "" else "." + Pad(t.fraction, 9))
  {
    hide Pad, IsField, NumberIn, Billionths;
    PaddedField(t.hour);
    PaddedField(t.minute);
    PaddedField(t.second);
    if t.fraction != 0 { ZonedFraction(t.fraction); }
    NoMarks(Pad(t.second, 2));
    ClockJoins(Pad(t.hour, 2), Pad(t.minute, 2), Pad(t.second, 2),
               if t.fraction == 0 then "" else "." + Pad(t.fraction, 9));
  }

  lemma ClockJoins(h: string, m: string, s: string, f: string)
    ensures h + ":" + (m + (":" + (s + f))) == h + ":" + (m + ":" + s) + f
  {
  }

  lemma PlainDate(d: Date)
    requires DateInRange(d) && d.year >= 0
    ensures IsField(Pad(d.year, 4)) && NumberIn(Pad(d.year, 4)) == d.year
    ensures DateText(d) == Pad(d.year, 4) + "-" + (Pad(d.month, 2) + "-" + Pad(d.day, 2))
  {
    hide Value;
    PadRoundTrips(d.year, 4);
  }

  /** A zoned timestamp: the timestamp, read like any other, and the offset behind it. */
  lemma ZonedTextIsRead(ts: Timestamp, minutes: int) returns (at: string, offset: string)
    requires InTypeRange(ts) && I16_MIN <= minutes <= I16_MAX && ts.date.year >= 0
    ensures WellTyped(TimestampTz(ts, minutes)) && ToText(TimestampTz(ts, minutes)) == at + offset
    ensures ReadOffset(offset) == Some(minutes)
    ensures ParseSqlTimestamp(at) ==
              if Valid(ts.date) && OnTheClock(ts.time) then Ok(Timestamp(ts.date, AsRead(ts.time)))
              else Err(InvalidFormat)
  {
    hide Pad, IsField, NumberIn, OffsetText, ReadOffset, ParseSqlTimestamp, TimeText, ClockSpelling.Text,
         ClockSpelling.Shaped, ClockSpelling.Clock, ClockSpelling.InRange, Valid, OnTheClock, AsRead;
    var d, t := ts.date, ts.time;
    OffsetIsRead(minutes);
    ZonedClockIs(t);
    PlainDate(d);
    PaddedField(d.month);
    PaddedField(d.day);
    var p := MomentSpelling("", Pad(d.year, 4), Pad(d.month, 2), Pad(d.day, 2), At(' ', "", ZonedClock(t)), "");
    DatetimeSpelling.MomentIsRead(p);
    at, offset := p.Text(), OffsetText(minutes);
    ZonedParts(ts, minutes, p);
  }

  lemma ZonedParts(ts: Timestamp, minutes: int, p: MomentSpelling)
    requires InTypeRange(ts) && p.before == "" && p.after == "" && p.DateText() == DateText(ts.date)
    requires p.time.At? && p.time.sep == ' ' && p.time.gap == ""
    requires p.time.clock.Text() == TimeText(ts.time.(fraction := 0))
                                      + (if ts.time.fraction == 0 then "" else "." + Pad(ts.time.fraction, 9))
    ensures ZonedText(ts, minutes) == p.Text() + OffsetText(minutes)
  {
    hide Pad, TimeText, OffsetText, DateText, ClockSpelling.Text, MomentSpelling.DateText;
    var d, c, f := DateText(ts.date), TimeText(ts.time.(fraction := 0)),
      if ts.time.fraction == 0 then "" else "." + Pad(ts.time.fraction, 9);
    ZonedJoins(d, c, f);
  }

  lemma ZonedJoins(d: string, c: string, f: string)
    ensures "" + (d + ([' '] + ("" + (c + f)))) + "" == d + " " + c + f
  {
  }

  // ----- intervals -----

  /** A sign and a literal behind it. */
  predicate SignedText(s: string, negative: bool, u: string) {
    s == (if negative then "-" else "") + u
  }

  /**
   The text of a day-time interval: the total's sign, and a literal of the
   interval's own type that weighs the total cut off at its last field; "0" when
   its leading count exceeds a `u32`.
   */
  lemma DayTimeTextMeans(total: int, target: Precision) returns (u: string, fraction: bool)
    requires !IsYearMonth(target) && I128_MIN <= total <= I128_MAX
    ensures var v := IntervalOf(DayTime(total, target));
      && WellTyped(v)
      && if Abs(total) / UnitOf(Leading(target)) > U32_MAX then ToText(v) == "0"
         else
           && SignedText(ToText(v), total < 0, u) && Reads(u, target, fraction)
           && var n := Weight(Numbers(u), Rank(Leading(target)));
              n <= Abs(total) < n + if Trailing(target) == Second then 1 else UnitOf(Trailing(target))
  {
    hide IsSplit, DayTimeParts, UnitOf, Unsigned, Reads, Numbers, Weight;
    ClosedFormSplits(total, target);
    var r := DayTimeParts(total, target);
    u, fraction := "", false;
    if r.Some? {
      u, fraction := Unsigned(r.value, target), r.value.fraction != 0;
      LiteralWeighs(total, target, r.value);
      SplitHasSign(total, target, r.value);
    }
  }

  lemma SplitHasSign(total: int, target: Precision, p: Parts)
    requires IsSplit(total, target, p)
    ensures p.negative == (total < 0)
  {
  }

  /** The text of a year-month interval, in months. */
  lemma YearMonthTextMeans(years: int, months: int, target: Precision) returns (u: string)
    requires IsYearMonth(target) && I32_MIN <= years <= I32_MAX && I32_MIN <= months <= I32_MAX
    ensures var v, total := IntervalOf(YearMonth(years, months, target)), 12 * years + months;
      && WellTyped(v)
      && if target.MonthP? && Abs(total) > U32_MAX then ToText(v) == "0"
         else
           && SignedText(ToText(v), total < 0, u) && Reads(u, target, false)
           && var n := Months(Numbers(u), Rank(Leading(target)));
              n <= Abs(total) < n + if target.YearP? then 12 else 1
  {
    hide Unsigned, Reads, Numbers, Months;
    var total := 12 * years + months;
    MonthFormSplits(total, target);
    var r := MonthParts(total, target);
    u := "";
    if r.Some? {
      u := Unsigned(r.value, target);
      YearMonthWeighs(total, target, r.value);
    }
  }

  // ----- delivery -----

  /** Character data, decimals, JSON and structured values arrive as the text they are, floats as their own. */
  lemma TextArrives(v: ColumnValue, s: string, target: CDataType, bufLen: int, beyond: Result<FixedWrite, ColumnError>)
    requires WellTyped(v) && (target.WChar? || target.Char?)
    requires || v in [String(s), DecimalText(s), Json(s), Structured(s)]
             || ((v.F32? || v.F64?) && v.text == s && !v.f.Infinite?)
             || ((v.F32? || v.F64?) && v.f == Infinite(true) && s == "-Infinity")
             || ((v.F32? || v.F64?) && v.f == Infinite(false) && s == "Infinity")
    requires bufLen >= |TextBytes(s, target)| + target.FormOf().Width()
    ensures var e, n := ColumnEffect(v, target, false, bufLen, 0, beyond), |TextBytes(s, target)|;
      && e.result.Ok? && e.result.value.ret == SqlReturn.Success && e.indicator == Some(n) && n <= |e.image|
      && ReadText(e.image[..n], target) == Some(s)
  {
    hide TextBytes, ColumnEffect, ReadText;
    assert ToText(v) == s;
    TextIsDelivered(v, target, bufLen, beyond);
  }

  /** The bytes of a value under SQL_C_BINARY, read back. */
  ghost predicate BytesHold(data: seq<byte>, v: ColumnValue)
    requires WellTyped(v)
  {
    match v
    case I8(n) => |data| == 1 && ReadInt(STinyInt, data) == n
    case I16(n) => |data| == 2 && ReadInt(SShort, data) == n
    case I32(n) => |data| == 4 && ReadInt(SLong, data) == n
    case I64(n) => |data| == 8 && ReadInt(SBigInt, data) == n
    case F32(_, _, image) => data == image
    case F64(_, _, image) => data == image
    case Bool(b) => data == [if b then 1 else 0]
    case Binary(bytes) => data == bytes
    case Guid(bytes) => data == bytes
    case _ => DecodeUtf8(data) == Some(ToText(v))
  }

  lemma BinaryHolds(v: ColumnValue)
    requires WellTyped(v)
    ensures BytesHold(ToBinary(v), v)
  {
    hide ToText, Utf8, DecodeUtf8, IntBytes, ReadInt, IntTarget.Holds;
    if v.I8? || v.I16? || v.I32? || v.I64? {
      var t := Inferred(v).t;
      WrittenIsRead(t, v.n);
    } else {
      Utf8Decodes(ToText(v));
    }
  }

  /** With room for all of it, a value's bytes arrive whole and hold it. */
  lemma BytesArrive(v: ColumnValue, bufLen: int, beyond: Result<FixedWrite, ColumnError>)
    requires WellTyped(v) && !v.Null? && bufLen >= |ToBinary(v)| && bufLen > 0
    ensures var e := ColumnEffect(v, BinaryType, false, bufLen, 0, beyond);
      && e.result.Ok? && e.result.value.ret == SqlReturn.Success && e.indicator == Some(|e.image|)
      && BytesHold(e.image, v)
  {
    hide ToBinary, ChunkOf, BytesHold, ToText;
    BinaryHolds(v);
    ChunkIsAll(ToBinary(v), Raw, bufLen);
    assert ToBinary(v) + ChunkWriter.Zeros(0) == ToBinary(v);
  }

  /** An interval's bytes are delivered whole or not at all. */
  lemma IntervalBytesAreWhole(v: ColumnValue, bufLen: int, offset: nat, beyond: Result<FixedWrite, ColumnError>)
    requires WellTyped(v) && v.IntervalOf?
    ensures ColumnEffect(v, BinaryType, false, bufLen, offset, beyond) == Effect(Err(TooLarge), [], None) <==>
            bufLen < |Utf8(ToText(v))|
  {
    hide ToText, Utf8, ChunkOf;
  }

  /** A short buffer never refuses what is neither a number nor an interval: it is delivered in parts. */
  lemma OtherTextIsNeverRefused(v: ColumnValue, target: CDataType, isNull: bool, bufLen: int, offset: nat,
                                beyond: Result<FixedWrite, ColumnError>)
    requires WellTyped(v) && !v.I8? && !v.I16? && !v.I32? && !v.I64? && !v.F32? && !v.F64? && !v.DecimalText?
    requires !v.IntervalOf? && (target.WChar? || target.Char?)
    ensures ColumnEffect(v, target, isNull, bufLen, offset, beyond).result.Ok?
  {
    hide ToText, ChunkOf, TextBytes, WholePart;
  }

  /** Nor does asking for a length, with no buffer or none that holds a unit, ever refuse anything. */
  lemma LengthIsAlwaysTold(v: ColumnValue, target: CDataType, isNull: bool, bufLen: int,
                           beyond: Result<FixedWrite, ColumnError>)
    requires WellTyped(v) && !v.Null? && (target.WChar? || target.Char?)
    requires isNull || bufLen < if target.WChar? then 2 else 1
    ensures var e := ColumnEffect(v, target, isNull, bufLen, 0, beyond);
      e.result.Ok? && e.image == [] && e.indicator == Some(|TextBytes(ToText(v), target)|)
  {
    hide ToText, TextBytes, WholePart;
  }
}
