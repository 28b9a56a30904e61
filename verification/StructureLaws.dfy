/**
 What an application reads from the structures it is given: the fields of dates,
 times, timestamps and GUIDs, whatever the value they come from, and what
 SQL_C_DEFAULT leaves of a value of each type.
 */
module StructureLaws {
  import opened Wrappers
  import opened Bytes
  import opened Text
  import opened Encoding
  import opened Decoding
  import opened Calendar
  import opened Datetime
  import opened Narrowing
  import opened NumberLaws
  import opened ChunkWriter
  import opened Column
  import opened ColumnWriter

  // ----- reading structures -----

  function ReadDate(i: seq<byte>): Date
    requires |i| == 6
  {
    Date(ReadInt(SShort, i[..2]), ReadInt(UShort, i[2..4]), ReadInt(UShort, i[4..]))
  }

  /** A time structure has no fraction. */
  function ReadTime(i: seq<byte>): Time
    requires |i| == 6
  {
    Time(ReadInt(UShort, i[..2]), ReadInt(UShort, i[2..4]), ReadInt(UShort, i[4..]), 0)
  }

  function ReadTimestamp(i: seq<byte>): Timestamp
    requires |i| == 16
  {
    Timestamp(ReadDate(i[..6]), ReadTime(i[6..12]).(fraction := ReadInt(ULong, i[12..])))
  }

  /** A fixed variable of `width` bytes was filled, with 01S07 where something was dropped. */
  predicate Filled(e: Effect, width: nat, drops: bool) {
    && e.result == (if drops then Err(FractionDropped) else Done(SqlReturn.Success))
    && |e.image| == width && e.indicator == Some(width)
  }

  /** Date and time of day of a value: a date is at its midnight, a zoned timestamp without its offset. */
  ghost predicate HoldsMoment(v: ColumnValue, ts: Timestamp) {
    match v
    case DateValue(d) => ts == Timestamp(d, MIDNIGHT)
    case TimestampValue(t) => ts == t
    case TimestampTz(t, _) => ts == t
    case String(s) => ParseSqlTimestamp(s) == Ok(ts)
    case _ => false
  }

  lemma MomentInRange(v: ColumnValue, ts: Timestamp)
    requires WellTyped(v) && HoldsMoment(v, ts)
    ensures InTypeRange(ts)
  {
    hide ParseSqlTimestamp;
    if v.String? { AcceptedTimestamp(v.text); }
  }

  lemma DateIsRead(d: Date)
    requires DateInRange(d)
    ensures |DateImage(d)| == 6 && ReadDate(DateImage(d)) == d
  {
    hide DateImage, ReadInt;
    DateImageReads(d);
  }

  lemma ClockIsRead(t: Time)
    requires TimeInRange(t)
    ensures |TimeImage(t)| == 6 && ReadTime(TimeImage(t)) == t.(fraction := 0)
  {
    hide TimeImage, ReadInt;
    TimeImageReads(t);
  }

  lemma StampIsRead(ts: Timestamp)
    requires InTypeRange(ts)
    ensures |TimestampImage(ts)| == 16 && ReadTimestamp(TimestampImage(ts)) == ts
  {
    hide TimestampImage, ReadInt, ReadDate, ReadTime;
    TimestampImageReads(ts);
    DateIsRead(ts.date);
    ClockIsRead(ts.time);
  }

  /** A fixed target, no NULL, a buffer that is there: the effect is that of the conversion. */
  lemma FixedTarget(v: ColumnValue, target: CDataType, bufLen: int, offset: nat,
                    beyond: Result<FixedWrite, ColumnError>)
    requires WellTyped(v) && !v.Null? && !target.Default? && !target.Chunkable() && !target.Integer?
    ensures ColumnEffect(v, target, false, bufLen, offset, beyond) == FixedEffect(Fixed(v, target, beyond), false)
  {
    hide Fixed, FixedEffect;
  }

  lemma MomentWrites(v: ColumnValue, ts: Timestamp, beyond: Result<FixedWrite, ColumnError>)
    requires WellTyped(v) && HoldsMoment(v, ts)
    ensures Fixed(v, TypeDate, beyond) == Ok(FixedWrite(DateImage(ts.date), ts.time != MIDNIGHT))
    ensures Fixed(v, TypeTimestamp, beyond) == Ok(FixedWrite(TimestampImage(ts), false))
    ensures !v.DateValue? && (v.String? ==> ParseSqlTime(v.text) == Err(InvalidCast)) ==>
              Fixed(v, TypeTime, beyond) == Ok(FixedWrite(TimeImage(ts.time), ts.time.fraction != 0))
  {
    hide DateImage, TimeImage, TimestampImage, GuidImage, ParseSqlTime, ParseSqlTimestamp, WellTyped;
  }

  /**
   Dates, timestamps, zoned timestamps and text that is either: a date structure
   has the date, a timestamp structure the whole, a time structure the time of
   day. Only a date loses a time of day that is not midnight, only a time a fraction.
   */
  lemma MomentIsRead(v: ColumnValue, ts: Timestamp, bufLen: int, offset: nat, beyond: Result<FixedWrite, ColumnError>)
    requires WellTyped(v) && HoldsMoment(v, ts)
    ensures var e := ColumnEffect(v, TypeDate, false, bufLen, offset, beyond);
      Filled(e, 6, ts.time != MIDNIGHT) && ReadDate(e.image) == ts.date
    ensures var e := ColumnEffect(v, TypeTimestamp, false, bufLen, offset, beyond);
      Filled(e, 16, false) && ReadTimestamp(e.image) == ts
    ensures !v.DateValue? && (v.String? ==> ParseSqlTime(v.text) == Err(InvalidCast)) ==>
      var e := ColumnEffect(v, TypeTime, false, bufLen, offset, beyond);
      Filled(e, 6, ts.time.fraction != 0) && ReadTime(e.image) == ts.time.(fraction := 0)
  {
    hide Fixed, ColumnEffect, DateImage, TimeImage, TimestampImage, ReadDate, ReadTime, ReadTimestamp, ParseSqlTime,
         HoldsMoment, WellTyped;
    MomentInRange(v, ts);
    MomentWrites(v, ts, beyond);
    NoMomentOfNull(v, ts);
    FixedTarget(v, TypeDate, bufLen, offset, beyond);
    FixedTarget(v, TypeTimestamp, bufLen, offset, beyond);
    FixedTarget(v, TypeTime, bufLen, offset, beyond);
    DateIsRead(ts.date);
    ClockIsRead(ts.time);
    StampIsRead(ts);
  }

  lemma NoMomentOfNull(v: ColumnValue, ts: Timestamp)
    requires HoldsMoment(v, ts)
    ensures !v.Null?
  {
  }

  lemma TimeWrites(v: ColumnValue, t: Time, beyond: Result<FixedWrite, ColumnError>)
    requires WellTyped(v) && (v == TimeValue(t) || (v.String? && ParseSqlTime(v.text) == Ok(t)))
    ensures Fixed(v, TypeTime, beyond) == Ok(FixedWrite(TimeImage(t), t.fraction != 0)) && TimeInRange(t)
  {
    hide DateImage, TimeImage, TimestampImage, GuidImage, ParseSqlTime, ParseSqlTimestamp;
    if v.String? { AcceptedClock(v.text); }
  }

  /** A time, or text that is one, fills a time structure, and 01S07 says a fraction was dropped. */
  lemma TimeIsRead(v: ColumnValue, t: Time, bufLen: int, offset: nat, beyond: Result<FixedWrite, ColumnError>)
    requires WellTyped(v) && (v == TimeValue(t) || (v.String? && ParseSqlTime(v.text) == Ok(t)))
    ensures var e := ColumnEffect(v, TypeTime, false, bufLen, offset, beyond);
      Filled(e, 6, t.fraction != 0) && ReadTime(e.image) == t.(fraction := 0)
  {
    hide ColumnEffect, Fixed, TimeImage, ReadTime, ParseSqlTime, WellTyped;
    FixedTarget(v, TypeTime, bufLen, offset, beyond);
    TimeWrites(v, t, beyond);
    ClockIsRead(t);
  }

  lemma AcceptedClock(s: string)
    requires ParseSqlTime(s).Ok?
    ensures TimeInRange(ParseSqlTime(s).value)
  {
    hide TimeFields, Trim;
    AcceptedTime(Trim(s));
  }

  /** Text that is no moment at all: a recognised form out of range is 22007, anything else 22018. */
  lemma OtherTextIsRefused(s: string, target: CDataType, bufLen: int, offset: nat,
                           beyond: Result<FixedWrite, ColumnError>)
    requires (target.TypeDate? || target.TypeTime? || target.TypeTimestamp?) && ParseSqlTimestamp(s).Err?
    requires target.TypeDate? || ParseSqlTime(s).Err?
    ensures WellTyped(String(s))
    ensures ColumnEffect(String(s), target, false, bufLen, offset, beyond) ==
            Effect(Err(if ParseSqlTimestamp(s) == Err(InvalidFormat) then BadDatetime
                       else if !target.TypeDate? && ParseSqlTime(s) == Err(InvalidFormat) then BadDatetime
                       else BadCast), [], None)
  {
    hide DateImage, TimeImage, TimestampImage, GuidImage, ParseSqlTime, ParseSqlTimestamp;
  }

  // ----- GUIDs -----

  /** A number as a GUID writes it: high byte first. */
  function ReadBig(bytes: seq<byte>): nat {
    if bytes == [] then 0 else 256 * ReadBig(bytes[..|bytes| - 1]) + bytes[|bytes| - 1] as int
  }

  lemma {:induction false} Reversed(bytes: seq<byte>, turned: seq<byte>)
    requires |bytes| == |turned| && forall k :: 0 <= k < |bytes| ==> turned[k] == bytes[|bytes| - 1 - k]
    ensures ReadUnsigned(turned) == ReadBig(bytes)
    decreases |bytes|
  {
    if bytes != [] {
      var init := bytes[..|bytes| - 1];
      forall k | 0 <= k < |init| ensures turned[1..][k] == init[|init| - 1 - k] {
        assert turned[1..][k] == turned[k + 1];
      }
      Reversed(init, turned[1..]);
    }
  }

  /** The three integers and the eight bytes of a GUID structure are the GUID's own. */
  predicate IsGuid(i: seq<byte>, g: seq<byte>)
    requires |i| == |g| == 16
  {
    && ReadUnsigned(i[..4]) == ReadBig(g[..4]) && ReadUnsigned(i[4..6]) == ReadBig(g[4..6])
    && ReadUnsigned(i[6..8]) == ReadBig(g[6..8]) && i[8..] == g[8..]
  }

  lemma GuidImageReads(g: seq<byte>)
    requires |g| == 16
    ensures IsGuid(GuidImage(g), g)
  {
    hide ReadUnsigned, ReadBig;
    var i := GuidImage(g);
    Reversed(g[..4], i[..4]);
    Reversed(g[4..6], i[4..6]);
    Reversed(g[6..8], i[6..8]);
  }

  // ----- text -----

  /** The bytes of a character type as the text they are. */
  function ReadText(bytes: seq<byte>, target: CDataType): Option<string> {
    if !target.WChar? then DecodeUtf8(bytes)
    else if |bytes| % 2 == 0 then DecodeUtf16(ReadUnits(bytes))
    else None
  }

  lemma TextBytesRead(s: string, target: CDataType)
    requires target.WChar? || target.Char?
    ensures ReadText(TextBytes(s, target), target) == Some(s)
  {
    hide DecodeUtf8, DecodeUtf16, ReadUnits, UnitBytes, Utf16, Utf8;
    if target.WChar? {
      Utf16Decodes(s);
      UnitBytesRead(Utf16(s));
    } else {
      Utf8Decodes(s);
    }
  }

  lemma RoomForWhole(v: ColumnValue, s: string, target: CDataType, bufLen: int)
    requires (target.WChar? || target.Char?) && bufLen >= |TextBytes(s, target)| + target.FormOf().Width()
    ensures WholeDigitsFit(v, s, target, false, bufLen)
  {
    hide TextBytes, WholePart;
    var whole := TextBytes(WholePart(s), target);
    WholeBytesArePrefix(s, target);
    assert |whole| <= |TextBytes(s, target)|;
  }

  lemma ChunkIsAll(data: seq<byte>, form: Form, bufLen: int)
    requires Whole(data, form) && bufLen >= |data| + form.Width() * form.Reserve() && bufLen >= form.Width()
    ensures ChunkOf(data, form, false, bufLen, 0) ==
            Chunk(SqlReturn.Success, Units(data, form), |data|, data + ChunkWriter.Zeros(form.Bytes(form.Reserve())))
  {
    assert data[0..|data|] == data;
  }

  /** With room for all of it, a value's text arrives whole: what stands before the terminator decodes to it. */
  lemma TextIsDelivered(v: ColumnValue, target: CDataType, bufLen: int, beyond: Result<FixedWrite, ColumnError>)
    requires WellTyped(v) && !v.Null? && (target.WChar? || target.Char?)
    requires bufLen >= |TextBytes(ToText(v), target)| + target.FormOf().Width()
    ensures var e, n := ColumnEffect(v, target, false, bufLen, 0, beyond), |TextBytes(ToText(v), target)|;
      && e.result.Ok? && e.result.value.ret == SqlReturn.Success && e.indicator == Some(n)
      && |e.image| == n + target.FormOf().Width() && (forall k :: n <= k < |e.image| ==> e.image[k] == 0)
      && ReadText(e.image[..n], target) == Some(ToText(v))
  {
    hide ToText, TextBytes, ChunkOf, WholeDigitsFit, ReadText, WellTyped;
    var s := ToText(v);
    RoomForWhole(v, s, target, bufLen);
    var data := TextBytes(s, target);
    ChunkIsAll(data, target.FormOf(), bufLen);
    TextBytesRead(s, target);
    assert (data + ChunkWriter.Zeros(target.FormOf().Width()))[..|data|] == data;
  }

  // ----- what SQL_C_DEFAULT leaves of a value -----

  /** The value is what the bytes hold, read as the type its own kind asks for. */
  ghost predicate Keeps(e: Effect, v: ColumnValue)
    requires WellTyped(v)
  {
    match v
    case Null => true
    case I8(n) => Filled(e, 1, false) && ReadInt(STinyInt, e.image) == n
    case I16(n) => Filled(e, 2, false) && ReadInt(SShort, e.image) == n
    case I32(n) => Filled(e, 4, false) && ReadInt(SLong, e.image) == n
    case I64(n) => Filled(e, 8, false) && ReadInt(SBigInt, e.image) == n
    case F32(_, _, image) => Filled(e, 4, false) && e.image == image
    case F64(_, _, image) => Filled(e, 8, false) && e.image == image
    case Bool(b) => Filled(e, 1, false) && e.image == [if b then 1 else 0]
    case DateValue(d) => Filled(e, 6, false) && ReadDate(e.image) == d
    case TimeValue(t) => Filled(e, 6, t.fraction != 0) && ReadTime(e.image) == t.(fraction := 0)
    case TimestampValue(ts) => Filled(e, 16, false) && ReadTimestamp(e.image) == ts
    case TimestampTz(ts, _) => Filled(e, 16, false) && ReadTimestamp(e.image) == ts
    case Guid(g) => Filled(e, 16, false) && IsGuid(e.image, g)
    case Binary(data) => e.result == Ok(ChunkWrite(SqlReturn.Success, |data|, true)) && e.image == data
    case _ =>
      && e.result.Ok? && e.result.value.ret == SqlReturn.Success && |e.image| >= 2 && |e.image| % 2 == 0
      && DecodeUtf16(ReadUnits(e.image[..|e.image| - 2])) == Some(ToText(v))
  }

  /** The bytes a value of variable length needs under SQL_C_DEFAULT, or those of its fixed variable. */
  function Needed(v: ColumnValue): nat
    requires WellTyped(v)
  {
    match v
    case Binary(data) => if data == [] then 1 else |data|
    case I8(_) => 1
    case Bool(_) => 1
    case I16(_) => 2
    case I32(_) => 4
    case F32(_, _, _) => 4
    case I64(_) => 8
    case F64(_, _, _) => 8
    case DateValue(_) => 6
    case TimeValue(_) => 6
    case TimestampValue(_) => 16
    case TimestampTz(_, _) => 16
    case Guid(_) => 16
    case _ => |TextBytes(ToText(v), WChar)| + 2
  }

  predicate IsText(v: ColumnValue) {
    v.String? || v.DecimalText? || v.Json? || v.Structured? || v.IntervalOf?
  }

  /** Room for the value, or a fixed variable whose size the application left open. */
  predicate Roomy(v: ColumnValue, bufLen: int)
    requires WellTyped(v)
  {
    bufLen >= Needed(v) || (bufLen == 0 && !IsText(v) && !v.Binary?)
  }

  /** Under SQL_C_DEFAULT, with room, every value arrives as what it is; only a time's fraction has no place. */
  lemma DefaultKeepsTheValue(v: ColumnValue, bufLen: int, beyond: Result<FixedWrite, ColumnError>)
    requires WellTyped(v) && !v.Null? && Roomy(v, bufLen)
    ensures Keeps(ColumnEffect(v, Default, false, bufLen, 0, beyond), v)
  {
    if IsText(v) {
      DefaultIsText(v, bufLen, beyond);
    } else if v.Binary? {
      DefaultIsBinary(v, bufLen, beyond);
    } else if v.I8? || v.I16? || v.I32? || v.I64? {
      DefaultIsInteger(v, bufLen, beyond);
    } else {
      DefaultIsFixed(v, bufLen, beyond);
    }
  }

  /** A variable too small for the value's own type is refused with 07006 and not touched. */
  lemma NarrowDefaultIsRefused(v: ColumnValue, bufLen: int, isNull: bool, offset: nat,
                               beyond: Result<FixedWrite, ColumnError>)
    requires WellTyped(v) && !v.Null? && !IsText(v) && !v.Binary? && 0 < bufLen < Needed(v)
    ensures ColumnEffect(v, Default, isNull, bufLen, offset, beyond) == Effect(Err(RestrictedType), [], None)
  {
    hide NamedEffect;
  }

  lemma DefaultIsText(v: ColumnValue, bufLen: int, beyond: Result<FixedWrite, ColumnError>)
    requires WellTyped(v) && IsText(v) && Roomy(v, bufLen)
    ensures Keeps(ColumnEffect(v, Default, false, bufLen, 0, beyond), v)
  {
    hide ToText, TextBytes, NamedEffect, WellTyped;
    TextIsDelivered(v, WChar, bufLen, beyond);
  }

  lemma DefaultIsBinary(v: ColumnValue, bufLen: int, beyond: Result<FixedWrite, ColumnError>)
    requires WellTyped(v) && v.Binary? && Roomy(v, bufLen)
    ensures Keeps(ColumnEffect(v, Default, false, bufLen, 0, beyond), v)
  {
    hide ChunkOf, ToText;
    ChunkIsAll(v.data, Raw, bufLen);
    assert v.data + ChunkWriter.Zeros(0) == v.data;
  }

  lemma DefaultIsInteger(v: ColumnValue, bufLen: int, beyond: Result<FixedWrite, ColumnError>)
    requires WellTyped(v) && (v.I8? || v.I16? || v.I32? || v.I64?) && Roomy(v, bufLen)
    ensures Keeps(ColumnEffect(v, Default, false, bufLen, 0, beyond), v)
  {
    hide NamedEffect, ReadInt, ToText, IntTarget.Holds;
    IntegerIsRead(v, v.n, Inferred(v).t, bufLen, 0, beyond);
    IntegerIndicator(v, Inferred(v).t, bufLen, beyond);
  }

  lemma IntegerIndicator(v: ColumnValue, t: IntTarget, bufLen: int, beyond: Result<FixedWrite, ColumnError>)
    requires WellTyped(v) && (v.I8? || v.I16? || v.I32? || v.I64?) && t.Holds(v.n)
    ensures ColumnEffect(v, Integer(t), false, bufLen, 0, beyond).indicator == Some(t.Width())
  {
    hide IntTarget.Holds, ReadInt, IntTarget.Width, ColumnEffect;
    NumberIsRead(v, WholeNumber(v.n), t, false, bufLen, 0, beyond);
    WholeIsInteger(v.n);
  }

  lemma DefaultIsFixed(v: ColumnValue, bufLen: int, beyond: Result<FixedWrite, ColumnError>)
    requires WellTyped(v) && !v.Null? && !IsText(v) && !v.Binary? && Roomy(v, bufLen)
    requires !v.I8? && !v.I16? && !v.I32? && !v.I64?
    ensures Keeps(ColumnEffect(v, Default, false, bufLen, 0, beyond), v)
  {
    hide DateImage, TimeImage, TimestampImage, GuidImage, ReadDate, ReadTime, ReadTimestamp, IsGuid, ToText;
    match v {
      case DateValue(d) => DateIsRead(d);
      case TimeValue(t) => ClockIsRead(t);
      case TimestampValue(ts) => StampIsRead(ts);
      case TimestampTz(ts, _) => StampIsRead(ts);
      case Guid(g) => GuidImageReads(g);
      case _ =>
    }
  }
}
