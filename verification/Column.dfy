/** Column values: their types, their text, and their bytes. */
module Column {
  import opened Arithmetic
  import opened Wrappers
  import opened Bytes
  import opened Encoding
  import opened Decimal
  import opened Calendar
  import opened Datetime
  import opened Interval
  import opened IntervalText
  import opened IntervalParser
  import opened Narrowing

  /**
   A float carries its own text and its own image in memory, which the platform
   decides; a structured value (array, map, row) carries its own text.
   */
  datatype ColumnValue =
    | Null
    | String(text: string)
    | I8(n: int) | I16(n: int) | I32(n: int) | I64(n: int)
    | F32(f: Float, text: string, image: seq<byte>)
    | F64(f: Float, text: string, image: seq<byte>)
    | Bool(b: bool)
    | DateValue(date: Date)
    | TimeValue(time: Time)
    | TimestampValue(ts: Timestamp)
    | Binary(data: seq<byte>)
    | Guid(data: seq<byte>)
    | DecimalText(text: string)
    | TimestampTz(ts: Timestamp, offsetMinutes: int)
    | Json(text: string)
    | Structured(text: string)
    | IntervalOf(interval: IntervalValue)

  /** The fields fit the types that hold them. */
  predicate WellTyped(v: ColumnValue) {
    match v
    case I8(n) => STinyInt.Holds(n)
    case I16(n) => SShort.Holds(n)
    case I32(n) => SLong.Holds(n)
    case I64(n) => SBigInt.Holds(n)
    case F32(f, _, image) => f.Proper() && |image| == 4
    case F64(f, _, image) => f.Proper() && |image| == 8
    case DateValue(d) => DateInRange(d)
    case TimeValue(t) => TimeInRange(t)
    case TimestampValue(ts) => InTypeRange(ts)
    case TimestampTz(ts, offset) => InTypeRange(ts) && I16_MIN <= offset <= I16_MAX
    case Guid(data) => |data| == 16
    case IntervalOf(YearMonth(y, m, p)) => I32_MIN <= y <= I32_MAX && I32_MIN <= m <= I32_MAX
    case IntervalOf(DayTime(t, p)) => I128_MIN <= t <= I128_MAX
    case _ => true
  }

  // ----- text -----

  function HexDigit(d: nat): char
    requires d < 16
  {
    if d < 10 then '0' + d as char else 'A' + (d - 10) as char
  }

  function Hex(data: seq<byte>): string {
    if data == [] then ""
    else
      var n := data[0] as int;
      [HexDigit(n / 16), HexDigit(n % 16)] + Hex(data[1..])
  }

  function GuidText(data: seq<byte>): string
    requires |data| == 16
  {
    Hex(data[..4]) + "-" + Hex(data[4..6]) + "-" + Hex(data[6..8]) + "-" + Hex(data[8..10]) + "-" + Hex(data[10..])
  }

  function OffsetText(minutes: int): string {
    (if minutes < 0 then "-" else "+") + Pad(Abs(minutes) / 60, 2) + ":" + Pad(Abs(minutes) % 60, 2)
  }

  /** A zoned timestamp keeps all nine fraction digits. */
  function ZonedText(ts: Timestamp, offset: int): string
    requires InTypeRange(ts)
  {
    DateText(ts.date) + " " + TimeText(ts.time.(fraction := 0))
    + (if ts.time.fraction == 0 then "" else "." + Pad(ts.time.fraction, 9)) + OffsetText(offset)
  }

  function IntervalTextOf(v: IntervalValue): string {
    match v
    case YearMonth(y, m, p) =>
      TextOf(if IsYearMonth(p) then MonthParts(12 * y + m, p) else OutsideFamily(12 * y + m), p)
    case DayTime(t, p) => TextOf(if IsYearMonth(p) then OutsideFamily(t) else DayTimeParts(t, p), p)
  }

  /** A value under a precision of the other family: no field is spanned, everything is dropped. */
  function OutsideFamily(total: int): Option<Parts> {
    Some(NO_PARTS.(negative := total < 0, truncated := total != 0))
  }

  /** The text the splitter and the printer make of an interval. */
  method RenderColumnInterval(v: IntervalValue) returns (s: string)
    ensures s == IntervalTextOf(v)
  {
    hide DayTimeParts, MonthParts, Literal, SplitsTo, MonthsSplitTo;
    var r: Option<Parts>;
    match v {
      case YearMonth(y, m, p) =>
        r := SplitYearMonth(y, m, p);
        if IsYearMonth(p) { MonthSplitIsClosedForm(12 * y + m, p, r); }
      case DayTime(t, p) =>
        r := SplitDayTime(t, p);
        if !IsYearMonth(p) { SplitIsClosedForm(t, p, r); }
    }
    s := RenderInterval(r, v.precision, "0");
  }

  lemma MonthSplitIsClosedForm(months: int, target: Precision, r: Option<Parts>)
    requires IsYearMonth(target) && MonthsSplitTo(months, target, r)
    ensures r == MonthParts(months, target)
  {
    MonthFormSplits(months, target);
    if r.Some? { MonthSplitIsUnique(months, target, r.value, MonthParts(months, target).value); }
  }

  function ToText(v: ColumnValue): string
    requires WellTyped(v)
  {
    match v
    case Null => ""
    case String(s) => s
    case I8(n) => ShowInt(n)
    case I16(n) => ShowInt(n)
    case I32(n) => ShowInt(n)
    case I64(n) => ShowInt(n)
    case F32(f, text, _) => FloatText(f, text)
    case F64(f, text, _) => FloatText(f, text)
    case Bool(b) => if b then "1" else "0"
    case DateValue(d) => DateText(d)
    case TimeValue(t) => TimeText(t)
    case TimestampValue(ts) => TimestampText(ts)
    case Binary(data) => Hex(data)
    case Guid(data) => GuidText(data)
    case DecimalText(s) => s
    case TimestampTz(ts, offset) => ZonedText(ts, offset)
    case Json(s) => s
    case Structured(s) => s
    case IntervalOf(i) => IntervalTextOf(i)
  }

  function FloatText(f: Float, text: string): string {
    match f
    case Infinite(negative) => if negative then "-Infinity" else "Infinity"
    case _ => text
  }

  // ----- bytes -----

  function ToBinary(v: ColumnValue): seq<byte>
    requires WellTyped(v)
  {
    match v
    case Binary(data) => data
    case Guid(data) => data
    case I8(n) => IntBytes(n, 1)
    case I16(n) => IntBytes(n, 2)
    case I32(n) => IntBytes(n, 4)
    case I64(n) => IntBytes(n, 8)
    case F32(_, _, image) => image
    case F64(_, _, image) => image
    case Bool(b) => [if b then 1 else 0]
    case _ => Utf8(ToText(v))
  }
}
