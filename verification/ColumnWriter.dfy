/**
 Writing one column value into an application's buffer, as one function of the
 call (`ColumnEffect`) and the method that does it, with the whole-digit check,
 the inferred type of SQL_C_DEFAULT, and the cached form of a chunked read.
 */
module ColumnWriter {
  import opened Wrappers
  import opened Bytes
  import opened Encoding
  import opened Text
  import opened Decimal
  import opened Calendar
  import opened Clock
  import opened Datetime
  import opened NumericLiteral
  import opened Narrowing
  import opened ChunkWriter
  import opened Column

  /** `Other` stands for SQL_C_NUMERIC and the interval structures. */
  datatype CDataType =
    | Default | WChar | Char | BinaryType
    | Integer(t: IntTarget) | FloatType | DoubleType | Bit
    | TypeDate | TypeTime | TypeTimestamp | GuidType
    | Other(width: nat)
  {
    predicate Chunkable() {
      WChar? || Char? || BinaryType?
    }

    /** The size of a fixed type's variable. */
    function Width(): nat {
      match this
      case Integer(t) => t.Width()
      case FloatType => 4
      case DoubleType => 8
      case Bit => 1
      case TypeDate => 6
      case TypeTime => 6
      case TypeTimestamp => 16
      case GuidType => 16
      case Other(w) => w
      case _ => 0
    }

    function FormOf(): Form
      requires Chunkable()
    {
      match this case WChar => Wide case Char => Narrow case _ => Raw
    }
  }

  /** 22018, 22007, 22003, 07006, 01S07 and whatever else a conversion outside this model reports. */
  datatype ColumnError =
    | BadCast | BadDatetime | TooLarge | RestrictedType | FractionDropped | OtherError(sqlstate: string)

  datatype ChunkWrite = ChunkWrite(ret: SqlReturn, delivered: nat, chunkable: bool)

  /**
   Everything one call does: its answer, the bytes it puts at the front of the
   buffer, the indicator if it sets it.
   */
  datatype Effect = Effect(result: Result<ChunkWrite, ColumnError>, image: seq<byte>, indicator: Option<int>)

  const NULL_DATA: int := -1

  // ----- fixed types -----

  /** The bytes of a fixed variable, and whether filling it dropped a fraction. */
  datatype FixedWrite = FixedWrite(image: seq<byte>, dropped: bool)

  function DateImage(d: Date): (i: seq<byte>)
    ensures |i| == 6
  {
    IntBytes(d.year, 2) + IntBytes(d.month, 2) + IntBytes(d.day, 2)
  }

  function TimeImage(t: Time): (i: seq<byte>)
    ensures |i| == 6
  {
    IntBytes(t.hour, 2) + IntBytes(t.minute, 2) + IntBytes(t.second, 2)
  }

  function TimestampImage(ts: Timestamp): (i: seq<byte>)
    ensures |i| == 16
  {
    DateImage(ts.date) + TimeImage(ts.time) + IntBytes(ts.time.fraction, 4)
  }

  /** The first three groups are integers, so their bytes turn around. */
  function GuidImage(g: seq<byte>): (i: seq<byte>)
    requires |g| == 16
    ensures |i| == 16
  {
    [g[3], g[2], g[1], g[0], g[5], g[4], g[7], g[6]] + g[8..]
  }

  function DateError(e: DatetimeError): ColumnError {
    match e case InvalidCast => BadCast case InvalidFormat => BadDatetime
  }

  /** Text as a date: a non-zero time is dropped. */
  function TextToDate(s: string): Result<FixedWrite, ColumnError> {
    match ParseSqlTimestamp(s)
    case Ok(ts) => Ok(FixedWrite(DateImage(ts.date), ts.time != MIDNIGHT))
    case Err(e) => Err(DateError(e))
  }

  /** Text as a time, or else as the time of a timestamp: a non-zero fraction is dropped. */
  function TextToTime(s: string): Result<FixedWrite, ColumnError> {
    match ParseSqlTime(s)
    case Ok(t) => Ok(FixedWrite(TimeImage(t), t.fraction != 0))
    case Err(InvalidFormat) => Err(BadDatetime)
    case Err(InvalidCast) =>
      match ParseSqlTimestamp(s)
      case Ok(ts) => Ok(FixedWrite(TimeImage(ts.time), ts.time.fraction != 0))
      case Err(e) => Err(DateError(e))
  }

  /** Text as a timestamp. A time alone takes today's date, which is outside this model. */
  function TextToTimestamp(s: string, beyond: Result<FixedWrite, ColumnError>): Result<FixedWrite, ColumnError> {
    match ParseSqlTimestamp(s)
    case Ok(ts) => Ok(FixedWrite(TimestampImage(ts), false))
    case Err(InvalidFormat) => Err(BadDatetime)
    case Err(InvalidCast) =>
      match ParseSqlTime(s)
      case Ok(_) => beyond
      case Err(e) => Err(DateError(e))
  }

  /** `beyond` is what the conversions outside this model answer. */
  function Fixed(v: ColumnValue, target: CDataType, beyond: Result<FixedWrite, ColumnError>)
    : Result<FixedWrite, ColumnError>
    requires WellTyped(v)
  {
    match (v, target)
    case (DateValue(d), TypeDate) => Ok(FixedWrite(DateImage(d), false))
    case (DateValue(d), TypeTimestamp) => Ok(FixedWrite(TimestampImage(Timestamp(d, MIDNIGHT)), false))
    case (TimeValue(t), TypeTime) => Ok(FixedWrite(TimeImage(t), t.fraction != 0))
    case (TimestampValue(ts), TypeTimestamp) => Ok(FixedWrite(TimestampImage(ts), false))
    case (TimestampValue(ts), TypeDate) => Ok(FixedWrite(DateImage(ts.date), ts.time != MIDNIGHT))
    case (TimestampValue(ts), TypeTime) => Ok(FixedWrite(TimeImage(ts.time), ts.time.fraction != 0))
    case (TimestampTz(ts, _), TypeTimestamp) => Ok(FixedWrite(TimestampImage(ts), false))
    case (TimestampTz(ts, _), TypeDate) => Ok(FixedWrite(DateImage(ts.date), ts.time != MIDNIGHT))
    case (TimestampTz(ts, _), TypeTime) => Ok(FixedWrite(TimeImage(ts.time), ts.time.fraction != 0))
    case (String(s), TypeDate) => TextToDate(s)
    case (String(s), TypeTime) => TextToTime(s)
    case (String(s), TypeTimestamp) => TextToTimestamp(s, beyond)
    case (Guid(g), GuidType) => Ok(FixedWrite(GuidImage(g), false))
    case (F32(_, _, image), FloatType) => Ok(FixedWrite(image, false))
    case (F64(_, _, image), DoubleType) => Ok(FixedWrite(image, false))
    case (Bool(b), Bit) => Ok(FixedWrite([if b then 1 else 0], false))
    case _ => beyond
  }

  /**
   The number a value holds for an integer target: none for values that are not
   numeric, or text that is no literal.
   */
  function PivotOf(v: ColumnValue): (p: Option<Pivot>)
    requires WellTyped(v)
    ensures p.Some? ==> p.value.Proper()
  {
    match v
    case I8(n) => Some(Int(n))
    case I16(n) => Some(Int(n))
    case I32(n) => Some(Int(n))
    case I64(n) => Some(Int(n))
    case Bool(b) => Some(Int(if b then 1 else 0))
    case F32(f, _, _) => Some(Floating(f))
    case F64(f, _, _) => Some(Floating(f))
    case String(s) => LiteralPivot(s)
    case DecimalText(s) => LiteralPivot(s)
    case _ => None
  }

  function LiteralPivot(s: string): (p: Option<Pivot>)
    ensures p.Some? ==> p.value.Proper()
  {
    ParsedIsWellFormed(Trim(s));
    match ParseNumericLiteral(Trim(s)) case None => None case Some(l) => Some(Exact(l))
  }

  function Done(r: SqlReturn): Result<ChunkWrite, ColumnError> {
    Ok(ChunkWrite(r, 0, false))
  }

  /** A fixed write: all of it, and 01S07 when it dropped something. */
  function FixedEffect(r: Result<FixedWrite, ColumnError>, isNull: bool): Effect {
    match r
    case Err(e) => Effect(Err(e), [], None)
    case Ok(w) =>
      Effect(if w.dropped then Err(FractionDropped) else Done(SqlReturn.Success),
             if isNull then [] else w.image,
             Some(|w.image|))
  }

  /** An integer target, from any source that holds a number. */
  function IntegerEffect(p: Pivot, t: IntTarget, isNull: bool): Effect
    requires p.Proper()
  {
    var r := NarrowTo(ValueOf(p), t);
    if r.OutOfRange? then Effect(Err(TooLarge), [], None)
    else FixedEffect(Ok(FixedWrite(IntBytes(ValueOf(p).value.Whole(), t.Width()), r.FractionalTruncation?)), isNull)
  }

  // ----- the whole-digit check -----

  predicate IsNumericSource(v: ColumnValue) {
    v.I8? || v.I16? || v.I32? || v.I64? || v.F32? || v.F64? || v.DecimalText?
  }

  /** Everything before the decimal point. */
  function WholePart(rendered: string): (whole: string)
    ensures whole <= rendered && '.' !in whole && (whole == rendered || rendered[|whole|] == '.')
  {
    SplitShortens(rendered, '.', '.');
    match SplitOnce(rendered, '.') case None => rendered case Some((whole, _)) => whole
  }

  /** Bytes of a text under a character type. */
  function TextBytes(s: string, target: CDataType): (data: seq<byte>)
    requires target.WChar? || target.Char?
    ensures Whole(data, target.FormOf())
  {
    if target.WChar? then UnitBytes(Utf16(s)) else Utf8(s)
  }

  /** A call that supplies no buffer, or a source that is no number, is exempt. */
  predicate WholeDigitsFit(v: ColumnValue, rendered: string, target: CDataType, isNull: bool, bufLen: int)
    requires target.WChar? || target.Char?
  {
    var unit := if target.WChar? then 2 else 1;
    || !(IsNumericSource(v) || v.IntervalOf?)
    || isNull || bufLen < unit
    || bufLen >= (Units(TextBytes(WholePart(rendered), target), target.FormOf()) + 1) * unit
  }

  // ----- the whole call -----

  function Inferred(v: ColumnValue): (t: CDataType)
    ensures !t.Default?
  {
    match v
    case String(_) => WChar
    case I8(_) => Integer(STinyInt)
    case I16(_) => Integer(SShort)
    case I32(_) => Integer(SLong)
    case I64(_) => Integer(SBigInt)
    case F32(_, _, _) => FloatType
    case F64(_, _, _) => DoubleType
    case Bool(_) => Bit
    case DateValue(_) => TypeDate
    case TimeValue(_) => TypeTime
    case TimestampValue(_) => TypeTimestamp
    case TimestampTz(_, _) => TypeTimestamp
    case Binary(_) => BinaryType
    case Guid(_) => GuidType
    case _ => WChar
  }

  function ChunkEffect(c: Chunk): Effect {
    Effect(Ok(ChunkWrite(c.ret, c.delivered, true)), c.image, Some(c.indicator))
  }

  function CharacterEffect(v: ColumnValue, target: CDataType, isNull: bool, bufLen: int, offset: nat): Effect
    requires WellTyped(v) && (target.WChar? || target.Char?)
  {
    var s := ToText(v);
    if !WholeDigitsFit(v, s, target, isNull, bufLen) then Effect(Err(TooLarge), [], None)
    else ChunkEffect(ChunkOf(TextBytes(s, target), target.FormOf(), isNull, bufLen, offset))
  }

  function BinaryEffect(v: ColumnValue, isNull: bool, bufLen: int, offset: nat): Effect
    requires WellTyped(v)
  {
    var data := ToBinary(v);
    if v.IntervalOf? && !isNull && bufLen < |data| then Effect(Err(TooLarge), [], None)
    else ChunkEffect(ChunkOf(data, Raw, isNull, bufLen, offset))
  }

  function NamedEffect(v: ColumnValue, target: CDataType, isNull: bool, bufLen: int, offset: nat,
                       beyond: Result<FixedWrite, ColumnError>)
    : Effect
    requires WellTyped(v) && !target.Default?
  {
    match target
    case WChar => CharacterEffect(v, target, isNull, bufLen, offset)
    case Char => CharacterEffect(v, target, isNull, bufLen, offset)
    case BinaryType => BinaryEffect(v, isNull, bufLen, offset)
    case Integer(t) =>
      (match PivotOf(v)
       case Some(p) => IntegerEffect(p, t, isNull)
       case None =>
         if v.String? || v.DecimalText? || v.IntervalOf? then FixedEffect(beyond, isNull)
         else Effect(Err(RestrictedType), [], None))
    case _ => FixedEffect(Fixed(v, target, beyond), isNull)
  }

  /** SQL_C_DEFAULT refuses a fixed type wider than a positive buffer length. */
  function ColumnEffect(v: ColumnValue, target: CDataType, isNull: bool, bufLen: int, offset: nat,
                        beyond: Result<FixedWrite, ColumnError>)
    : Effect
    requires WellTyped(v)
  {
    if v.Null? then Effect(Done(SqlReturn.Success), [], Some(NULL_DATA))
    else if target.Default? then
      var t := Inferred(v);
      if !t.Chunkable() && bufLen > 0 && bufLen < t.Width() then Effect(Err(RestrictedType), [], None)
      else NamedEffect(v, t, isNull, bufLen, offset, beyond)
    else NamedEffect(v, target, isNull, bufLen, offset, beyond)
  }

  // ----- the methods -----

  /** The buffer after a call: the image at the front, everything else as it was. */
  ghost predicate Wrote(e: Effect, before: seq<byte>, after: seq<byte>) {
    |e.image| <= |before| && after == e.image + before[|e.image|..]
  }

  function Signalled(e: Effect, before: int): int {
    match e.indicator case None => before case Some(n) => n
  }

  /**
   What the application promises about its buffer: at least the declared length,
   and at least the variable of a fixed type it named (or whose size it left open).
   */
  predicate Room(v: ColumnValue, target: CDataType, bufLen: int, size: nat) {
    var t := if target.Default? then Inferred(v) else target;
    bufLen <= size && (t.Chunkable() || (target.Default? && bufLen > 0) || t.Width() <= size)
  }

  predicate FitsTarget(beyond: Result<FixedWrite, ColumnError>, target: CDataType) {
    beyond.Ok? ==> |beyond.value.image| == target.Width()
  }

  method CheckWholeDigitsFit(v: ColumnValue, rendered: string, target: CDataType, isNull: bool, bufLen: int)
      returns (ok: bool)
    requires target.WChar? || target.Char?
    ensures ok == WholeDigitsFit(v, rendered, target, isNull, bufLen)
  {
    hide WholePart, UnitBytes, Utf16, Utf8;
    if !IsNumericSource(v) && !v.IntervalOf? { return true; }
    var minimum := if target.WChar? then 2 else 1;
    if isNull || bufLen < minimum { return true; }
    var whole := WholePart(rendered);
    var units := if target.WChar? then |Utf16(whole)| else |Utf8(whole)|;
    ok := bufLen >= (units + 1) * minimum;
  }

  method WriteCharacter(v: ColumnValue, target: CDataType, buf: array?<byte>, bufLen: int, ind: Indicator?, offset: nat)
    returns (r: Result<ChunkWrite, ColumnError>)
    requires WellTyped(v) && (target.WChar? || target.Char?) && (buf != null ==> bufLen <= buf.Length)
    modifies buf, ind
    ensures var e := CharacterEffect(v, target, buf == null, bufLen, offset);
      && r == e.result
      && (ind != null ==> ind.value == Signalled(e, old(ind.value)))
      && (buf != null ==> Wrote(e, old(buf[..]), buf[..]))
  {
    hide ToText, WellTyped, ChunkOf, UnitBytes, Utf16, Utf8, WholeDigitsFit;
    var s := ToText(v);
    var ok := CheckWholeDigitsFit(v, s, target, buf == null, bufLen);
    if !ok { return Err(TooLarge); }
    var ret, delivered;
    if target.WChar? {
      ret, delivered := WriteWchar(s, buf, bufLen, ind, offset);
    } else {
      ret, delivered := WriteCharBytes(Utf8(s), buf, bufLen, ind, offset);
    }
    r := Ok(ChunkWrite(ret, delivered, true));
  }

  method WriteBinaryValue(v: ColumnValue, buf: array?<byte>, bufLen: int, ind: Indicator?, offset: nat)
    returns (r: Result<ChunkWrite, ColumnError>)
    requires WellTyped(v) && (buf != null ==> bufLen <= buf.Length)
    modifies buf, ind
    ensures var e := BinaryEffect(v, buf == null, bufLen, offset);
      && r == e.result
      && (ind != null ==> ind.value == Signalled(e, old(ind.value)))
      && (buf != null ==> Wrote(e, old(buf[..]), buf[..]))
  {
    hide ToBinary, WellTyped, ChunkOf;
    var data := ToBinary(v);
    if v.IntervalOf? && buf != null && bufLen < |data| { return Err(TooLarge); }
    var ret, delivered := WriteBinary(data, buf, bufLen, ind, offset);
    r := Ok(ChunkWrite(ret, delivered, true));
  }

  method WriteFixedTarget(w: Result<FixedWrite, ColumnError>, buf: array?<byte>, ind: Indicator?)
    returns (r: Result<ChunkWrite, ColumnError>)
    requires w.Ok? && buf != null ==> |w.value.image| <= buf.Length
    modifies buf, ind
    ensures var e := FixedEffect(w, buf == null);
      && r == e.result
      && (ind != null ==> ind.value == Signalled(e, old(ind.value)))
      && (buf != null ==> Wrote(e, old(buf[..]), buf[..]))
  {
    if w.Err? { return Err(w.error); }
    WriteFixed(buf, ind, w.value.image);
    r := if w.value.dropped then Err(FractionDropped) else Done(SqlReturn.Success);
  }

  method WriteIntegerTarget(p: Pivot, t: IntTarget, buf: array?<byte>, ind: Indicator?)
    returns (r: Result<ChunkWrite, ColumnError>)
    requires p.Proper() && (buf != null ==> t.Width() <= buf.Length)
    modifies buf, ind
    ensures var e := IntegerEffect(p, t, buf == null);
      && r == e.result
      && (ind != null ==> ind.value == Signalled(e, old(ind.value)))
      && (buf != null ==> Wrote(e, old(buf[..]), buf[..]))
  {
    hide ValueOf, NarrowTo, IntBytes, ReadInt, Pivot.Proper, IntTarget.Width, Rational.Whole;
    var n := WriteNumericPivot(p, t, buf, ind);
    match n {
      case OutOfRange => r := Err(TooLarge);
      case FractionalTruncation => r := Err(FractionDropped);
      case Success => r := Done(SqlReturn.Success);
    }
  }

  lemma FixedFits(v: ColumnValue, target: CDataType, beyond: Result<FixedWrite, ColumnError>)
    requires WellTyped(v) && FitsTarget(beyond, target) && !target.Chunkable() && !target.Default? && !target.Integer?
    ensures Fixed(v, target, beyond).Ok? ==> |Fixed(v, target, beyond).value.image| == target.Width()
  {
    hide DateImage, TimeImage, TimestampImage, GuidImage, ParseSqlTimestamp, ParseSqlTime;
  }

  /** A target type the application named. */
  method WriteNamed(v: ColumnValue, target: CDataType, buf: array?<byte>, bufLen: int, ind: Indicator?, offset: nat,
                    beyond: Result<FixedWrite, ColumnError>)
    returns (r: Result<ChunkWrite, ColumnError>)
    requires WellTyped(v) && !target.Default? && FitsTarget(beyond, target)
    requires buf != null ==> bufLen <= buf.Length && (target.Chunkable() || target.Width() <= buf.Length)
    modifies buf, ind
    ensures var e := NamedEffect(v, target, buf == null, bufLen, offset, beyond);
      && r == e.result
      && (ind != null ==> ind.value == Signalled(e, old(ind.value)))
      && (buf != null ==> Wrote(e, old(buf[..]), buf[..]))
  {
    hide WellTyped, CharacterEffect, BinaryEffect, IntegerEffect, FixedEffect, Fixed, PivotOf, IntTarget.Width, Wrote,
         Signalled;
    if target.WChar? || target.Char? {
      r := WriteCharacter(v, target, buf, bufLen, ind, offset);
    } else if target.BinaryType? {
      r := WriteBinaryValue(v, buf, bufLen, ind, offset);
    } else if target.Integer? {
      r := WriteInteger(v, target.t, buf, bufLen, ind, offset, beyond);
    } else {
      FixedFits(v, target, beyond);
      r := WriteFixedTarget(Fixed(v, target, beyond), buf, ind);
    }
  }

  /** Numeric sources and numeric text are narrowed; other text and intervals go beyond this model. */
  method WriteInteger(v: ColumnValue, t: IntTarget, buf: array?<byte>, bufLen: int, ind: Indicator?, offset: nat,
                      beyond: Result<FixedWrite, ColumnError>)
    returns (r: Result<ChunkWrite, ColumnError>)
    requires WellTyped(v) && FitsTarget(beyond, Integer(t)) && (buf != null ==> t.Width() <= buf.Length)
    modifies buf, ind
    ensures var e := NamedEffect(v, Integer(t), buf == null, bufLen, offset, beyond);
      && r == e.result
      && (ind != null ==> ind.value == Signalled(e, old(ind.value)))
      && (buf != null ==> Wrote(e, old(buf[..]), buf[..]))
  {
    hide WellTyped, IntegerEffect, PivotOf, IntTarget.Width;
    var p := PivotOf(v);
    if p.Some? {
      r := WriteIntegerTarget(p.value, t, buf, ind);
    } else if v.String? || v.DecimalText? || v.IntervalOf? {
      r := WriteFixedTarget(beyond, buf, ind);
    } else {
      r := Err(RestrictedType);
    }
  }

  method WriteColumnValueAt(v: ColumnValue, target: CDataType, buf: array?<byte>, bufLen: int, ind: Indicator?,
                            offset: nat,
                            beyond: Result<FixedWrite, ColumnError>)
    returns (r: Result<ChunkWrite, ColumnError>)
    requires WellTyped(v) && FitsTarget(beyond, if target.Default? then Inferred(v) else target)
    requires buf != null ==> Room(v, target, bufLen, buf.Length)
    modifies buf, ind
    ensures var e := ColumnEffect(v, target, buf == null, bufLen, offset, beyond);
      && r == e.result
      && (ind != null ==> ind.value == Signalled(e, old(ind.value)))
      && (buf != null ==> Wrote(e, old(buf[..]), buf[..]))
  {
    hide WellTyped, NamedEffect, Inferred, CDataType.Width;
    if v.Null? {
      if ind != null { ind.value := NULL_DATA; }
      return Done(SqlReturn.Success);
    }
    var named := target;
    if target.Default? {
      named := Inferred(v);
      if !named.Chunkable() && bufLen > 0 && bufLen < named.Width() { return Err(RestrictedType); }
    }
    r := WriteNamed(v, named, buf, bufLen, ind, offset, beyond);
  }

  // ----- cached chunks -----

  datatype CachedChunkSource = Utf16Units(units: seq<u16>) | RawBytes(bytes: seq<byte>)

  function CacheableChunkSource(v: ColumnValue, target: CDataType): Option<CachedChunkSource> {
    match (v, target)
    case (String(s), WChar) => Some(Utf16Units(Utf16(s)))
    case (String(s), Char) => Some(RawBytes(Utf8(s)))
    case (Binary(data), BinaryType) => Some(RawBytes(data))
    case _ => None
  }

  /** Which writer a cached source goes to: the type it was built for tells the two byte writers apart. */
  function CachedEffect(source: CachedChunkSource, target: CDataType, isNull: bool, bufLen: int, offset: nat): Effect {
    match source
    case Utf16Units(units) => ChunkEffect(WideChunkOf(units, isNull, bufLen, offset))
    case RawBytes(bytes) =>
      ChunkEffect(ChunkOf(bytes, if target.BinaryType? then Raw else Narrow, isNull, bufLen, offset))
  }

  method WriteCachedChunk(source: CachedChunkSource, target: CDataType, buf: array?<byte>, bufLen: int,
                          ind: Indicator?, offset: nat)
    returns (w: ChunkWrite)
    requires buf != null ==> bufLen <= buf.Length
    modifies buf, ind
    ensures var e := CachedEffect(source, target, buf == null, bufLen, offset);
      && Ok(w) == e.result
      && (ind != null ==> ind.value == Signalled(e, old(ind.value)))
      && (buf != null ==> Wrote(e, old(buf[..]), buf[..]))
  {
    hide ChunkOf, WideChunkOf;
    var ret, delivered;
    match source {
      case Utf16Units(units) => ret, delivered := WriteWcharUnits(units, buf, bufLen, ind, offset);
      case RawBytes(bytes) =>
        if target.BinaryType? {
          ret, delivered := WriteBinary(bytes, buf, bufLen, ind, offset);
        } else {
          ret, delivered := WriteCharBytes(bytes, buf, bufLen, ind, offset);
        }
    }
    w := ChunkWrite(ret, delivered, true);
  }

  /** A call answered from the cache does exactly what the uncached call would. */
  lemma CachedAgrees(v: ColumnValue, target: CDataType, source: CachedChunkSource, isNull: bool, bufLen: int,
                     offset: nat,
                     beyond: Result<FixedWrite, ColumnError>)
    requires WellTyped(v) && CacheableChunkSource(v, target) == Some(source)
    ensures CachedEffect(source, target, isNull, bufLen, offset)
          == ColumnEffect(v, target, isNull, bufLen, offset, beyond)
  {
    hide ChunkOf, Utf16, Utf8, UnitBytes, SplitOnceEither;
  }

  // ----- SQL_C_DEFAULT stays inside the buffer -----

  /** With a positive buffer length, inference, width check and writer together write no byte beyond it. */
  lemma DefaultStaysInside(v: ColumnValue, bufLen: int, offset: nat, beyond: Result<FixedWrite, ColumnError>,
                           isNull: bool)
    requires WellTyped(v) && bufLen > 0 && FitsTarget(beyond, Inferred(v))
    ensures |ColumnEffect(v, Default, isNull, bufLen, offset, beyond).image| <= bufLen
  {
    hide ToText, ToBinary, UnitBytes, Utf16, Utf8, ChunkOf, WholeDigitsFit, DateImage, TimeImage, TimestampImage,
         GuidImage;
    if Inferred(v).Chunkable() {
      if v.Binary? {
        ImageFits(ToBinary(v), Raw, isNull, bufLen, offset);
      } else {
        ImageFits(TextBytes(ToText(v), WChar), Wide, isNull, bufLen, offset);
      }
    }
  }

  // ----- what an application reads back -----

  lemma ThreePairs(a: seq<byte>, b: seq<byte>, c: seq<byte>)
    requires |a| == |b| == |c| == 2
    ensures var i := a + b + c; i[..2] == a && i[2..4] == b && i[4..] == c
  {
  }

  lemma DateImageReads(d: Date)
    requires DateInRange(d)
    ensures var i := DateImage(d);
      ReadInt(SShort, i[..2]) == d.year && ReadInt(UShort, i[2..4]) == d.month && ReadInt(UShort, i[4..]) == d.day
  {
    hide IntBytes, ReadInt;
    WrittenIsRead(SShort, d.year);
    WrittenIsRead(UShort, d.month);
    WrittenIsRead(UShort, d.day);
    ThreePairs(IntBytes(d.year, 2), IntBytes(d.month, 2), IntBytes(d.day, 2));
  }

  lemma TimeImageReads(t: Time)
    requires TimeInRange(t)
    ensures var i := TimeImage(t);
      ReadInt(UShort, i[..2]) == t.hour && ReadInt(UShort, i[2..4]) == t.minute && ReadInt(UShort, i[4..]) == t.second
  {
    hide IntBytes, ReadInt;
    WrittenIsRead(UShort, t.hour);
    WrittenIsRead(UShort, t.minute);
    WrittenIsRead(UShort, t.second);
    ThreePairs(IntBytes(t.hour, 2), IntBytes(t.minute, 2), IntBytes(t.second, 2));
  }

  /** The fields of a timestamp structure: those of its date, those of its time, and the fraction. */
  lemma TimestampImageReads(ts: Timestamp)
    requires InTypeRange(ts)
    ensures var i := TimestampImage(ts);
      i[..6] == DateImage(ts.date) && i[6..12] == TimeImage(ts.time) && ReadInt(ULong, i[12..]) == ts.time.fraction
  {
    hide IntBytes, ReadInt, DateImage, TimeImage;
    WrittenIsRead(ULong, ts.time.fraction);
  }

  // ----- text and typed sources agree -----

  /** Digits, then something that is no digit: a syntax error, not an overflow, while the digits fit. */
  lemma {:induction false} StopsAtNonDigit(s: string, c: char, rest: string, acc: nat, max: nat)
    requires AllDigits(s) && !IsDigit(c) && acc * Pow10(|s|) + Value(s) <= max
    ensures ParseDigits(s + [c] + rest, acc, max) == Err(BadDigit)
    decreases |s|
  {
    var t := s + [c] + rest;
    if s != [] {
      assert t[0] == s[0] && t[1..] == s[1..] + [c] + rest;
      LeadingDigit(s, acc);
      StopsAtNonDigit(s[1..], c, rest, 10 * acc + DigitValue(s[0]), max);
    }
  }

  /** A timestamp's text is no time: its first field stops at the date's first hyphen. */
  lemma TimestampTextIsNoTime(ts: Timestamp)
    requires InTypeRange(ts) && ts.date.year >= 0
    ensures ParseSqlTime(TimestampText(ts)) == Err(InvalidCast)
  {
    hide Pad, Value, Trim, Split, SplitOnceEither, ParseDigits, Pow10, SecondText;
    var y, m, d := Pad(ts.date.year, 4), Pad(ts.date.month, 2), Pad(ts.date.day, 2);
    var t := ts.time;
    var h, clock := Pad(t.hour, 2), TimeText(t);
    var rest := Pad(t.minute, 2) + ":" + SecondText(t.second, t.fraction);
    var text := TimestampText(ts);
    DatePieces(ts.date);
    ClockEnds(t);
    TrimKeeps(text);
    var head := y + "-" + (m + "-" + d) + " " + h;
    assert text == head + [':'] + rest;
    HeadHasNoColon(y, m, d, h);
    SplitFirst(head, ':', rest);
    TwoMoreFields(t);
    PadRoundTrips(ts.date.year, 4);
    ZeroTimesPow(|y|);
    StopsAtNonDigit(y, '-', m + "-" + d + " " + h, 0, U16_MAX);
    assert head == y + ['-'] + (m + "-" + d + " " + h);
    assert head[0] == y[0];
  }

  lemma ZeroTimesPow(n: nat)
    ensures 0 * Pow10(n) == 0
  {
  }

  lemma HeadHasNoColon(y: string, m: string, d: string, h: string)
    requires AllDigits(y) && AllDigits(m) && AllDigits(d) && AllDigits(h)
    ensures ':' !in y + "-" + (m + "-" + d) + " " + h
  {
  }

  lemma TwoMoreFields(t: Time)
    requires TimeInRange(t)
    ensures |Split(Pad(t.minute, 2) + ":" + SecondText(t.second, t.fraction), ':')| == 2
  {
    hide Pad, Split, SecondText, SplitOnceEither;
    SecondSplits(t.second, t.fraction);
    DigitsLack(Pad(t.minute, 2), ':');
    SplitFirst(Pad(t.minute, 2), ':', SecondText(t.second, t.fraction));
    SplitNone(SecondText(t.second, t.fraction), ':');
  }

  lemma TextIsParsed(s: string, beyond: Result<FixedWrite, ColumnError>)
    ensures WellTyped(String(s)) && Fixed(String(s), TypeDate, beyond) == TextToDate(s)
    ensures Fixed(String(s), TypeTime, beyond) == TextToTime(s)
    ensures Fixed(String(s), TypeTimestamp, beyond) == TextToTimestamp(s, beyond)
    ensures ParseSqlTimestamp(s).Ok? ==>
              TextToTimestamp(s, beyond) == Ok(FixedWrite(TimestampImage(ParseSqlTimestamp(s).value), false))
    ensures match ParseSqlTimestamp(s)
      case Ok(ts) => TextToDate(s) == Ok(FixedWrite(DateImage(ts.date), ts.time != MIDNIGHT))
      case Err(_) => true
    ensures match ParseSqlTime(s)
      case Ok(t) => TextToTime(s) == Ok(FixedWrite(TimeImage(t), t.fraction != 0))
      case Err(e) => e == InvalidCast && ParseSqlTimestamp(s).Ok? ==>
        var t := ParseSqlTimestamp(s).value.time; TextToTime(s) == Ok(FixedWrite(TimeImage(t), t.fraction != 0))
  {
    hide DateImage, TimeImage, TimestampImage, GuidImage, ParseSqlTime, ParseSqlTimestamp;
  }

  lemma TypedIsWritten(ts: Timestamp, beyond: Result<FixedWrite, ColumnError>)
    requires InTypeRange(ts)
    ensures WellTyped(TimestampValue(ts)) && WellTyped(TimeValue(ts.time)) && WellTyped(DateValue(ts.date))
    ensures Fixed(TimestampValue(ts), TypeDate, beyond) == Ok(FixedWrite(DateImage(ts.date), ts.time != MIDNIGHT))
    ensures Fixed(TimestampValue(ts), TypeTime, beyond) == Ok(FixedWrite(TimeImage(ts.time), ts.time.fraction != 0))
    ensures Fixed(TimeValue(ts.time), TypeTime, beyond) == Ok(FixedWrite(TimeImage(ts.time), ts.time.fraction != 0))
    ensures Fixed(DateValue(ts.date), TypeDate, beyond) == Ok(FixedWrite(DateImage(ts.date), false))
    ensures Fixed(TimestampValue(ts), TypeTimestamp, beyond) == Ok(FixedWrite(TimestampImage(ts), false))
    ensures Fixed(DateValue(ts.date), TypeTimestamp, beyond)
          == Ok(FixedWrite(TimestampImage(Timestamp(ts.date, MIDNIGHT)), false))
  {
    hide DateImage, TimeImage, TimestampImage, GuidImage;
  }

  /** Two sources fill a fixed variable alike, warning included. */
  predicate FillAlike(a: ColumnValue, b: ColumnValue, target: CDataType, beyond: Result<FixedWrite, ColumnError>) {
    WellTyped(a) && WellTyped(b) && Fixed(a, target, beyond) == Fixed(b, target, beyond)
  }

  /**
   Character data and a typed column agree: a timestamp fills a date or a time
   structure alike as its text and as itself, whatever the fraction, and a
   timestamp structure where its text reads back; so do a time and a date.
   */
  lemma TextAndTypedAgree(ts: Timestamp, beyond: Result<FixedWrite, ColumnError>)
    requires InTypeRange(ts) && Valid(ts.date) && OnTheClock(ts.time) && ts.date.year >= 0
    ensures FillAlike(String(TimestampText(ts)), TimestampValue(ts), TypeDate, beyond)
    ensures FillAlike(String(TimestampText(ts)), TimestampValue(ts), TypeTime, beyond)
    ensures FillAlike(String(TimeText(ts.time)), TimeValue(ts.time), TypeTime, beyond)
    ensures FillAlike(String(DateText(ts.date)), DateValue(ts.date), TypeDate, beyond)
    ensures FillAlike(String(DateText(ts.date)), DateValue(ts.date), TypeTimestamp, beyond)
    ensures ValidTime(ts.time) ==>
              FillAlike(String(TimestampText(ts)), TimestampValue(ts), TypeTimestamp, beyond)
  {
    hide TextToTimestamp, TimestampImage;
    hide DateImage, TimestampText, TimeText, DateText, ParseSqlTime, ParseSqlTimestamp, Valid, OnTheClock, Fixed;
    hide TextToDate, TextToTime, WellTyped, IntBytes;
    TimestampRoundTrip(ts);
    DateAndTimeRoundTrip(ts.date, ts.time);
    TimestampTextIsNoTime(ts);
    TextIsParsed(TimestampText(ts), beyond);
    TextIsParsed(TimeText(ts.time), beyond);
    TextIsParsed(DateText(ts.date), beyond);
    TypedIsWritten(ts, beyond);
  }

  // ----- a number keeps its whole digits -----

  lemma WholeBytesArePrefix(s: string, target: CDataType)
    requires target.WChar? || target.Char?
    ensures TextBytes(WholePart(s), target) <= TextBytes(s, target)
  {
    hide WholePart, UnitBytes, Utf16, Utf8;
    var whole := WholePart(s);
    var rest := s[|whole|..];
    assert s == whole + rest;
    if target.WChar? {
      Utf16Concat(whole, rest);
      UnitBytesConcat(Utf16(whole), Utf16(rest));
    } else {
      Utf8Concat(whole, rest);
    }
  }

  /** Room for the whole part and a terminator is room to deliver it, odd lengths included. */
  lemma CapacityCovers(units: nat, form: Form, bufLen: int)
    requires form.Wide? || form.Narrow?
    requires bufLen >= form.Width()
    ensures Capacity(form, bufLen) >= units <==> bufLen >= (units + 1) * form.Width()
  {
  }

  /**
   A number or an interval given a usable buffer: either the call fails and
   writes nothing at all, because the whole part and its terminator do not fit,
   or everything before the decimal point, sign included, is delivered.
   */
  lemma WholeDigitsSurvive(v: ColumnValue, target: CDataType, bufLen: int, beyond: Result<FixedWrite, ColumnError>)
    requires v.I8? || v.I16? || v.I32? || v.I64? || v.F32? || v.F64? || v.DecimalText? || v.IntervalOf?
    requires WellTyped(v) && (target.WChar? || target.Char?) && bufLen >= target.FormOf().Width()
    ensures var e, whole := ColumnEffect(v, target, false, bufLen, 0, beyond), TextBytes(WholePart(ToText(v)), target);
      var needed := |whole| + target.FormOf().Width();
      if bufLen < needed then e == Effect(Err(TooLarge), [], None)
      else
        && e.result.Ok? && whole <= e.image
        && (e.result.value.ret == SqlReturn.Success
            <==> bufLen >= |TextBytes(ToText(v), target)| + target.FormOf().Width())
  {
    hide ToText, UnitBytes, Utf16, Utf8, WholePart, ChunkOf, TextBytes;
    var s := ToText(v);
    var form := target.FormOf();
    var whole, data := TextBytes(WholePart(s), target), TextBytes(s, target);
    WholeBytesArePrefix(s, target);
    CapacityCovers(Units(whole, form), form, bufLen);
    CapacityCovers(Units(data, form), form, bufLen);
    FirstChunk(data, form, bufLen, whole);
  }

  lemma FirstChunk(data: seq<byte>, form: Form, bufLen: int, whole: seq<byte>)
    requires !form.Raw? && Whole(data, form) && Whole(whole, form) && whole <= data && bufLen >= form.Width()
    ensures var c := ChunkOf(data, form, false, bufLen, 0);
      && (Capacity(form, bufLen) >= Units(whole, form) ==> whole <= c.image)
      && (c.ret == SqlReturn.Success <==> Capacity(form, bufLen) >= Units(data, form))
      && c.ret != NoData
  {
    var n := Min(Units(data, form), Capacity(form, bufLen));
    if Capacity(form, bufLen) >= Units(whole, form) {
      PrefixOfSlice(whole, data, form.Bytes(n));
    }
  }

  lemma PrefixOfSlice(a: seq<byte>, data: seq<byte>, n: nat)
    requires a <= data && |a| <= n <= |data|
    ensures a <= data[..n] && forall z: seq<byte> :: a <= data[..n] + z
  {
    assert a == data[..|a|];
    assert data[..n][..|a|] == a;
    forall z: seq<byte> ensures a <= data[..n] + z {
      assert (data[..n] + z)[..|a|] == data[..|a|];
    }
  }
}
