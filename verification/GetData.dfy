/**
 SQLGetData: reading one column of the current row in parts. The cursor keeps a
 converted value between calls; the same machine without that cache is what it
 must not be told apart from.
 */
module GetData {
  import opened Wrappers
  import opened Bytes
  import opened Column
  import opened ChunkWriter
  import opened ColumnWriter

  /** Where reading stands in one column (numbered from 1). */
  datatype Position = Position(column: int, delivered: nat, done: bool)

  /** The position, and the conversion being drained with the type it was made for. */
  datatype Cursor = Cursor(at: Position, cached: Option<(CDataType, CachedChunkSource)>)

  /** 07009, HY090, 22002, or an error of the write. */
  datatype GetDataError = InvalidIndex | InvalidLength | IndicatorRequired | Writing(e: ColumnError)

  /** One call. `beyond` is what a conversion outside this model would answer. */
  datatype Call = Call(column: int, target: CDataType, isNull: bool, bufLen: int, hasIndicator: bool,
                       beyond: Result<FixedWrite, ColumnError>)

  /**
   What the application gets back: the return, the units delivered, the bytes at
   the front of its buffer, the indicator.
   */
  datatype Reply = Reply(result: Result<SqlReturn, GetDataError>, delivered: nat, image: seq<byte>,
                         indicator: Option<int>)

  predicate RowWellTyped(row: seq<ColumnValue>) {
    forall k :: 0 <= k < |row| ==> WellTyped(row[k])
  }

  function Refused(e: GetDataError): Reply {
    Reply(Err(e), 0, [], None)
  }

  const EXHAUSTED := Reply(Ok(NoData), 0, [], None)

  predicate InRow(row: seq<ColumnValue>, c: Call) {
    1 <= c.column <= |row|
  }

  /** The argument checks that come before the cursor is looked at. */
  function BadArgument(row: seq<ColumnValue>, c: Call): Option<GetDataError> {
    if !InRow(row, c) then Some(InvalidIndex)
    else if c.bufLen < 0 then Some(InvalidLength)
    else None
  }

  /** A different column starts over. */
  function Resume(at: Option<Position>, column: int): Position {
    if at.Some? && at.value.column == column then at.value else Position(column, 0, false)
  }

  /** A write moves the position on; an error loses it. */
  function Advance(p: Position, e: Effect): (Option<Position>, Reply) {
    match e.result
    case Err(err) => (None, Reply(Err(Writing(err)), 0, e.image, e.indicator))
    case Ok(w) =>
      (Some(p.(delivered := p.delivered + w.delivered, done := !w.chunkable || w.ret != SuccessWithInfo)),
       Reply(Ok(w.ret), w.delivered, e.image, e.indicator))
  }

  function Write(v: ColumnValue, p: Position, c: Call): Effect
    requires WellTyped(v)
  {
    ColumnEffect(v, c.target, c.isNull, c.bufLen, p.delivered, c.beyond)
  }

  // ----- without a cache -----

  /** Every call asks for the value again and converts it again. */
  function PlainStep(row: seq<ColumnValue>, at: Option<Position>, c: Call): (Option<Position>, Reply)
    requires RowWellTyped(row)
  {
    match BadArgument(row, c)
    case Some(e) => (at, Refused(e))
    case None =>
      var p, v := Resume(at, c.column), row[c.column - 1];
      if p.done then (Some(p), EXHAUSTED)
      else if v.Null? && !c.hasIndicator then (None, Refused(IndicatorRequired))
      else Advance(p, Write(v, p, c))
  }

  // ----- with the cache -----

  function At(cursor: Option<Cursor>): Option<Position> {
    match cursor case None => None case Some(c) => Some(c.at)
  }

  function CachedFor(cursor: Option<Cursor>, column: int): Option<(CDataType, CachedChunkSource)> {
    if cursor.Some? && cursor.value.at.column == column then cursor.value.cached else None
  }

  function Keep(at: Option<Position>, cached: Option<(CDataType, CachedChunkSource)>): Option<Cursor> {
    match at case None => None case Some(p) => Some(Cursor(p, cached))
  }

  function CachedWrite(source: CachedChunkSource, p: Position, c: Call): Effect {
    CachedEffect(source, c.target, c.isNull, c.bufLen, p.delivered)
  }

  /**
   The conversion a call answers from: the kept one if it was made for this type,
   else a new one where there can be one.
   */
  function SourceFor(v: ColumnValue, cached: Option<(CDataType, CachedChunkSource)>,
                     target: CDataType): Option<CachedChunkSource> {
    if cached.Some? && cached.value.0 == target then Some(cached.value.1) else CacheableChunkSource(v, target)
  }

  /** What a call does, and the conversion kept after it. */
  function Answer(v: ColumnValue, cached: Option<(CDataType, CachedChunkSource)>, p: Position, c: Call)
    : (Effect, Option<(CDataType, CachedChunkSource)>)
    requires WellTyped(v)
  {
    match SourceFor(v, cached, c.target)
    case Some(source) => (CachedWrite(source, p, c), Some((c.target, source)))
    case None => (Write(v, p, c), cached)
  }

  function Step(row: seq<ColumnValue>, cursor: Option<Cursor>, c: Call): (Option<Cursor>, Reply)
    requires RowWellTyped(row)
  {
    match BadArgument(row, c)
    case Some(e) => (cursor, Refused(e))
    case None =>
      var p, v, cached := Resume(At(cursor), c.column), row[c.column - 1], CachedFor(cursor, c.column);
      if p.done then (Some(Cursor(p, cached)), EXHAUSTED)
      else if v.Null? && !c.hasIndicator && !(cached.Some? && cached.value.0 == c.target) then
            (None, Refused(IndicatorRequired))
      else
        var (e, kept) := Answer(v, cached, p, c);
        var (next, reply) := Advance(p, e);
        (Keep(next, kept), reply)
  }

  /** What is kept is what converting the column's value again would give. */
  ghost predicate Coherent(row: seq<ColumnValue>, cursor: Option<Cursor>) {
    cursor.Some? && cursor.value.cached.Some? ==>
      && 1 <= cursor.value.at.column <= |row|
      && CacheableChunkSource(row[cursor.value.at.column - 1], cursor.value.cached.value.0)
            == Some(cursor.value.cached.value.1)
  }

  /** One call: the cache changes neither the reply nor the position, and stays coherent. */
  lemma StepIsPlain(row: seq<ColumnValue>, cursor: Option<Cursor>, c: Call)
    requires RowWellTyped(row) && Coherent(row, cursor)
    ensures Coherent(row, Step(row, cursor, c).0)
    ensures (At(Step(row, cursor, c).0), Step(row, cursor, c).1) == PlainStep(row, At(cursor), c)
  {
    hide CachedEffect, ColumnEffect, CacheableChunkSource, WellTyped;
    if BadArgument(row, c).None? {
      var p, v, cached := Resume(At(cursor), c.column), row[c.column - 1], CachedFor(cursor, c.column);
      NullIsNotCached(v, c.target);
      var source := SourceFor(v, cached, c.target);
      if source.Some? { CachedAgrees(v, c.target, source.value, c.isNull, c.bufLen, p.delivered, c.beyond); }
    }
  }

  lemma NullIsNotCached(v: ColumnValue, target: CDataType)
    ensures v.Null? ==> CacheableChunkSource(v, target) == None
  {
  }

  function Run(row: seq<ColumnValue>, cursor: Option<Cursor>, calls: seq<Call>): (Option<Cursor>, seq<Reply>)
    requires RowWellTyped(row)
    decreases |calls|
  {
    if calls == [] then (cursor, [])
    else
      var (next, reply) := Step(row, cursor, calls[0]);
      var (last, replies) := Run(row, next, calls[1..]);
      (last, [reply] + replies)
  }

  function PlainRun(row: seq<ColumnValue>, at: Option<Position>, calls: seq<Call>): (Option<Position>, seq<Reply>)
    requires RowWellTyped(row)
    decreases |calls|
  {
    if calls == [] then (at, [])
    else
      var (next, reply) := PlainStep(row, at, calls[0]);
      var (last, replies) := PlainRun(row, next, calls[1..]);
      (last, [reply] + replies)
  }

  /**
   Any calls at all, on any columns, changing target type between parts as they
   like: the machine with the cache answers as the one without.
   */
  lemma {:induction false} CacheIsTransparent(row: seq<ColumnValue>, cursor: Option<Cursor>, calls: seq<Call>)
    requires RowWellTyped(row) && Coherent(row, cursor)
    ensures Coherent(row, Run(row, cursor, calls).0)
    ensures (At(Run(row, cursor, calls).0), Run(row, cursor, calls).1) == PlainRun(row, At(cursor), calls)
    decreases |calls|
  {
    hide Step, PlainStep, Coherent, RowWellTyped;
    if calls != [] {
      StepIsPlain(row, cursor, calls[0]);
      CacheIsTransparent(row, Step(row, cursor, calls[0]).0, calls[1..]);
    }
  }

  // ----- the method -----

  lemma RoomBounds(v: ColumnValue, target: CDataType, bufLen: int, size: nat)
    requires Room(v, target, bufLen, size)
    ensures bufLen <= size
  {
  }

  /** The write itself, from the cache where it can be. */
  method Deliver(v: ColumnValue, cached: Option<(CDataType, CachedChunkSource)>, delivered: nat, target: CDataType,
                 buf: array?<byte>, bufLen: int, ind: Indicator?, beyond: Result<FixedWrite, ColumnError>,
                       ghost p: Position, ghost c: Call)
    returns (r: Result<ChunkWrite, ColumnError>, kept: Option<(CDataType, CachedChunkSource)>)
    requires WellTyped(v) && FitsTarget(beyond, if target.Default? then Inferred(v) else target)
    requires buf != null ==> Room(v, target, bufLen, buf.Length)
    requires p.delivered == delivered && c == Call(c.column, target, buf == null, bufLen, ind != null, beyond)
    modifies buf, ind
    ensures var (e, k) := Answer(v, cached, p, c);
      && r == e.result && kept == k
      && (ind != null ==> ind.value == Signalled(e, old(ind.value)))
      && (buf != null ==> Wrote(e, old(buf[..]), buf[..]))
  {
    hide ColumnEffect, CachedEffect, WellTyped, CacheableChunkSource, Room, FitsTarget, Signalled, Wrote;
    var source := SourceFor(v, cached, target);
    if source.Some? {
      if buf != null { RoomBounds(v, target, bufLen, buf.Length); }
      var w := WriteCachedChunk(source.value, target, buf, bufLen, ind, delivered);
      return Ok(w), Some((target, source.value));
    }
    r := WriteColumnValueAt(v, target, buf, bufLen, ind, delivered, beyond);
    kept := cached;
  }

  /** The step of a call whose arguments are good and whose column is not finished. */
  lemma StepOpens(row: seq<ColumnValue>, cursor: Option<Cursor>, c: Call)
    requires RowWellTyped(row) && BadArgument(row, c).None?
    ensures var p, v, cached := Resume(At(cursor), c.column), row[c.column - 1], CachedFor(cursor, c.column);
      Step(row, cursor, c) ==
        if p.done then (Some(Cursor(p, cached)), EXHAUSTED)
        else if v.Null? && !c.hasIndicator && !(cached.Some? && cached.value.0 == c.target) then
              (None, Refused(IndicatorRequired))
        else (Keep(Advance(p, Answer(v, cached, p, c).0).0, Answer(v, cached, p, c).1),
              Advance(p, Answer(v, cached, p, c).0).1)
  {
    hide Answer, Advance;
  }

  class Statement {
    var row: seq<ColumnValue>
    var cursor: Option<Cursor>

    constructor (row: seq<ColumnValue>)
      ensures this.row == row && cursor == None
    {
      this.row := row;
      cursor := None;
    }

    /** Moving to another row forgets the position. */
    method Fetch(next: seq<ColumnValue>)
      modifies this
      ensures row == next && cursor == None
    {
      row, cursor := next, None;
    }

    /** What the application promises of its buffer for this call. */
    predicate Promised(column: int, target: CDataType, size: Option<nat>, bufLen: int,
                       beyond: Result<FixedWrite, ColumnError>)
      reads this
    {
      1 <= column <= |row| ==>
        var v := row[column - 1];
        FitsTarget(beyond, if target.Default? then Inferred(v) else target) && (size.Some? ==>
              Room(v, target, bufLen, size.value))
    }

    method GetData(column: int, target: CDataType, buf: array?<byte>, bufLen: int, ind: Indicator?,
                   beyond: Result<FixedWrite, ColumnError>)
      returns (r: Result<SqlReturn, GetDataError>, ghost reply: Reply)
      requires RowWellTyped(row)
      requires Promised(column, target, if buf == null then None else Some(buf.Length), bufLen, beyond)
      requires Coherent(row, cursor)
      modifies this`cursor, buf, ind
      ensures Coherent(row, cursor)
      ensures (cursor, reply) == Step(row, old(cursor), Call(column, target, buf == null, bufLen, ind != null, beyond))
      ensures r == reply.result
      ensures ind != null ==> ind.value == match reply.indicator case None => old(ind.value) case Some(n) => n
      ensures buf != null ==> |reply.image| <= buf.Length && buf[..] == reply.image + old(buf[..])[|reply.image|..]
    {
      hide ColumnEffect, CachedEffect, WellTyped, CacheableChunkSource, Room, FitsTarget, Coherent, Step, Answer,
           Inferred;
      ghost var c := Call(column, target, buf == null, bufLen, ind != null, beyond);
      StepIsPlain(row, cursor, c);
      BadStep(row, cursor, c);
      if column < 1 || column > |row| { return Err(InvalidIndex), Refused(InvalidIndex); }
      if bufLen < 0 { return Err(InvalidLength), Refused(InvalidLength); }
      StepOpens(row, cursor, c);
      var cached := CachedFor(cursor, column);
      var p := Resume(At(cursor), column);
      cursor := None;
      if p.done {
        cursor := Some(Cursor(p, cached));
        return Ok(NoData), EXHAUSTED;
      }
      var v := row[column - 1];
      var hit := cached.Some? && cached.value.0 == target;
      if v.Null? && ind == null && !hit { return Err(IndicatorRequired), Refused(IndicatorRequired); }
      reply := Advance(p, Answer(v, cached, p, c).0).1;
      var w, kept := Deliver(v, cached, p.delivered, target, buf, bufLen, ind, beyond, p, c);
      if w.Err? { return Err(Writing(w.error)), reply; }
      var write := w.value;
      cursor := Some(Cursor(p.(delivered := p.delivered + write.delivered, done := !write.chunkable
                               || write.ret != SuccessWithInfo), kept));
      r := Ok(write.ret);
    }
  }

  lemma BadStep(row: seq<ColumnValue>, cursor: Option<Cursor>, c: Call)
    requires RowWellTyped(row)
    ensures BadArgument(row, c).Some? ==> Step(row, cursor, c) == (cursor, Refused(BadArgument(row, c).value))
  {
  }
}
