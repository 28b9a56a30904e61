/**
 Reading in parts: what any run of calls on one column delivers, and what an
 error or a dropped fraction does to it.
 */
module GetDataLaws {
  import opened Wrappers
  import opened Bytes
  import opened Encoding
  import opened Decimal
  import opened Datetime
  import opened Narrowing
  import opened NumericLiteral
  import opened Column
  import opened ChunkWriter
  import opened ColumnWriter
  import opened NumberLaws
  import opened StructureLaws
  import opened GetData

  /** All the bytes of a value under a chunkable type. */
  function DataOf(v: ColumnValue, target: CDataType): (data: seq<byte>)
    requires WellTyped(v) && target.Chunkable()
    ensures Whole(data, target.FormOf())
  {
    if target.BinaryType? then ToBinary(v) else TextBytes(ToText(v), target)
  }

  /** The value can be written under this buffer length: a number's whole digits fit, an interval's bytes fit. */
  predicate Accepts(v: ColumnValue, target: CDataType, bufLen: int)
    requires WellTyped(v) && target.Chunkable()
  {
    if target.BinaryType? then !v.IntervalOf? || bufLen >= |ToBinary(v)|
    else WholeDigitsFit(v, ToText(v), target, false, bufLen)
  }

  /** A read of a chunkable type into a buffer that is there. */
  predicate Reads(v: ColumnValue, column: int, target: CDataType, c: Call)
    requires WellTyped(v) && target.Chunkable()
  {
    c.column == column && c.target == target && !c.isNull && c.bufLen >= 0 && Accepts(v, target, c.bufLen)
  }

  lemma WriteIsChunk(v: ColumnValue, p: Position, c: Call)
    requires WellTyped(v) && !v.Null? && c.target.Chunkable() && !c.isNull && Accepts(v, c.target, c.bufLen)
    ensures Write(v, p, c) == ChunkEffect(ChunkOf(DataOf(v, c.target), c.target.FormOf(), false, c.bufLen, p.delivered))
  {
    hide ToText, ToBinary, ChunkOf, TextBytes, WholeDigitsFit;
  }

  /** The bytes a reply delivers, without the terminator. */
  function Payload(r: Reply, form: Form): seq<byte> {
    if form.Bytes(r.delivered) <= |r.image| then r.image[..form.Bytes(r.delivered)] else []
  }

  function Payloads(rs: seq<Reply>, form: Form): seq<byte> {
    if rs == [] then [] else Payload(rs[0], form) + Payloads(rs[1..], form)
  }

  /** A position the machine can be in while it reads `data`. */
  predicate Within(p: Position, data: seq<byte>, form: Form)
    requires Whole(data, form)
  {
    p.delivered <= Units(data, form) && (p.done ==> p.delivered == Units(data, form))
  }

  /** One chunk at any buffer size delivers the next bytes in order. */
  lemma ChunkConserves(data: seq<byte>, form: Form, bufLen: int, p: Position)
    requires Whole(data, form) && Within(p, data, form) && !p.done
    ensures var (next, r) := Advance(p, ChunkEffect(ChunkOf(data, form, false, bufLen, p.delivered)));
      && next.Some? && next.value.column == p.column && Within(next.value, data, form)
            && p.delivered <= next.value.delivered
      && (HasRoom(form, bufLen) ==> next.value.done || p.delivered < next.value.delivered)
      && r.result.Ok? && Payload(r, form) == data[form.Bytes(p.delivered)..form.Bytes(next.value.delivered)]
  {
  }

  lemma PlainReadConserves(row: seq<ColumnValue>, at: Option<Position>, c: Call, v: ColumnValue)
    requires RowWellTyped(row) && InRow(row, c) && row[c.column - 1] == v && !v.Null? && c.target.Chunkable()
    requires Reads(v, c.column, c.target, c)
    requires Within(Resume(at, c.column), DataOf(v, c.target), c.target.FormOf())
    ensures var (next, r) := PlainStep(row, at, c);
      var p, data, form := Resume(at, c.column), DataOf(v, c.target), c.target.FormOf();
      && next.Some? && next.value.column == c.column && Within(next.value, data, form)
            && p.delivered <= next.value.delivered
      && (HasRoom(form, c.bufLen) ==> next.value.done || p.delivered < next.value.delivered)
      && r.result.Ok? && Payload(r, form) == data[form.Bytes(p.delivered)..form.Bytes(next.value.delivered)]
  {
    hide DataOf, Accepts, ChunkOf, Write, Advance;
    var p := Resume(at, c.column);
    if !p.done {
      WriteIsChunk(v, p, c);
      ChunkConserves(DataOf(v, c.target), c.target.FormOf(), c.bufLen, p);
    }
  }

  predicate AllRead(v: ColumnValue, column: int, target: CDataType, calls: seq<Call>)
    requires WellTyped(v) && target.Chunkable()
  {
    forall k :: 0 <= k < |calls| ==> Reads(v, column, target, calls[k])
  }

  lemma JoinParts(data: seq<byte>, form: Form, p: Position, q: Position, r: Position)
    requires Whole(data, form) && p.delivered <= q.delivered <= r.delivered && Within(r, data, form)
    ensures form.Bytes(p.delivered) <= form.Bytes(q.delivered) <= form.Bytes(r.delivered) <= |data|
    ensures var i, j, k := form.Bytes(p.delivered), form.Bytes(q.delivered), form.Bytes(r.delivered);
      data[i..j] + data[j..k] == data[i..k]
  {
  }

  /**
   However small or uneven the buffers, what the calls have delivered is the
   value from where they started to where they stand: nothing lost, nothing
   delivered twice, and a finished column has been delivered to its end.
   */
  lemma {:induction false} PlainRunConserves(row: seq<ColumnValue>, at: Option<Position>, column: int,
                                             target: CDataType, calls: seq<Call>, v: ColumnValue)
    requires RowWellTyped(row) && 1 <= column <= |row| && row[column - 1] == v && !v.Null? && target.Chunkable()
    requires AllRead(v, column, target, calls) && Within(Resume(at, column), DataOf(v, target), target.FormOf())
    ensures var (last, rs) := PlainRun(row, at, calls);
      var p, q, data, form := Resume(at, column), Resume(last, column), DataOf(v, target), target.FormOf();
      && Within(q, data, form) && p.delivered <= q.delivered
      && (forall k :: 0 <= k < |rs| ==> rs[k].result.Ok?)
      && Payloads(rs, form) == data[form.Bytes(p.delivered)..form.Bytes(q.delivered)]
      && ((forall k :: 0 <= k < |calls| ==> HasRoom(form, calls[k].bufLen)) ==>
          q.done || q.delivered >= p.delivered + |calls|)
    decreases |calls|
  {
    hide DataOf, Accepts, PlainStep, Payload, WellTyped, HasRoom, Form.Bytes, Units;
    var data, form := DataOf(v, target), target.FormOf();
    if calls == [] {
      WithinData(Resume(at, column), data, form);
      EmptySlice(data, form, Resume(at, column).delivered);
    } else {
      assert Reads(v, column, target, calls[0]);
      PlainReadConserves(row, at, calls[0], v);
      var (next, r) := PlainStep(row, at, calls[0]);
      if Resume(at, column).done { StaysDone(row, at, calls[0]); }
      PlainRunConserves(row, next, column, target, calls[1..], v);
      var (last, rs) := PlainRun(row, next, calls[1..]);
      assert ([r] + rs)[1..] == rs;
      JoinParts(data, form, Resume(at, column), next.value, Resume(last, column));
    }
  }

  lemma WithinData(p: Position, data: seq<byte>, form: Form)
    requires Whole(data, form) && Within(p, data, form)
    ensures p.delivered <= Units(data, form)
  {
  }

  lemma EmptySlice(data: seq<byte>, form: Form, n: nat)
    requires Whole(data, form) && n <= Units(data, form)
    ensures form.Bytes(n) <= |data| && data[form.Bytes(n)..form.Bytes(n)] == []
  {
  }

  /** A finished column stays finished. */
  lemma StaysDone(row: seq<ColumnValue>, at: Option<Position>, c: Call)
    requires RowWellTyped(row) && BadArgument(row, c).None? && Resume(at, c.column).done
    ensures PlainStep(row, at, c) == (Some(Resume(at, c.column)), EXHAUSTED)
  {
  }

  /**
   Reading a column from its start, with room for at least one unit each time:
   after more calls than the value has units, the parts make up the whole value,
   no call failed, and the next call for the column answers SQL_NO_DATA and
   touches nothing. This is the machine with the cache, from no cursor at all.
   */
  lemma ReadingInPartsDeliversAll(row: seq<ColumnValue>, column: int, target: CDataType, calls: seq<Call>, again: Call)
    requires RowWellTyped(row) && 1 <= column <= |row| && !row[column - 1].Null? && target.Chunkable()
    requires AllRead(row[column - 1], column, target, calls)
    requires |calls| > Units(DataOf(row[column - 1], target), target.FormOf())
    requires forall k :: 0 <= k < |calls| ==> HasRoom(target.FormOf(), calls[k].bufLen)
    requires again.column == column && again.bufLen >= 0
    ensures var (last, rs) := Run(row, None, calls);
      && (forall k :: 0 <= k < |rs| ==> rs[k].result.Ok?)
      && Payloads(rs, target.FormOf()) == DataOf(row[column - 1], target)
      && Step(row, last, again).1 == EXHAUSTED
  {
    hide DataOf, AllRead, Run, PlainRun, WellTyped, Payloads, Step, PlainStep;
    var v, data, form := row[column - 1], DataOf(row[column - 1], target), target.FormOf();
    CacheIsTransparent(row, None, calls);
    PlainRunConserves(row, None, column, target, calls, v);
    var (last, rs) := Run(row, None, calls);
    assert Resume(At(last), column).done;
    StepIsPlain(row, last, again);
    StaysDone(row, At(last), again);
    WholeSlice(data, form);
  }

  /** So character data read in parts, put together and decoded, is the value's text. */
  lemma TextReadInPartsDecodes(row: seq<ColumnValue>, column: int, target: CDataType, calls: seq<Call>)
    requires RowWellTyped(row) && 1 <= column <= |row| && !row[column - 1].Null? && (target.WChar? || target.Char?)
    requires AllRead(row[column - 1], column, target, calls)
    requires |calls| > Units(DataOf(row[column - 1], target), target.FormOf())
    requires forall k :: 0 <= k < |calls| ==> HasRoom(target.FormOf(), calls[k].bufLen)
    ensures ReadText(Payloads(Run(row, None, calls).1, target.FormOf()), target) == Some(ToText(row[column - 1]))
  {
    hide AllRead, Run, WellTyped, Payloads, ToText, TextBytes, ReadText, Step;
    ReadingInPartsDeliversAll(row, column, target, calls, Call(column, target, false, 0, false, Err(RestrictedType)));
    TextBytesRead(ToText(row[column - 1]), target);
  }

  lemma WholeSlice(data: seq<byte>, form: Form)
    requires Whole(data, form)
    ensures form.Bytes(0) == 0 && form.Bytes(Units(data, form)) == |data| && data[0..|data|] == data
  {
  }

  /** Reading another column leaves the one before: whatever was read of that, this one starts at its beginning. */
  lemma OtherColumnStartsOver(row: seq<ColumnValue>, cursor: Option<Cursor>, first: Call, second: Call)
    requires RowWellTyped(row) && Coherent(row, cursor) && BadArgument(row, first).None?
    requires second.column != first.column
    ensures Step(row, Step(row, cursor, first).0, second).1 == Step(row, None, second).1
  {
    hide Answer, WellTyped, Write, Coherent;
    var after := Step(row, cursor, first).0;
    StepIsPlain(row, cursor, first);
    StaysInColumn(row, At(cursor), first);
    StepIsPlain(row, after, second);
    NothingIsCoherent(row);
    StepIsPlain(row, None, second);
  }

  lemma StaysInColumn(row: seq<ColumnValue>, at: Option<Position>, c: Call)
    requires RowWellTyped(row) && BadArgument(row, c).None?
    ensures var next := PlainStep(row, at, c).0; next.Some? ==> next.value.column == c.column
  {
    hide Write, WellTyped;
  }

  lemma NullStep(row: seq<ColumnValue>, at: Option<Position>, c: Call)
    requires RowWellTyped(row) && BadArgument(row, c).None? && row[c.column - 1].Null? && !Resume(at, c.column).done
    ensures PlainStep(row, at, c) ==
            if !c.hasIndicator then (None, Reply(Err(IndicatorRequired), 0, [], None))
            else (Some(Resume(at, c.column).(done := true)), Reply(Ok(SqlReturn.Success), 0, [], Some(-1)))
  {
    hide NamedEffect, WellTyped;
  }

  /** NULL: SQL_NULL_DATA in the indicator and then SQL_NO_DATA, or 22002 each time where there is no indicator. */
  lemma NullIsRead(row: seq<ColumnValue>, c: Call)
    requires RowWellTyped(row) && BadArgument(row, c).None? && row[c.column - 1].Null?
    ensures var (after, first) := Step(row, None, c);
      var second := Step(row, after, c).1;
      if c.hasIndicator then first == Reply(Ok(SqlReturn.Success), 0, [], Some(-1)) && second == EXHAUSTED
      else first == second == Reply(Err(IndicatorRequired), 0, [], None)
  {
    hide WellTyped, Step, PlainStep, Coherent;
    NothingIsCoherent(row);
    StepIsPlain(row, None, c);
    NullStep(row, None, c);
    var after := Step(row, None, c).0;
    StepIsPlain(row, after, c);
    if c.hasIndicator { StaysDone(row, At(after), c); }
  }

  /** A column number outside the row is 07009, a negative length HY090, in that order, and neither loses the place. */
  lemma ArgumentsAreChecked(row: seq<ColumnValue>, cursor: Option<Cursor>, c: Call)
    requires RowWellTyped(row)
    ensures c.column < 1 || c.column > |row| ==> Step(row, cursor, c) == (cursor, Reply(Err(InvalidIndex), 0, [], None))
    ensures 1 <= c.column <= |row| && c.bufLen < 0 ==>
              Step(row, cursor, c) == (cursor, Reply(Err(InvalidLength), 0, [], None))
    ensures 1 <= c.column <= |row| && c.bufLen >= 0 ==>
              Step(row, cursor, c).1.result != Err(InvalidIndex) && Step(row, cursor, c).1.result != Err(InvalidLength)
  {
    hide Answer, WellTyped;
  }

  // ----- what an error does -----

  /** An error of the write loses the position: the next call starts its column over. */
  lemma ErrorStartsOver(row: seq<ColumnValue>, cursor: Option<Cursor>, c: Call, next: Call)
    requires RowWellTyped(row) && Coherent(row, cursor) && BadArgument(row, c).None?
    requires Step(row, cursor, c).1.result.Err?
    ensures Step(row, Step(row, cursor, c).0, next) == Step(row, None, next)
  {
    hide Answer, WellTyped;
  }

  /** Every column would be read from the same place under both cursors. */
  ghost predicate SamePlace(a: Option<Cursor>, b: Option<Cursor>) {
    forall column :: Resume(At(a), column) == Resume(At(b), column)
  }

  /**
   A failed call keeps the place exactly when its arguments were refused, or
   there was no place to lose: no cursor, or one that had delivered nothing and
   was not finished.
   */
  lemma ErrorKeepsPlaceIff(row: seq<ColumnValue>, cursor: Option<Cursor>, c: Call)
    requires RowWellTyped(row) && Step(row, cursor, c).1.result.Err?
    ensures SamePlace(Step(row, cursor, c).0, cursor) <==>
              || BadArgument(row, c).Some? || cursor == None
              || (cursor.value.at.delivered == 0 && !cursor.value.at.done)
  {
    hide Answer, WellTyped;
    if BadArgument(row, c).None? && cursor.Some? {
      assert Resume(At(cursor), cursor.value.at.column) == cursor.value.at;
      assert Step(row, cursor, c).0 == None;
      assert Resume(At(None), cursor.value.at.column) == Position(cursor.value.at.column, 0, false);
    }
  }

  /**
   A number asked for with a buffer too small for its whole digits: that call
   fails, and the next one delivers the value from its start. That is what was
   left to deliver exactly when the earlier parts had delivered nothing.
   */
  lemma FailedPartRepeats(row: seq<ColumnValue>, cursor: Option<Cursor>, bad: Call, good: Call)
    requires RowWellTyped(row) && Coherent(row, cursor) && BadArgument(row, bad).None?
    requires IsNumericSource(row[bad.column - 1])
    requires cursor.Some? && cursor.value.at.column == bad.column && !cursor.value.at.done
    requires (bad.target.WChar? || bad.target.Char?) && !bad.isNull
    requires !Accepts(row[bad.column - 1], bad.target, bad.bufLen)
    requires Reads(row[bad.column - 1], bad.column, bad.target, good)
    requires good.bufLen >= |DataOf(row[bad.column - 1], bad.target)| + bad.target.FormOf().Width()
    ensures var (after, failed) := Step(row, cursor, bad);
      && failed == Reply(Err(Writing(TooLarge)), 0, [], None)
      && Payload(Step(row, after, good).1, bad.target.FormOf()) == DataOf(row[bad.column - 1], bad.target)
    ensures var data, form, delivered := DataOf(row[bad.column - 1], bad.target), bad.target.FormOf(),
          cursor.value.at.delivered;
      form.Bytes(delivered) <= |data| ==> (data == data[form.Bytes(delivered)..] <==> delivered == 0)
  {
    hide DataOf, Accepts, Step, Answer, WellTyped, ToText, Payload, Coherent, ColumnEffect;
    var v, data, form := row[bad.column - 1], DataOf(row[bad.column - 1], bad.target), bad.target.FormOf();
    StepIsPlain(row, cursor, bad);
    RefusedWrite(v, cursor.value.at, bad);
    ErrorStartsOver(row, cursor, bad, good);
    StepIsPlain(row, None, good) by { NothingIsCoherent(row); }
    PlainReadConserves(row, None, good, v);
    WriteIsChunk(v, Resume(None, good.column), good);
    OneCallIsEnough(data, form, good.bufLen);
    WholeSlice(data, form);
  }

  lemma NothingIsCoherent(row: seq<ColumnValue>)
    ensures Coherent(row, None)
  {
  }

  lemma RefusedWrite(v: ColumnValue, p: Position, c: Call)
    requires WellTyped(v) && IsNumericSource(v) && (c.target.WChar? || c.target.Char?) && !c.isNull
    requires !Accepts(v, c.target, c.bufLen)
    ensures Write(v, p, c) == Effect(Err(TooLarge), [], None)
  {
    hide ToText, WholeDigitsFit, WellTyped;
  }

  lemma OneCallIsEnough(data: seq<byte>, form: Form, bufLen: int)
    requires !form.Raw? && Whole(data, form) && bufLen >= |data| + form.Width()
    ensures var c := ChunkOf(data, form, false, bufLen, 0);
      c.ret == SqlReturn.Success && c.delivered == Units(data, form)
  {
  }

  const PRICE := DecimalText("12.5")

  /** A read of the price as SQL_C_CHAR. */
  function ReadPrice(bufLen: int): Call {
    Call(1, Char, false, bufLen, true, Err(RestrictedType))
  }

  lemma PriceBytes()
    ensures WellTyped(PRICE) && DataOf(PRICE, Char) == Utf8("12.5") && |Utf8("12.5")| == 4 && |Utf8("12")| == 2
    ensures WholePart("12.5") == "12"
  {
    assert "12.5"[1..] == "2.5" && "2.5"[1..] == ".5" && ".5"[1..] == "5" && "5"[1..] == "";
    assert "12"[1..] == "2" && "2"[1..] == "";
    assert |Utf8("5")| == 1 && |Utf8(".5")| == 2 && |Utf8("2.5")| == 3 && |Utf8("2")| == 1;
    SplitAtFirst("12", '.', "5", '.', '.');
    assert "12" + ['.'] + "5" == "12.5";
  }

  lemma PriceAccepts(bufLen: int)
    ensures WellTyped(PRICE) && (Accepts(PRICE, Char, bufLen) <==> bufLen < 1 || bufLen >= 3)
  {
    PriceBytes();
    hide WholePart, Utf8;
  }

  /**
   Three digits' worth is delivered, a one-byte buffer fails, and the whole price
   is delivered after it: "12." and then "12.5".
   */
  lemma FailedPartWitness()
    ensures RowWellTyped([PRICE])
    ensures var (_, rs) := Run([PRICE], None, [ReadPrice(4), ReadPrice(1), ReadPrice(10)]);
      && |rs| == 3 && rs[0].result == Ok(SuccessWithInfo) && Payload(rs[0], Narrow) == Utf8("12.5")[..3]
      && rs[1] == Reply(Err(Writing(TooLarge)), 0, [], None)
      && Payload(rs[2], Narrow) == Utf8("12.5")
  {
    hide Step, Payload, Utf8, Accepts, DataOf, WellTyped;
    var row := [PRICE];
    PriceBytes();
    PriceAccepts(4);
    PriceAccepts(1);
    PriceAccepts(10);
    var (c1, r1) := Step(row, None, ReadPrice(4));
    FirstPart(row, r1, c1);
    FailedPartRepeats(row, c1, ReadPrice(1), ReadPrice(10));
    ThreeSteps(row, ReadPrice(4), ReadPrice(1), ReadPrice(10));
  }

  lemma FirstPart(row: seq<ColumnValue>, r1: Reply, c1: Option<Cursor>)
    requires row == [PRICE] && RowWellTyped(row) && (c1, r1) == Step(row, None, ReadPrice(4))
    requires Accepts(PRICE, Char, 4) && DataOf(PRICE, Char) == Utf8("12.5") && |Utf8("12.5")| == 4
    ensures Coherent(row, c1) && c1.Some? && c1.value.at == Position(1, 3, false)
    ensures r1.result == Ok(SuccessWithInfo) && Payload(r1, Narrow) == Utf8("12.5")[..3]
  {
    hide Utf8, Accepts, DataOf, WellTyped, Step, Write, ChunkOf, Coherent;
    NothingIsCoherent(row);
    StepIsPlain(row, None, ReadPrice(4));
    WriteIsChunk(PRICE, Resume(None, 1), ReadPrice(4));
    PriceChunk(Utf8("12.5"));
  }

  lemma PriceChunk(data: seq<byte>)
    requires |data| == 4
    ensures var c := ChunkOf(data, Narrow, false, 4, 0);
      c.ret == SuccessWithInfo && c.delivered == 3 && |c.image| == 4 && c.image[..3] == data[..3]
  {
  }

  lemma ThreeSteps(row: seq<ColumnValue>, a: Call, b: Call, c: Call)
    requires RowWellTyped(row)
    ensures var (c1, r1) := Step(row, None, a);
      var (c2, r2) := Step(row, c1, b);
      Run(row, None, [a, b, c]).1 == [r1, r2, Step(row, c2, c).1]
  {
    hide Step, Run;
    var c1 := Step(row, None, a).0;
    var c2 := Step(row, c1, b).0;
    var c3 := Step(row, c2, c).0;
    assert [a, b, c] == [a] + [b, c] && [b, c] == [b] + [c] && [c] == [c] + [];
    FirstStep(row, None, a, [b, c]);
    FirstStep(row, c1, b, [c]);
    FirstStep(row, c2, c, []);
    NoCalls(row, c3);
  }

  lemma FirstStep(row: seq<ColumnValue>, cursor: Option<Cursor>, c: Call, rest: seq<Call>)
    requires RowWellTyped(row)
    ensures Run(row, cursor, [c] + rest).1 == [Step(row, cursor, c).1] + Run(row, Step(row, cursor, c).0, rest).1
  {
    hide Step;
    assert ([c] + rest)[1..] == rest;
  }

  lemma NoCalls(row: seq<ColumnValue>, cursor: Option<Cursor>)
    requires RowWellTyped(row)
    ensures Run(row, cursor, []).1 == []
  {
  }

  // ----- fixed types -----

  /** The type a call's value is written as. */
  function Named(v: ColumnValue, target: CDataType): CDataType {
    if target.Default? then Inferred(v) else target
  }

  /** The value converts: a number in the target's range, or any other conversion there is. */
  predicate FillsNamed(v: ColumnValue, t: CDataType, beyond: Result<FixedWrite, ColumnError>)
    requires WellTyped(v)
  {
    if t.Integer? && PivotOf(v).Some? then
      var q := ValueOf(PivotOf(v).value); q.Some? && t.t.Holds(q.value.Whole())
    else if t.Integer? then (v.String? || v.DecimalText? || v.IntervalOf?) && beyond.Ok?
    else Fixed(v, t, beyond).Ok?
  }

  /** Converting it drops a fraction: a number that is not whole, a time of day, a fraction of a second. */
  predicate DropsNamed(v: ColumnValue, t: CDataType, beyond: Result<FixedWrite, ColumnError>)
    requires WellTyped(v)
  {
    if t.Integer? && PivotOf(v).Some? then
      var q := ValueOf(PivotOf(v).value); q.Some? && !q.value.Integral()
    else if t.Integer? then beyond.Ok? && beyond.value.dropped
    else var w := Fixed(v, t, beyond); w.Ok? && w.value.dropped
  }

  /** NULL fills its indicator, and SQL_C_DEFAULT refuses a variable too wide for the buffer. */
  predicate Fills(v: ColumnValue, c: Call)
    requires WellTyped(v)
  {
    if v.Null? then c.hasIndicator
    else if c.target.Default? && 0 < c.bufLen < Inferred(v).Width() then false
    else FillsNamed(v, Named(v, c.target), c.beyond)
  }

  predicate Drops(v: ColumnValue, c: Call)
    requires WellTyped(v)
  {
    !v.Null? && DropsNamed(v, Named(v, c.target), c.beyond)
  }

  /** What an effect says, by whether it fills its variable and drops something doing so. */
  predicate Outcome(e: Effect, fills: bool, drops: bool) {
    && (e.indicator.Some? <==> fills)
    && (if fills then e.result == if drops then Err(FractionDropped) else Done(SqlReturn.Success) else e.result.Err?)
  }

  lemma FixedOutcome(r: Result<FixedWrite, ColumnError>, isNull: bool)
    ensures Outcome(FixedEffect(r, isNull), r.Ok?, r.Ok? && r.value.dropped)
  {
  }

  lemma IntegerOutcome(p: Pivot, t: IntTarget, isNull: bool)
    requires p.Proper()
    ensures var q := ValueOf(p);
      Outcome(IntegerEffect(p, t, isNull), q.Some? && t.Holds(q.value.Whole()), q.Some? && !q.value.Integral())
  {
    hide IntBytes, IntTarget.Holds, IntTarget.Width, Rational.Whole, Rational.Integral, ValueOf, Pivot.Proper;
  }

  lemma IntegerWriteIs(v: ColumnValue, t: IntTarget, isNull: bool, bufLen: int, offset: nat,
                       beyond: Result<FixedWrite, ColumnError>)
    requires WellTyped(v)
    ensures Outcome(NamedEffect(v, Integer(t), isNull, bufLen, offset, beyond),
                    FillsNamed(v, Integer(t), beyond), DropsNamed(v, Integer(t), beyond))
  {
    hide PivotOf, IntTarget.Holds, WellTyped, Rational.Whole, Rational.Integral, ValueOf, Outcome, FixedEffect,
         IntegerEffect;
    hide Pivot.Proper;
    if PivotOf(v).Some? {
      IntegerOutcome(PivotOf(v).value, t, isNull);
    } else {
      NoNumber(beyond, isNull, beyond.Ok? && beyond.value.dropped);
    }
  }

  lemma OtherWriteIs(v: ColumnValue, t: CDataType, isNull: bool, bufLen: int, offset: nat,
                     beyond: Result<FixedWrite, ColumnError>)
    requires WellTyped(v) && !t.Integer? && !t.Chunkable() && !t.Default?
    ensures Outcome(NamedEffect(v, t, isNull, bufLen, offset, beyond), FillsNamed(v, t, beyond),
                    DropsNamed(v, t, beyond))
  {
    hide Fixed, PivotOf, WellTyped, Outcome, FixedEffect;
    FixedOutcome(Fixed(v, t, beyond), isNull);
  }

  lemma FixedWriteIs(v: ColumnValue, p: Position, c: Call)
    requires WellTyped(v) && (v.Null? || !Named(v, c.target).Chunkable()) && (v.Null? ==> c.hasIndicator)
    ensures Outcome(Write(v, p, c), Fills(v, c), Drops(v, c))
  {
    hide WellTyped, Inferred, Outcome, NamedEffect, FillsNamed, DropsNamed, CDataType.Width;
    var t := Named(v, c.target);
    NullOutcome();
    RefusedOutcome(Drops(v, c));
    if t.Integer? {
      IntegerWriteIs(v, t.t, c.isNull, c.bufLen, p.delivered, c.beyond);
    } else if !v.Null? {
      OtherWriteIs(v, t, c.isNull, c.bufLen, p.delivered, c.beyond);
    }
  }

  lemma NullOutcome()
    ensures Outcome(Effect(Done(SqlReturn.Success), [], Some(NULL_DATA)), true, false)
  {
  }

  /** What a call that fills nothing would drop does not matter. */
  lemma RefusedOutcome(drops: bool)
    ensures Outcome(Effect(Err(RestrictedType), [], None), false, drops)
  {
  }

  lemma NoNumber(beyond: Result<FixedWrite, ColumnError>, isNull: bool, drops: bool)
    requires drops == (beyond.Ok? && beyond.value.dropped)
    ensures Outcome(FixedEffect(beyond, isNull), beyond.Ok?, drops)
    ensures Outcome(Effect(Err(RestrictedType), [], None), false, drops)
  {
  }

  /**
   A call for a fixed variable is answered SQL_NO_DATA the second time exactly
   when the value fills the variable and drops no fraction. A dropped fraction is
   carried as an error, so the cursor is lost and the same call fills the
   variable again. SQL_C_DEFAULT is no exception.
   */
  lemma FixedIsReadOnceIff(row: seq<ColumnValue>, c: Call)
    requires RowWellTyped(row) && BadArgument(row, c).None?
    requires row[c.column - 1].Null? || !Named(row[c.column - 1], c.target).Chunkable()
    ensures var (after, first) := Step(row, None, c);
      var v, second := row[c.column - 1], Step(row, after, c).1;
      && (first.indicator.Some? <==> Fills(v, c))
      && (second == EXHAUSTED <==> Fills(v, c) && !Drops(v, c))
      && (Fills(v, c) && Drops(v, c) ==> first.result == Err(Writing(FractionDropped)) && second == first)
  {
    hide Write, Fills, Drops, WellTyped, CachedEffect, Named, Step;
    var v, p := row[c.column - 1], Resume(None, c.column);
    NullFills(v, c);
    NothingIsCoherent(row);
    StepIsPlain(row, None, c);
    var after := Step(row, None, c).0;
    StepIsPlain(row, after, c);
    if !v.Null? || c.hasIndicator { FixedWriteIs(v, p, c); }
  }

  /** For a number into an integer variable: exactly when the variable can hold it, and it is whole. */
  lemma NumberIsReadOnceIff(row: seq<ColumnValue>, c: Call, q: Rational)
    requires RowWellTyped(row) && BadArgument(row, c).None? && c.target.Integer?
    requires HoldsNumber(row[c.column - 1], q)
    ensures var (after, first) := Step(row, None, c);
      var second, held := Step(row, after, c).1, q.Proper() && c.target.t.Holds(q.Whole());
      && (first.indicator.Some? <==> held)
      && (second == EXHAUSTED <==> held && q.Integral())
      && (held && !q.Integral() ==> first.result == Err(Writing(FractionDropped)) && second == first)
  {
    hide Step, HoldsNumber, WellTyped, PivotOf, ValueOf, SameNumber, IntTarget.Holds, Rational.Whole, Rational.Integral;
    var v := row[c.column - 1];
    PivotHolds(v, q);
    EqualNumbersNarrowAlike(q, ValueOf(PivotOf(v).value).value, c.target.t);
    FixedIsReadOnceIff(row, c);
    NoNumberInNull(v, q);
  }

  lemma NoNumberInNull(v: ColumnValue, q: Rational)
    requires HoldsNumber(v, q)
    ensures !v.Null?
  {
  }

  lemma NullFills(v: ColumnValue, c: Call)
    requires WellTyped(v)
    ensures v.Null? && !c.hasIndicator ==> !Fills(v, c)
  {
  }

  const TIME_WITH_FRACTION := TimeValue(Time(10, 30, 15, 5))

  /** Reads of the time as SQL_C_TYPE_TIME, by name and by default. */
  function ReadTime(byName: bool): Call {
    Call(1, if byName then TypeTime else Default, false, 0, true, Err(RestrictedType))
  }

  lemma TimeDropsFraction(byName: bool)
    ensures WellTyped(TIME_WITH_FRACTION) && !Named(TIME_WITH_FRACTION, ReadTime(byName).target).Chunkable()
    ensures Fills(TIME_WITH_FRACTION, ReadTime(byName)) && Drops(TIME_WITH_FRACTION, ReadTime(byName))
  {
    hide TimeImage, DateImage, TimestampImage, GuidImage, PivotOf, ToText, ToBinary, IntBytes;
  }

  /** A time with a fraction is delivered twice, under both names of its type. */
  lemma FixedReadTwiceWitness(byName: bool)
    ensures RowWellTyped([TIME_WITH_FRACTION])
    ensures var (after, first) := Step([TIME_WITH_FRACTION], None, ReadTime(byName));
      first.result == Err(Writing(FractionDropped)) && Step([TIME_WITH_FRACTION], after, ReadTime(byName)).1 == first
  {
    hide Fills, Drops, WellTyped, Named, Step;
    TimeDropsFraction(byName);
    FixedIsReadOnceIff([TIME_WITH_FRACTION], ReadTime(byName));
  }
}
