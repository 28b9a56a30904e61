/**
 Delivering a character or binary value in parts: the writers that fill the
 application's buffer, and what the parts add up to.

 The buffer is an array the application promises is at least `bufLen` bytes
 long; a null buffer or indicator is a null reference.
 */
module ChunkWriter {
  import opened Bytes
  import opened Encoding

  datatype SqlReturn = Success | SuccessWithInfo | NoData

  class Indicator {
    var value: int
  }

  /** The three chunkable targets, by how they lay a value out. */
  datatype Form = Wide | Narrow | Raw
  {
    /** Bytes in one unit. */
    function Width(): (w: nat)
      ensures 1 <= w <= 2
    {
      if Wide? then 2 else 1
    }

    /** Bytes in `n` units. */
    function Bytes(n: nat): (b: nat) {
      if Wide? then 2 * n else n
    }

    /** Units kept back for the terminator. */
    function Reserve(): (r: nat)
      ensures r <= 1
    {
      if Raw? then 0 else 1
    }
  }

  /**
   What one call does: its return, the units delivered, the indicator, and the
   bytes it puts at the front of the buffer.
   */
  datatype Chunk = Chunk(ret: SqlReturn, delivered: nat, indicator: int, image: seq<byte>)

  function Min(a: int, b: int): int {
    if a < b then a else b
  }

  function Remaining(units: nat, offset: nat): nat {
    if offset < units then units - offset else 0
  }

  /** Whole units of `data`. */
  predicate Whole(data: seq<byte>, form: Form) {
    form.Wide? ==> |data| % 2 == 0
  }

  function Units(data: seq<byte>, form: Form): (n: nat)
    requires Whole(data, form)
    ensures form.Bytes(n) == |data|
  {
    if form.Wide? then |data| / 2 else |data|
  }

  function Zeros(n: nat): (z: seq<byte>)
    ensures |z| == n && forall k :: 0 <= k < n ==> z[k] == 0
  {
    seq(n, _ => 0)
  }

  /** Units that fit in a usable buffer beside the terminator. */
  function Capacity(form: Form, bufLen: int): (n: nat)
    requires bufLen >= form.Width()
  {
    if form.Wide? then bufLen / 2 - 1 else bufLen - form.Reserve()
  }

  /** One call at `offset` units into `data`. */
  function ChunkOf(data: seq<byte>, form: Form, isNull: bool, bufLen: int, offset: nat): Chunk
    requires Whole(data, form)
  {
    var left := Remaining(Units(data, form), offset);
    var indicator := form.Bytes(left);
    if isNull then Chunk(Success, 0, indicator, [])
    else if bufLen < form.Width() then Chunk(SuccessWithInfo, 0, indicator, [])
    else
      var n := Min(left, Capacity(form, bufLen));
      var start := |data| - indicator;
      Chunk(if n < left then SuccessWithInfo else Success, n, indicator,
            data[start..start + form.Bytes(n)] + Zeros(form.Bytes(form.Reserve())))
  }

  /** A call never writes past the buffer the application declared. */
  lemma ImageFits(data: seq<byte>, form: Form, isNull: bool, bufLen: int, offset: nat)
    requires Whole(data, form)
    ensures var c := ChunkOf(data, form, isNull, bufLen, offset);
      if isNull || bufLen < form.Width() then c.image == [] && c.delivered == 0
      else |c.image| == form.Bytes(c.delivered + form.Reserve()) <= bufLen
  {
  }

  // ----- the writers -----

  method CopyBytes(src: seq<byte>, target: array<byte>)
    requires |src| <= target.Length
    modifies target
    ensures target[..] == src + old(target[..])[|src|..]
  {
    for i := 0 to |src|
      invariant target[..i] == src[..i]
      invariant target[i..] == old(target[i..])
    {
      target[i] := src[i];
    }
    assert target[..] == target[..|src|] + target[|src|..];
  }

  /** A chunk of two-byte units, in units. */
  ghost predicate IsWideChunk(c: Chunk, data: seq<byte>, units: nat, isNull: bool, bufLen: int, offset: nat)
    requires |data| == 2 * units
  {
    var left := Remaining(units, offset);
    && c.indicator == 2 * left
    && if isNull then c.ret == Success && c.delivered == 0 && c.image == []
       else if bufLen < 2 then c.ret == SuccessWithInfo && c.delivered == 0 && c.image == []
       else
         var start, n := units - left, Min(left, bufLen / 2 - 1);
         && c.ret == (if n < left then SuccessWithInfo else Success) && c.delivered == n
         && c.image == data[2 * start..2 * (start + n)] + [0, 0]
  }

  lemma PairedChunk(data: seq<byte>, units: nat, isNull: bool, bufLen: int, offset: nat)
    requires |data| == 2 * units
    ensures IsWideChunk(ChunkOf(data, Wide, isNull, bufLen, offset), data, units, isNull, bufLen, offset)
  {
    assert Zeros(2) == [0, 0];
  }

  lemma WideImage(wide: seq<u16>, start: nat, n: nat)
    requires start + n <= |wide|
    ensures UnitBytes(wide)[2 * start..2 * (start + n)] == Sent(wide, start, n)
  {
    hide UnitBytes;
    Rejoin(wide, start, start + n);
    UnitMiddle(wide[..start], wide[start..start + n], wide[start + n..]);
  }

  lemma Rejoin(wide: seq<u16>, i: nat, j: nat)
    requires i <= j <= |wide|
    ensures wide[..i] + wide[i..j] + wide[j..] == wide
  {
    assert wide[..i] + wide[i..j] == wide[..j];
  }

  lemma UnitMiddle(a: seq<u16>, b: seq<u16>, c: seq<u16>)
    ensures UnitBytes(a + b + c)[2 * |a|..2 * (|a| + |b|)] == UnitBytes(b)
  {
    hide UnitBytes;
    UnitBytesConcat(a + b, c);
    UnitBytesConcat(a, b);
  }

  /** The bytes of `n` units from `start` on. */
  ghost function Sent(units: seq<u16>, start: nat, n: nat): (bytes: seq<byte>)
    requires start + n <= |units|
    ensures |bytes| == 2 * n
  {
    UnitBytes(units[start..start + n])
  }

  /** A call on UTF-16 units. */
  function WideChunkOf(units: seq<u16>, isNull: bool, bufLen: int, offset: nat): Chunk {
    ChunkOf(UnitBytes(units), Wide, isNull, bufLen, offset)
  }

  /** Its outcome, in units. */
  lemma WideOutcome(units: seq<u16>, isNull: bool, bufLen: int, offset: nat)
    ensures var c, left := WideChunkOf(units, isNull, bufLen, offset), Remaining(|units|, offset);
      && c.indicator == 2 * left
      && if isNull then c.ret == Success && c.delivered == 0 && c.image == []
         else if bufLen < 2 then c.ret == SuccessWithInfo && c.delivered == 0 && c.image == []
         else
           var n := Min(left, bufLen / 2 - 1);
           && c.ret == (if n < left then SuccessWithInfo else Success) && c.delivered == n
           && c.image == Sent(units, |units| - left, n) + [0, 0] && |c.image| == 2 * n + 2
  {
    hide UnitBytes, ChunkOf;
    var data := UnitBytes(units);
    PairedChunk(data, |units|, isNull, bufLen, offset);
    var left := Remaining(|units|, offset);
    var n := Min(left, bufLen / 2 - 1);
    if n >= 0 { WideImage(units, |units| - left, n); }
  }

  method WriteWcharUnits(wide: seq<u16>, target: array?<byte>, bufLen: int, ind: Indicator?, offset: nat)
    returns (ret: SqlReturn, delivered: nat)
    requires target != null ==> bufLen <= target.Length
    modifies target, ind
    ensures var c := WideChunkOf(wide, target == null, bufLen, offset);
      && ret == c.ret && delivered == c.delivered
      && (ind != null ==> ind.value == c.indicator)
      && (target != null ==> |c.image| <= target.Length && target[..] == c.image + old(target[..])[|c.image|..])
  {
    hide UnitBytes, WideChunkOf;
    WideOutcome(wide, target == null, bufLen, offset);
    var start := if offset < |wide| then offset else |wide|;
    var remaining := |wide| - start;
    if ind != null { ind.value := remaining * 2; }
    if target == null { return Success, 0; }
    if bufLen < 2 { return SuccessWithInfo, 0; }
    var copyCount := Min(remaining, bufLen / 2 - 1);
    CopyBytes(UnitBytes(wide[start..start + copyCount]) + [0, 0], target);
    delivered := copyCount;
    ret := if copyCount < remaining then SuccessWithInfo else Success;
  }

  lemma UnitsGrow(units: seq<u16>, i: nat, j: nat)
    requires i <= j < |units|
    ensures UnitBytes(units[i..j + 1]) == UnitBytes(units[i..j]) + UnitBytes([units[j]])
  {
    hide UnitBytes;
    assert units[i..j + 1] == units[i..j] + [units[j]];
    UnitBytesConcat(units[i..j], [units[j]]);
  }

  /** The allocation-free writer: one unit at a time, straight into the buffer. */
  method WriteWchar(s: string, target: array?<byte>, bufLen: int, ind: Indicator?, offset: nat)
    returns (ret: SqlReturn, delivered: nat)
    requires target != null ==> bufLen <= target.Length
    modifies target, ind
    ensures var c := WideChunkOf(Utf16(s), target == null, bufLen, offset);
      && ret == c.ret && delivered == c.delivered
      && (ind != null ==> ind.value == c.indicator)
      && (target != null ==> |c.image| <= target.Length && target[..] == c.image + old(target[..])[|c.image|..])
  {
    hide UnitBytes, WideChunkOf, Utf16, Sent;
    var units := Utf16(s);
    WideOutcome(units, target == null, bufLen, offset);
    var remainingUnits := Remaining(|units|, offset);
    if ind != null { ind.value := remainingUnits * 2; }
    if target == null { return Success, 0; }
    if bufLen < 2 { return SuccessWithInfo, 0; }
    var written := Min(remainingUnits, bufLen / 2 - 1);
    StoreUnits(units, target, |units| - remainingUnits, written);
    delivered := written;
    ret := if written < remainingUnits then SuccessWithInfo else Success;
  }

  /** Store `count` units from `start` on, one at a time, and a terminator. */
  method StoreUnits(units: seq<u16>, target: array<byte>, start: nat, count: nat)
    requires start + count <= |units| && 2 * count + 2 <= target.Length
    modifies target
    ensures target[..] == Sent(units, start, count) + [0, 0] + old(target[..])[2 * count + 2..]
  {
    hide Sent;
    ghost var before := target[..];
    NoUnits(units, start);
    for k := 0 to count
      invariant target[..] == Sent(units, start, k) + before[2 * k..]
    {
      SendUnit(units, target, start, k, before);
    }
    Terminate(target, count, Sent(units, start, count), before);
  }

  method Terminate(target: array<byte>, k: nat, ghost sent: seq<byte>, ghost before: seq<byte>)
    requires |sent| == 2 * k && |before| == target.Length && 2 * k + 2 <= target.Length
    requires target[..] == sent + before[2 * k..]
    modifies target
    ensures target[..] == sent + [0, 0] + before[2 * k + 2..]
  {
    hide UnitBytes;
    ZeroUnit();
    WriteUnit(target, k, 0, sent, before);
  }

  /** One turn of the loop: unit `k` of those from `start` goes in behind its predecessors. */
  method SendUnit(units: seq<u16>, target: array<byte>, start: nat, k: nat, ghost before: seq<byte>)
    requires start + k < |units| && |before| == target.Length && 2 * k + 2 <= target.Length
    requires target[..] == Sent(units, start, k) + before[2 * k..]
    modifies target
    ensures target[..] == Sent(units, start, k + 1) + before[2 * k + 2..]
  {
    hide UnitBytes;
    UnitsGrow(units, start, start + k);
    WriteUnit(target, k, units[start + k], Sent(units, start, k), before);
  }

  lemma NoUnits(units: seq<u16>, i: nat)
    requires i <= |units|
    ensures Sent(units, i, 0) == []
  {
  }

  lemma ZeroUnit()
    ensures UnitBytes([0]) == [0, 0]
  {
    assert UnitBytes([]) == [];
  }

  /** An unaligned store of unit `k`, after the bytes already `sent`. */
  method WriteUnit(target: array<byte>, k: nat, unit: u16, ghost sent: seq<byte>, ghost before: seq<byte>)
    requires |sent| == 2 * k && |before| == target.Length && 2 * k + 2 <= target.Length
    requires target[..] == sent + before[2 * k..]
    modifies target
    ensures target[..] == sent + UnitBytes([unit]) + before[2 * k + 2..]
  {
    target[2 * k], target[2 * k + 1] := Low(unit), High(unit);
    OneUnit(unit);
  }

  lemma OneUnit(unit: u16)
    ensures UnitBytes([unit]) == [Low(unit), High(unit)]
  {
    assert UnitBytes([]) == [];
  }

  /** A chunk of single bytes, in bytes. */
  lemma ByteChunk(data: seq<byte>, form: Form, isNull: bool, bufLen: int, offset: nat)
    requires !form.Wide?
    ensures var left := Remaining(|data|, offset);
      var start := |data| - left;
      var c := ChunkOf(data, form, isNull, bufLen, offset);
      && c.indicator == left
      && if isNull then c.ret == Success && c.delivered == 0 && c.image == []
         else if bufLen <= 0 then c.ret == SuccessWithInfo && c.delivered == 0 && c.image == []
         else
           var n := Min(left, bufLen - form.Reserve());
           && c.ret == (if n < left then SuccessWithInfo else Success) && c.delivered == n
           && c.image == data[start..start + n] + if form.Narrow? then [0] else []
  {
    assert Zeros(1) == [0];
    assert Zeros(0) == [];
  }

  method WriteCharBytes(all: seq<byte>, target: array?<byte>, bufLen: int, ind: Indicator?, offset: nat)
    returns (ret: SqlReturn, delivered: nat)
    requires target != null ==> bufLen <= target.Length
    modifies target, ind
    ensures var c := ChunkOf(all, Narrow, target == null, bufLen, offset);
      && ret == c.ret && delivered == c.delivered
      && (ind != null ==> ind.value == c.indicator)
      && (target != null ==> |c.image| <= target.Length && target[..] == c.image + old(target[..])[|c.image|..])
  {
    hide ChunkOf;
    ByteChunk(all, Narrow, target == null, bufLen, offset);
    var start := if offset < |all| then offset else |all|;
    var remaining := |all| - start;
    if ind != null { ind.value := remaining; }
    if target == null { return Success, 0; }
    if bufLen <= 0 { return SuccessWithInfo, 0; }
    var copyCount := Min(remaining, bufLen - 1);
    CopyBytes(all[start..start + copyCount] + [0], target);
    delivered := copyCount;
    ret := if copyCount < remaining then SuccessWithInfo else Success;
  }

  method WriteBinary(data: seq<byte>, target: array?<byte>, bufLen: int, ind: Indicator?, offset: nat)
    returns (ret: SqlReturn, delivered: nat)
    requires target != null ==> bufLen <= target.Length
    modifies target, ind
    ensures var c := ChunkOf(data, Raw, target == null, bufLen, offset);
      && ret == c.ret && delivered == c.delivered
      && (ind != null ==> ind.value == c.indicator)
      && (target != null ==> |c.image| <= target.Length && target[..] == c.image + old(target[..])[|c.image|..])
  {
    hide ChunkOf;
    ByteChunk(data, Raw, target == null, bufLen, offset);
    var start := if offset < |data| then offset else |data|;
    var remaining := |data| - start;
    if ind != null { ind.value := remaining; }
    if target == null { return Success, 0; }
    if bufLen <= 0 { return SuccessWithInfo, 0; }
    var copyCount := Min(remaining, bufLen);
    CopyBytes(data[start..start + copyCount] + [], target);
    delivered := copyCount;
    ret := if copyCount < remaining then SuccessWithInfo else Success;
  }

  // ----- draining a value in parts -----

  /** Room for at least one unit beyond the terminator. */
  predicate HasRoom(form: Form, bufLen: int) {
    bufLen >= form.Bytes(1 + form.Reserve())
  }

  /** The bytes a call delivers, without the terminator. */
  function Part(c: Chunk, form: Form): seq<byte> {
    if form.Bytes(c.delivered) <= |c.image| then c.image[..form.Bytes(c.delivered)] else []
  }

  function Joined(cs: seq<Chunk>, form: Form): seq<byte> {
    if cs == [] then [] else Part(cs[0], form) + Joined(cs[1..], form)
  }

  /** Repeated calls from `offset` on, call `k` with a buffer of `sizes(k)` bytes, until one reports success. */
  function Drain(data: seq<byte>, form: Form, offset: nat, sizes: nat -> int, call: nat): (cs: seq<Chunk>)
    requires Whole(data, form) && offset <= Units(data, form) && forall k: nat :: HasRoom(form, sizes(k))
    ensures |cs| > 0
    decreases Units(data, form) - offset
  {
    assert HasRoom(form, sizes(call));
    var c := ChunkOf(data, form, false, sizes(call), offset);
    if c.ret == Success then [c] else [c] + Drain(data, form, offset + c.delivered, sizes, call + 1)
  }

  lemma OnePart(data: seq<byte>, form: Form, bufLen: int, offset: nat)
    requires Whole(data, form) && offset <= Units(data, form) && HasRoom(form, bufLen)
    ensures var c := ChunkOf(data, form, false, bufLen, offset);
      && offset + c.delivered <= Units(data, form)
      && c.indicator == |data| - form.Bytes(offset)
      && Part(c, form) == data[form.Bytes(offset)..form.Bytes(offset + c.delivered)]
      && (c.ret == Success ==> offset + c.delivered == Units(data, form))
      && (c.ret != Success ==> c.ret == SuccessWithInfo && 0 < c.delivered && offset + c.delivered < Units(data, form))
  {
  }

  /**
   What a finished drain looks like: every call but the last truncates and moves
   on, and the indicators count down.
   */
  ghost predicate Drained(cs: seq<Chunk>, form: Form, rest: seq<byte>) {
    && |cs| > 0 && cs[|cs| - 1].ret == Success
    && (forall k :: 0 <= k < |cs| - 1 ==>
          cs[k].ret == SuccessWithInfo && 0 < cs[k].delivered
                && cs[k + 1].indicator == cs[k].indicator - form.Bytes(cs[k].delivered))
    && cs[0].indicator == |rest|
    && Joined(cs, form) == rest
  }

  lemma DrainedAtOnce(c: Chunk, form: Form, rest: seq<byte>)
    requires c.ret == Success && c.indicator == |rest| && Part(c, form) == rest
    ensures Drained([c], form, rest)
  {
    hide Part;
    assert Joined([c], form) == Part(c, form) + Joined([], form);
  }

  lemma JoinedStep(c: Chunk, cs: seq<Chunk>, form: Form)
    ensures Joined([c] + cs, form) == Part(c, form) + Joined(cs, form)
  {
    hide Part;
    assert ([c] + cs)[1..] == cs;
  }

  lemma DrainedLater(c: Chunk, cs: seq<Chunk>, form: Form, rest: seq<byte>)
    requires Drained(cs, form, rest) && c.ret == SuccessWithInfo && 0 < c.delivered
    requires |Part(c, form)| == form.Bytes(c.delivered) && c.indicator == |Part(c, form)| + |rest|
    ensures Drained([c] + cs, form, Part(c, form) + rest)
  {
    hide Part, Joined;
    JoinedStep(c, cs, form);
    forall k | 0 <= k < |cs|
      ensures var all := [c] + cs;
        all[k].ret == SuccessWithInfo && 0 < all[k].delivered
              && all[k + 1].indicator == all[k].indicator - form.Bytes(all[k].delivered)
    {
      assert k > 0 ==> ([c] + cs)[k] == cs[k - 1];
    }
  }

  /**
   Whatever buffers the application offers, so long as each has room for a unit,
   the calls end in success, the parts concatenate to the value, and each
   indicator is the bytes remaining when its call began.
   */
  lemma {:induction false} DrainDeliversAll(data: seq<byte>, form: Form, offset: nat, sizes: nat -> int, call: nat)
    requires Whole(data, form) && offset <= Units(data, form) && forall k: nat :: HasRoom(form, sizes(k))
    ensures form.Bytes(offset) <= |data|
    ensures Drained(Drain(data, form, offset, sizes, call), form, data[form.Bytes(offset)..])
    decreases Units(data, form) - offset
  {
    hide ChunkOf, Part, Drained;
    assert HasRoom(form, sizes(call));
    var c := ChunkOf(data, form, false, sizes(call), offset);
    OnePart(data, form, sizes(call), offset);
    var i, j := form.Bytes(offset), form.Bytes(offset + c.delivered);
    assert data[i..] == data[i..j] + data[j..];
    if c.ret == Success {
      assert data[j..] == [];
      DrainedAtOnce(c, form, data[i..]);
    } else {
      DrainDeliversAll(data, form, offset + c.delivered, sizes, call + 1);
      DrainedLater(c, Drain(data, form, offset + c.delivered, sizes, call + 1), form, data[j..]);
    }
  }
}
