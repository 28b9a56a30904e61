/** Numbers into the eight integer C types: cut off toward zero, range-checked, then written. */
module Narrowing {
  import opened Arithmetic
  import opened Wrappers
  import opened Bytes
  import opened Decimal
  import opened NumericLiteral
  import opened NumericSpelling
  import ChunkWriter

  datatype IntTarget = STinyInt | SShort | SLong | SBigInt | UTinyInt | UShort | ULong | UBigInt
  {
    function Width(): (w: nat)
      ensures 1 <= w <= 8
    {
      match this
      case STinyInt => 1 case UTinyInt => 1
      case SShort => 2 case UShort => 2
      case SLong => 4 case ULong => 4
      case SBigInt => 8 case UBigInt => 8
    }

    predicate IsSigned() {
      STinyInt? || SShort? || SLong? || SBigInt?
    }

    /** Two to the number of bits. */
    function Modulus(): (m: nat)
      ensures m % 2 == 0
    {
      match this
      case STinyInt => 0x100 case UTinyInt => 0x100
      case SShort => 0x1_0000 case UShort => 0x1_0000
      case SLong => 0x1_0000_0000 case ULong => 0x1_0000_0000
      case SBigInt => 0x1_0000_0000_0000_0000 case UBigInt => 0x1_0000_0000_0000_0000
    }

    predicate Holds(n: int) {
      if IsSigned() then 0 <= 2 * n + Modulus() < 2 * Modulus() else 0 <= n < Modulus()
    }
  }

  /** A binary float, its finite values as the exact rationals they are. */
  datatype Float = NaN | Infinite(negative: bool) | Finite(value: Rational)
  {
    predicate Proper() { Finite? ==> value.Proper() }
  }

  datatype Pivot = Int(v: int) | Floating(f: Float) | Exact(literal: DecimalLiteral)
  {
    predicate Proper() {
      match this case Int(v) => SBigInt.Holds(v) case Floating(f) => f.Proper() case Exact(l) => WellFormed(l)
    }
  }

  function FloatValue(f: Float): Option<Rational> {
    match f case Finite(q) => Some(q) case _ => None
  }

  /** The number a source holds, if it holds one. */
  function ValueOf(p: Pivot): (r: Option<Rational>)
    requires p.Proper()
    ensures r.Some? ==> r.value.Proper()
  {
    match p
    case Int(v) => Some(Rational(v < 0, Abs(v), 1))
    case Floating(f) => FloatValue(f)
    case Exact(l) => Some(Meaning(l))
  }

  /** 01S07 and 22003. */
  datatype Narrowed = Success | FractionalTruncation | OutOfRange

  /** What narrowing a number must report, whatever it came from. */
  function NarrowTo(r: Option<Rational>, target: IntTarget): Narrowed
    requires r.Some? ==> r.value.Proper()
  {
    match r
    case None => OutOfRange
    case Some(q) =>
      if !target.Holds(q.Whole()) then OutOfRange
      else if q.Integral() then Success
      else FractionalTruncation
  }

  // ----- integers in memory -----

  /** Two's complement, low byte first. */
  function IntBytes(n: int, width: nat): (bytes: seq<byte>)
    ensures |bytes| == width
    decreases width
  {
    if width == 0 then [] else [ByteOf(n % 256)] + IntBytes(n / 256, width - 1)
  }

  function ReadUnsigned(bytes: seq<byte>): nat {
    if bytes == [] then 0 else bytes[0] as int + 256 * ReadUnsigned(bytes[1..])
  }

  /** What an application sees in a variable of the target's type. */
  function ReadInt(target: IntTarget, bytes: seq<byte>): int {
    var u := ReadUnsigned(bytes);
    if target.IsSigned() && 2 * u >= target.Modulus() then u - target.Modulus() else u
  }

  function Pow256(n: nat): (p: nat)
    ensures p > 0
  {
    if n == 0 then 1 else 256 * Pow256(n - 1)
  }

  lemma {:induction false} BytesRead(n: int, width: nat)
    ensures ReadUnsigned(IntBytes(n, width)) == n % Pow256(width)
    decreases width
  {
    if width > 0 {
      BytesRead(n / 256, width - 1);
      var bytes := IntBytes(n, width);
      assert bytes[1..] == IntBytes(n / 256, width - 1);
      ModSplits(n, Pow256(width - 1));
    }
  }

  lemma ModSplits(n: int, p: nat)
    requires p > 0
    ensures n % 256 + 256 * (n / 256 % p) == n % (256 * p)
  {
    var q, r := n / 256, n % 256;
    var a, b := q / p, q % p;
    Expand(n, q, r, a, b, p);
    var low := r + 256 * b;
    assert 0 <= low < 256 * p;
    ModOf(n, 256 * p, a, low);
  }

  lemma Expand(n: int, q: int, r: int, a: int, b: int, p: nat)
    requires n == 256 * q + r && q == a * p + b
    ensures n == a * (256 * p) + (r + 256 * b)
  {
  }

  lemma ModOf(n: int, m: nat, a: int, low: nat)
    requires m > 0 && low < m && n == a * m + low
    ensures n % m == low
  {
    var d: int := n / m - a;
    assert n == n / m * m + n % m;
    assert d * m == low - n % m;
    NonZeroMultiple(d, m);
  }

  /** A number the target holds is read back from the bytes written for it. */
  lemma WrittenIsRead(target: IntTarget, n: int)
    requires target.Holds(n)
    ensures ReadInt(target, IntBytes(n, target.Width())) == n
  {
    BytesRead(n, target.Width());
    ModulusIs(target);
    hide ReadUnsigned, IntBytes, Pow256;
    if n >= 0 { ModOf(n, target.Modulus(), 0, n); } else { ModOf(n, target.Modulus(), -1, n + target.Modulus()); }
  }

  lemma {:induction false} UnsignedBelow(bytes: seq<byte>)
    ensures ReadUnsigned(bytes) < Pow256(|bytes|)
    decreases |bytes|
  {
    if bytes != [] { UnsignedBelow(bytes[1..]); }
  }

  lemma {:induction false} UnsignedDecides(a: seq<byte>, b: seq<byte>)
    requires |a| == |b| && ReadUnsigned(a) == ReadUnsigned(b)
    ensures a == b
    decreases |a|
  {
    if a != [] {
      UnsignedDecides(a[1..], b[1..]);
      assert a == [a[0]] + a[1..] && b == [b[0]] + b[1..];
    }
  }

  /** Whatever bytes a variable has, the target holds what they read as, and writing that gives them back. */
  lemma ReadIsHeld(target: IntTarget, bytes: seq<byte>)
    requires |bytes| == target.Width()
    ensures target.Holds(ReadInt(target, bytes)) && IntBytes(ReadInt(target, bytes), target.Width()) == bytes
  {
    UnsignedBelow(bytes);
    ModulusIs(target);
    hide ReadUnsigned, IntBytes, Pow256, IntTarget.Width;
    var u, n := ReadUnsigned(bytes), ReadInt(target, bytes);
    BytesRead(n, target.Width());
    if n == u { ModOf(n, target.Modulus(), 0, u); } else { ModOf(n, target.Modulus(), -1, u); }
    UnsignedDecides(IntBytes(n, target.Width()), bytes);
  }

  lemma ModulusIs(target: IntTarget)
    ensures Pow256(target.Width()) == target.Modulus()
  {
    assert Pow256(0) == 1 && Pow256(1) == 0x100 && Pow256(2) == 0x1_0000 && Pow256(3) == 0x100_0000
          && Pow256(4) == 0x1_0000_0000;
    assert Pow256(5) == 0x100_0000_0000 && Pow256(6) == 0x1_0000_0000_0000 && Pow256(7) == 0x100_0000_0000_0000;
  }

  // ----- the writers -----

  method WriteFixed(target: array?<byte>, ind: ChunkWriter.Indicator?, bytes: seq<byte>)
    requires target != null ==> |bytes| <= target.Length
    modifies target, ind
    ensures target != null ==> target[..] == bytes + old(target[..])[|bytes|..]
    ensures ind != null ==> ind.value == |bytes|
  {
    if target != null { ChunkWriter.CopyBytes(bytes, target); }
    if ind != null { ind.value := |bytes|; }
  }

  /** A float's cast to `i128` saturates, and takes a NaN to zero. */
  function SaturateI128(n: int): int {
    if n > I128_MAX then I128_MAX else if n < I128_MIN then I128_MIN else n
  }

  function CastToI128(f: Float): int
    requires f.Proper()
  {
    match f
    case NaN => 0
    case Infinite(negative) => if negative then I128_MIN else I128_MAX
    case Finite(q) => SaturateI128(q.Whole())
  }

  /** Saturating moves no number into or out of a target's range. */
  lemma SaturationIsHarmless(target: IntTarget, n: int)
    ensures target.Holds(SaturateI128(n)) <==> target.Holds(n)
    ensures target.Holds(n) ==> SaturateI128(n) == n
  {
  }

  method WriteTruncatedFloat(v: Float, t: IntTarget, target: array?<byte>, ind: ChunkWriter.Indicator?)
      returns (r: Narrowed)
    requires v.Proper() && (target != null ==> t.Width() <= target.Length)
    modifies target, ind
    ensures r == NarrowTo(FloatValue(v), t)
    ensures r.OutOfRange? ==>
          (target != null ==> target[..] == old(target[..])) && (ind != null ==> ind.value == old(ind.value))
    ensures !r.OutOfRange? ==> v.Finite? && (ind != null ==> ind.value == t.Width())
    ensures !r.OutOfRange? && target != null ==>
              target[..] == IntBytes(v.value.Whole(), t.Width()) + old(target[..])[t.Width()..]
  {
    hide IntBytes, IntTarget.Holds;
    var n := CastToI128(v);
    if v.Finite? { SaturationIsHarmless(t, v.value.Whole()); }
    if !v.Finite? || !t.Holds(n) { return OutOfRange; }
    WriteFixed(target, ind, IntBytes(n, t.Width()));
    r := if v.value.Integral() then Success else FractionalTruncation;
  }

  method WriteExactInteger(literal: DecimalLiteral, t: IntTarget, target: array?<byte>, ind: ChunkWriter.Indicator?)
    returns (r: Narrowed)
    requires WellFormed(literal) && (target != null ==> t.Width() <= target.Length)
    modifies target, ind
    ensures r == NarrowTo(Some(Meaning(literal)), t)
    ensures r.OutOfRange? ==>
          (target != null ==> target[..] == old(target[..])) && (ind != null ==> ind.value == old(ind.value))
    ensures !r.OutOfRange? && ind != null ==> ind.value == t.Width()
    ensures !r.OutOfRange? && target != null ==>
              target[..] == IntBytes(Meaning(literal).Whole(), t.Width()) + old(target[..])[t.Width()..]
  {
    hide IntBytes, Meaning, Rational.Whole, Rational.Integral, ToInteger, FractionIsZero, WellFormed;
    ToIntegerTruncates(literal);
    FractionIsZeroIffIntegral(literal);
    BeyondI128(t, Meaning(literal).Whole());
    var n := ToInteger(literal);
    if n == None || !t.Holds(n.value) { return OutOfRange; }
    WriteFixed(target, ind, IntBytes(n.value, t.Width()));
    r := if FractionIsZero(literal) then Success else FractionalTruncation;
  }

  lemma BeyondI128(t: IntTarget, n: int)
    ensures Abs(n) > I128_MAX ==> !t.Holds(n)
  {
  }

  method WriteInt(v: int, t: IntTarget, target: array?<byte>, ind: ChunkWriter.Indicator?) returns (r: Narrowed)
    requires target != null ==> t.Width() <= target.Length
    modifies target, ind
    ensures r == if t.Holds(v) then Success else OutOfRange
    ensures r.OutOfRange? ==>
          (target != null ==> target[..] == old(target[..])) && (ind != null ==> ind.value == old(ind.value))
    ensures !r.OutOfRange? && ind != null ==> ind.value == t.Width()
    ensures !r.OutOfRange? && target != null ==> target[..] == IntBytes(v, t.Width()) + old(target[..])[t.Width()..]
  {
    if !t.Holds(v) { return OutOfRange; }
    WriteFixed(target, ind, IntBytes(v, t.Width()));
    r := Success;
  }

  lemma IntIsWhole(v: int)
    requires SBigInt.Holds(v)
    ensures var q := ValueOf(Int(v)).value; q.Integral() && q.Whole() == v
  {
  }

  /**
   Every source, every target: the application reads the source's value cut off
   toward zero exactly when the target holds it, is told when a fraction was
   dropped, and otherwise nothing is written at all.
   */
  method WriteNumericPivot(p: Pivot, t: IntTarget, target: array?<byte>, ind: ChunkWriter.Indicator?)
      returns (r: Narrowed)
    requires p.Proper() && (target != null ==> t.Width() <= target.Length)
    modifies target, ind
    ensures r == NarrowTo(ValueOf(p), t)
    ensures r.OutOfRange? ==>
          (target != null ==> target[..] == old(target[..])) && (ind != null ==> ind.value == old(ind.value))
    ensures !r.OutOfRange? ==> ValueOf(p).Some? && (ind != null ==> ind.value == t.Width())
    ensures !r.OutOfRange? && target != null ==>
              target[..] == IntBytes(ValueOf(p).value.Whole(), t.Width()) + old(target[..])[t.Width()..]
              && ReadInt(t, target[..t.Width()]) == ValueOf(p).value.Whole()
  {
    hide IntBytes, ReadInt, Meaning, Rational.Whole, Rational.Integral, WellFormed, IntTarget.Holds, IntTarget.Width;
    match p {
      case Int(v) =>
        IntIsWhole(v);
        r := WriteInt(v, t, target, ind);
      case Floating(f) => r := WriteTruncatedFloat(f, t, target, ind);
      case Exact(l) => r := WriteExactInteger(l, t, target, ind);
    }
    if !r.OutOfRange? && target != null {
      WrittenIsRead(t, ValueOf(p).value.Whole());
      assert target[..t.Width()] == IntBytes(ValueOf(p).value.Whole(), t.Width());
    }
  }

  /** The same number, whatever numerator and denominator it is written with; zero has no sign. */
  predicate SameNumber(a: Rational, b: Rational) {
    a.Proper() && b.Proper() && a.num * b.den == b.num * a.den && (a.num > 0 ==> a.negative == b.negative)
  }

  lemma Scales(m: nat, d: nat, q: nat, r: nat, e: nat)
    requires m == q * d + r
    ensures m * e == q * (d * e) + r * e
  {
    assert m * e == q * d * e + r * e;
    assert q * d * e == q * (d * e);
  }

  lemma Commutes(e: nat, d: nat)
    ensures e * d == d * e
  {
  }

  lemma SameParts(q: nat, p: nat, unit: nat, x: nat, y: nat)
    requires q * unit + x == p * unit + y && x < unit && y < unit
    ensures q == p && x == y
  {
    DivMod(q, unit, x);
    DivMod(p, unit, y);
  }

  lemma Parts(m: nat, d: nat)
    requires d > 0
    ensures m == m / d * d + m % d && m % d < d
  {
  }

  lemma EqualParts(m: nat, d: nat, q: nat, r: nat, n: nat, e: nat, p: nat, s: nat)
    requires m * e == n * d && m == q * d + r && n == p * e + s && r < d && s < e
    ensures q == p && (r == 0 <==> s == 0)
  {
    Scales(m, d, q, r, e);
    Scales(n, e, p, s, d);
    Commutes(e, d);
    Scaled(r, d, e);
    Scaled(s, e, d);
    SameParts(q, p, d * e, r * e, s * d);
  }

  /** Quotients of equal fractions are equal, and both divide out or neither does. */
  lemma EqualQuotients(m: nat, d: nat, n: nat, e: nat)
    requires d > 0 && e > 0 && m * e == n * d
    ensures m / d == n / e && (m % d == 0 <==> n % e == 0)
  {
    Parts(m, d);
    Parts(n, e);
    EqualParts(m, d, m / d, m % d, n, e, n / e, n % e);
  }

  lemma Scaled(r: nat, d: nat, e: nat)
    requires r < d && e > 0
    ensures 0 <= r * e < d * e && r * e < e * d && (r * e == 0 <==> r == 0)
  {
  }

  /**
   Equal numbers are narrowed alike, in whatever form: the answer and the integer
   delivered depend on the number only.
   */
  lemma EqualNumbersNarrowAlike(a: Rational, b: Rational, t: IntTarget)
    requires SameNumber(a, b)
    ensures a.Whole() == b.Whole() && (a.Integral() <==> b.Integral())
    ensures NarrowTo(Some(a), t) == NarrowTo(Some(b), t)
  {
    hide IntTarget.Holds;
    EqualQuotients(a.num, a.den, b.num, b.den);
    ZeroQuotient(a.num, a.den);
  }

  lemma ZeroQuotient(m: nat, d: nat)
    requires d > 0
    ensures m == 0 ==> m / d == 0
  {
  }

  /** So sources that hold the same number are narrowed alike: an integer, a float, a literal's text. */
  lemma SourcesAgree(p: Pivot, q: Pivot, t: IntTarget)
    requires p.Proper() && q.Proper() && ValueOf(p).Some? && ValueOf(q).Some?
    requires SameNumber(ValueOf(p).value, ValueOf(q).value)
    ensures NarrowTo(ValueOf(p), t) == NarrowTo(ValueOf(q), t) && ValueOf(p).value.Whole() == ValueOf(q).value.Whole()
  {
    hide NarrowTo, ValueOf, Pivot.Proper, Rational.Whole, SameNumber;
    EqualNumbersNarrowAlike(ValueOf(p).value, ValueOf(q).value, t);
  }

  /** An integer and its text hold the same number. */
  lemma IntegerAndText(v: int, l: DecimalLiteral)
    requires SBigInt.Holds(v) && WellFormed(l) && ParseNumericLiteral(ShowInt(v)) == Some(l)
    ensures SameNumber(ValueOf(Int(v)).value, ValueOf(Exact(l)).value)
  {
    hide ParseNumericLiteral, Show, Value;
    IntegerTextIs(v);
  }
}
