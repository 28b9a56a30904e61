/** The number a column value holds, without the driver's own conversions, and what an integer variable gets of it. */
module NumberLaws {
  import opened Arithmetic
  import opened Wrappers
  import opened Text
  import opened Decimal
  import opened NumericLiteral
  import opened NumericSpelling
  import opened Narrowing
  import opened Column
  import opened ChunkWriter
  import opened ColumnWriter

  function WholeNumber(n: int): Rational {
    Rational(n < 0, Abs(n), 1)
  }

  /** The number a value holds: an integer, a truth value, a finite float, or text that spells one. */
  ghost predicate HoldsNumber(v: ColumnValue, q: Rational) {
    match v
    case I8(n) => q == WholeNumber(n)
    case I16(n) => q == WholeNumber(n)
    case I32(n) => q == WholeNumber(n)
    case I64(n) => q == WholeNumber(n)
    case Bool(b) => q == WholeNumber(if b then 1 else 0)
    case F32(f, _, _) => f == Finite(q)
    case F64(f, _, _) => f == Finite(q)
    case String(s) => Spells(s, q)
    case DecimalText(s) => Spells(s, q)
    case _ => false
  }

  ghost predicate Spells(s: string, q: Rational) {
    exists p: Spelling :: p.Valid() && p.Text() == s && p.Number() == q
  }

  // ----- a spelling's number -----

  lemma Regroups(m: nat, a: nat, b: nat, c: nat)
    requires c == a * b
    ensures m * c == m * a * b && m * c == m * b * a
  {
  }

  /** The literal read from a spelling means the number it spells. */
  lemma NumberIsMeaning(p: Spelling)
    requires p.Valid()
    ensures SameNumber(p.Number(), Meaning(p.Literal()))
  {
    hide Value, Pow10, AllBlank, Exponent.Valid;
    var f, e := |p.FracPart()|, p.Power();
    ValueAppend(p.intPart, p.FracPart());
    var m := Value(p.intPart) * Pow10(f) + Value(p.FracPart());
    if e >= f {
      PowAdds(e - f, f);
      Regroups(m, Pow10(e - f), Pow10(f), Pow10(e));
    } else if e >= 0 {
      PowAdds(e, f - e);
      Regroups(m, Pow10(e), Pow10(f - e), Pow10(f));
    } else {
      PowAdds(f, -e);
      Regroups(m, Pow10(f), Pow10(-e), Pow10(f - e));
    }
  }

  lemma TrimmedLiteral(s: string)
    ensures ParseNumericLiteral(Trim(s)) == ParseNumericLiteral(s)
  {
    hide Trim, StripSign, SplitOnceEither, ParseSigned, ParseMantissa;
    TrimTwice(s);
  }

  /** The pivot of a value holds its number. */
  lemma PivotHolds(v: ColumnValue, q: Rational)
    requires WellTyped(v) && HoldsNumber(v, q)
    ensures q.Proper() && PivotOf(v).Some? && ValueOf(PivotOf(v).value).Some?
    ensures SameNumber(q, ValueOf(PivotOf(v).value).value)
  {
    hide Meaning, Trim, ParseNumericLiteral, Spelling.Number, Spelling.Literal, Spelling.Text, Spelling.Grammatical,
         WellFormed;
    if v.String? || v.DecimalText? {
      var p: Spelling :| p.Valid() && p.Text() == v.text && p.Number() == q;
      SpellingIsRead(p);
      TrimmedLiteral(v.text);
      NumberIsMeaning(p);
    }
  }

  // ----- what a variable gets -----

  /** A variable of type `t` reads `q` cut off toward zero where it can hold that, and is untouched where not. */
  ghost predicate ReadsNumber(e: Effect, q: Rational, t: IntTarget, isNull: bool)
    requires q.Proper()
  {
    if t.Holds(q.Whole()) then
      && e.result == (if q.Integral() then Done(SqlReturn.Success) else Err(FractionDropped))
      && e.indicator == Some(t.Width())
      && if isNull then e.image == [] else |e.image| == t.Width() && ReadInt(t, e.image) == q.Whole()
    else e == Effect(Err(TooLarge), [], None)
  }

  lemma IntegerEffectReads(p: Pivot, q: Rational, t: IntTarget, isNull: bool)
    requires p.Proper() && ValueOf(p).Some? && SameNumber(q, ValueOf(p).value)
    ensures ReadsNumber(IntegerEffect(p, t, isNull), q, t, isNull)
  {
    hide IntTarget.Holds, IntTarget.Width, IntBytes, ReadInt, ValueOf, Pivot.Proper, Rational.Whole, Rational.Integral;
    EqualNumbersNarrowAlike(q, ValueOf(p).value, t);
    if t.Holds(q.Whole()) { WrittenIsRead(t, q.Whole()); }
  }

  lemma NumericEffect(v: ColumnValue, t: IntTarget, isNull: bool, bufLen: int, offset: nat,
                      beyond: Result<FixedWrite, ColumnError>)
    requires WellTyped(v) && PivotOf(v).Some?
    ensures ColumnEffect(v, Integer(t), isNull, bufLen, offset, beyond) == IntegerEffect(PivotOf(v).value, t, isNull)
  {
    hide IntegerEffect, LiteralPivot;
  }

  /** Every value that holds a number, every integer type. */
  lemma NumberIsRead(v: ColumnValue, q: Rational, t: IntTarget, isNull: bool, bufLen: int, offset: nat,
                     beyond: Result<FixedWrite, ColumnError>)
    requires WellTyped(v) && HoldsNumber(v, q)
    ensures q.Proper() && ReadsNumber(ColumnEffect(v, Integer(t), isNull, bufLen, offset, beyond), q, t, isNull)
  {
    hide PivotOf, ColumnEffect, IntegerEffect, ReadsNumber, HoldsNumber, WellTyped, ValueOf, SameNumber;
    PivotHolds(v, q);
    NumericEffect(v, t, isNull, bufLen, offset, beyond);
    IntegerEffectReads(PivotOf(v).value, q, t, isNull);
  }

  /** An integer column is read as its integer, whatever the width of either, or refused with 22003. */
  lemma IntegerIsRead(v: ColumnValue, n: int, t: IntTarget, bufLen: int, offset: nat,
                      beyond: Result<FixedWrite, ColumnError>)
    requires WellTyped(v)
    requires v in [I8(n), I16(n), I32(n), I64(n)] || (v == Bool(true) && n == 1) || (v == Bool(false) && n == 0)
    ensures var e := ColumnEffect(v, Integer(t), false, bufLen, offset, beyond);
      if t.Holds(n) then e.result == Done(SqlReturn.Success) && |e.image| == t.Width() && ReadInt(t, e.image) == n
      else e == Effect(Err(TooLarge), [], None)
  {
    hide ColumnEffect, WellTyped, IntTarget.Holds, ReadInt, IntTarget.Width;
    NumberIsRead(v, WholeNumber(n), t, false, bufLen, offset, beyond);
    WholeIsInteger(n);
  }

  lemma WholeIsInteger(n: int)
    ensures var q := WholeNumber(n); q.Proper() && q.Whole() == n && q.Integral()
  {
  }

  lemma SpelledNumber(s: string) returns (q: Rational)
    requires LiteralPivot(s).Some?
    ensures Spells(s, q)
  {
    hide ParseNumericLiteral, Trim, Spelling.Number, Spelling.Literal, Spelling.Text, Spelling.Grammatical, WellFormed,
         Meaning;
    TrimmedLiteral(s);
    LiteralsAreSpellings(s);
    var p: Spelling :| p.Valid() && p.Text() == s;
    q := p.Number();
  }

  /** Whatever the driver takes for a number is one. */
  lemma PivotMeansNumber(v: ColumnValue) returns (q: Rational)
    requires WellTyped(v) && PivotOf(v).Some? && ValueOf(PivotOf(v).value).Some?
    ensures HoldsNumber(v, q)
  {
    hide Spells, LiteralPivot, Meaning, WellFormed;
    if v.String? || v.DecimalText? {
      q := SpelledNumber(v.text);
    } else if v.F32? || v.F64? {
      q := v.f.value;
    } else {
      q := WholeNumber(if v.Bool? then (if v.b then 1 else 0) else v.n);
    }
  }

  /** A value that holds no number: 22003 for a float that is none, 07006 for a type that has none. */
  lemma NoNumberIsRefused(v: ColumnValue, t: IntTarget, isNull: bool, bufLen: int, offset: nat,
                          beyond: Result<FixedWrite, ColumnError>)
    requires WellTyped(v) && !v.Null? && forall q :: !HoldsNumber(v, q)
    ensures ColumnEffect(v, Integer(t), isNull, bufLen, offset, beyond) ==
              if v.F32? || v.F64? then Effect(Err(TooLarge), [], None)
              else if v.String? || v.DecimalText? || v.IntervalOf? then FixedEffect(beyond, isNull)
              else Effect(Err(RestrictedType), [], None)
  {
    hide ParseNumericLiteral, Trim, HoldsNumber, Meaning, WellFormed, IntTarget.Holds, IntTarget.Width, IntBytes;
    if PivotOf(v).Some? && ValueOf(PivotOf(v).value).Some? {
      var q := PivotMeansNumber(v);
      assert false;
    }
  }
}
