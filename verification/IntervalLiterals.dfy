/**
 What the printed interval literals mean, for all thirteen types: read field by
 field, a literal weighs as much as the interval cut off at its last field.
 */
module IntervalLiterals {
  import opened Arithmetic
  import opened Text
  import opened Decimal
  import opened Clock
  import opened Interval
  import opened IntervalText
  import opened IntervalParser

  // ----- reading a literal apart -----

  /** The runs of digits between the other characters. */
  function Numbers(s: string): (numbers: seq<string>)
    ensures |numbers| > 0
  {
    if s == "" then [""]
    else
      var rest := Numbers(s[1..]);
      if IsDigit(s[0]) then [[s[0]] + rest[0]] + rest[1..] else [""] + rest
  }

  /** The other characters. */
  function Marks(s: string): string {
    if s == "" then "" else (if IsDigit(s[0]) then "" else [s[0]]) + Marks(s[1..])
  }

  predicate AllNumbers(numbers: seq<string>) {
    forall k :: 0 <= k < |numbers| ==> Digits(numbers[k])
  }

  const FIELDS := [Year, Month, Day, Hour, Minute, Second]

  /** Day-time numbers in nanoseconds, the first a count of field `rank`; what follows the seconds is a fraction. */
  function Weight(numbers: seq<string>, rank: nat): nat
    requires AllNumbers(numbers)
  {
    if numbers == [] then 0
    else
      (if rank < |FIELDS| then Value(numbers[0]) * UnitOf(FIELDS[rank]) else Billionths(numbers[0]))
      + Weight(numbers[1..], rank + 1)
  }

  /** The numbers of a year-month literal in months. */
  function Months(numbers: seq<string>, rank: nat): nat
    requires AllNumbers(numbers)
  {
    if numbers == [] then 0 else Value(numbers[0]) * (if rank == 0 then 12 else 1) + Months(numbers[1..], rank + 1)
  }

  /** How each type sets its fields apart. */
  function Separators(target: Precision): string {
    match target
    case YearToMonth => "-"
    case DayToHour => " "
    case DayToMinute => " :"
    case DayToSecond => " ::"
    case HourToMinute => ":"
    case HourToSecond => "::"
    case MinuteToSecond => ":"
    case _ => ""
  }

  lemma {:induction false} FirstNumber(a: string, c: char, b: string)
    requires AllDigits(a) && !IsDigit(c)
    ensures Numbers(a + [c] + b) == [a] + Numbers(b) && Marks(a + [c] + b) == [c] + Marks(b)
    decreases |a|
  {
    var s := a + [c] + b;
    if a == "" {
      assert s[1..] == b;
    } else {
      assert s[0] == a[0] && s[1..] == a[1..] + [c] + b;
      FirstNumber(a[1..], c, b);
      assert [a[0]] + a[1..] == a;
      assert Numbers(s[1..])[1..] == Numbers(b);
    }
  }

  lemma {:induction false} OneNumber(a: string)
    requires AllDigits(a)
    ensures Numbers(a) == [a] && Marks(a) == ""
    decreases |a|
  {
    if a != "" {
      OneNumber(a[1..]);
      assert [a[0]] + a[1..] == a;
    }
  }

  /** Seconds, whose digits before the point are `a`. */
  lemma SecondNumbers(a: string, fraction: nat)
    requires AllDigits(a)
    ensures var t := a + FractionText(fraction);
      && Numbers(t) == [a] + (if fraction == 0 then [] else [TrimEndZeros(Pad(fraction, 9))])
      && Marks(t) == if fraction == 0 then "" else "."
  {
    hide Pad, TrimEndZeros, Numbers, Marks;
    OneNumber(a);
    if fraction == 0 {
      assert a + "" == a;
    } else {
      FractionIsShown(fraction);
      var d := TrimEndZeros(Pad(fraction, 9));
      OneNumber(d);
      FirstNumber(a, '.', d);
      assert a + ("." + d) == a + ['.'] + d;
    }
  }

  /** A printed fraction is read back in full. */
  lemma FractionWeighs(fraction: nat)
    requires 0 < fraction < BILLION
    ensures Digits(TrimEndZeros(Pad(fraction, 9))) && Billionths(TrimEndZeros(Pad(fraction, 9))) == fraction
  {
    hide Pad, TrimEndZeros, Value, FitRight, Billionths;
    FractionReads(fraction);
    FractionTruncates(TrimEndZeros(Pad(fraction, 9)));
  }

  // ----- the ten day-time types -----

  function Fraction(p: Parts): seq<string> {
    if p.fraction == 0 then [] else [TrimEndZeros(Pad(p.fraction, 9))]
  }

  /** The fields from a given one on, each of at least two digits; the fraction follows the seconds. */
  function Behind(p: Parts, target: Precision, rank: nat): seq<string>
    decreases 6 - rank
  {
    if rank > Rank(Trailing(target)) || rank > 5 then (if Trailing(target) == Second then Fraction(p) else [])
    else [Pad(FieldValue(p, FIELDS[rank]), 2)] + Behind(p, target, rank + 1)
  }

  function FieldsOf(p: Parts, target: Precision): seq<string> {
    [Show(FieldValue(p, Leading(target)))] + Behind(p, target, Rank(Leading(target)) + 1)
  }

  lemma SecondsBehind(p: Parts, target: Precision)
    requires Trailing(target) == Second
    ensures Behind(p, target, 6) == Fraction(p)
    ensures Behind(p, target, 5) == [Pad(p.second, 2)] + Fraction(p)
    ensures Behind(p, target, 4) == [Pad(p.minute, 2), Pad(p.second, 2)] + Fraction(p)
    ensures Behind(p, target, 3) == [Pad(p.hour, 2), Pad(p.minute, 2), Pad(p.second, 2)] + Fraction(p)
  {
    hide Pad, Fraction;
    assert Behind(p, target, 6) == Fraction(p);
    assert Behind(p, target, 5) == [Pad(p.second, 2)] + Behind(p, target, 6);
    assert Behind(p, target, 4) == [Pad(p.minute, 2)] + Behind(p, target, 5);
    assert Behind(p, target, 3) == [Pad(p.hour, 2)] + Behind(p, target, 4);
  }

  lemma NothingBehind(p: Parts, target: Precision)
    requires !IsYearMonth(target) && Trailing(target) != Second
    ensures Behind(p, target, Rank(Trailing(target)) + 1) == []
    ensures target.HourToMinute? || target.DayToMinute? ==> Behind(p, target, 4) == [Pad(p.minute, 2)]
    ensures target.DayToMinute? ==> Behind(p, target, 3) == [Pad(p.hour, 2), Pad(p.minute, 2)]
    ensures target.DayToHour? ==> Behind(p, target, 3) == [Pad(p.hour, 2)]
  {
    hide Pad;
    assert Behind(p, target, Rank(Trailing(target)) + 1) == [];
    if target.HourToMinute? || target.DayToMinute? {
      assert Behind(p, target, 4) == [Pad(p.minute, 2)] + Behind(p, target, 5);
    }
    if target.DayToMinute? { assert Behind(p, target, 3) == [Pad(p.hour, 2)] + Behind(p, target, 4); }
    if target.DayToHour? { assert Behind(p, target, 3) == [Pad(p.hour, 2)] + Behind(p, target, 4); }
  }

  /** What a literal is made of: its fields in order, and the separators of its type. */
  ghost predicate MadeOf(u: string, fields: seq<string>, marks: string) {
    Numbers(u) == fields && Marks(u) == marks
  }

  function Point(p: Parts): string {
    if p.fraction == 0 then "" else "."
  }

  lemma ClockFields(m: string, p: Parts)
    requires AllDigits(m)
    ensures MadeOf(m + ":" + SecondText(p.second, p.fraction), [m, Pad(p.second, 2)] + Fraction(p), ":" + Point(p))
  {
    hide Pad, Numbers, Marks, TrimEndZeros;
    SecondNumbers(Pad(p.second, 2), p.fraction);
    FirstNumber(m, ':', SecondText(p.second, p.fraction));
    assert [m] + ([Pad(p.second, 2)] + Fraction(p)) == [m, Pad(p.second, 2)] + Fraction(p);
  }

  lemma WholeClockFields(h: string, p: Parts)
    requires AllDigits(h)
    ensures var late := Pad(p.minute, 2) + ":" + SecondText(p.second, p.fraction);
      MadeOf(h + ":" + late, [h, Pad(p.minute, 2), Pad(p.second, 2)] + Fraction(p), "::" + Point(p))
  {
    hide Pad, Numbers, Marks, Fraction, SecondText;
    ClockFields(Pad(p.minute, 2), p);
    FirstNumber(h, ':', Pad(p.minute, 2) + ":" + SecondText(p.second, p.fraction));
    assert [h] + ([Pad(p.minute, 2), Pad(p.second, 2)] + Fraction(p))
        == [h, Pad(p.minute, 2), Pad(p.second, 2)] + Fraction(p);
  }

  lemma JoinHours(h: string, m: string, s: string)
    ensures h + ":" + m + ":" + s == h + ":" + (m + ":" + s)
  {
  }

  lemma TwoFields(a: string, c: char, b: string)
    requires AllDigits(a) && AllDigits(b) && !IsDigit(c)
    ensures MadeOf(a + [c] + b, [a, b], [c])
  {
    hide Numbers, Marks;
    OneNumber(b);
    FirstNumber(a, c, b);
    assert [c] + "" == [c];
  }

  /** A type whose last field is the second. */
  lemma ToSecondFields(p: Parts, target: Precision)
    requires !IsYearMonth(target) && Trailing(target) == Second
    ensures MadeOf(Unsigned(p, target), FieldsOf(p, target), Separators(target) + Point(p))
  {
    hide Show, Pad, Numbers, Marks, SecondText, FractionText, Behind, Fraction;
    SecondsBehind(p, target);
    match target {
      case SecondP => SecondAlone(p);
      case MinuteToSecond => ClockFields(Show(p.minute), p);
      case HourToSecond =>
        WholeClockFields(Show(p.hour), p);
        JoinHours(Show(p.hour), Pad(p.minute, 2), SecondText(p.second, p.fraction));
      case DayToSecond =>
        WholeClockFields(Pad(p.hour, 2), p);
        FirstNumber(Show(p.day), ' ', ClockText(p.hour, p.minute, p.second, p.fraction));
    }
    Grouped(p);
  }

  lemma SecondAlone(p: Parts)
    ensures MadeOf(Unsigned(p, SecondP), [Show(p.second)] + Fraction(p), "" + Point(p))
  {
    hide Show, Pad, Numbers, Marks;
    SecondNumbers(Show(p.second), p.fraction);
  }

  lemma Grouped(p: Parts)
    ensures [Show(p.minute)] + ([Pad(p.second, 2)] + Fraction(p)) == [Show(p.minute), Pad(p.second, 2)] + Fraction(p)
    ensures [Show(p.hour)] + ([Pad(p.minute, 2), Pad(p.second, 2)] + Fraction(p))
          == [Show(p.hour), Pad(p.minute, 2), Pad(p.second, 2)] + Fraction(p)
    ensures " " + ("::" + Point(p)) == " ::" + Point(p)
  {
    hide Show, Pad;
  }

  /** Any other day-time type. */
  lemma CoarserFields(p: Parts, target: Precision)
    requires !IsYearMonth(target) && Trailing(target) != Second
    ensures MadeOf(Unsigned(p, target), FieldsOf(p, target), Separators(target))
  {
    hide Show, Pad, Numbers, Marks, Behind;
    NothingBehind(p, target);
    match target {
      case DayP => OneNumber(Show(p.day));
      case HourP => OneNumber(Show(p.hour));
      case MinuteP => OneNumber(Show(p.minute));
      case DayToHour => TwoFields(Show(p.day), ' ', Pad(p.hour, 2));
      case HourToMinute => TwoFields(Show(p.hour), ':', Pad(p.minute, 2));
      case DayToMinute =>
        TwoFields(Pad(p.hour, 2), ':', Pad(p.minute, 2));
        FirstNumber(Show(p.day), ' ', Pad(p.hour, 2) + ":" + Pad(p.minute, 2));
        JoinRest(Show(p.day), Pad(p.hour, 2), Pad(p.minute, 2));
    }
  }

  /** The nanoseconds of the fields from `rank` on. */
  function Below(p: Parts, target: Precision, rank: nat): nat
    decreases 6 - rank
  {
    if rank > Rank(Trailing(target)) || rank > 5 then (if Trailing(target) == Second then p.fraction else 0)
    else FieldValue(p, FIELDS[rank]) * UnitOf(FIELDS[rank]) + Below(p, target, rank + 1)
  }

  lemma Heavier(a: string, rest: seq<string>, rank: nat)
    requires Digits(a) && AllNumbers(rest)
    ensures AllNumbers([a] + rest)
    ensures Weight([a] + rest, rank)
          == (if rank < |FIELDS| then Value(a) * UnitOf(FIELDS[rank]) else Billionths(a)) + Weight(rest, rank + 1)
  {
    hide Value, Billionths, UnitOf;
    assert ([a] + rest)[1..] == rest;
  }

  lemma FractionBelow(p: Parts)
    requires p.fraction < BILLION
    ensures AllNumbers(Fraction(p)) && Weight(Fraction(p), 6) == p.fraction
  {
    hide Billionths, Pad, TrimEndZeros;
    if p.fraction != 0 {
      FractionWeighs(p.fraction);
      Heavier(Fraction(p)[0], [], 6);
      assert Fraction(p) == [Fraction(p)[0]] + [];
    }
  }

  lemma {:induction false} BehindWeighs(p: Parts, target: Precision, rank: nat)
    requires !IsYearMonth(target) && p.fraction < BILLION && 2 <= rank <= Rank(Trailing(target)) + 1
    ensures AllNumbers(Behind(p, target, rank)) && Weight(Behind(p, target, rank), rank) == Below(p, target, rank)
    ensures |Behind(p, target, rank)| == Rank(Trailing(target)) + 1 - rank
                                         + (if Trailing(target) == Second && p.fraction != 0 then 1 else 0)
    ensures forall k :: 0 <= k < Rank(Trailing(target)) + 1 - rank ==> |Behind(p, target, rank)[k]| >= 2
    decreases 6 - rank
  {
    hide Weight, Value, Billionths, UnitOf, FieldValue, Pad, TrimEndZeros;
    if rank > Rank(Trailing(target)) {
      NoWeight(rank);
      FractionBelow(p);
    } else {
      var n := FieldValue(p, FIELDS[rank]);
      BehindWeighs(p, target, rank + 1);
      PadRoundTrips(n, 2);
      Heavier(Pad(n, 2), Behind(p, target, rank + 1), rank);
    }
  }

  lemma NoWeight(rank: nat)
    ensures Weight([], rank) == 0
  {
  }

  /** The fields behind each rank, for a type whose last field is the second. */
  lemma BelowSeconds(p: Parts, target: Precision)
    requires Trailing(target) == Second
    ensures Below(p, target, 6) == p.fraction
    ensures Below(p, target, 5) == p.second * NANOS_PER_SECOND + p.fraction
    ensures Below(p, target, 4) == p.minute * NANOS_PER_MINUTE + p.second * NANOS_PER_SECOND + p.fraction
    ensures Below(p, target, 3) == p.hour * NANOS_PER_HOUR + p.minute * NANOS_PER_MINUTE + p.second * NANOS_PER_SECOND
                                   + p.fraction
  {
    assert Below(p, target, 6) == p.fraction;
    assert Below(p, target, 5) == p.second * NANOS_PER_SECOND + p.fraction;
    assert Below(p, target, 4) == p.minute * NANOS_PER_MINUTE + Below(p, target, 5);
  }

  lemma BelowCoarser(p: Parts, target: Precision)
    requires !IsYearMonth(target) && Trailing(target) != Second
    ensures Below(p, target, Rank(Trailing(target)) + 1) == 0
    ensures target.DayToHour? ==> Below(p, target, 3) == p.hour * NANOS_PER_HOUR
    ensures target.HourToMinute? || target.DayToMinute? ==> Below(p, target, 4) == p.minute * NANOS_PER_MINUTE
    ensures target.DayToMinute? ==> Below(p, target, 3) == p.hour * NANOS_PER_HOUR + p.minute * NANOS_PER_MINUTE
  {
    assert Below(p, target, Rank(Trailing(target)) + 1) == 0;
  }

  /** Cut off at its last field, a split weighs what its fields weigh. */
  lemma FieldsAreNanos(total: int, target: Precision, p: Parts)
    requires !IsYearMonth(target) && IsSplit(total, target, p)
    ensures var lead := Rank(Leading(target));
      FieldValue(p, Leading(target)) * UnitOf(Leading(target)) + Below(p, target, lead + 1) == Nanos(p)
  {
    if Trailing(target) == Second { BelowSeconds(p, target); } else { BelowCoarser(p, target); }
    hide Below;
    match target {
      case DayP => case HourP => case MinuteP => case SecondP => case DayToHour =>
      case DayToMinute => case DayToSecond => case HourToMinute => case HourToSecond => case MinuteToSecond =>
    }
  }

  /** A literal's first number is a count of its leading field; each later one has at least two digits. */
  ghost predicate Reads(u: string, target: Precision, fraction: bool) {
    var fields := Rank(Trailing(target)) - Rank(Leading(target)) + 1;
    && Marks(u) == Separators(target) + (if fraction then "." else "")
    && |Numbers(u)| == fields + (if fraction then 1 else 0) && AllNumbers(Numbers(u))
    && forall k :: 1 <= k < fields ==> |Numbers(u)[k]| >= 2
  }

  /** Read field by field, a day-time literal is the total cut off at its last field. */
  lemma LiteralWeighs(total: int, target: Precision, p: Parts)
    requires !IsYearMonth(target) && IsSplit(total, target, p)
    ensures var u := Unsigned(p, target);
      && Reads(u, target, p.fraction != 0)
      && Weight(Numbers(u), Rank(Leading(target))) == Nanos(p)
      && Nanos(p) <= Abs(total) < Nanos(p) + (if Trailing(target) == Second then 1 else UnitOf(Trailing(target)))
  {
    hide Numbers, Marks, Show, Pad, Behind, Weight, Below, Value, Nanos, UnitOf, FieldValue, Separators, Unsigned;
    var lead := Rank(Leading(target));
    NoMarks(Separators(target));
    LeadingRank(target);
    if Trailing(target) == Second { ToSecondFields(p, target); } else { CoarserFields(p, target); }
    BehindWeighs(p, target, lead + 1);
    var n := FieldValue(p, Leading(target));
    ShowRoundTrips(n);
    Heavier(Show(n), Behind(p, target, lead + 1), lead);
    FieldsAreNanos(total, target, p);
  }

  lemma NoMarks(s: string)
    ensures s + "" == s
  {
  }

  lemma LeadingRank(target: Precision)
    requires !IsYearMonth(target)
    ensures var lead := Rank(Leading(target));
      2 <= lead <= Rank(Trailing(target)) <= 5 && FIELDS[lead] == Leading(target)
  {
  }

  // ----- the three year-month types -----

  /** Read field by field, a year-month literal is the months cut off at its last field. */
  lemma YearMonthWeighs(months: int, target: Precision, p: Parts)
    requires IsYearMonth(target) && IsMonthSplit(months, target, p)
    ensures var u := Unsigned(p, target);
      && Reads(u, target, false)
      && var m := Months(Numbers(u), Rank(Leading(target)));
         m <= Abs(months) < m + (if target.YearP? then 12 else 1)
  {
    hide Numbers, Marks, Show, Pad, Value;
    ShowRoundTrips(p.day);
    ShowRoundTrips(p.hour);
    PadRoundTrips(p.hour, 2);
    match target {
      case YearP =>
        OneNumber(Show(p.day));
        NoMonths(Show(p.day), [], 0);
      case MonthP =>
        OneNumber(Show(p.hour));
        NoMonths(Show(p.hour), [], 1);
      case YearToMonth =>
        TwoFields(Show(p.day), '-', Pad(p.hour, 2));
        NoMonths(Show(p.day), [Pad(p.hour, 2)], 0);
        NoMonths(Pad(p.hour, 2), [], 1);
    }
  }

  lemma NoMonths(a: string, rest: seq<string>, rank: nat)
    requires Digits(a) && AllNumbers(rest)
    ensures AllNumbers([a] + rest) && Months([], rank + 1) == 0 && [a] + [] == [a]
    ensures Months([a] + rest, rank) == Value(a) * (if rank == 0 then 12 else 1) + Months(rest, rank + 1)
  {
    hide Value;
    assert ([a] + rest)[1..] == rest;
  }
}
