/** Interval values: splitting a total into fields, printing the literal of each type, and reading it back. */
module Interval {
  import opened Arithmetic
  import opened Wrappers

  datatype Field = Year | Month | Day | Hour | Minute | Second

  datatype Precision =
    | YearP | MonthP | DayP | HourP | MinuteP | SecondP | YearToMonth
    | DayToHour | DayToMinute | DayToSecond | HourToMinute | HourToSecond | MinuteToSecond

  /** Coarsest field first. */
  function Rank(f: Field): nat {
    match f case Year => 0 case Month => 1 case Day => 2 case Hour => 3 case Minute => 4 case Second => 5
  }

  function Leading(p: Precision): Field {
    match p
    case YearP => Year case YearToMonth => Year
    case MonthP => Month
    case DayP => Day case DayToHour => Day case DayToMinute => Day case DayToSecond => Day
    case HourP => Hour case HourToMinute => Hour case HourToSecond => Hour
    case MinuteP => Minute case MinuteToSecond => Minute
    case SecondP => Second
  }

  function Trailing(p: Precision): Field {
    match p
    case YearP => Year
    case MonthP => Month case YearToMonth => Month
    case DayP => Day
    case HourP => Hour case DayToHour => Hour
    case MinuteP => Minute case DayToMinute => Minute case HourToMinute => Minute
    case SecondP => Second case DayToSecond => Second case HourToSecond => Second case MinuteToSecond => Second
  }

  predicate Spans(p: Precision, f: Field) {
    Rank(Leading(p)) <= Rank(f) <= Rank(Trailing(p))
  }

  predicate IsYearMonth(p: Precision) {
    p.YearP? || p.MonthP? || p.YearToMonth?
  }

  const NANOS_PER_SECOND: nat := 1_000_000_000
  const NANOS_PER_MINUTE: nat := 60_000_000_000
  const NANOS_PER_HOUR: nat := 3_600_000_000_000
  const NANOS_PER_DAY: nat := 86_400_000_000_000

  function UnitOf(f: Field): nat {
    match f
    case Day => NANOS_PER_DAY
    case Hour => NANOS_PER_HOUR
    case Minute => NANOS_PER_MINUTE
    case _ => NANOS_PER_SECOND
  }

  /** The fields of a split value. A year-month value keeps its years in `day` and its months in `hour`. */
  datatype Parts = Parts(day: nat, hour: nat, minute: nat, second: nat, fraction: nat, negative: bool, truncated: bool)

  const NO_PARTS := Parts(0, 0, 0, 0, 0, false, false)

  // ----- what a split is -----

  function Nanos(p: Parts): nat {
    p.day * NANOS_PER_DAY + p.hour * NANOS_PER_HOUR + p.minute * NANOS_PER_MINUTE + p.second * NANOS_PER_SECOND
          + p.fraction
  }

  /** The mixed-radix form of `total` that `target` keeps: the leading field absorbs everything coarser. */
  ghost predicate IsSplit(total: int, target: Precision, p: Parts) {
    && p.negative == (total < 0)
    && (!Spans(target, Day) ==> p.day == 0) && (!Spans(target, Hour) ==> p.hour == 0)
    && (!Spans(target, Minute) ==> p.minute == 0) && (!Spans(target, Second) ==> p.second == 0)
    && (Leading(target) != Hour ==> p.hour < 24)
    && (Leading(target) != Minute ==> p.minute < 60)
    && (Leading(target) != Second ==> p.second < 60)
    && p.fraction < NANOS_PER_SECOND && (Trailing(target) != Second ==> p.fraction == 0)
    && 0 <= Abs(total) - Nanos(p) < (if Trailing(target) == Second then 1 else UnitOf(Trailing(target)))
    && p.truncated == (Nanos(p) != Abs(total))
  }

  /** The outcome of a split: nothing when the leading count exceeds a `u32`. */
  ghost predicate SplitsTo(total: int, target: Precision, r: Option<Parts>) {
    if Abs(total) / UnitOf(Leading(target)) > U32_MAX then r == None
    else r.Some? && IsSplit(total, target, r.value)
  }

  /** Cut off below field `f`, a split is `total` rounded down to that field's unit. */
  lemma SplitBrackets(total: int, target: Precision, p: Parts)
    requires !IsYearMonth(target) && IsSplit(total, target, p)
    ensures var t, d := Abs(total), p.day * NANOS_PER_DAY;
      var h := d + p.hour * NANOS_PER_HOUR;
      var m := h + p.minute * NANOS_PER_MINUTE;
      var s := m + p.second * NANOS_PER_SECOND;
      && (Spans(target, Day) ==> d <= t < d + NANOS_PER_DAY)
      && (Spans(target, Hour) ==> h <= t < h + NANOS_PER_HOUR)
      && (Spans(target, Minute) ==> m <= t < m + NANOS_PER_MINUTE)
      && (Spans(target, Second) ==> s <= t < s + NANOS_PER_SECOND && p.fraction == t - s)
  {
    match target {
      case DayP => case HourP => case MinuteP => case SecondP => case DayToHour =>
      case DayToMinute => case DayToSecond => case HourToMinute => case HourToSecond => case MinuteToSecond =>
    }
  }

  lemma NothingUnspanned(total: int, target: Precision, p: Parts)
    requires !IsYearMonth(target) && IsSplit(total, target, p)
    ensures (!Spans(target, Day) ==> p.day == 0) && (!Spans(target, Hour) ==> p.hour == 0)
    ensures (!Spans(target, Minute) ==> p.minute == 0)
    ensures (!Spans(target, Second) ==> p.second == 0 && p.fraction == 0)
  {
  }

  lemma SameFields(total: int, target: Precision, a: Parts, b: Parts)
    requires IsSplit(total, target, a) && IsSplit(total, target, b)
    requires a.day == b.day && a.hour == b.hour && a.minute == b.minute && a.second == b.second
    requires a.fraction == b.fraction
    ensures a == b
  {
  }

  /** At most one split exists. */
  lemma SplitIsUnique(total: int, target: Precision, a: Parts, b: Parts)
    requires !IsYearMonth(target) && IsSplit(total, target, a) && IsSplit(total, target, b)
    ensures a == b
  {
    hide IsSplit, Spans;
    SplitBrackets(total, target, a);
    SplitBrackets(total, target, b);
    NothingUnspanned(total, target, a);
    NothingUnspanned(total, target, b);
    var t := Abs(total);
    SameDay(t, 0, a.day, b.day);
    var d := a.day * NANOS_PER_DAY;
    SameHour(t, d, a.hour, b.hour);
    var h := d + a.hour * NANOS_PER_HOUR;
    SameMinute(t, h, a.minute, b.minute);
    SameSecond(t, h + a.minute * NANOS_PER_MINUTE, a.second, b.second);
    SameFields(total, target, a, b);
  }

  // Two counts of one unit that round the same value down are equal.

  lemma SameDay(t: nat, base: nat, x: nat, y: nat)
    ensures base + x * NANOS_PER_DAY <= t < base + (x + 1) * NANOS_PER_DAY ==>
              base + y * NANOS_PER_DAY <= t < base + (y + 1) * NANOS_PER_DAY ==> x == y
  {
  }

  lemma SameHour(t: nat, base: nat, x: nat, y: nat)
    ensures base + x * NANOS_PER_HOUR <= t < base + (x + 1) * NANOS_PER_HOUR ==>
              base + y * NANOS_PER_HOUR <= t < base + (y + 1) * NANOS_PER_HOUR ==> x == y
  {
  }

  lemma SameMinute(t: nat, base: nat, x: nat, y: nat)
    ensures base + x * NANOS_PER_MINUTE <= t < base + (x + 1) * NANOS_PER_MINUTE ==>
              base + y * NANOS_PER_MINUTE <= t < base + (y + 1) * NANOS_PER_MINUTE ==> x == y
  {
  }

  lemma SameSecond(t: nat, base: nat, x: nat, y: nat)
    ensures base + x * NANOS_PER_SECOND <= t < base + (x + 1) * NANOS_PER_SECOND ==>
              base + y * NANOS_PER_SECOND <= t < base + (y + 1) * NANOS_PER_SECOND ==> x == y
  {
  }

  // ----- the split in closed form -----

  /** Whole units of `t`: all of them for the leading field, those past the next coarser unit otherwise. */
  function Units(t: nat, unit: nat, radix: nat, leads: bool): nat
    requires unit > 0 && radix > 0
  {
    if leads then t / unit else t / unit % radix
  }

  /** Each field straight from the total. */
  function DayTimeParts(total: int, target: Precision): Option<Parts> {
    var t, lead := Abs(total), Leading(target);
    if t / UnitOf(lead) > U32_MAX then None
    else
      Some(Parts(
        if Spans(target, Day) then t / NANOS_PER_DAY else 0,
        if Spans(target, Hour) then Units(t, NANOS_PER_HOUR, 24, lead == Hour) else 0,
        if Spans(target, Minute) then Units(t, NANOS_PER_MINUTE, 60, lead == Minute) else 0,
        if Spans(target, Second) then Units(t, NANOS_PER_SECOND, 60, lead == Second) else 0,
        if Trailing(target) == Second then t % NANOS_PER_SECOND else 0,
        total < 0,
        Trailing(target) != Second && t % UnitOf(Trailing(target)) != 0))
  }

  // A unit that divides a coarser one sees the same digits through it.

  lemma HoursOfDay(t: nat)
    ensures t == t / NANOS_PER_DAY * NANOS_PER_DAY + t % NANOS_PER_DAY
    ensures t % NANOS_PER_DAY == (t / NANOS_PER_HOUR % 24) * NANOS_PER_HOUR + t % NANOS_PER_HOUR
  {
  }

  lemma MinutesOfHour(t: nat)
    ensures t % NANOS_PER_HOUR == (t / NANOS_PER_MINUTE % 60) * NANOS_PER_MINUTE + t % NANOS_PER_MINUTE
  {
  }

  lemma SecondsOfMinute(t: nat)
    ensures t % NANOS_PER_MINUTE == (t / NANOS_PER_SECOND % 60) * NANOS_PER_SECOND + t % NANOS_PER_SECOND
  {
  }

  lemma Divides(t: nat, unit: nat)
    requires unit > 0
    ensures t == t / unit * unit + t % unit
  {
  }

  /** Gathers the counts of the four units: whole, and within the next coarser one. */
  lemma FormIsSplit(total: int, target: Precision, p: Parts, d: nat, h: nat, h': nat, m: nat, m': nat, s: nat, s': nat,
                    rd: nat, rh: nat, rm: nat, rs: nat)
    requires !IsYearMonth(target)
    requires var t := Abs(total);
      && t == d * NANOS_PER_DAY + rd && rd == h' * NANOS_PER_HOUR + rh && rd < NANOS_PER_DAY
      && t == h * NANOS_PER_HOUR + rh && rh == m' * NANOS_PER_MINUTE + rm && rh < NANOS_PER_HOUR
      && t == m * NANOS_PER_MINUTE + rm && rm == s' * NANOS_PER_SECOND + rs && rm < NANOS_PER_MINUTE
      && t == s * NANOS_PER_SECOND + rs && rs < NANOS_PER_SECOND
    requires var lead, trail := Leading(target), Trailing(target);
      p == Parts(
        if Spans(target, Day) then d else 0,
        if Spans(target, Hour) then (if lead == Hour then h else h') else 0,
        if Spans(target, Minute) then (if lead == Minute then m else m') else 0,
        if Spans(target, Second) then (if lead == Second then s else s') else 0,
        if trail == Second then rs else 0,
        total < 0,
        trail != Second && (match trail case Day => rd case Hour => rh case _ => rm) != 0)
    ensures IsSplit(total, target, p)
  {
    match target {
      case DayP => case HourP => case MinuteP => case SecondP => case DayToHour =>
      case DayToMinute => case DayToSecond => case HourToMinute => case HourToSecond => case MinuteToSecond =>
    }
  }

  lemma ClosedFormSplits(total: int, target: Precision)
    requires !IsYearMonth(target)
    ensures SplitsTo(total, target, DayTimeParts(total, target))
  {
    hide IsSplit;
    var t := Abs(total);
    HoursOfDay(t);
    MinutesOfHour(t);
    SecondsOfMinute(t);
    Divides(t, NANOS_PER_HOUR);
    Divides(t, NANOS_PER_MINUTE);
    Divides(t, NANOS_PER_SECOND);
    if t / UnitOf(Leading(target)) <= U32_MAX {
      FormIsSplit(total, target, DayTimeParts(total, target).value,
                  t / NANOS_PER_DAY, t / NANOS_PER_HOUR, t / NANOS_PER_HOUR % 24,
                  t / NANOS_PER_MINUTE, t / NANOS_PER_MINUTE % 60, t / NANOS_PER_SECOND, t / NANOS_PER_SECOND % 60,
                  t % NANOS_PER_DAY, t % NANOS_PER_HOUR, t % NANOS_PER_MINUTE, t % NANOS_PER_SECOND);
    }
  }

  lemma SplitIsClosedForm(total: int, target: Precision, r: Option<Parts>)
    requires !IsYearMonth(target) && SplitsTo(total, target, r)
    ensures r == DayTimeParts(total, target)
  {
    hide IsSplit, DayTimeParts;
    ClosedFormSplits(total, target);
    if r.Some? { SplitIsUnique(total, target, r.value, DayTimeParts(total, target).value); }
  }

  // ----- splitting -----

  /** One step of peeling: what is left of `rest` after `field` takes `out` units, if the target spans it. */
  ghost predicate Peeled(rest: nat, field: Field, target: Precision, out: nat, left: nat) {
    if Spans(target, field) then rest == out * UnitOf(field) + left && left < UnitOf(field)
    else out == 0 && left == rest
  }

  /** What peeling one field off `rest` gives: the count and what is left, or nothing when the count exceeds a `u32`. */
  ghost predicate Took(rest: nat, field: Field, target: Precision, out: Option<nat>, left: nat) {
    match out
    case Some(n) => Peeled(rest, field, target, n, left) && n <= U32_MAX
    case None => Spans(target, field) && rest / UnitOf(field) > U32_MAX
  }

  lemma DivisionPeels(rest: nat, unit: nat)
    requires unit > 0
    ensures rest == rest / unit * unit + rest % unit && rest % unit < unit
  {
  }

  /** Peel one field off `rest`. */
  method Take(rest: nat, field: Field, target: Precision) returns (out: Option<nat>, left: nat)
    ensures Took(rest, field, target, out, left)
  {
    hide Leading, Trailing;
    if Rank(Leading(target)) > Rank(field) || Rank(Trailing(target)) < Rank(field) { return Some(0), rest; }
    var unit := UnitOf(field);
    hide UnitOf;
    left := rest;
    if rest / unit > U32_MAX { return None, left; }
    DivisionPeels(rest, unit);
    out, left := Some(rest / unit), rest % unit;
  }

  /** The split value, once `rest` is what the four fields left: a SECOND target keeps it as the fraction. */
  function Gather(total: int, target: Precision, day: nat, hour: nat, minute: nat, second: nat, rest: nat): Parts {
    if Trailing(target) == Second then
      Parts(day, hour, minute, second, if rest <= U32_MAX then rest else U32_MAX, total < 0, false)
    else Parts(day, hour, minute, second, 0, total < 0, rest != 0)
  }

  /** The four fields peeled in order. */
  ghost predicate PeelsTo(total: int, target: Precision, day: nat, r1: nat, hour: nat, r2: nat, minute: nat, r3: nat,
                          second: nat, r4: nat)
  {
    && Peeled(Abs(total), Day, target, day, r1) && Peeled(r1, Hour, target, hour, r2)
    && Peeled(r2, Minute, target, minute, r3) && Peeled(r3, Second, target, second, r4)
  }

  /** What the leading field counts. */
  function LeadingCount(target: Precision, day: nat, hour: nat, minute: nat, second: nat): nat {
    match Leading(target) case Day => day case Hour => hour case Minute => minute case _ => second
  }

  lemma PeelingFromDay(total: int, target: Precision, day: nat, r1: nat, hour: nat, r2: nat, minute: nat, r3: nat,
                       second: nat, r4: nat)
    requires Leading(target) == Day && PeelsTo(total, target, day, r1, hour, r2, minute, r3, second, r4)
    ensures IsSplit(total, target, Gather(total, target, day, hour, minute, second, r4))
    ensures Abs(total) / UnitOf(Leading(target)) == LeadingCount(target, day, hour, minute, second)
  {
    match target {
      case DayP => case DayToHour => case DayToMinute => case DayToSecond =>
    }
  }

  lemma PeelingFromHour(total: int, target: Precision, day: nat, r1: nat, hour: nat, r2: nat, minute: nat, r3: nat,
                        second: nat, r4: nat)
    requires Leading(target) == Hour && PeelsTo(total, target, day, r1, hour, r2, minute, r3, second, r4)
    ensures IsSplit(total, target, Gather(total, target, day, hour, minute, second, r4))
    ensures Abs(total) / UnitOf(Leading(target)) == LeadingCount(target, day, hour, minute, second)
  {
    match target {
      case HourP => case HourToMinute => case HourToSecond =>
    }
  }

  lemma PeelingFromMinute(total: int, target: Precision, day: nat, r1: nat, hour: nat, r2: nat, minute: nat, r3: nat,
                          second: nat, r4: nat)
    requires Leading(target) == Minute || Leading(target) == Second
    requires PeelsTo(total, target, day, r1, hour, r2, minute, r3, second, r4)
    ensures IsSplit(total, target, Gather(total, target, day, hour, minute, second, r4))
    ensures Abs(total) / UnitOf(Leading(target)) == LeadingCount(target, day, hour, minute, second)
  {
    match target {
      case MinuteP => case SecondP => case MinuteToSecond =>
    }
  }

  lemma PeelingSplits(total: int, target: Precision, day: nat, r1: nat, hour: nat, r2: nat, minute: nat, r3: nat,
                      second: nat, r4: nat)
    requires !IsYearMonth(target) && PeelsTo(total, target, day, r1, hour, r2, minute, r3, second, r4)
    ensures IsSplit(total, target, Gather(total, target, day, hour, minute, second, r4))
    ensures Abs(total) / UnitOf(Leading(target)) == LeadingCount(target, day, hour, minute, second)
  {
    hide IsSplit, Gather, PeelsTo, UnitOf, LeadingCount;
    if Leading(target) == Day {
      PeelingFromDay(total, target, day, r1, hour, r2, minute, r3, second, r4);
    } else if Leading(target) == Hour {
      PeelingFromHour(total, target, day, r1, hour, r2, minute, r3, second, r4);
    } else {
      PeelingFromMinute(total, target, day, r1, hour, r2, minute, r3, second, r4);
    }
  }

  /** The split is found, with a leading count that fits, when no field overflowed. */
  lemma AllPeeled(total: int, target: Precision, day: nat, r1: nat, hour: nat, r2: nat, minute: nat, r3: nat,
                  second: nat, r4: nat)
    requires !IsYearMonth(target)
    requires Took(Abs(total), Day, target, Some(day), r1) && Took(r1, Hour, target, Some(hour), r2)
    requires Took(r2, Minute, target, Some(minute), r3) && Took(r3, Second, target, Some(second), r4)
    ensures IsSplit(total, target, Gather(total, target, day, hour, minute, second, r4))
    ensures Abs(total) / UnitOf(Leading(target)) <= U32_MAX
  {
    hide IsSplit, Gather, Peeled, UnitOf;
    PeelingSplits(total, target, day, r1, hour, r2, minute, r3, second, r4);
  }

  // A field that does not lead is below the radix above it, so only the leading one can overflow.

  lemma DayOverflows(total: int, target: Precision, left: nat)
    requires Took(Abs(total), Day, target, None, left)
    ensures !IsYearMonth(target) && Abs(total) / UnitOf(Leading(target)) > U32_MAX
  {
  }

  lemma HourOverflows(total: int, target: Precision, day: nat, r1: nat, left: nat)
    requires Took(Abs(total), Day, target, Some(day), r1) && Took(r1, Hour, target, None, left)
    ensures !IsYearMonth(target) && Abs(total) / UnitOf(Leading(target)) > U32_MAX
  {
  }

  lemma MinuteOverflows(total: int, target: Precision, day: nat, r1: nat, hour: nat, r2: nat, left: nat)
    requires Took(Abs(total), Day, target, Some(day), r1) && Took(r1, Hour, target, Some(hour), r2)
    requires Took(r2, Minute, target, None, left)
    ensures !IsYearMonth(target) && Abs(total) / UnitOf(Leading(target)) > U32_MAX
  {
  }

  lemma SecondOverflows(total: int, target: Precision, day: nat, r1: nat, hour: nat, r2: nat, minute: nat, r3: nat,
                        left: nat)
    requires Took(Abs(total), Day, target, Some(day), r1) && Took(r1, Hour, target, Some(hour), r2)
    requires Took(r2, Minute, target, Some(minute), r3) && Took(r3, Second, target, None, left)
    ensures !IsYearMonth(target) && Abs(total) / UnitOf(Leading(target)) > U32_MAX
  {
  }

  lemma NothingPeeled(total: int, target: Precision, day: nat, r1: nat, hour: nat, r2: nat, minute: nat, r3: nat,
                      second: nat, r4: nat)
    requires IsYearMonth(target)
    requires Took(Abs(total), Day, target, Some(day), r1) && Took(r1, Hour, target, Some(hour), r2)
    requires Took(r2, Minute, target, Some(minute), r3) && Took(r3, Second, target, Some(second), r4)
    ensures Gather(total, target, day, hour, minute, second, r4)
          == NO_PARTS.(negative := total < 0, truncated := total != 0)
  {
  }

  lemma SplitsIf(total: int, target: Precision)
    ensures Abs(total) / UnitOf(Leading(target)) > U32_MAX ==> SplitsTo(total, target, None)
    ensures Abs(total) / UnitOf(Leading(target)) <= U32_MAX ==>
              forall p :: IsSplit(total, target, p) ==> SplitsTo(total, target, Some(p))
  {
    hide IsSplit;
  }

  method SplitDayTime(total: int, target: Precision) returns (r: Option<Parts>)
    ensures !IsYearMonth(target) ==> SplitsTo(total, target, r)
    ensures IsYearMonth(target) ==> r == Some(NO_PARTS.(negative := total < 0, truncated := total != 0))
  {
    hide *;
    r := None;
    SplitsIf(total, target);
    var day, r1 := Take(Abs(total), Day, target);
    if day == None { DayOverflows(total, target, r1); return; }
    var hour, r2 := Take(r1, Hour, target);
    if hour == None { HourOverflows(total, target, day.value, r1, r2); return; }
    var minute, r3 := Take(r2, Minute, target);
    if minute == None { MinuteOverflows(total, target, day.value, r1, hour.value, r2, r3); return; }
    var second, rest := Take(r3, Second, target);
    if second == None { SecondOverflows(total, target, day.value, r1, hour.value, r2, minute.value, r3, rest); return; }
    r := Some(Gather(total, target, day.value, hour.value, minute.value, second.value, rest));
    if IsYearMonth(target) {
      NothingPeeled(total, target, day.value, r1, hour.value, r2, minute.value, r3, second.value, rest);
    } else {
      AllPeeled(total, target, day.value, r1, hour.value, r2, minute.value, r3, second.value, rest);
    }
  }

  /** The same law in months: years in `day`, months in `hour`. */
  ghost predicate IsMonthSplit(months: int, target: Precision, p: Parts) {
    && p == NO_PARTS.(day := p.day, hour := p.hour, negative := months < 0, truncated := p.truncated)
    && (target.MonthP? ==> p.day == 0) && (target.YearP? ==> p.hour == 0) && (!target.MonthP? ==> p.hour < 12)
    && 0 <= Abs(months) - (12 * p.day + p.hour) < (if target.YearP? then 12 else 1)
    && p.truncated == (12 * p.day + p.hour != Abs(months))
  }

  ghost predicate MonthsSplitTo(months: int, target: Precision, r: Option<Parts>) {
    if Abs(months) / (if target.MonthP? then 1 else 12) > U32_MAX then r == None
    else r.Some? && IsMonthSplit(months, target, r.value)
  }

  lemma MonthSplitIsUnique(months: int, target: Precision, a: Parts, b: Parts)
    requires IsYearMonth(target) && IsMonthSplit(months, target, a) && IsMonthSplit(months, target, b)
    ensures a == b
  {
  }

  function MonthParts(months: int, target: Precision): Option<Parts> {
    var t := Abs(months);
    if t / (if target.MonthP? then 1 else 12) > U32_MAX then None
    else
      Some(NO_PARTS.(
        day := if target.MonthP? then 0 else t / 12,
        hour := match target case MonthP => t case YearToMonth => t % 12 case _ => 0,
        negative := months < 0,
        truncated := !target.MonthP? && !target.YearToMonth? && t % 12 != 0))
  }

  lemma MonthFormSplits(months: int, target: Precision)
    requires IsYearMonth(target)
    ensures MonthsSplitTo(months, target, MonthParts(months, target))
  {
  }

  method SplitYearMonth(years: int, months: int, target: Precision) returns (r: Option<Parts>)
    ensures IsYearMonth(target) ==> MonthsSplitTo(12 * years + months, target, r)
    ensures !IsYearMonth(target) ==>
              r == Some(NO_PARTS.(negative := 12 * years + months < 0, truncated := 12 * years + months != 0))
  {
    var total := years * 12 + months;
    var rest := Abs(total);
    var year, month := 0, 0;
    if Leading(target) == Year {
      if rest / 12 > U32_MAX { return None; }
      year, rest := rest / 12, rest % 12;
    }
    if Trailing(target) == Month {
      if rest > U32_MAX { return None; }
      month, rest := rest, 0;
    }
    r := Some(NO_PARTS.(day := year, hour := month, negative := total < 0, truncated := rest != 0));
  }
}
