/** The proleptic Gregorian calendar: day numbers to dates, and what makes a date valid. */
module Calendar {
  import opened Arithmetic

  datatype Date = Date(year: int, month: int, day: int)

  predicate IsLeapYear(year: int) {
    year % 4 == 0 && (year % 100 != 0 || year % 400 == 0)
  }

  function DaysInMonth(year: int, month: int): int {
    if month == 2 then (if IsLeapYear(year) then 29 else 28)
    else if month == 4 || month == 6 || month == 9 || month == 11 then 30
    else 31
  }

  predicate Valid(date: Date) {
    1 <= date.month <= 12 && 1 <= date.day <= DaysInMonth(date.year, date.month)
  }

  // ----- the algorithm -----

  const DAYS_PER_ERA := 146_097

  /** The year of the era that day `doe` of the era falls in, counting years from March. */
  function YearOfEra(doe: int): int {
    (doe - doe / 1_460 + doe / 36_524 - doe / 146_096) / 365
  }

  /** Days of the era before its March-based year `yoe`. */
  function EraDays(yoe: int): int {
    365 * yoe + yoe / 4 - yoe / 100
  }

  /** The date of the day `days` after 1970-01-01. */
  function CivilFromDays(days: int): Date {
    var z := days + 719_468;
    var era := TruncatingDiv(if z >= 0 then z else z - 146_096, DAYS_PER_ERA);
    var doe := z - era * DAYS_PER_ERA;
    var yoe := YearOfEra(doe);
    var doy := doe - EraDays(yoe);
    var mp := (5 * doy + 2) / 153;
    var day := doy - (153 * mp + 2) / 5 + 1;
    var month := if mp < 10 then mp + 3 else mp - 9;
    Date(yoe + era * 400 + (if month <= 2 then 1 else 0), month, day)
  }

  // ----- the calendar it must agree with -----

  /** The next day, by the lengths of the months. */
  function NextDay(date: Date): Date {
    if date.day < DaysInMonth(date.year, date.month) then Date(date.year, date.month, date.day + 1)
    else if date.month < 12 then Date(date.year, date.month + 1, 1)
    else Date(date.year + 1, 1, 1)
  }

  predicate Earlier(a: Date, b: Date) {
    || a.year < b.year
    || (a.year == b.year && (a.month < b.month || (a.month == b.month && a.day < b.day)))
  }

  lemma EraIsFloor(z: int)
    ensures TruncatingDiv(if z >= 0 then z else z - 146_096, DAYS_PER_ERA) == z / DAYS_PER_ERA
  {
    if z < 0 {
      var n := 146_096 - z;
      var q := z / DAYS_PER_ERA;
      var r := z % DAYS_PER_ERA;
      assert z == q * DAYS_PER_ERA + r && 0 <= r < DAYS_PER_ERA;
      assert n == -q * DAYS_PER_ERA + (146_096 - r);
      assert n / DAYS_PER_ERA == -q;
    }
  }

  /** A day of the era as centuries, four-year groups, years and days from a March. */
  lemma EraDigits(doe: int) returns (c: int, q: int, y: int, rest: int)
    requires 0 <= doe < DAYS_PER_ERA
    ensures 0 <= c <= 3 && 0 <= q <= 24 && 0 <= y <= 3 && 0 <= rest <= 365
    ensures doe == 36_524 * c + 1_461 * q + 365 * y + rest
    ensures rest == 365 ==> y == 3 && (q < 24 || c == 3)
  {
    c := if doe == 146_096 then 3 else doe / 36_524;
    var r := doe - 36_524 * c;
    q := r / 1_461;
    var t := r - 1_461 * q;
    y := if t == 1_460 then 3 else t / 365;
    rest := t - 365 * y;
  }

  lemma EraDaysOfDigits(c: int, q: int, y: int)
    requires 0 <= c <= 3 && 0 <= q <= 24 && 0 <= y <= 3
    ensures EraDays(100 * c + 4 * q + y) == 36_524 * c + 1_461 * q + 365 * y
  {
    var n := 100 * c + 4 * q + y;
    assert n / 4 == 25 * c + q;
    assert n / 100 == c;
  }

  lemma YearOfDigits(doe: int, c: int, q: int, y: int, rest: int)
    requires 0 <= c <= 3 && 0 <= q <= 24 && 0 <= y <= 3 && 0 <= rest <= 365
    requires doe == 36_524 * c + 1_461 * q + 365 * y + rest
    requires rest == 365 ==> y == 3 && (q < 24 || c == 3)
    ensures YearOfEra(doe) == 100 * c + 4 * q + y
  {
    var t := 365 * y + rest;
    var e := if 24 * c + q + t >= 1_460 then 1 else 0;
    assert doe / 1_460 == 25 * c + q + e;
    assert doe / 36_524 - doe / 146_096 == c by {
      if doe == 146_096 {
      } else {
        assert 0 <= 1_461 * q + t < 36_524;
        assert doe / 36_524 == c;
      }
    }
    var n := 365 * (100 * c + 4 * q) + t - e;
    assert doe - doe / 1_460 + doe / 36_524 - doe / 146_096 == n;
    assert (t - e) / 365 == y;
    assert n / 365 == 100 * c + 4 * q + y;
  }

  // ----- years that begin in March -----

  /** A day as its 400-year era, its March-based year within that, and the day of that year. */
  datatype MarchDay = MarchDay(era: int, yoe: int, doy: int)

  /** The leap day, if any, is the last day of the March-based year. */
  predicate ValidMarchDay(m: MarchDay) {
    0 <= m.yoe <= 399 && 0 <= m.doy <= 365 && (m.doy == 365 ==> IsLeapYear(400 * m.era + m.yoe + 1))
  }

  function ToMarchDay(days: int): MarchDay {
    var z := days + 719_468;
    var era := z / DAYS_PER_ERA;
    var yoe := YearOfEra(z - era * DAYS_PER_ERA);
    MarchDay(era, yoe, z - era * DAYS_PER_ERA - EraDays(yoe))
  }

  function FromMarchDay(m: MarchDay): int {
    m.era * DAYS_PER_ERA + EraDays(m.yoe) + m.doy - 719_468
  }

  function MarchToCivil(m: MarchDay): Date {
    var mp := (5 * m.doy + 2) / 153;
    var month := if mp < 10 then mp + 3 else mp - 9;
    Date(m.yoe + m.era * 400 + (if month <= 2 then 1 else 0), month, m.doy - (153 * mp + 2) / 5 + 1)
  }

  function CivilToMarch(date: Date): MarchDay {
    var year := if date.month <= 2 then date.year - 1 else date.year;
    var mp := if date.month <= 2 then date.month + 9 else date.month - 3;
    MarchDay(year / 400, year % 400, (153 * mp + 2) / 5 + date.day - 1)
  }

  lemma DivisibleBy4(k: int, y: int)
    requires 0 <= y <= 3
    ensures (4 * k + y + 1) % 4 == 0 <==> y == 3
  {
  }

  lemma DivisibleBy100(k: int, q: int)
    requires 0 <= q <= 24
    ensures (100 * k + 4 * (q + 1)) % 100 == 0 <==> q == 24
  {
  }

  lemma DivisibleBy400(era: int, c: int)
    requires 0 <= c <= 3
    ensures (400 * era + 100 * (c + 1)) % 400 == 0 <==> c == 3
  {
  }

  lemma LeapOfDigits(era: int, c: int, q: int, y: int)
    requires 0 <= c <= 3 && 0 <= q <= 24 && 0 <= y <= 3
    ensures IsLeapYear(400 * era + (100 * c + 4 * q + y) + 1) <==> y == 3 && (q < 24 || c == 3)
  {
    var n := 400 * era + (100 * c + 4 * q + y) + 1;
    DivisibleBy4(100 * era + 25 * c + q, y);
    assert n == 4 * (100 * era + 25 * c + q) + y + 1;
    if y == 3 {
      DivisibleBy100(4 * era + c, q);
      assert n == 100 * (4 * era + c) + 4 * (q + 1);
      DivisibleBy400(era, c);
      if q == 24 { assert n == 400 * era + 100 * (c + 1); }
    }
  }

  lemma DigitsOfYear(yoe: int) returns (c: int, q: int, y: int)
    requires 0 <= yoe <= 399
    ensures 0 <= c <= 3 && 0 <= q <= 24 && 0 <= y <= 3 && yoe == 100 * c + 4 * q + y
  {
    c, q, y := yoe / 100, yoe % 100 / 4, yoe % 4;
    assert yoe % 100 % 4 == yoe % 4;
  }

  lemma MarchDayOfDays(days: int)
    ensures ValidMarchDay(ToMarchDay(days)) && FromMarchDay(ToMarchDay(days)) == days
  {
    var z := days + 719_468;
    var era := z / DAYS_PER_ERA;
    var doe := z - era * DAYS_PER_ERA;
    var c, q, y, rest := EraDigits(doe);
    YearOfDigits(doe, c, q, y, rest);
    EraDaysOfDigits(c, q, y);
    LeapOfDigits(era, c, q, y);
  }

  lemma DaysOfMarchDay(m: MarchDay)
    requires ValidMarchDay(m)
    ensures ToMarchDay(FromMarchDay(m)) == m
  {
    var c, q, y := DigitsOfYear(m.yoe);
    EraDaysOfDigits(c, q, y);
    LeapOfDigits(m.era, c, q, y);
    var doe := EraDays(m.yoe) + m.doy;
    assert 0 <= doe < DAYS_PER_ERA;
    assert (m.era * DAYS_PER_ERA + doe) / DAYS_PER_ERA == m.era;
    YearOfDigits(doe, c, q, y, m.doy);
  }

  lemma CivilIsMarch(days: int)
    ensures CivilFromDays(days) == MarchToCivil(ToMarchDay(days))
  {
    hide YearOfEra, EraDays, TruncatingDiv;
    EraIsFloor(days + 719_468);
  }

  lemma MarchCivilInverse(m: MarchDay)
    requires ValidMarchDay(m)
    ensures Valid(MarchToCivil(m)) && CivilToMarch(MarchToCivil(m)) == m
  {
    var mp := (5 * m.doy + 2) / 153;
    assert 0 <= mp <= 11;
    assert (400 * m.era + m.yoe) / 400 == m.era && (400 * m.era + m.yoe) % 400 == m.yoe;
  }

  lemma CivilMarchInverse(date: Date)
    requires Valid(date)
    ensures ValidMarchDay(CivilToMarch(date)) && MarchToCivil(CivilToMarch(date)) == date
  {
    var m := CivilToMarch(date);
    assert 400 * m.era + m.yoe == if date.month <= 2 then date.year - 1 else date.year;
    assert (5 * m.doy + 2) / 153 == if date.month <= 2 then date.month + 9 else date.month - 3;
  }

  // ----- the bijection -----

  /** The day number of a date. */
  function DayNumber(date: Date): int {
    FromMarchDay(CivilToMarch(date))
  }

  /** Every day number is a valid date, and the date determines the day number. */
  lemma CivilIsValid(days: int)
    ensures Valid(CivilFromDays(days)) && DayNumber(CivilFromDays(days)) == days
  {
    CivilIsMarch(days);
    MarchDayOfDays(days);
    MarchCivilInverse(ToMarchDay(days));
  }

  /** Every valid date has exactly one day number. */
  lemma CivilIsOnto(date: Date)
    requires Valid(date)
    ensures forall n :: CivilFromDays(n) == date <==> n == DayNumber(date)
  {
    CivilMarchInverse(date);
    DaysOfMarchDay(CivilToMarch(date));
    CivilIsMarch(DayNumber(date));
    forall n | CivilFromDays(n) == date ensures n == DayNumber(date) { CivilIsValid(n); }
  }

  /** A day later is the calendar's next day. */
  lemma CivilSucceeds(days: int)
    ensures CivilFromDays(days + 1) == NextDay(CivilFromDays(days))
  {
    CivilIsValid(days);
    var date := CivilFromDays(days);
    var next := NextDay(date);
    NextDayNumber(date);
    CivilIsOnto(next);
  }

  lemma YearTurns(yoe: int, era: int)
    requires 0 <= yoe <= 399
    ensures yoe < 399 ==> EraDays(yoe + 1) == EraDays(yoe) + 365 + (if IsLeapYear(400 * era + yoe + 1) then 1 else 0)
    ensures yoe == 399 ==> EraDays(yoe) + 366 == DAYS_PER_ERA && IsLeapYear(400 * era + yoe + 1)
  {
    var c, q, y := DigitsOfYear(yoe);
    EraDaysOfDigits(c, q, y);
    LeapOfDigits(era, c, q, y);
    if yoe < 399 {
      if y < 3 {
        EraDaysOfDigits(c, q, y + 1);
      } else if q < 24 {
        EraDaysOfDigits(c, q + 1, 0);
      } else {
        EraDaysOfDigits(c + 1, 0, 0);
      }
    }
  }

  lemma NextDayNumber(date: Date)
    requires Valid(date)
    ensures Valid(NextDay(date)) && DayNumber(NextDay(date)) == DayNumber(date) + 1
  {
    var next := NextDay(date);
    var m, m' := CivilToMarch(date), CivilToMarch(next);
    if date.month == 2 && next.month == 3 {
      var year := date.year - 1;
      YearTurns(m.yoe, m.era);
      assert year == 400 * m.era + m.yoe && next.year == year + 1;
      assert m.yoe < 399 ==> m' == MarchDay(m.era, m.yoe + 1, 0);
      assert m.yoe == 399 ==> m' == MarchDay(m.era + 1, 0, 0);
    } else {
      assert m' == m.(doy := m.doy + 1);
    }
  }

  lemma EpochIs1970()
    ensures CivilFromDays(0) == Date(1970, 1, 1)
  {
  }

  /** Day numbers and dates are in the same order. */
  lemma {:induction false} CivilIncreases(a: int, b: int)
    requires a < b
    ensures Earlier(CivilFromDays(a), CivilFromDays(b))
    decreases b - a
  {
    hide CivilFromDays, DayNumber;
    CivilSucceeds(b - 1);
    CivilIsValid(b - 1);
    if a < b - 1 { CivilIncreases(a, b - 1); }
  }

  // ----- machine arithmetic -----

  predicate FitsI64(n: int) {
    -0x8000_0000_0000_0000 <= n < 0x8000_0000_0000_0000
  }

  /** No step of the algorithm leaves the range of its type while `days + 719468` fits. */
  lemma NoOverflow(days: int)
    requires FitsI64(days) && FitsI64(days + 719_468)
    ensures var z := days + 719_468;
      var era := z / DAYS_PER_ERA;
      var m := ToMarchDay(days);
      && (z < 0 ==> FitsI64(z - 146_096)) && FitsI64(era * DAYS_PER_ERA) && FitsI64(era * 400 + 400)
      && 0 <= z - era * DAYS_PER_ERA < DAYS_PER_ERA && 0 <= m.yoe <= 399 && 0 <= m.doy <= 365
      && FitsI64(CivilFromDays(days).year)
  {
    MarchDayOfDays(days);
    CivilIsMarch(days);
  }
}
