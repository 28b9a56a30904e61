/** The texts that are intervals: exactly those of two grammars, each read as the value it spells. */
module IntervalSpelling {
  import opened Arithmetic
  import opened Wrappers
  import opened Text
  import opened Decimal
  import opened Interval
  import opened IntervalParser

  /** What reading answers: a value and whether a non-zero digit past the ninth was dropped, or 22018 or 22015. */
  type Answer = Result<(IntervalValue, bool), IntervalError>

  /** A day-time text or a year-month text, from blanks to blanks. */
  datatype IntervalSpelling =
    | DayTimeSpelling(before: string, t: Spelled, after: string)
    | YearMonthSpelling(before: string, negative: bool, y: string, m: string, after: string)
  {
    predicate Shaped() {
      AllBlank(before) && AllBlank(after) && if DayTimeSpelling? then t.Shaped() else Digits(y) && Digits(m)
    }

    function Negative(): bool {
      if DayTimeSpelling? then t.negative else negative
    }

    function Body(): string {
      if DayTimeSpelling? then t.Body() else y + "-" + m
    }

    function Text(): string {
      before + ((if Negative() then "-" else "") + Body()) + after
    }

    /** A day count, a clock or a total beyond an `i128` is 22015, and so are years beyond an `i32`. */
    function Reads(target: Precision): Answer
      requires Shaped()
    {
      if IsYearMonth(target) != YearMonthSpelling? then Err(InvalidCast)
      else if YearMonthSpelling? then
        if Value(y) > I32_MAX then Err(FieldOverflow)
        else if Value(m) > 11 then Err(InvalidCast)
        else Ok((YearMonth(Signed(negative, Value(y)), Signed(negative, Value(m)), YearToMonth), false))
      else if Value(t.d) > I128_MAX || Value(t.h) > I128_MAX || Value(t.m) > I128_MAX || Value(t.sec) > I128_MAX then
        Err(FieldOverflow)
      else if !t.OnTheClock() then Err(InvalidCast)
      else if t.Total() > I128_MAX then Err(FieldOverflow)
      else
        Ok((DayTime(Signed(t.negative, t.Total()), DayToSecond),
            exists k :: 9 <= k < |t.Frac()| && t.Frac()[k] != '0'))
    }
  }

  lemma SignAndBlanksComeOff(before: string, negative: bool, body: string, after: string, target: Precision)
    requires AllBlank(before) && AllBlank(after) && body != "" && IsDigit(body[0]) && IsDigit(body[|body| - 1])
    ensures ParseIntervalText(before + ((if negative then "-" else "") + body) + after, target)
          == ParseUnsignedText(body, negative, target)
  {
    hide Trim, AllBlank, ParseUnsignedText;
    var s := (if negative then "-" else "") + body;
    assert negative ==> s[1..] == body;
    assert !negative ==> s == body;
    BlanksAround(before, s, after);
  }

  lemma ClockFieldsRead(t: Spelled, target: Precision)
    requires t.Shaped() && !IsYearMonth(target)
    ensures Compose(t.d, t.h, t.m, t.sec, t.Frac(), t.negative, target)
          == DayTimeSpelling("", t, "").Reads(target)
  {
    hide Value, FitRight, ParseSigned, Pow10;
    FractionTruncates(t.Frac());
    ParseReadsDigits(t.d, I128_MIN, I128_MAX);
    ParseReadsDigits(t.h, I128_MIN, I128_MAX);
    ParseReadsDigits(t.m, I128_MIN, I128_MAX);
    ParseReadsDigits(t.sec, I128_MIN, I128_MAX);
  }

  lemma WrongFamily(t: Spelled, target: Precision)
    requires t.Shaped() && IsYearMonth(target)
    ensures Compose(t.d, t.h, t.m, t.sec, t.Frac(), t.negative, target) == Err(InvalidCast)
  {
  }

  lemma DayTimeBody(t: Spelled, target: Precision)
    requires t.Shaped()
    ensures var b := t.Body();
      && b != "" && IsDigit(b[0]) && IsDigit(b[|b| - 1])
      && ParseUnsignedText(b, t.negative, target) == Compose(t.d, t.h, t.m, t.sec, t.Frac(), t.negative, target)
  {
    hide SplitOnceEither, Compose, Spelled.Body, Spelled.Seconds;
    SpelledSplits(t);
    SplitNowhere(t.Body(), '-', '-');
    SecondsSplit(t);
  }

  lemma YearMonthBody(y: string, m: string, negative: bool, target: Precision)
    requires Digits(y) && Digits(m)
    ensures var b := y + "-" + m;
      && b != "" && IsDigit(b[0]) && IsDigit(b[|b| - 1])
      && ParseUnsignedText(b, negative, target) == YearMonthSpelling("", negative, y, m, "").Reads(target)
  {
    hide SplitOnceEither, Value, ParseSigned;
    SplitAtFirst(y, '-', m, '-', '-');
    ParseReadsDigits(y, I32_MIN, I32_MAX);
    ParseReadsDigits(m, I32_MIN, I32_MAX);
  }

  /** Every spelling is read as what it spells, or refused as it says. */
  lemma SpellingIsRead(p: IntervalSpelling, target: Precision)
    requires p.Shaped()
    ensures ParseIntervalText(p.Text(), target) == p.Reads(target)
  {
    hide ParseIntervalText, ParseUnsignedText, Compose, AllBlank, Spelled.Body, Spelled.Shaped, Value, Spelled.Total;
    match p {
      case DayTimeSpelling(before, t, after) =>
        DayTimeBody(t, target);
        SignAndBlanksComeOff(before, t.negative, t.Body(), after, target);
        if IsYearMonth(target) { WrongFamily(t, target); } else { ClockFieldsRead(t, target); }
      case YearMonthSpelling(before, negative, y, m, after) =>
        YearMonthBody(y, m, negative, target);
        SignAndBlanksComeOff(before, negative, y + "-" + m, after, target);
    }
  }

  // ----- nothing else is -----

  lemma SecondsParts(seconds: string) returns (sec: string, frac: Option<string>)
    ensures seconds == sec + match frac case None => "" case Some(f) => "." + f
    ensures SplitOnce(seconds, '.') == match frac case None => None case Some(f) => Some((sec, f))
    ensures frac.None? ==> sec == seconds
  {
    hide SplitOnceEither;
    SplitShortens(seconds, '.', '.');
    match SplitOnce(seconds, '.') {
      case None =>
        sec, frac := seconds, None;
        assert seconds + "" == seconds;
      case Some((a, f)) =>
        sec, frac := a, Some(f);
        assert a + ['.'] + f == a + ("." + f);
    }
  }

  lemma DayTimeParts(d: string, time: string, negative: bool, target: Precision) returns (t: Spelled)
    requires ParseDayTime(d, time, negative, target).Ok?
    ensures t.Shaped() && t.negative == negative && t.Body() == d + " " + time
  {
    hide SplitOnceEither, ParseSigned, Value, FitRight;
    SplitShortens(time, ':', ':');
    var (h, late) := SplitOnce(time, ':').value;
    SplitShortens(late, ':', ':');
    var (m, seconds) := SplitOnce(late, ':').value;
    var sec, frac := SecondsParts(seconds);
    t := Spelled(negative, d, h, m, sec, frac);
    assert h + [':'] + late == h + ":" + late && m + [':'] + seconds == m + ":" + seconds;
  }

  /** The body of what is read. */
  lemma ReadBody(body: string, negative: bool, target: Precision, before: string, after: string)
    returns (p: IntervalSpelling)
    requires ParseUnsignedText(body, negative, target).Ok? && AllBlank(before) && AllBlank(after)
    ensures p.Shaped() && p.before == before && p.after == after && p.Negative() == negative && p.Body() == body
  {
    hide SplitOnceEither, AllBlank, ParseDayTime, ParseSigned, Value;
    SplitShortens(body, '-', '-');
    match SplitOnce(body, '-') {
      case Some((y, m)) =>
        p := YearMonthSpelling(before, negative, y, m, after);
      case None =>
        SplitShortens(body, ' ', ' ');
        var (d, time) := SplitOnce(body, ' ').value;
        var t := DayTimeParts(d, time, negative, target);
        p := DayTimeSpelling(before, t, after);
        assert d + [' '] + time == d + " " + time;
    }
  }

  lemma ReadIsSpelled(s: string, target: Precision) returns (p: IntervalSpelling)
    requires ParseIntervalText(s, target).Ok?
    ensures p.Shaped() && p.Text() == s
  {
    var before, after := TrimDecomposes(s);
    hide Trim, AllBlank, ParseUnsignedText, IntervalSpelling.Shaped, IntervalSpelling.Body, IntervalSpelling.Negative;
    var t := Trim(s);
    var negative := t != [] && t[0] == '-';
    var body := if negative then t[1..] else t;
    p := ReadBody(body, negative, target, before, after);
    assert t == (if negative then "-" else "") + body;
  }

  /** A text is an interval exactly when it is a spelling of one, and then it is read as what it spells. */
  lemma IntervalsAreSpellings(s: string, target: Precision, v: IntervalValue, dropped: bool)
    ensures ParseIntervalText(s, target) == Ok((v, dropped)) <==>
            exists p: IntervalSpelling :: p.Shaped() && p.Text() == s && p.Reads(target) == Ok((v, dropped))
  {
    hide ParseIntervalText, IntervalSpelling.Shaped, IntervalSpelling.Text, IntervalSpelling.Reads;
    forall p: IntervalSpelling | p.Shaped() && p.Text() == s ensures ParseIntervalText(s, target) == p.Reads(target) {
      SpellingIsRead(p, target);
    }
    if ParseIntervalText(s, target).Ok? {
      var p := ReadIsSpelled(s, target);
      assert p.Shaped() && p.Text() == s;
    }
  }
}
