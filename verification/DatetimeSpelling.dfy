/** The texts that are times and timestamps: exactly those of one grammar, each read as the moment it spells. */
module DatetimeSpelling {
  import opened Wrappers
  import opened Text
  import opened Decimal
  import opened Clock
  import opened Calendar
  import opened Datetime
  import opened IntervalParser
  import opened NumericSpelling

  // ----- fields -----

  /** A field as written: digits, with or without a plus sign. */
  predicate IsField(s: string) {
    s != "" && if s[0] == '+' then |s| > 1 && AllDigits(s[1..]) else AllDigits(s)
  }

  function NumberIn(s: string): nat
    requires IsField(s)
  {
    Value(if s[0] == '+' then s[1..] else s)
  }

  lemma FieldParses(s: string, min: int, max: nat)
    requires IsField(s) && min <= 0
    ensures ParseUnsigned(s, max) == if NumberIn(s) <= max then Ok(NumberIn(s)) else Err(Overflow)
    ensures ParseSigned(s, min, max) == if NumberIn(s) <= max then Ok(NumberIn(s)) else Err(Overflow)
  {
    hide Value, ParseDigits;
    DigitsParse(if s[0] == '+' then s[1..] else s, max);
  }

  lemma ParsedIsField(s: string, min: int, max: nat)
    requires min <= 0
    ensures ParseUnsigned(s, max).Ok? ==> IsField(s)
    ensures '-' !in s && ParseSigned(s, min, max).Ok? ==> IsField(s)
  {
    hide ParseDigits, AllDigits;
    if s != "" {
      if ParseDigits(s, 0, max).Ok? { ParsedIsDigits(s, 0, max); }
      if ParseDigits(s[1..], 0, max).Ok? { ParsedIsDigits(s[1..], 0, max); }
    }
  }

  predicate FieldChars(s: string) {
    s != "" && !IsWhitespace(s[0]) && IsDigit(s[|s| - 1]) && forall c :: c in s ==> IsDigit(c) || c == '+'
  }

  lemma FieldsAreSolid(s: string)
    requires IsField(s)
    ensures FieldChars(s)
  {
    forall c | c in s ensures IsDigit(c) || c == '+' {
      var k :| 0 <= k < |s| && s[k] == c;
      assert s[0] == '+' && k > 0 ==> s[1..][k - 1] == c;
    }
    assert s[0] == '+' ==> s[1..][|s| - 2] == s[|s| - 1];
  }

  // ----- times -----

  /** `h:m`, `h:m:s` or `h:m:s.f`. */
  datatype ClockSpelling = ClockSpelling(h: string, m: string, sec: Option<string>, frac: Option<string>)
  {
    predicate Shaped() {
      && IsField(h) && IsField(m) && (sec.Some? ==> IsField(sec.value))
      && (frac.Some? ==> sec.Some? && frac.value != "" && AllDigits(frac.value))
    }

    function Seconds(): string {
      match sec case None => "0" case Some(s) => s + match frac case None => "" case Some(f) => "." + f
    }

    function Text(): string {
      h + ":" + (m + if sec.Some? then ":" + Seconds() else "")
    }

    function SecondValue(): nat
      requires Shaped()
    {
      match sec case None => 0 case Some(s) => NumberIn(s)
    }

    /** The fraction in billionths, cut off. */
    function Nanos(): nat
      requires Shaped()
    {
      match frac case None => 0 case Some(f) => Billionths(f)
    }

    /** The time spelled. */
    function Clock(): Time
      requires Shaped()
    {
      Time(NumberIn(h), NumberIn(m), SecondValue(), Nanos())
    }

    predicate InRange()
      requires Shaped()
    {
      NumberIn(h) <= 23 && NumberIn(m) <= 59 && SecondValue() <= 60
    }
  }

  lemma ZeroSeconds()
    ensures ParseSeconds("0") == Ok((0, 0))
  {
    SplitNowhere("0", '.', '.');
    assert "0"[..0] == [] && "0"[1..] == "";
  }

  lemma SecondsAreRead(p: ClockSpelling)
    requires p.Shaped()
    ensures ParseSeconds(p.Seconds()) ==
              if p.SecondValue() <= U16_MAX then Ok((p.SecondValue(), p.Nanos())) else Err(InvalidFormat)
    ensures ':' !in p.Seconds() && p.Seconds() != "" && IsDigit(p.Seconds()[|p.Seconds()| - 1])
    ensures p.Seconds()[0] == '+' || IsDigit(p.Seconds()[0])
  {
    hide Value, FitRight, SplitOnceEither, Pow10, ParseUnsigned, IsField, NumberIn;
    match p.sec {
      case None => ZeroSeconds();
      case Some(s) =>
        FieldsAreSolid(s);
        FieldParses(s, 0, U16_MAX);
        match p.frac {
          case None =>
            assert s + "" == s;
            SplitNowhere(s, '.', '.');
          case Some(f) =>
            DigitsLack(f, ':');
            assert s + ("." + f) == s + ['.'] + f;
            SplitAtFirst(s, '.', f, '.', '.');
            FractionTruncates(f);
        }
    }
  }

  lemma ClockSplits(p: ClockSpelling)
    requires p.Shaped()
    ensures Split(p.Text(), ':') == [p.h, p.m] + if p.sec.Some? then [p.Seconds()] else []
    ensures var t := p.Text();
      t != "" && !IsWhitespace(t[0]) && !IsWhitespace(t[|t| - 1]) && IsDigit(t[|t| - 1])
  {
    hide Split, IsField, ClockSpelling.Seconds, SplitOnceEither;
    FieldsAreSolid(p.h);
    FieldsAreSolid(p.m);
    SecondsAreRead(p);
    if p.sec.Some? {
      assert p.m + (":" + p.Seconds()) == p.m + [':'] + p.Seconds();
      SplitFirst(p.h, ':', p.m + ":" + p.Seconds());
      SplitFirst(p.m, ':', p.Seconds());
      SplitNone(p.Seconds(), ':');
      assert [p.h] + ([p.m] + [p.Seconds()]) == [p.h, p.m] + [p.Seconds()];
    } else {
      assert p.m + "" == p.m;
      SplitFirst(p.h, ':', p.m);
      SplitNone(p.m, ':');
      assert [p.h] + [p.m] == [p.h, p.m] + [];
    }
  }

  /** Every spelling of a time is read as the time it spells, or is out of range: 22007. */
  lemma ClockIsRead(p: ClockSpelling)
    requires p.Shaped()
    ensures TimeFields(p.Text()) == if p.InRange() then Ok(p.Clock()) else Err(InvalidFormat)
  {
    hide Split, ParseSeconds, ParseUnsigned, IsField, NumberIn, ClockSpelling.Seconds, ClockSpelling.Text,
         Value, Pow10, SplitOnceEither;
    ClockSplits(p);
    SecondsAreRead(p);
    FieldParses(p.h, 0, U16_MAX);
    FieldParses(p.m, 0, U16_MAX);
    if p.sec.None? { assert p.SecondValue() == 0 && p.Nanos() == 0; ZeroSeconds(); }
  }

  lemma SplitInTwo(s: string, c: char)
    requires |Split(s, c)| == 2
    ensures var parts := Split(s, c); s == parts[0] + [c] + parts[1] && c !in parts[0] && c !in parts[1]
  {
    hide SplitOnceEither;
    SplitShortens(s, c, c);
    var (a, b) := SplitOnce(s, c).value;
    SplitShortens(b, c, c);
  }

  lemma SplitInThree(s: string, c: char)
    requires |Split(s, c)| == 3
    ensures var parts := Split(s, c); s == parts[0] + [c] + (parts[1] + [c] + parts[2])
    ensures forall p :: p in Split(s, c) ==> c !in p
  {
    hide SplitOnceEither;
    SplitShortens(s, c, c);
    var (a, b) := SplitOnce(s, c).value;
    SplitInTwo(b, c);
    assert Split(s, c) == [a] + Split(b, c);
    SplitPartsLack(s, c);
  }

  lemma SecondsParts(s: string) returns (sec: string, frac: Option<string>)
    requires ParseSeconds(s).Ok?
    ensures IsField(sec) && (frac.Some? ==> frac.value != "" && AllDigits(frac.value))
    ensures s == sec + match frac case None => "" case Some(f) => "." + f
  {
    hide SplitOnceEither, ParseUnsigned, Value, FitRight;
    SplitShortens(s, '.', '.');
    match SplitOnce(s, '.') {
      case None =>
        sec, frac := s, None;
        ParsedIsField(s, 0, U16_MAX);
        assert s + "" == s;
      case Some((a, f)) =>
        sec, frac := a, Some(f);
        ParsedIsField(a, 0, U16_MAX);
        assert a + ['.'] + f == a + ("." + f);
    }
  }

  /** What is read as a time is spelled as one. */
  lemma ReadClockIsSpelled(s: string) returns (p: ClockSpelling)
    requires TimeFields(s).Ok?
    ensures p.Shaped() && p.Text() == s
  {
    hide Split, ParseSeconds, ParseUnsigned, IsField, SplitOnceEither;
    var parts := Split(s, ':');
    ParsedIsField(parts[0], 0, U16_MAX);
    ParsedIsField(parts[1], 0, U16_MAX);
    if |parts| == 2 {
      SplitInTwo(s, ':');
      p := ClockSpelling(parts[0], parts[1], None, None);
      assert parts[1] + "" == parts[1];
    } else {
      SplitInThree(s, ':');
      var sec, frac := SecondsParts(parts[2]);
      p := ClockSpelling(parts[0], parts[1], Some(sec), frac);
      assert parts[1] + [':'] + parts[2] == parts[1] + (":" + parts[2]);
    }
  }

  /** A text is a time exactly when, blanks aside, it is a spelling of one in range. */
  lemma TimesAreSpellings(s: string, t: Time)
    ensures ParseSqlTime(s) == Ok(t) <==>
            exists p: ClockSpelling :: p.Shaped() && p.InRange() && p.Text() == Trim(s) && p.Clock() == t
  {
    hide TimeFields, ClockSpelling.Shaped, ClockSpelling.Text, ClockSpelling.Clock, ClockSpelling.InRange, Trim;
    forall p: ClockSpelling | p.Shaped() && p.Text() == Trim(s)
      ensures TimeFields(Trim(s)) == if p.InRange() then Ok(p.Clock()) else Err(InvalidFormat)
    {
      ClockIsRead(p);
    }
    if TimeFields(Trim(s)).Ok? {
      var p := ReadClockIsSpelled(Trim(s));
      assert p.Shaped() && p.Text() == Trim(s);
    }
  }

  // ----- dates and timestamps -----

  /** What follows a date: nothing, a `T` alone, or a blank or `T`, blanks and a time. */
  datatype TimePart = NoTime | BareT | At(sep: char, gap: string, clock: ClockSpelling)
  {
    predicate Shaped() {
      At? ==> (sep == ' ' || sep == 'T') && AllBlank(gap) && clock.Shaped()
    }

    function Text(): string {
      match this case NoTime => "" case BareT => "T" case At(_, _, _) => [sep] + (gap + clock.Text())
    }

    predicate InRange()
      requires Shaped()
    {
      At? ==> clock.InRange()
    }

    function Clock(): Time
      requires Shaped()
    {
      if At? then clock.Clock() else MIDNIGHT
    }
  }

  /** A date, or a date and a time, from blanks to blanks. */
  datatype MomentSpelling = MomentSpelling(before: string, y: string, m: string, d: string, time: TimePart,
                                           after: string)
  {
    predicate Shaped() {
      AllBlank(before) && AllBlank(after) && IsField(y) && IsField(m) && IsField(d) && time.Shaped()
    }

    function DateText(): string {
      y + "-" + (m + "-" + d)
    }

    function Body(): string {
      DateText() + time.Text()
    }

    function Text(): string {
      before + Body() + after
    }

    function Date(): Date
      requires Shaped()
    {
      Calendar.Date(NumberIn(y), NumberIn(m), NumberIn(d))
    }

    /** The moment spelled. */
    function Moment(): Timestamp
      requires Shaped()
    {
      Timestamp(Date(), time.Clock())
    }

    /** A date of the calendar in the years its type holds, and a time on the clock. */
    predicate InRange()
      requires Shaped()
    {
      NumberIn(y) <= I16_MAX && Valid(Date()) && time.InRange()
    }
  }

  lemma DateSplits(p: MomentSpelling)
    requires p.Shaped()
    ensures Split(p.DateText(), '-') == [p.y, p.m, p.d]
    ensures var t := p.DateText();
      && t != "" && !IsWhitespace(t[0]) && !IsWhitespace(t[|t| - 1]) && ' ' !in t && 'T' !in t
  {
    hide Split, IsField, TimePart.Shaped, SplitOnceEither, AllBlank;
    FieldsAreSolid(p.y);
    FieldsAreSolid(p.m);
    FieldsAreSolid(p.d);
    SplitFirst(p.y, '-', p.m + "-" + p.d);
    SplitFirst(p.m, '-', p.d);
    SplitNone(p.d, '-');
    assert [p.y] + ([p.m] + [p.d]) == [p.y, p.m, p.d];
  }

  lemma DateIsSpelled(p: MomentSpelling)
    requires p.Shaped()
    ensures ParseDateFields(p.DateText()) ==
              if NumberIn(p.y) <= I16_MAX && Valid(p.Date()) then Ok(p.Date()) else Err(InvalidFormat)
  {
    hide Split, ParseSigned, ParseUnsigned, IsField, NumberIn, MomentSpelling.DateText, TimePart.Shaped, AllBlank;
    DateSplits(p);
    FieldParses(p.y, I16_MIN, I16_MAX);
    FieldParses(p.m, 0, U16_MAX);
    FieldParses(p.d, 0, U16_MAX);
    MonthsHaveDays(NumberIn(p.y), NumberIn(p.m));
  }

  lemma MonthsHaveDays(y: int, m: int)
    ensures 1 <= m <= 12 ==> DaysInMonth(y, m) <= 31
  {
  }

  /** How the body comes apart. */
  lemma BodySplits(p: MomentSpelling)
    requires p.Shaped()
    ensures var b := p.Body();
      && b != "" && !IsWhitespace(b[0]) && !IsWhitespace(b[|b| - 1])
      && SplitOnceEither(b, ' ', 'T') == match p.time
         case NoTime => None
         case BareT => Some((p.DateText(), ""))
         case At(_, gap, clock) => Some((p.DateText(), gap + clock.Text()))
  {
    hide Split, IsField, ClockSpelling.Text, ClockSpelling.Shaped, SplitOnceEither, MomentSpelling.DateText, AllBlank;
    DateSplits(p);
    var t := p.DateText();
    match p.time {
      case NoTime =>
        assert t + "" == t;
        SplitNowhere(t, ' ', 'T');
      case BareT =>
        assert t + "T" == t + ['T'] + "";
        SplitAtFirst(t, 'T', "", ' ', 'T');
      case At(sep, gap, clock) =>
        ClockSplits(clock);
        assert t + ([sep] + (gap + clock.Text())) == t + [sep] + (gap + clock.Text());
        SplitAtFirst(t, sep, gap + clock.Text(), ' ', 'T');
    }
  }

  lemma GapComesOff(gap: string, clock: ClockSpelling)
    requires AllBlank(gap) && clock.Shaped()
    ensures Trim(gap + clock.Text()) == clock.Text() != ""
  {
    hide Trim, AllBlank, IsWhitespace, Split, ClockSpelling.Text, ClockSpelling.Shaped;
    ClockSplits(clock);
    NoBlank();
    assert gap + clock.Text() + "" == gap + clock.Text();
    BlanksAround(gap, clock.Text(), "");
  }

  lemma NoBlank()
    ensures AllBlank("") && Trim("") == ""
  {
  }

  /** Every spelling of a moment is read as that moment, or is out of range: 22007. */
  lemma MomentIsRead(p: MomentSpelling)
    requires p.Shaped()
    ensures ParseSqlTimestamp(p.Text()) == if p.InRange() then Ok(p.Moment()) else Err(InvalidFormat)
  {
    hide Trim, AllBlank, IsWhitespace, SplitOnceEither, ParseDateFields, TimeFields, IsField, NumberIn,
         MomentSpelling.Body, MomentSpelling.DateText, ClockSpelling.Shaped, ClockSpelling.Text, ClockSpelling.Clock,
         ClockSpelling.InRange;
    BodySplits(p);
    BlanksAround(p.before, p.Body(), p.after);
    DateIsSpelled(p);
    NoBlank();
    if p.time.At? {
      GapComesOff(p.time.gap, p.time.clock);
      ClockIsRead(p.time.clock);
    } else if p.time.NoTime? {
      assert p.Body() == p.DateText() by { NoTimeBody(p); }
    }
  }

  lemma NoTimeBody(p: MomentSpelling)
    requires p.time.NoTime?
    ensures p.Body() == p.DateText()
  {
  }

  lemma ReadDateIsSpelled(s: string) returns (y: string, m: string, d: string)
    requires ParseDateFields(s).Ok?
    ensures IsField(y) && IsField(m) && IsField(d) && s == y + "-" + (m + "-" + d)
  {
    hide Split, ParseSigned, ParseUnsigned, IsField;
    var parts := Split(s, '-');
    y, m, d := parts[0], parts[1], parts[2];
    SplitInThree(s, '-');
    ParsedIsField(y, I16_MIN, I16_MAX);
    ParsedIsField(m, 0, U16_MAX);
    ParsedIsField(d, 0, U16_MAX);
  }

  lemma EndsSolid(t: string)
    requires Trim(t) == t && t != ""
    ensures !IsWhitespace(t[|t| - 1])
  {
  }

  /** Text with a solid last character has nothing trimmed off its end. */
  lemma {:induction false} SolidEndStays(s: string)
    requires s != "" ==> !IsWhitespace(s[|s| - 1])
    ensures Trim(s) == TrimStart(s) && (s != "" ==> Trim(s) != "")
    decreases |s|
  {
    if s != "" && IsWhitespace(s[0]) {
      assert |s| > 1 && s[1..][|s| - 2] == s[|s| - 1];
      SolidEndStays(s[1..]);
    }
  }

  /** Text with a solid last character: blanks, and what trimming leaves. */
  lemma GapBefore(rest: string) returns (gap: string)
    requires rest != "" ==> !IsWhitespace(rest[|rest| - 1])
    ensures AllBlank(gap) && rest == gap + Trim(rest) && (rest != "" ==> Trim(rest) != "")
  {
    TrimStartTakesBlanks(rest);
    SolidEndStays(rest);
    hide Trim, TrimStart, AllBlank, IsWhitespace;
    gap := rest[..|rest| - |TrimStart(rest)|];
  }

  /** What is read as a moment is spelled as one. */
  lemma ReadMomentIsSpelled(s: string) returns (p: MomentSpelling)
    requires ParseSqlTimestamp(s).Ok?
    ensures p.Shaped() && p.Text() == s
  {
    var before, after := TrimDecomposes(s);
    TrimTwice(s);
    hide Trim, AllBlank, IsField, ParseDateFields, TimeFields, SplitOnceEither, ClockSpelling.Shaped, IsWhitespace;
    var t := Trim(s);
    SplitShortens(t, ' ', 'T');
    match SplitOnceEither(t, ' ', 'T') {
      case None =>
        var y, m, d := ReadDateIsSpelled(t);
        p := MomentSpelling(before, y, m, d, NoTime, after);
        NoTimeBody(p);
      case Some((date, rest)) =>
        var y, m, d := ReadDateIsSpelled(date);
        var time := TimePartOf(t, date, t[|date|], rest);
        p := MomentSpelling(before, y, m, d, time, after);
        assert p.Body() == date + time.Text();
    }
  }

  lemma TimePartOf(t: string, date: string, sep: char, rest: string) returns (time: TimePart)
    requires Trim(t) == t && t == date + [sep] + rest && (sep == ' ' || sep == 'T')
    requires Trim(rest) == "" || TimeFields(Trim(rest)).Ok?
    ensures time.Shaped() && t == date + time.Text()
  {
    LastIsSolid(t, date, sep, rest);
    hide Trim, AllBlank, TimeFields, ClockSpelling.Shaped, ClockSpelling.Text, IsWhitespace, TimePart.Text;
    var gap := GapBefore(rest);
    if rest == "" {
      time := BareT;
      BareBehind(date);
    } else {
      var clock := ReadClockIsSpelled(Trim(rest));
      time := At(sep, gap, clock);
      ClockBehind(date, sep, gap, clock);
    }
  }

  lemma BareBehind(date: string)
    ensures date + BareT.Text() == date + ['T'] + ""
  {
  }

  lemma ClockBehind(date: string, sep: char, gap: string, clock: ClockSpelling)
    ensures date + At(sep, gap, clock).Text() == date + [sep] + (gap + clock.Text())
  {
    hide ClockSpelling.Text;
    Regroup(date, [sep], gap + clock.Text());
  }

  lemma LastIsSolid(t: string, date: string, sep: char, rest: string)
    requires Trim(t) == t && t == date + [sep] + rest && (sep == ' ' || sep == 'T')
    ensures Trim("") == "" && if rest == "" then sep == 'T' else !IsWhitespace(rest[|rest| - 1])
  {
    hide Trim;
    EndsSolid(t);
    NoBlank();
    assert t[|t| - 1] == if rest == "" then sep else rest[|rest| - 1];
    assert IsWhitespace(' ');
  }

  /** A text is a timestamp exactly when it is a spelling of one in range. */
  lemma MomentsAreSpellings(s: string, ts: Timestamp)
    ensures ParseSqlTimestamp(s) == Ok(ts) <==>
            exists p: MomentSpelling :: p.Shaped() && p.InRange() && p.Text() == s && p.Moment() == ts
  {
    hide ParseSqlTimestamp, MomentSpelling.Shaped, MomentSpelling.Text, MomentSpelling.Moment, MomentSpelling.InRange;
    forall p: MomentSpelling | p.Shaped() && p.Text() == s
      ensures ParseSqlTimestamp(s) == if p.InRange() then Ok(p.Moment()) else Err(InvalidFormat)
    {
      MomentIsRead(p);
    }
    if ParseSqlTimestamp(s).Ok? {
      var p := ReadMomentIsSpelled(s);
      assert p.Shaped() && p.Text() == s;
    }
  }
}
