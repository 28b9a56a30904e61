/** The texts that are numeric literals: exactly those of one grammar, each read as the number it spells. */
module NumericSpelling {
  import opened Arithmetic
  import opened Wrappers
  import opened Text
  import opened Decimal
  import opened NumericLiteral

  predicate IsSign(s: string) {
    s == "" || s == "-" || s == "+"
  }

  /** An exponent as written: its mark, its sign and its digits. */
  datatype Exponent = Exponent(mark: char, sign: string, digits: string)
  {
    predicate Valid() {
      (mark == 'e' || mark == 'E') && IsSign(sign) && digits != [] && AllDigits(digits) && I32_MIN <= Power() <= I32_MAX
    }

    function Power(): int
      requires AllDigits(digits)
    {
      Signed(sign == "-", Value(digits))
    }
  }

  /** A numeric literal as written, from blanks to blanks. */
  datatype Spelling = Spelling(before: string, sign: string, intPart: string, frac: Option<string>,
                               exponent: Option<Exponent>,
                               after: string)
  {
    function FracPart(): string {
      match frac case None => "" case Some(f) => f
    }

    predicate Grammatical() {
      && AllBlank(before) && AllBlank(after) && IsSign(sign)
      && AllDigits(intPart) && AllDigits(FracPart()) && (intPart != [] || FracPart() != [])
      && (exponent.Some? ==> exponent.value.Valid())
    }

    function Power(): int
      requires Grammatical()
    {
      match exponent case None => 0 case Some(e) => e.Power()
    }

    /** The grammar, and the scale fits its type. */
    predicate Valid() {
      Grammatical() && |FracPart()| <= I32_MAX && I32_MIN <= |FracPart()| - Power() <= I32_MAX
    }

    function Mantissa(): string {
      intPart + match frac case None => "" case Some(f) => "." + f
    }

    function Tail(): string {
      match exponent case None => "" case Some(e) => [e.mark] + (e.sign + e.digits)
    }

    function Body(): string {
      sign + (Mantissa() + Tail())
    }

    function Text(): string {
      before + Body() + after
    }

    /** The number it spells: the digits on either side of the point, times the power of ten. */
    function Number(): (q: Rational)
      requires Grammatical()
      ensures q.Proper()
    {
      var unit := Pow10(|FracPart()|);
      var digits := Value(intPart) * unit + Value(FracPart());
      if Power() >= 0 then Rational(sign == "-", digits * Pow10(Power()), unit)
      else Rational(sign == "-", digits, unit * Pow10(-Power()))
    }

    /** The literal a spelling stands for. */
    function Literal(): DecimalLiteral
      requires Grammatical()
    {
      DecimalLiteral(sign == "-", intPart + FracPart(), |FracPart()| - Power())
    }
  }

  // ----- every spelling is read -----

  lemma DigitsParse(s: string, max: nat)
    requires AllDigits(s) && s != []
    ensures ParseDigits(s, 0, max) == if Value(s) <= max then Ok(Value(s)) else Err(Overflow)
  {
    hide Value;
    ParseReadsDigits(s, 0, max);
  }

  lemma ExponentParses(e: Exponent)
    requires e.Valid()
    ensures ParseSigned(e.sign + e.digits, I32_MIN, I32_MAX) == Ok(e.Power())
  {
    hide Value;
    DigitsParse(e.digits, if e.sign == "-" then -I32_MIN else I32_MAX);
    if e.sign == "" {
      assert e.sign + e.digits == e.digits;
    } else {
      assert (e.sign + e.digits)[1..] == e.digits;
    }
  }

  predicate NumberEnd(c: char) {
    IsDigit(c) || c == '.'
  }

  lemma MantissaSplits(p: Spelling)
    requires p.Grammatical()
    ensures var m := p.Mantissa();
      && m != [] && NumberEnd(m[0]) && NumberEnd(m[|m| - 1]) && 'e' !in m && 'E' !in m
      && SplitOnce(m, '.') == (match p.frac case None => None case Some(f) => Some((p.intPart, f)))
      && (p.frac.None? ==> m == p.intPart)
  {
    hide SplitOnceEither, AllBlank;
    match p.frac {
      case None =>
        assert p.intPart + "" == p.intPart;
        SplitNowhere(p.intPart, '.', '.');
      case Some(f) =>
        SplitAtFirst(p.intPart, '.', f, '.', '.');
        assert p.intPart + ("." + f) == p.intPart + ['.'] + f;
    }
  }

  lemma TailSplits(p: Spelling)
    requires p.Grammatical()
    ensures var u := p.Mantissa() + p.Tail();
      && u != [] && NumberEnd(u[0]) && NumberEnd(u[|u| - 1])
      && SplitOnceEither(u, 'e', 'E')
            == match p.exponent case None => None case Some(e) => Some((p.Mantissa(), e.sign + e.digits))
    ensures p.exponent.None? ==> p.Mantissa() + p.Tail() == p.Mantissa()
  {
    hide SplitOnceEither, Spelling.Mantissa, Value, AllBlank;
    MantissaSplits(p);
    var m := p.Mantissa();
    match p.exponent {
      case None =>
        assert m + "" == m;
        SplitNowhere(m, 'e', 'E');
      case Some(e) =>
        SplitAtFirst(m, e.mark, e.sign + e.digits, 'e', 'E');
        assert m + ([e.mark] + (e.sign + e.digits)) == m + [e.mark] + (e.sign + e.digits);
    }
  }

  lemma MantissaIsRead(p: Spelling)
    requires p.Valid()
    ensures ParseMantissa(p.sign == "-", p.Mantissa(), p.Power()) == Some(p.Literal())
  {
    hide SplitOnceEither, Spelling.Mantissa, AllBlank, Value;
    MantissaSplits(p);
  }

  lemma SignComesOff(sign: string, u: string)
    requires IsSign(sign) && u != [] && NumberEnd(u[0])
    ensures StripSign(sign + u) == (sign == "-", u)
  {
    if sign == "" { assert sign + u == u; } else { assert (sign + u)[1..] == u; }
  }

  lemma BlanksAndSignComeOff(before: string, sign: string, u: string, after: string)
    requires AllBlank(before) && AllBlank(after) && IsSign(sign) && u != [] && NumberEnd(u[0]) && NumberEnd(u[|u| - 1])
    ensures StripSign(Trim(before + (sign + u) + after)) == (sign == "-", u)
  {
    hide Trim, StripSign, AllBlank;
    SignComesOff(sign, u);
    var t := sign + u;
    assert t[|t| - 1] == u[|u| - 1];
    assert !IsWhitespace(t[0]) by { if sign == "" { assert t == u; } }
    BlanksAround(before, t, after);
  }

  /** Every spelling of the grammar is read as its digits at its scale. */
  lemma SpellingIsRead(p: Spelling)
    requires p.Valid()
    ensures ParseNumericLiteral(p.Text()) == Some(p.Literal())
  {
    hide SplitOnceEither, Spelling.Mantissa, Spelling.Tail, Trim, StripSign, ParseSigned, ParseMantissa, AllDigits,
         AllBlank;
    TailSplits(p);
    BlanksAndSignComeOff(p.before, p.sign, p.Mantissa() + p.Tail(), p.after);
    MantissaIsRead(p);
    if p.exponent.Some? { ExponentParses(p.exponent.value); }
  }

  // ----- nothing else is -----

  lemma {:induction false} ParsedIsDigits(s: string, acc: nat, max: nat)
    requires ParseDigits(s, acc, max).Ok?
    ensures AllDigits(s)
    decreases |s|
  {
    if s != [] {
      ParsedIsDigits(s[1..], 10 * acc + DigitValue(s[0]), max);
      assert s == [s[0]] + s[1..];
    }
  }

  /** The sign an integer's text starts with, and the digits behind it. */
  lemma SignAndDigits(text: string) returns (sign: string, digits: string, max: nat)
    requires ParseSigned(text, I32_MIN, I32_MAX).Ok?
    ensures IsSign(sign) && digits != [] && text == sign + digits && max == if sign == "-" then -I32_MIN else I32_MAX
    ensures ParseSigned(text, I32_MIN, I32_MAX) == Times(if sign == "-" then -1 else 1, ParseDigits(digits, 0, max))
  {
    hide ParseDigits;
    sign := if text[0] == '-' || text[0] == '+' then text[..1] else "";
    digits := text[|sign|..];
    max := if text[0] == '-' then -I32_MIN else I32_MAX;
    assert text[..1] == [text[0]];
    assert sign == "" ==> digits == text;
  }

  lemma ParsedExponent(text: string, mark: char) returns (e: Exponent)
    requires ParseSigned(text, I32_MIN, I32_MAX).Ok? && (mark == 'e' || mark == 'E')
    ensures e.Valid() && e.sign + e.digits == text && e.mark == mark
    ensures Ok(e.Power()) == ParseSigned(text, I32_MIN, I32_MAX)
  {
    hide Value, ParseDigits, ParseSigned, AllDigits;
    var sign, digits, max := SignAndDigits(text);
    e := Exponent(mark, sign, digits);
    ParsedIsDigits(digits, 0, max);
    DigitsParse(digits, max);
  }

  lemma SignedText(t: string) returns (sign: string)
    requires t != []
    ensures IsSign(sign) && t == sign + StripSign(t).1 && StripSign(t).0 == (sign == "-")
  {
    sign := if t[0] == '-' || t[0] == '+' then t[..1] else "";
    assert t == sign + StripSign(t).1;
  }

  /** The parts of a mantissa that is read. */
  lemma MantissaParts(negative: bool, m: string, power: int) returns (intPart: string, frac: Option<string>)
    requires ParseMantissa(negative, m, power).Some?
    ensures var f := match frac { case None => "" case Some(f) => f };
      && m == (intPart + match frac case None => "" case Some(f) => "." + f)
      && AllDigits(intPart) && AllDigits(f) && (intPart != [] || f != [])
      && |f| <= I32_MAX && I32_MIN <= |f| - power <= I32_MAX
  {
    hide SplitOnceEither;
    SplitShortens(m, '.', '.');
    match SplitOnce(m, '.') {
      case None =>
        intPart, frac := m, None;
        assert m + "" == m;
      case Some((i, f)) =>
        intPart, frac := i, Some(f);
        assert i + ['.'] + f == i + ("." + f);
    }
  }

  lemma PlainBody(before: string, sign: string, rest: string, after: string) returns (p: Spelling)
    requires AllBlank(before) && AllBlank(after) && IsSign(sign) && ParseMantissa(sign == "-", rest, 0).Some?
    ensures p.Valid() && p.before == before && p.after == after && p.Body() == sign + rest
  {
    hide ParseMantissa, AllBlank, AllDigits, IsSign;
    var i, f := MantissaParts(sign == "-", rest, 0);
    p := Spelling(before, sign, i, f, None, after);
    assert rest + "" == rest;
  }

  lemma ExponentBody(before: string, sign: string, m: string, e: Exponent, after: string) returns (p: Spelling)
    requires AllBlank(before) && AllBlank(after) && IsSign(sign) && e.Valid()
    requires ParseMantissa(sign == "-", m, e.Power()).Some?
    ensures p.Valid() && p.before == before && p.after == after
    ensures p.Body() == sign + (m + ([e.mark] + (e.sign + e.digits)))
  {
    hide ParseMantissa, AllBlank, AllDigits, IsSign, Exponent.Power;
    var i, f := MantissaParts(sign == "-", m, e.Power());
    p := Spelling(before, sign, i, f, Some(e), after);
  }

  /** The body of what is read, between the blanks. */
  lemma BodyIsSpelled(t: string, before: string, after: string) returns (p: Spelling)
    requires AllBlank(before) && AllBlank(after) && Trim(before + t + after) == t
    requires ParseNumericLiteral(before + t + after).Some?
    ensures p.Valid() && p.before == before && p.after == after && p.Body() == t
  {
    hide SplitOnceEither, Trim, StripSign, ParseSigned, ParseMantissa, AllBlank, AllDigits, IsSign, Spelling.Body,
         Spelling.Valid;
    if t == [] { NothingIsNoLiteral(before + t + after); }
    var sign := SignedText(t);
    var (negative, rest) := StripSign(t);
    SplitShortens(rest, 'e', 'E');
    match SplitOnceEither(rest, 'e', 'E') {
      case None => p := PlainBody(before, sign, rest, after);
      case Some((m, x)) =>
        var mark := rest[|m|];
        var e := ParsedExponent(x, mark);
        p := ExponentBody(before, sign, m, e, after);
        assert rest == m + [mark] + x;
        assert m + [mark] + x == m + ([mark] + x);
    }
  }

  lemma NothingIsNoLiteral(s: string)
    requires Trim(s) == []
    ensures ParseNumericLiteral(s) == None
  {
    hide Trim;
  }

  /**
   A text is a numeric literal exactly when it is a spelling of the grammar, and
   then it is read as what it spells.
   */
  lemma LiteralsAreSpellings(s: string)
    ensures ParseNumericLiteral(s).Some? <==> exists p: Spelling :: p.Valid() && p.Text() == s
    ensures forall p: Spelling :: p.Valid() && p.Text() == s ==> ParseNumericLiteral(s) == Some(p.Literal())
  {
    hide ParseNumericLiteral, Spelling.Grammatical, Spelling.Literal, Spelling.Body, Trim, AllBlank;
    forall p: Spelling | p.Valid() && p.Text() == s ensures ParseNumericLiteral(s)
          == Some(p.Literal()) { SpellingIsRead(p); }
    if ParseNumericLiteral(s).Some? {
      var before, after := TrimDecomposes(s);
      var p := BodyIsSpelled(Trim(s), before, after);
      assert p.Text() == s;
    }
  }

  /** An integer's text is read as that integer. */
  lemma IntegerTextIs(n: int)
    ensures ParseNumericLiteral(ShowInt(n)) == Some(DecimalLiteral(n < 0, Show(Abs(n)), 0))
    ensures Value(Show(Abs(n))) == Abs(n)
    ensures Pow10(0) == 1
  {
    hide Show, Value, ParseNumericLiteral;
    var p := Spelling("", if n < 0 then "-" else "", Show(Abs(n)), None, None, "");
    SpellingIsRead(p);
    ShowRoundTrips(Abs(n));
    assert p.Text() == ShowInt(n) && p.intPart + "" == p.intPart;
  }
}
