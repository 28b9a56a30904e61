/** Interval literals: the text of each interval type, and the two forms that can be read back. */
module IntervalText {
  import opened Wrappers
  import opened Decimal
  import opened Clock
  import opened Interval

  // ----- printing -----

  function Sign(p: Parts): string {
    if p.negative then "-" else ""
  }

  /**
   The literal of each interval type, after its sign. A year-month value has its
   years in `day`, its months in `hour`.
   */
  function Unsigned(p: Parts, target: Precision): string {
    match target
    case YearP => Show(p.day)
    case MonthP => Show(p.hour)
    case YearToMonth => Show(p.day) + "-" + Pad(p.hour, 2)
    case DayP => Show(p.day)
    case HourP => Show(p.hour)
    case MinuteP => Show(p.minute)
    case SecondP => Show(p.second) + FractionText(p.fraction)
    case DayToHour => Show(p.day) + " " + Pad(p.hour, 2)
    case DayToMinute => Show(p.day) + " " + Pad(p.hour, 2) + ":" + Pad(p.minute, 2)
    case DayToSecond => Show(p.day) + " " + ClockText(p.hour, p.minute, p.second, p.fraction)
    case HourToMinute => Show(p.hour) + ":" + Pad(p.minute, 2)
    case HourToSecond => Show(p.hour) + ":" + Pad(p.minute, 2) + ":" + SecondText(p.second, p.fraction)
    case MinuteToSecond => Show(p.minute) + ":" + SecondText(p.second, p.fraction)
  }

  function Literal(p: Parts, target: Precision): string {
    Sign(p) + Unsigned(p, target)
  }

  function FieldValue(p: Parts, f: Field): nat {
    match f case Day => p.day case Hour => p.hour case Minute => p.minute case _ => p.second
  }

  /** What one clock field adds to the literal. */
  function Piece(p: Parts, target: Precision, f: Field): string {
    if !Spans(target, f) then ""
    else if f == Leading(target) then Show(FieldValue(p, f))
    else (if f == Hour && Leading(target) == Day then " " else ":") + Pad(FieldValue(p, f), 2)
  }

  /** The first `n` of the clock fields. */
  function Pieces(p: Parts, target: Precision, n: nat): string
    requires n <= 4
  {
    if n == 0 then "" else Pieces(p, target, n - 1) + Piece(p, target, CLOCK_FIELDS[n - 1])
  }

  lemma PiecesAre(p: Parts, target: Precision)
    ensures Pieces(p, target, 4) == Piece(p, target, Day) + Piece(p, target, Hour) + Piece(p, target, Minute)
          + Piece(p, target, Second)
  {
    hide Piece;
    assert Pieces(p, target, 0) == "";
    assert Pieces(p, target, 1) == Piece(p, target, Day);
    assert Pieces(p, target, 2) == Piece(p, target, Day) + Piece(p, target, Hour);
    assert Pieces(p, target, 3) == Piece(p, target, Day) + Piece(p, target, Hour) + Piece(p, target, Minute);
  }

  lemma JoinTwo(a: string, x: string, b: string)
    ensures a + (x + b) == a + x + b
  {
  }

  lemma JoinThree(a: string, x: string, b: string, y: string, c: string)
    ensures a + (x + b) + (y + c) == a + x + b + y + c
  {
  }

  lemma JoinEmpties(a: string, b: string, c: string, d: string)
    ensures a == [] ==>
          a + b + c + d == b + c + d && (b == [] ==> a + b + c + d == c + d && (c == [] ==> a + b + c + d == d))
    ensures d == [] ==>
          a + b + c + d == a + b + c && (c == [] ==> a + b + c + d == a + b && (b == [] ==> a + b + c + d == a))
  {
  }

  lemma PiecesFromDay(p: Parts, target: Precision)
    requires Leading(target) == Day
    ensures Pieces(p, target, 4) + (if Trailing(target) == Second then FractionText(p.fraction) else "")
          == Unsigned(p, target)
  {
    PiecesAre(p, target);
    hide Show, Pad, FractionText, Pieces;
    JoinEmpties(Piece(p, target, Day), Piece(p, target, Hour), Piece(p, target, Minute), Piece(p, target, Second));
    var h, m := Pad(p.hour, 2), Pad(p.minute, 2);
    JoinTwo(Show(p.day), " ", h);
    JoinThree(Show(p.day), " ", h, ":", m);
    JoinClock(Show(p.day), h, m, Pad(p.second, 2), FractionText(p.fraction));
  }

  lemma PiecesFromHour(p: Parts, target: Precision)
    requires Leading(target) == Hour
    ensures Pieces(p, target, 4) + (if Trailing(target) == Second then FractionText(p.fraction) else "")
          == Unsigned(p, target)
  {
    PiecesAre(p, target);
    hide Show, Pad, FractionText, Pieces;
    JoinEmpties(Piece(p, target, Day), Piece(p, target, Hour), Piece(p, target, Minute), Piece(p, target, Second));
    var m, s, f := Pad(p.minute, 2), Pad(p.second, 2), FractionText(p.fraction);
    if target.HourToMinute? {
      JoinTwo(Show(p.hour), ":", m);
    } else if target.HourToSecond? {
      JoinThree(Show(p.hour), ":", m, ":", s);
      JoinTwo(Show(p.hour) + ":" + m + ":", s, f);
    }
  }

  lemma PiecesFromMinute(p: Parts, target: Precision)
    requires !IsYearMonth(target) && Leading(target) != Day && Leading(target) != Hour
    ensures Pieces(p, target, 4) + (if Trailing(target) == Second then FractionText(p.fraction) else "")
          == Unsigned(p, target)
  {
    PiecesAre(p, target);
    hide Show, Pad, FractionText, Pieces;
    JoinEmpties(Piece(p, target, Day), Piece(p, target, Hour), Piece(p, target, Minute), Piece(p, target, Second));
    var s, f := Pad(p.second, 2), FractionText(p.fraction);
    if target.MinuteToSecond? {
      JoinTwo(Show(p.minute), ":", s);
      JoinTwo(Show(p.minute) + ":", s, f);
    }
  }

  lemma JoinClock(day: string, h: string, m: string, s: string, f: string)
    ensures day + (" " + h) + (":" + m) + (":" + s) + f == day + " " + (h + ":" + (m + ":" + (s + f)))
  {
  }

  const CLOCK_FIELDS: seq<Field> := [Day, Hour, Minute, Second]

  /** Field `n` of the loop leads, is spanned or is passed over by where it ranks. */
  lemma FieldTurn(p: Parts, target: Precision, n: nat)
    requires n < 4
    ensures var f, lead := CLOCK_FIELDS[n], Rank(Leading(target));
      && lead <= Rank(Trailing(target)) && (f == Leading(target) <==> lead == n + 2)
      && Rank(f) == n + 2 && (Spans(target, f) <==> lead <= n + 2 <= Rank(Trailing(target)))
      && Pieces(p, target, n + 1) == Pieces(p, target, n) + Piece(p, target, f)
  {
    hide Piece, Pieces;
    PieceAdds(p, target, n);
  }

  lemma PieceAdds(p: Parts, target: Precision, n: nat)
    requires n < 4
    ensures Pieces(p, target, n + 1) == Pieces(p, target, n) + Piece(p, target, CLOCK_FIELDS[n])
  {
  }

  lemma YearMonthLiteral(p: Parts, target: Precision)
    requires IsYearMonth(target)
    ensures Unsigned(p, target) ==
              if Leading(target) == Trailing(target) == Year then Show(p.day)
              else if Leading(target) == Trailing(target) == Month then Show(p.hour)
              else Show(p.day) + "-" + Pad(p.hour, 2)
  {
  }

  method RenderYearMonth(p: Parts, precision: Precision) returns (out: string)
    requires IsYearMonth(precision)
    ensures out == Literal(p, precision)
  {
    hide Unsigned, Show, Pad;
    YearMonthLiteral(p, precision);
    var sign := if p.negative then "-" else "";
    if Leading(precision) == Trailing(precision) == Year { return sign + Show(p.day); }
    if Leading(precision) == Trailing(precision) == Month { return sign + Show(p.hour); }
    return sign + (Show(p.day) + "-" + Pad(p.hour, 2));
  }

  method RenderInterval(parts: Option<Parts>, precision: Precision, onOverflow: string) returns (out: string)
    ensures out == match parts case None => onOverflow case Some(p) => Literal(p, precision)
  {
    hide Unsigned, Pieces, Leading, Trailing, Rank, Show, Pad, TrimEndZeros, FieldValue;
    if parts == None { return onOverflow; }
    var p := parts.value;
    if IsYearMonth(precision) {
      out := RenderYearMonth(p, precision);
      return;
    }
    NoPieces(p, precision);
    out := if p.negative then "-" else "";
    var first := true;
    for i := 0 to 4
      invariant first <==> i + 2 <= Rank(Leading(precision))
      invariant out == Sign(p) + Pieces(p, precision, i)
    {
      var field := CLOCK_FIELDS[i];
      ghost var before, piece := Pieces(p, precision, i), Piece(p, precision, field);
      FieldTurn(p, precision, i);
      if Rank(Leading(precision)) <= Rank(field) <= Rank(Trailing(precision)) {
        var value := FieldValue(p, field);
        if first {
          out := out + Show(value);
          first := false;
        } else {
          out := out + ((if field == Hour && Leading(precision) == Day then " " else ":") + Pad(value, 2));
        }
      }
      JoinTwo(Sign(p), before, piece);
    }
    if Leading(precision) == Day {
      PiecesFromDay(p, precision);
    } else if Leading(precision) == Hour {
      PiecesFromHour(p, precision);
    } else {
      PiecesFromMinute(p, precision);
    }
    JoinTwo(Sign(p), Pieces(p, precision, 4), FractionText(p.fraction));
    if Trailing(precision) == Second && p.fraction != 0 {
      out := out + ("." + TrimEndZeros(Pad(p.fraction, 9)));
    }
  }

  lemma NoPieces(p: Parts, target: Precision)
    ensures Pieces(p, target, 0) == "" && 2 <= 2 + Rank(Leading(target))
    ensures (!IsYearMonth(target) ==> Rank(Leading(target)) >= 2)
  {
  }
}
