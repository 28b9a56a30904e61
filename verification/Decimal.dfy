/** Decimal text: printing integers, reading digits back, and the parsers' overflow rules. */
module Decimal {
  import opened Wrappers
  import opened Text

  // ----- digits and their value -----

  predicate AllDigits(s: string) {
    forall k :: 0 <= k < |s| ==> IsDigit(s[k])
  }

  function DigitValue(c: char): (d: nat)
    requires IsDigit(c)
    ensures d <= 9
  {
    (c as int) - ('0' as int)
  }

  function DigitChar(d: nat): (c: char)
    requires d <= 9
    ensures IsDigit(c) && DigitValue(c) == d
  {
    '0' + d as char
  }

  function Pow10(n: nat): (p: nat)
    ensures p >= 1
  {
    if n == 0 then 1 else 10 * Pow10(n - 1)
  }

  /** The number a run of digits spells. */
  function Value(s: string): nat
    requires AllDigits(s)
  {
    if s == [] then 0 else 10 * Value(s[..|s| - 1]) + DigitValue(s[|s| - 1])
  }

  function Show(n: nat): (s: string)
    ensures s != [] && AllDigits(s)
  {
    if n < 10 then [DigitChar(n)] else Show(n / 10) + [DigitChar(n % 10)]
  }

  function ShowInt(n: int): string {
    if n < 0 then "-" + Show(-n) else Show(n)
  }

  function Zeros(n: nat): (z: string)
    ensures |z| == n && AllDigits(z)
  {
    if n == 0 then "" else "0" + Zeros(n - 1)
  }

  /** At least `width` digits, zero-padded on the left. */
  function Pad(n: nat, width: nat): (s: string)
    ensures s != [] && AllDigits(s) && |s| >= width
  {
    var s := Show(n);
    if |s| >= width then s else Zeros(width - |s|) + s
  }

  lemma {:induction false} ValueAppend(a: string, b: string)
    requires AllDigits(a) && AllDigits(b)
    ensures AllDigits(a + b) && Value(a + b) == Value(a) * Pow10(|b|) + Value(b)
    decreases |b|
  {
    if b == [] {
      assert a + b == a;
    } else {
      var b', t := b[..|b| - 1], a + b;
      ValueAppend(a, b');
      assert t[..|t| - 1] == a + b' && t[|t| - 1] == b[|b| - 1];
      Shift(Value(a), Pow10(|b'|), Pow10(|b|));
    }
  }

  lemma Shift(a: nat, p: nat, q: nat)
    requires q == 10 * p
    ensures 10 * (a * p) == a * q
  {
  }

  lemma {:induction false} ValueBelowPow(s: string)
    requires AllDigits(s)
    ensures Value(s) < Pow10(|s|)
    decreases |s|
  {
    if s != [] { ValueBelowPow(s[..|s| - 1]); }
  }

  lemma {:induction false} ShowRoundTrips(n: nat)
    ensures Value(Show(n)) == n
    decreases n
  {
    if n >= 10 {
      var s := Show(n);
      ShowRoundTrips(n / 10);
      assert s[..|s| - 1] == Show(n / 10);
    } else {
      assert Show(n)[..0] == [];
    }
  }

  lemma {:induction false} ShowLength(n: nat, width: nat)
    requires n < Pow10(width) && 0 < width
    ensures |Show(n)| <= width
    decreases width
  {
    assert Pow10(0) == 1;
    if n >= 10 {
      ShowLength(n / 10, width - 1);
    }
  }

  lemma {:induction false} ZerosValue(n: nat)
    ensures Value(Zeros(n)) == 0
    decreases n
  {
    if n > 0 {
      ZerosValue(n - 1);
      ValueAppend("0", Zeros(n - 1));
      assert Value("0") == 0 by { assert "0"[..0] == []; }
    }
  }

  lemma PadRoundTrips(n: nat, width: nat)
    ensures Value(Pad(n, width)) == n
    ensures n < Pow10(width) && 0 < width ==> |Pad(n, width)| == width
  {
    hide Value, Show, Zeros, Pow10;
    ShowRoundTrips(n);
    if n < Pow10(width) && 0 < width { ShowLength(n, width); }
    if |Show(n)| < width {
      var z := Zeros(width - |Show(n)|);
      ZerosValue(width - |Show(n)|);
      ValueAppend(z, Show(n));
      assert Value(z) * Pow10(|Show(n)|) == 0;
    }
  }

  // ----- fractions: trailing zeros may be dropped and put back -----

  function TrimEndZeros(s: string): (r: string)
    ensures |r| <= |s| && r == s[..|r|]
    ensures r == [] || r[|r| - 1] != '0'
    ensures AllDigits(s) ==> AllDigits(r)
  {
    if s != [] && s[|s| - 1] == '0' then TrimEndZeros(s[..|s| - 1]) else s
  }

  /** Exactly `width` digits: cut off, or zero-padded on the right. */
  function FitRight(s: string, width: nat): (r: string)
    requires AllDigits(s)
    ensures |r| == width && AllDigits(r)
  {
    if |s| >= width then s[..width] else s + Zeros(width - |s|)
  }

  lemma TrimOneZero(s: string)
    requires s != [] && s[|s| - 1] == '0'
    ensures TrimEndZeros(s) == TrimEndZeros(s[..|s| - 1]) && s == s[..|s| - 1] + "0"
  {
  }

  lemma NothingToRestore(s: string)
    requires AllDigits(s) && (s == [] || s[|s| - 1] != '0')
    ensures FitRight(TrimEndZeros(s), |s|) == s
  {
    assert s[..|s|] == s;
  }

  lemma {:induction false} FitRestoresZeros(s: string)
    requires AllDigits(s)
    ensures FitRight(TrimEndZeros(s), |s|) == s
    decreases |s|
  {
    hide TrimEndZeros, FitRight;
    if s != [] && s[|s| - 1] == '0' {
      var s' := s[..|s| - 1];
      FitRestoresZeros(s');
      TrimOneZero(s);
      FitOneMore(TrimEndZeros(s'), s');
    } else {
      NothingToRestore(s);
    }
  }

  lemma FitOneMore(r: string, s: string)
    requires AllDigits(r) && |r| <= |s| && FitRight(r, |s|) == s
    ensures FitRight(r, |s| + 1) == s + "0"
  {
    ZerosGrow(|s| - |r|);
    assert r + (Zeros(|s| - |r|) + "0") == (r + Zeros(|s| - |r|)) + "0";
    assert |r| == |s| ==> r == s && r + "0" == s + "0";
  }

  lemma {:induction false} ZerosGrow(n: nat)
    ensures Zeros(n + 1) == Zeros(n) + "0"
    decreases n
  {
    if n > 0 {
      ZerosGrow(n - 1);
      assert "0" + (Zeros(n - 1) + "0") == ("0" + Zeros(n - 1)) + "0";
    }
  }

  lemma TrimmedIsNonEmpty(s: string)
    requires AllDigits(s) && Value(s) > 0
    ensures TrimEndZeros(s) != []
  {
    FitRestoresZeros(s);
    ZerosValue(|s|);
    assert [] + Zeros(|s|) == Zeros(|s|);
  }

  // ----- the standard integer parsers -----

  datatype ParseError = BadDigit | Overflow

  /** Read digits left to right; the first bad character or the first overflow decides the error. */
  function ParseDigits(s: string, acc: nat, max: nat): Result<nat, ParseError> {
    if s == [] then Ok(acc)
    else if !IsDigit(s[0]) then Err(BadDigit)
    else
      var n := 10 * acc + DigitValue(s[0]);
      if n > max then Err(Overflow) else ParseDigits(s[1..], n, max)
  }

  function ParseUnsigned(s: string, max: nat): Result<nat, ParseError> {
    if s == [] || s == "+" || s == "-" then Err(BadDigit)
    else if s[0] == '+' then ParseDigits(s[1..], 0, max)
    else ParseDigits(s, 0, max)
  }

  function Times(sign: int, r: Result<nat, ParseError>): Result<int, ParseError> {
    match r case Ok(n) => Ok(sign * n) case Err(e) => Err(e)
  }

  function ParseSigned(s: string, min: int, max: nat): Result<int, ParseError>
    requires min <= 0
  {
    if s == [] || s == "+" || s == "-" then Err(BadDigit)
    else if s[0] == '-' then
      Times(-1, ParseDigits(s[1..], 0, -min))
    else if s[0] == '+' then Times(1, ParseDigits(s[1..], 0, max))
    else Times(1, ParseDigits(s, 0, max))
  }

  lemma ValueHead(s: string)
    requires s != [] && AllDigits(s)
    ensures AllDigits(s[1..]) && Value(s) == DigitValue(s[0]) * Pow10(|s| - 1) + Value(s[1..])
  {
    ValueAppend([s[0]], s[1..]);
    OneDigit(s[0]);
    assert s == [s[0]] + s[1..];
  }

  lemma OneDigit(c: char)
    requires IsDigit(c)
    ensures Value([c]) == DigitValue(c)
  {
    assert [c][..0] == [];
  }

  /** Moving one digit from the text into the accumulator. */
  lemma LeadingDigit(s: string, acc: nat)
    requires s != [] && AllDigits(s)
    ensures AllDigits(s[1..])
    ensures var n := 10 * acc + DigitValue(s[0]);
      n <= n * Pow10(|s| - 1) + Value(s[1..]) == acc * Pow10(|s|) + Value(s)
  {
    ValueHead(s);
    PowStep(|s|);
    hide Value, Pow10, DigitValue;
    Distribute(acc, DigitValue(s[0]), Pow10(|s| - 1), Pow10(|s|), Value(s[1..]), Value(s));
  }

  lemma PowStep(n: nat)
    requires 0 < n
    ensures Pow10(n) == 10 * Pow10(n - 1)
  {
  }

  lemma Distribute(acc: nat, d: nat, p: nat, q: nat, rest: nat, whole: nat)
    requires p >= 1 && q == 10 * p && whole == d * p + rest
    ensures var n := 10 * acc + d; n <= n * p + rest == acc * q + whole
  {
    var n := 10 * acc + d;
    assert n * p == 10 * acc * p + d * p;
    assert n * p == n + n * (p - 1);
    assert acc * q == 10 * acc * p;
  }

  lemma {:induction false} ParseDigitsIs(s: string, acc: nat, max: nat)
    requires AllDigits(s) && acc <= max
    ensures var v := acc * Pow10(|s|) + Value(s);
      ParseDigits(s, acc, max) == if v <= max then Ok(v) else Err(Overflow)
    decreases |s|
  {
    if s != [] {
      var n, rest := 10 * acc + DigitValue(s[0]), s[1..];
      LeadingDigit(s, acc);
      if n <= max { ParseDigitsIs(rest, n, max); }
    }
  }

  /** On digits alone the parsers read the value, or report overflow exactly when it exceeds the type. */
  lemma ParseReadsDigits(s: string, min: int, max: nat)
    requires AllDigits(s) && s != [] && min <= 0
    ensures ParseUnsigned(s, max) == if Value(s) <= max then Ok(Value(s)) else Err(Overflow)
    ensures ParseSigned(s, min, max) == if Value(s) <= max then Ok(Value(s)) else Err(Overflow)
  {
    assert IsDigit(s[0]);
    ParseDigitsIs(s, 0, max);
  }

  // ----- splitting text -----

  /** The text before and after the first character that satisfies `c == a || c == b`. */
  function SplitOnceEither(s: string, a: char, b: char): Option<(string, string)> {
    if s == [] then None
    else if s[0] == a || s[0] == b then Some(([], s[1..]))
    else
      match SplitOnceEither(s[1..], a, b)
      case None => None
      case Some((before, after)) => Some(([s[0]] + before, after))
  }

  function SplitOnce(s: string, c: char): Option<(string, string)> {
    SplitOnceEither(s, c, c)
  }

  lemma {:induction false} SplitAtFirst(before: string, c: char, after: string, a: char, b: char)
    requires a !in before && b !in before && (c == a || c == b)
    ensures SplitOnceEither(before + [c] + after, a, b) == Some((before, after))
    decreases |before|
  {
    var s := before + [c] + after;
    if before == [] {
      assert s[1..] == after;
    } else {
      assert s[0] == before[0] && s[1..] == before[1..] + [c] + after;
      SplitAtFirst(before[1..], c, after, a, b);
      assert [before[0]] + before[1..] == before;
    }
  }

  lemma {:induction false} SplitNowhere(s: string, a: char, b: char)
    requires a !in s && b !in s
    ensures SplitOnceEither(s, a, b) == None
    decreases |s|
  {
    if s != [] { SplitNowhere(s[1..], a, b); }
  }

  /** All the parts between occurrences of `c`. */
  function Split(s: string, c: char): (parts: seq<string>)
    ensures |parts| > 0
    decreases |s|
  {
    match SplitOnce(s, c)
    case None => [s]
    case Some((before, after)) =>
      SplitShortens(s, c, c);
      [before] + Split(after, c)
  }

  lemma {:induction false} SplitShortens(s: string, a: char, b: char)
    ensures match SplitOnceEither(s, a, b)
      case None => a !in s && b !in s
      case Some((before, after)) =>
        |before| + 1 + |after| == |s| && a !in before && b !in before &&
        (s == before + [a] + after || s == before + [b] + after)
    decreases |s|
  {
    if s != [] && s[0] != a && s[0] != b {
      SplitShortens(s[1..], a, b);
      match SplitOnceEither(s[1..], a, b)
      case None =>
      case Some((before, after)) =>
        assert s == [s[0]] + s[1..];
        assert [s[0]] + before + [a] + after == [s[0]] + (before + [a] + after);
        assert [s[0]] + before + [b] + after == [s[0]] + (before + [b] + after);
    }
  }

  lemma SplitFirst(before: string, c: char, after: string)
    requires c !in before
    ensures Split(before + [c] + after, c) == [before] + Split(after, c)
  {
    SplitAtFirst(before, c, after, c, c);
  }

  lemma SplitNone(s: string, c: char)
    requires c !in s
    ensures Split(s, c) == [s]
  {
    SplitNowhere(s, c, c);
  }

  lemma TrimKeeps(s: string)
    requires s != [] && !IsWhitespace(s[0]) && !IsWhitespace(s[|s| - 1])
    ensures Trim(s) == s
  {
  }
}
