/** Character classes and the string operations the driver's parsers are built from. */
module Text {

  /** The Unicode `White_Space` property, which `char::is_whitespace` and `str::trim` use. */
  predicate IsWhitespace(c: char) {
    var n := c as int;
    || 0x9 <= n <= 0xD
    || n == 0x20 || n == 0x85 || n == 0xA0 || n == 0x1680
    || n == 0x2028 || n == 0x2029 || n == 0x202F || n == 0x205F || n == 0x3000
    || 0x2000 <= n <= 0x200A
  }

  predicate IsDigit(c: char) {
    '0' <= c <= '9'
  }

  predicate IsAlphanumeric(c: char) {
    IsDigit(c) || 'a' <= c <= 'z' || 'A' <= c <= 'Z'
  }

  function ToLower(c: char): char {
    if 'A' <= c <= 'Z' then c - 'A' + 'a' else c
  }

  function ToAsciiLowercase(s: string): string {
    seq(|s|, i requires 0 <= i < |s| => ToLower(s[i]))
  }

  function TrimStart(s: string): (r: string)
    ensures |r| <= |s|
    ensures r == s[|s| - |r|..]
    ensures r == [] || !IsWhitespace(r[0])
  {
    if s != [] && IsWhitespace(s[0]) then TrimStart(s[1..]) else s
  }

  function TrimEnd(s: string): (r: string)
    ensures |r| <= |s|
    ensures r == s[..|r|]
    ensures r == [] || !IsWhitespace(r[|r| - 1])
  {
    if s != [] && IsWhitespace(s[|s| - 1]) then TrimEnd(s[..|s| - 1]) else s
  }

  function Trim(s: string): string {
    TrimEnd(TrimStart(s))
  }

  // ----- blanks around a text -----

  predicate AllBlank(s: string) {
    forall k :: 0 <= k < |s| ==> IsWhitespace(s[k])
  }

  lemma {:induction false} BlanksBefore(blank: string, s: string)
    requires AllBlank(blank) && s != [] && !IsWhitespace(s[0])
    ensures TrimStart(blank + s) == s
    decreases |blank|
  {
    hide TrimStart, IsWhitespace;
    if blank == [] {
      assert blank + s == s;
      NothingToTrim(s);
    } else {
      assert blank + s == [blank[0]] + (blank[1..] + s);
      TrimOne(blank[0], blank[1..] + s);
      BlanksBefore(blank[1..], s);
    }
  }

  lemma NothingToTrim(s: string)
    requires s != [] && !IsWhitespace(s[0])
    ensures TrimStart(s) == s
  {
  }

  lemma TrimOne(c: char, s: string)
    requires IsWhitespace(c)
    ensures TrimStart([c] + s) == TrimStart(s)
  {
    assert ([c] + s)[1..] == s;
  }

  lemma {:induction false} BlanksAfter(s: string, blank: string)
    requires AllBlank(blank) && s != [] && !IsWhitespace(s[|s| - 1])
    ensures TrimEnd(s + blank) == s
    decreases |blank|
  {
    if blank == [] {
      assert s + blank == s;
    } else {
      var t := s + blank;
      assert t[..|t| - 1] == s + blank[..|blank| - 1];
      BlanksAfter(s, blank[..|blank| - 1]);
    }
  }

  lemma BlanksAround(before: string, s: string, after: string)
    requires AllBlank(before) && AllBlank(after) && s != [] && !IsWhitespace(s[0]) && !IsWhitespace(s[|s| - 1])
    ensures Trim(before + s + after) == s
  {
    hide TrimStart, TrimEnd, AllBlank, IsWhitespace;
    assert before + s + after == before + (s + after);
    assert (s + after)[0] == s[0];
    BlanksBefore(before, s + after);
    BlanksAfter(s, after);
  }

  lemma BlankGrows(c: char, s: string)
    requires IsWhitespace(c) && AllBlank(s)
    ensures AllBlank([c] + s)
  {
  }

  /** What trimming took off was blank. */
  lemma {:induction false} TrimStartTakesBlanks(s: string)
    ensures AllBlank(s[..|s| - |TrimStart(s)|])
    decreases |s|
  {
    if s != [] && IsWhitespace(s[0]) {
      var rest := s[1..];
      TrimStartTakesBlanks(rest);
      assert s == [s[0]] + rest;
      TrimOne(s[0], rest);
      hide TrimStart, IsWhitespace, AllBlank;
      var k := |rest| - |TrimStart(rest)|;
      BlankGrows(s[0], rest[..k]);
      assert s[..k + 1] == [s[0]] + rest[..k];
    }
  }

  lemma {:induction false} TrimEndTakesBlanks(s: string)
    ensures AllBlank(s[|TrimEnd(s)|..])
    decreases |s|
  {
    if s != [] && IsWhitespace(s[|s| - 1]) {
      var s' := s[..|s| - 1];
      TrimEndTakesBlanks(s');
      hide TrimEnd, IsWhitespace;
      assert s[|TrimEnd(s')|..] == s'[|TrimEnd(s')|..] + [s[|s| - 1]];
    }
  }

  lemma Cut(s: string, i: nat)
    requires i <= |s|
    ensures s == s[..i] + s[i..]
  {
  }

  lemma TrimDecomposes(s: string) returns (before: string, after: string)
    ensures AllBlank(before) && AllBlank(after) && s == before + Trim(s) + after
  {
    TrimStartTakesBlanks(s);
    TrimEndTakesBlanks(TrimStart(s));
    hide TrimStart, TrimEnd, AllBlank;
    var u := TrimStart(s);
    var i, j := |s| - |u|, |TrimEnd(u)|;
    before, after := s[..i], u[j..];
    Cut(s, i);
    Cut(u, j);
    Regroup(before, TrimEnd(u), after);
  }

  lemma Regroup(a: string, b: string, c: string)
    ensures a + (b + c) == a + b + c
  {
  }

  lemma TrimTwice(s: string)
    ensures Trim(Trim(s)) == Trim(s)
  {
    var t := Trim(s);
    assert t != "" ==> t[0] == TrimStart(s)[0];
  }
}
