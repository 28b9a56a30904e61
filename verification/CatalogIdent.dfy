/** Identifier arguments: unwrapping, folding and escaping them into a pattern, and what such a pattern matches. */
module CatalogIdent {
  import opened Wrappers

  const SQL_IC_UPPER: int := 1
  const SQL_IC_LOWER: int := 2

  // ----- LIKE -----

  /** Backtracking match; the escape character, if there is one, is looked for before the wildcards. */
  predicate Like(pattern: string, s: string, esc: Option<char>)
    decreases |pattern| + |s|
  {
    if pattern == [] then s == []
    else if esc == Some(pattern[0]) then
      |pattern| >= 2 && s != [] && s[0] == pattern[1] && Like(pattern[2..], s[1..], esc)
    else if pattern[0] == '%' then
      Like(pattern[1..], s, esc) || (s != [] && Like(pattern, s[1..], esc))
    else if pattern[0] == '_' then s != [] && Like(pattern[1..], s[1..], esc)
    else s != [] && s[0] == pattern[0] && Like(pattern[1..], s[1..], esc)
  }

  predicate IsWildcard(c: char) {
    c == '%' || c == '_'
  }

  predicate IsPlain(value: string) {
    forall k :: 0 <= k < |value| ==> !IsWildcard(value[k])
  }

  /** The pattern matches one text. */
  ghost predicate MatchesOnly(pattern: string, name: string, esc: Option<char>) {
    forall s :: Like(pattern, s, esc) <==> s == name
  }

  function EscapeChar(escape: string): Option<char> {
    if escape == [] then None else Some(escape[0])
  }

  /** Each wildcard and each escape character behind an escape character, from the front. */
  function Escaped(value: string, esc: char): string {
    if value == [] then []
    else (if value[0] == esc || IsWildcard(value[0]) then [esc, value[0]] else [value[0]]) + Escaped(value[1..], esc)
  }

  function EscapedWith(value: string, escape: string): string {
    if escape == [] then value else Escaped(value, escape[0])
  }

  lemma {:induction false} EscapedGrows(value: string, c: char, esc: char)
    ensures Escaped(value + [c], esc) == Escaped(value, esc) + if c == esc || IsWildcard(c) then [esc, c] else [c]
    decreases |value|
  {
    if value == [] {
      assert [c][1..] == [];
    } else {
      assert (value + [c])[1..] == value[1..] + [c];
      EscapedGrows(value[1..], c, esc);
    }
  }

  method EscapePatternMetacharacters(value: string, escape: string) returns (out: string)
    ensures out == EscapedWith(value, escape)
  {
    if escape == [] { return value; }
    var esc := escape[0];
    out := [];
    for i := 0 to |value|
      invariant out == Escaped(value[..i], esc)
    {
      EscapedGrows(value[..i], value[i], esc);
      assert value[..i] + [value[i]] == value[..i + 1];
      var ch := value[i];
      if ch == esc || ch == '%' || ch == '_' { out := out + [esc]; }
      out := out + [ch];
    }
    assert value[..|value|] == value;
  }

  /** An escaped value, as a pattern, matches the value and nothing else, whatever the escape character. */
  lemma {:induction false} EscapedMatchesOnlyItself(value: string, s: string, esc: char)
    ensures Like(Escaped(value, esc), s, Some(esc)) <==> s == value
    decreases |value|
  {
    if value != [] {
      var p, rest := Escaped(value, esc), Escaped(value[1..], esc);
      if s != [] { EscapedMatchesOnlyItself(value[1..], s[1..], esc); }
      if value[0] == esc || IsWildcard(value[0]) {
        assert p[2..] == rest;
      } else {
        assert p[1..] == rest;
      }
      assert s != [] && s[0] == value[0] && s[1..] == value[1..] ==> s == [s[0]] + s[1..] == value;
    }
  }

  // ----- with no escape character -----

  lemma {:induction false} MatchesItself(value: string)
    ensures Like(value, value, None)
    decreases |value|
  {
    if value != [] {
      MatchesItself(value[1..]);
      if value[0] == '%' { assert Like(value[1..], value[1..], None) && Like(value, value[1..], None); }
    }
  }

  /** A wildcard lets another text through. */
  lemma {:induction false} WildcardMatchesOther(value: string) returns (s: string)
    requires !IsPlain(value)
    ensures Like(value, s, None) && s != value
    decreases |value|
  {
    if IsWildcard(value[0]) {
      MatchesItself(value[1..]);
      s := if value[0] == '%' then value[1..] else ['x'] + value[1..];
      assert value[0] == '_' ==> s[1..] == value[1..] && s[0] != value[0];
    } else {
      assert !IsPlain(value[1..]) by {
        var k :| 0 <= k < |value| && IsWildcard(value[k]);
        assert value[1..][k - 1] == value[k];
      }
      var t := WildcardMatchesOther(value[1..]);
      s := [value[0]] + t;
      assert s[1..] == t && [value[0]] + value[1..] == value;
    }
  }

  lemma {:induction false} PlainMatchesOnlyItself(value: string, s: string)
    requires IsPlain(value)
    ensures Like(value, s, None) <==> s == value
    decreases |value|
  {
    if value != [] && s != [] {
      PlainMatchesOnlyItself(value[1..], s[1..]);
      assert s == [s[0]] + s[1..] && value == [value[0]] + value[1..];
    }
  }

  // ----- normalising -----

  /** Is the text wrapped in a declared delimiter pair? */
  predicate Delimited(value: string, quotes: seq<(char, char)>) {
    |value| >= 2 && exists k :: 0 <= k < |quotes| && quotes[k].0 == value[0] && quotes[k].1 == value[|value| - 1]
  }

  function StripDelimiters(value: string, quotes: seq<(char, char)>): (string, bool) {
    if Delimited(value, quotes) then (value[1..|value| - 1], true) else (value, false)
  }

  function Fold(value: string, identifierCase: int, upper: string -> string, lower: string -> string): string {
    if identifierCase == SQL_IC_UPPER then upper(value)
    else if identifierCase == SQL_IC_LOWER then lower(value)
    else value
  }

  method NormaliseIdentifier(value: string, identifierCase: int, quotes: seq<(char, char)>, escape: string,
                             upper: string -> string, lower: string -> string)
    returns (pattern: string)
    ensures pattern == EscapedWith(NameOf(value, identifierCase, quotes, upper, lower), escape)
  {
    var (unwrapped, wasDelimited) := StripDelimiters(value, quotes);
    var folded := if wasDelimited then unwrapped else Fold(unwrapped, identifierCase, upper, lower);
    pattern := EscapePatternMetacharacters(folded, escape);
  }

  /** The one name an identifier argument stands for. */
  function NameOf(value: string, identifierCase: int, quotes: seq<(char, char)>, upper: string -> string,
                  lower: string -> string)
    : string
  {
    if Delimited(value, quotes) then value[1..|value| - 1] else Fold(value, identifierCase, upper, lower)
  }

  /** A delimited name is taken literally: the text between the delimiters, in its own case. */
  lemma DelimitedIsLiteral(name: string, k: nat, identifierCase: int, quotes: seq<(char, char)>,
                           upper: string -> string, lower: string -> string)
    requires k < |quotes|
    ensures NameOf([quotes[k].0] + name + [quotes[k].1], identifierCase, quotes, upper, lower) == name
  {
    var value := [quotes[k].0] + name + [quotes[k].1];
    assert value[0] == quotes[k].0 && value[|value| - 1] == quotes[k].1;
    assert value[1..|value| - 1] == name;
  }

  /** What an undelimited argument stands for: its upper case under SQL_IC_UPPER (1), its lower case (2), or itself. */
  lemma UndelimitedIsFolded(value: string, identifierCase: int, quotes: seq<(char, char)>, upper: string -> string,
                            lower: string -> string)
    requires forall k :: 0 <= k < |quotes| ==>
      |value| < 2 || value[0] != quotes[k].0 || value[|value| - 1] != quotes[k].1
    ensures var name := NameOf(value, identifierCase, quotes, upper, lower);
      && (identifierCase == 1 ==> name == upper(value)) && (identifierCase == 2 ==> name == lower(value))
      && (identifierCase != 1 && identifierCase != 2 ==> name == value)
  {
  }

  /**
   Looked up with an escape character, an undelimited argument finds a name
   exactly when its fold is that name: in whatever case it is written.
   */
  lemma CaseDoesNotMatter(value: string, identifierCase: int, quotes: seq<(char, char)>, escape: string,
                          upper: string -> string, lower: string -> string, name: string)
    requires escape != "" && forall k :: 0 <= k < |quotes| ==>
      |value| < 2 || value[0] != quotes[k].0 || value[|value| - 1] != quotes[k].1
    ensures Like(EscapedWith(NameOf(value, identifierCase, quotes, upper, lower), escape), name, EscapeChar(escape))
            <==>
            name == if identifierCase == 1 then upper(value) else if identifierCase == 2 then lower(value) else value
  {
    hide NameOf;
    UndelimitedIsFolded(value, identifierCase, quotes, upper, lower);
    IdentifierMatchesOneName(value, identifierCase, quotes, escape, upper, lower);
  }

  /**
   The pattern made of an identifier matches exactly its name. With no escape
   character to be had, that is so exactly when the name has no wildcard.
   */
  lemma IdentifierMatchesOneName(value: string, identifierCase: int, quotes: seq<(char, char)>, escape: string,
                                 upper: string -> string, lower: string -> string)
    ensures var name := NameOf(value, identifierCase, quotes, upper, lower);
      MatchesOnly(EscapedWith(name, escape), name, EscapeChar(escape)) <==> escape != [] || IsPlain(name)
  {
    hide NameOf;
    PatternMatchesOneName(NameOf(value, identifierCase, quotes, upper, lower), escape);
  }

  lemma PatternMatchesOneName(name: string, escape: string)
    ensures MatchesOnly(EscapedWith(name, escape), name, EscapeChar(escape)) <==> escape != [] || IsPlain(name)
  {
    hide Like, Escaped, IsPlain;
    if escape != [] {
      forall s ensures Like(Escaped(name, escape[0]), s, Some(escape[0])) <==> s == name {
        EscapedMatchesOnlyItself(name, s, escape[0]);
      }
    } else if IsPlain(name) {
      forall s ensures Like(name, s, None) <==> s == name { PlainMatchesOnlyItself(name, s); }
    } else {
      var other := WildcardMatchesOther(name);
    }
  }
}
