/** How deep escapes may nest, and the one place where splitting a call changes its outcome. */
module EscapeDepth {
  import opened Wrappers
  import opened Text
  import opened Lexer
  import opened Escape
  import opened EscapeLaws

  /** `x` inside `n` outer-join escapes. */
  function Nested(n: nat, x: string): string {
    if n == 0 then x else "{oj " + Nested(n - 1, x) + "}"
  }

  /** Text with no character the scanner treats specially. */
  ghost predicate Bland(x: string, q: Quotes) {
    forall k :: 0 <= k < |x| ==> x[k] !in "'-/{}" && IdentClose(q, x[k]) == None
  }

  /** A dialect that quotes no identifier with braces, as well as being valid. */
  ghost predicate BracesFree(d: Dialect) {
    ValidDialect(d) && IdentClose(d.identifierQuotes, '{') == None && IdentClose(d.identifierQuotes, '}') == None
  }

  /** `x` is what `t` holds at `i`. */
  predicate HoldsAt(t: string, i: nat, x: string) {
    i + |x| <= |t| && t[i..i + |x|] == x
  }

  lemma {:induction false} MatchPassesBland(t: string, i: nat, e: nat, depth: nat, q: Quotes)
    requires i <= e <= |t| && Bland(t[i..e], q)
    ensures Match(t, i, depth, |t|, '{', '}', q) == Match(t, e, depth, |t|, '{', '}', q)
    decreases |t| - i
  {
    if i < e {
      assert t[i] == t[i..e][0] && t[i + 1..e] == t[i..e][1..];
      MatchPassesBland(t, i + 1, e, depth, q);
    }
  }

  lemma NestedParts(t: string, i: nat, n: nat, x: string)
    requires 0 < n && HoldsAt(t, i, Nested(n, x))
    ensures var inner := Nested(n - 1, x);
      && |Nested(n, x)| == |inner| + 5 && HoldsAt(t, i + 4, inner)
      && t[i] == '{' && t[i + 1..i + 4] == "oj " && t[i + 4 + |inner|] == '}'
  {
    var inner, g := Nested(n - 1, x), Nested(n, x);
    assert g == "{oj " + inner + "}";
    assert forall k :: 0 <= k < |g| ==> t[i + k] == g[k];
    assert t[i + 4..i + 4 + |inner|] == g[4..4 + |inner|] == inner;
    assert t[i + 1..i + 4] == g[1..4] == "oj ";
  }

  /** A brace on its own moves the depth by one, and ends nothing while an outer one is open. */
  lemma MatchPassesBrace(t: string, i: nat, depth: nat, d: Dialect)
    requires BracesFree(d) && i < |t| && 0 < depth && (t[i] == '{' || t[i] == '}')
    ensures var q := d.identifierQuotes;
      && (t[i] == '{' ==> Match(t, i, depth, |t|, '{', '}', q) == Match(t, i + 1, depth + 1, |t|, '{', '}', q))
      && (t[i] == '}' && 1 < depth ==>
          Match(t, i, depth, |t|, '{', '}', q) == Match(t, i + 1, depth - 1, |t|, '{', '}', q))
  {
  }

  lemma {:induction false} MatchPassesNested(t: string, i: nat, n: nat, x: string, depth: nat, d: Dialect)
    requires Bland(x, d.identifierQuotes) && BracesFree(d) && 0 < depth && HoldsAt(t, i, Nested(n, x))
    ensures Match(t, i, depth, |t|, '{', '}', d.identifierQuotes) ==
            Match(t, i + |Nested(n, x)|, depth, |t|, '{', '}', d.identifierQuotes)
    decreases n
  {
    hide Match, Bland, BracesFree;
    var q := d.identifierQuotes;
    if n == 0 {
      MatchPassesBland(t, i, i + |x|, depth, q);
    } else {
      NestedParts(t, i, n, x);
      hide Nested;
      BracesFreeIsValid(d);
      JoinIsBland(q, d);
      MatchPassesBrace(t, i, depth, d);
      MatchPassesBland(t, i + 1, i + 4, depth + 1, q);
      MatchPassesNested(t, i + 4, n - 1, x, depth + 1, d);
      MatchPassesBrace(t, i + 4 + |Nested(n - 1, x)|, depth + 1, d);
    }
  }

  lemma JoinIsBland(q: Quotes, d: Dialect)
    requires ValidDialect(d) && q == d.identifierQuotes
    ensures Bland("oj ", q)
  {
    assert InClass(Word, 'o') && InClass(Word, 'j') && InClass(Blank, ' ');
  }

  lemma NestedCloses(n: nat, x: string, d: Dialect)
    requires 0 < n && Bland(x, d.identifierQuotes) && BracesFree(d)
    ensures IsEscape(Nested(n, x), d.identifierQuotes)
  {
    var g, q := Nested(n, x), d.identifierQuotes;
    NestedInside(g, n, x, d);
    assert !RegionAt(g, 0, q) && !RegionAt(g, |g| - 1, q);
  }

  lemma HoldsItself(g: string)
    ensures HoldsAt(g, 0, g)
  {
    assert g[0..|g|] == g;
  }

  lemma BracesFreeIsValid(d: Dialect)
    requires BracesFree(d)
    ensures ValidDialect(d)
  {
  }

  lemma NestedInside(g: string, n: nat, x: string, d: Dialect)
    requires 0 < n && g == Nested(n, x) && Bland(x, d.identifierQuotes) && BracesFree(d)
    ensures 5 <= |g| && g[0] == '{' && g[|g| - 1] == '}'
    ensures Match(g, 1, 1, |g|, '{', '}', d.identifierQuotes) == Match(g, |g| - 1, 1, |g|, '{', '}', d.identifierQuotes)
  {
    hide Match, RegionAt, Nested, Bland, BracesFree;
    HoldsItself(g);
    NestedParts(g, 0, n, x);
    assert g[0] == '{' && g[1..4] == "oj ";
    hide HoldsAt;
    BracesFreeIsValid(d);
    JoinIsBland(d.identifierQuotes, d);
    MatchPassesBland(g, 1, 4, 1, d.identifierQuotes);
    MatchPassesNested(g, 4, n - 1, x, 1, d);
  }

  lemma NestedIsGroup(n: nat, x: string, d: Dialect)
    requires 0 < n && Bland(x, d.identifierQuotes) && BracesFree(d)
    ensures var g, q := Nested(n, x), d.identifierQuotes;
      IsEscape(g, q) && Keyword(g) == "oj" && KeywordEnd(g) == 3 && g[3..|g| - 1] == " " + Nested(n - 1, x)
  {
    NestedCloses(n, x, d);
    var g, inner := Nested(n, x), Nested(n - 1, x);
    assert g == "{oj " + inner + "}";
    assert g[3..|g| - 1] == " " + inner;
    assert g[1..4] == "oj ";
    OuterJoinKeyword(g);
  }

  lemma OuterJoinKeyword(g: string)
    requires 5 <= |g| && IsGroup(g) && g[1..4] == "oj "
    ensures Keyword(g) == "oj" && KeywordEnd(g) == 3
  {
    assert g[1] == g[1..4][0] == 'o' && g[2] == g[1..4][1] == 'j' && g[3] == g[1..4][2] == ' ';
    assert Run(g, 3, |g|, Alnum) == 3 && Run(g, 2, |g|, Alnum) == 3;
    assert RunIn(g, 1, Blank) == 1 && RunIn(g, 1, Alnum) == 3;
    assert g[1..3] == "oj";
    assert ToAsciiLowercase("oj") == "oj";
  }

  lemma TrimAbsorbs(x: string)
    ensures Trim(" " + x) == Trim(x) && Trim(Trim(x)) == Trim(x)
  {
    assert (" " + x)[1..] == x;
    var t := TrimStart(x);
    assert Trim(x) != [] ==> Trim(x)[0] == t[0];
  }

  lemma OuterJoinGroup(g: string, d: Dialect, depth: nat)
    requires depth <= MAX_ESCAPE_DEPTH && IsGroup(g) && Keyword(g) == "oj"
    ensures Group(g, d, depth) == Trimmed(Slice(g[KeywordEnd(g)..|g| - 1], d, depth + 1))
  {
    hide Slice, Function, Keyword, KeywordEnd, RunIn, Trim;
  }

  /** An outer-join escape is its body, translated one level down and trimmed. */
  lemma OuterJoinAlone(g: string, d: Dialect, depth: nat)
    requires depth <= MAX_ESCAPE_DEPTH && IsEscape(g, d.identifierQuotes) && IsGroup(g) && Keyword(g) == "oj"
    ensures Slice(g, d, depth) == Trimmed(Slice(g[KeywordEnd(g)..|g| - 1], d, depth + 1))
  {
    hide Slice, Group, Keyword, IsEscape;
    EscapeAlone(g, d, depth);
    OuterJoinGroup(g, d, depth);
  }

  lemma DeeperIsRefused(s: string, d: Dialect, depth: nat)
    requires depth > MAX_ESCAPE_DEPTH
    ensures Slice(s, d, depth) == Err(SyntaxError)
  {
  }

  function TrimmedBody(r: Translation): Translation {
    match r case Ok(body) => Ok(Trim(" " + body)) case Err(e) => Err(e)
  }

  lemma NestedEnds(n: nat, x: string, d: Dialect)
    requires 0 < n
    ensures IsGroup(Nested(n, x))
  {
  }

  lemma NestedStep(n: nat, x: string, d: Dialect, depth: nat)
    requires 0 < n && depth < MAX_ESCAPE_DEPTH && Bland(x, d.identifierQuotes) && BracesFree(d)
    ensures Slice(Nested(n, x), d, depth) == TrimmedBody(Slice(Nested(n - 1, x), d, depth + 1))
  {
    hide Slice, Nested, KeywordEnd, Keyword, IsEscape, Trim;
    NestedIsGroup(n, x, d);
    NestedEnds(n, x, d);
    OuterJoinAlone(Nested(n, x), d, depth);
    assert InClass(Blank, ' ');
    InertPrefix(" ", Nested(n - 1, x), d, depth + 1);
  }

  lemma NestedRefused(n: nat, x: string, d: Dialect)
    requires 0 < n && Bland(x, d.identifierQuotes) && BracesFree(d)
    ensures Slice(Nested(n, x), d, MAX_ESCAPE_DEPTH) == Err(SyntaxError)
  {
    hide Slice, Nested, KeywordEnd, Keyword, IsEscape, Trim;
    NestedIsGroup(n, x, d);
    NestedEnds(n, x, d);
    OuterJoinAlone(Nested(n, x), d, MAX_ESCAPE_DEPTH);
    DeeperIsRefused(" " + Nested(n - 1, x), d, MAX_ESCAPE_DEPTH + 1);
  }

  /** What `n` nested escapes around bland text become, met at any depth. */
  lemma {:induction false} NestedTranslates(n: nat, x: string, d: Dialect, depth: nat)
    requires Bland(x, d.identifierQuotes) && BracesFree(d) && depth <= MAX_ESCAPE_DEPTH
    ensures Slice(Nested(n, x), d, depth) ==
            if depth + n > MAX_ESCAPE_DEPTH then Err(SyntaxError) else if n == 0 then Ok(x) else Ok(Trim(x))
    decreases n
  {
    hide Slice, Trim;
    if n == 0 {
      InertSlice(x, d, depth);
    } else if depth == MAX_ESCAPE_DEPTH {
      NestedRefused(n, x, d);
    } else {
      NestedTranslates(n - 1, x, d, depth + 1);
      NestedStep(n, x, d, depth);
      TrimAbsorbs(x);
      TrimAbsorbs(Trim(x));
    }
  }

  /** Sixty-four nested outer joins translate; sixty-five are refused. */
  lemma NestingLimitIsExact(n: nat, x: string, d: Dialect)
    requires Bland(x, d.identifierQuotes) && BracesFree(d)
    ensures TranslateEscapes(Nested(n, x), d).Ok? <==> n <= 64
    ensures n > 64 ==> TranslateEscapes(Nested(n, x), d) == Err(SyntaxError)
  {
    FastPathAgrees(Nested(n, x), d);
    NestedTranslates(n, x, d, 0);
  }

  // ----- the cut that is not harmless -----

  const STRADDLE := "({d )})"

  lemma StraddleRegions(q: Quotes)
    requires Bland("(d )", q) && IdentClose(q, '{') == None && IdentClose(q, '}') == None
    ensures forall k :: 0 <= k < |STRADDLE| ==> !RegionAt(STRADDLE, k, q)
  {
    assert "(d )"[0] == '(' && "(d )"[1] == 'd' && "(d )"[2] == ' ' && "(d )"[3] == ')';
  }

  lemma StraddleMatches(q: Quotes)
    requires forall k :: 0 <= k < |STRADDLE| ==> !RegionAt(STRADDLE, k, q)
    ensures CallText(STRADDLE, 0, 4, q) && MatchBrace(STRADDLE, 1, q) == Some(5)
    ensures !CursorStops(STRADDLE, 1, 4, q)
  {
    var w := STRADDLE;
    assert Match(w, 4, 1, 7, '(', ')', q) == Some(4);
    assert Match(w, 3, 1, 7, '(', ')', q) == Some(4) && Match(w, 2, 1, 7, '(', ')', q) == Some(4);
    assert Match(w, 1, 1, 7, '(', ')', q) == Some(4);
    assert Match(w, 5, 1, 7, '{', '}', q) == Some(5) && Match(w, 4, 1, 7, '{', '}', q) == Some(5);
    assert Match(w, 3, 1, 7, '{', '}', q) == Some(5) && Match(w, 2, 1, 7, '{', '}', q) == Some(5);
  }

  /**
   The declined-call law needs its hypothesis. The remainder `({d )})` of a
   `{fn}` escape translates in one piece, since its `{d )}` is a complete
   escape; cut at the first `)`, its argument text `{d ` is refused.
   */
  lemma StraddleWitness(d: Dialect, depth: nat)
    requires ValidDialect(d) && depth <= MAX_ESCAPE_DEPTH
    requires Bland("(d )", d.identifierQuotes) && BracesFree(d)
    ensures CallText(STRADDLE, 0, 4, d.identifierQuotes)
    ensures Slice(STRADDLE, d, depth) == Ok("(" + d.renderDate(")") + ")")
    ensures Slice(STRADDLE[1..4], d, depth).Err?
  {
    hide Slice, Match, RegionAt, CursorStops, TrimEnd;
    var w, q := STRADDLE, d.identifierQuotes;
    StraddleRegions(q);
    StraddleMatches(q);
    CallCutLaw(w, 0, 4, d, depth);
    StraddledDate(w, d, depth);
    StraddleSplits(d, depth);
  }

  // The same call as the entry point receives it.

  const STRADDLED_CALL := "{fn f({d )})}"

  lemma CallHasNoRegion(d: Dialect)
    requires ValidDialect(d) && Bland("(d )", d.identifierQuotes) && BracesFree(d)
    ensures forall k :: 0 <= k < |STRADDLED_CALL| ==> !RegionAt(STRADDLED_CALL, k, d.identifierQuotes)
  {
    var s, q := STRADDLED_CALL, d.identifierQuotes;
    assert "(d )"[3] == ')';
    forall k | 0 <= k < |s| ensures IdentClose(q, s[k]) == None && s[k] != '\'' && s[k] != '-' && s[k] != '/' {
      assert s[k] == '{' || s[k] == '}' || s[k] == ')' || s[k] == '(' || InClass(Blank, s[k]) || InClass(Word, s[k]);
    }
  }

  lemma CallMatches(q: Quotes)
    requires forall k :: 0 <= k < |STRADDLED_CALL| ==> !RegionAt(STRADDLED_CALL, k, q)
    ensures MatchBrace(STRADDLED_CALL, 0, q) == Some(12) && MatchParen(STRADDLED_CALL, 5, 12, q) == Some(9)
  {
    hide RegionAt;
    var s := STRADDLED_CALL;
    assert Match(s, 12, 1, 13, '{', '}', q) == Some(12) && Match(s, 11, 1, 13, '{', '}', q) == Some(12);
    assert Match(s, 10, 2, 13, '{', '}', q) == Some(12) && Match(s, 9, 2, 13, '{', '}', q) == Some(12);
    assert Match(s, 8, 2, 13, '{', '}', q) == Some(12) && Match(s, 7, 2, 13, '{', '}', q) == Some(12);
    assert Match(s, 6, 1, 13, '{', '}', q) == Some(12) && Match(s, 5, 1, 13, '{', '}', q) == Some(12);
    assert Match(s, 4, 1, 13, '{', '}', q) == Some(12) && Match(s, 3, 1, 13, '{', '}', q) == Some(12);
    assert Match(s, 2, 1, 13, '{', '}', q) == Some(12) && Match(s, 1, 1, 13, '{', '}', q) == Some(12);
    assert Match(s, 9, 1, 12, '(', ')', q) == Some(9) && Match(s, 8, 1, 12, '(', ')', q) == Some(9);
    assert Match(s, 7, 1, 12, '(', ')', q) == Some(9) && Match(s, 6, 1, 12, '(', ')', q) == Some(9);
  }

  lemma CallWords()
    ensures var g := STRADDLED_CALL;
      && IsGroup(g) && KeywordEnd(g) == 3 && GroupKind(g) == FnKind
      && RunIn(g, 3, Blank) == 4 && RunIn(g, 4, Word) == 5 && RunIn(g, 5, Blank) == 5 && g[4..5] == "f"
  {
    var g := STRADDLED_CALL;
    assert Run(g, 1, |g|, Blank) == 1 && Run(g, 3, |g|, Alnum) == 3 && Run(g, 2, |g|, Alnum) == 3
          && Run(g, 1, |g|, Alnum) == 3;
    assert Run(g, 4, |g|, Blank) == 4 && Run(g, 5, |g|, Word) == 5 && Run(g, 5, |g|, Blank) == 5;
    hide Run;
    assert g[1..3] == "fn" && ToAsciiLowercase("fn") == "fn";
  }

  /** An escape that is cut open is refused. */
  lemma OpenEscapeIsRefused(d: Dialect, depth: nat)
    requires depth <= MAX_ESCAPE_DEPTH && BracesFree(d) && Bland("(d )", d.identifierQuotes)
    ensures Slice("{d ", d, depth) == Err(SyntaxError)
  {
    var s, q := "{d ", d.identifierQuotes;
    assert "(d )"[1] == 'd' && "(d )"[2] == ' ';
    assert !RegionAt(s, 0, q) && !RegionAt(s, 1, q) && !RegionAt(s, 2, q);
    assert Match(s, 3, 1, 3, '{', '}', q) == None && Match(s, 2, 1, 3, '{', '}', q) == None
          && Match(s, 1, 1, 3, '{', '}', q) == None;
    assert MatchBrace(s, 0, q) == None;
    hide Group;
  }

  lemma CallIsRefused(d: Dialect)
    requires MatchParen(STRADDLED_CALL, 5, 12, d.identifierQuotes) == Some(9) && Slice("{d ", d, 1) == Err(SyntaxError)
    ensures IsGroup(STRADDLED_CALL) && Group(STRADDLED_CALL, d, 0) == Err(SyntaxError)
  {
    var g := STRADDLED_CALL;
    CallWords();
    hide Slice, Match, GroupKind, KeywordEnd, RunIn;
    assert g[6..9] == "{d ";
    assert Call(g, "f", 5, d, 0) == Err(SyntaxError);
    assert Function(g, d, 0) == Err(SyntaxError);
  }

  /** The statement `{fn f({d )})}` is refused with 42000, though the rest of its escape in one piece is not. */
  lemma StraddledCallIsRefused(d: Dialect)
    requires ValidDialect(d) && Bland("(d )", d.identifierQuotes) && BracesFree(d)
    ensures TranslateEscapes(STRADDLED_CALL, d) == Err(SyntaxError)
    ensures Slice(STRADDLED_CALL[5..12], d, 1) == Ok("(" + d.renderDate(")") + ")")
  {
    hide Slice, Match, RegionAt, Group, CopyAround;
    var s, q := STRADDLED_CALL, d.identifierQuotes;
    assert s[5..12] == STRADDLE;
    StraddleWitness(d, 1);
    CallHasNoRegion(d);
    CallMatches(q);
    OpenEscapeIsRefused(d, 1);
    CallIsRefused(d);
    WholeIsGroup(s, d);
  }

  lemma WholeIsGroup(s: string, d: Dialect)
    requires IsGroup(s) && s[0] == '{' && !RegionAt(s, 0, d.identifierQuotes)
    requires MatchBrace(s, 0, d.identifierQuotes) == Some(|s| - 1)
    requires Group(s, d, 0) == Err(SyntaxError)
    ensures TranslateEscapes(s, d) == Err(SyntaxError)
  {
    hide Match, RegionAt, Group, CopyAround;
    assert s[0..|s|] == s;
    CopyOverGroup(s, 0, |s| - 1, d.identifierQuotes, RuleAt(d, 0));
  }

  lemma StraddleSplits(d: Dialect, depth: nat)
    requires depth <= MAX_ESCAPE_DEPTH && forall k :: 0 <= k < |STRADDLE| ==> !RegionAt(STRADDLE, k, d.identifierQuotes)
    requires MatchBrace(STRADDLE, 1, d.identifierQuotes) == Some(5)
    requires Slice(STRADDLE[1..6], d, depth) == Ok(d.renderDate(")"))
    ensures Slice(STRADDLE, d, depth) == Ok("(" + d.renderDate(")") + ")")
  {
    hide Slice, Match;
    var w, q := STRADDLE, d.identifierQuotes;
    assert CursorStops(w, 0, 1, q) && CursorStops(w, 1, 6, q) && CursorStops(w, 6, 7, q);
    UnitInPlace(w, 1, 6, d, depth);
    assert w[..1] == "(" && w[6..] == ")";
    SingleIsInert(w, 0, '(', d, depth);
    SingleIsInert(w, 6, ')', d, depth);
    assert "(" + (d.renderDate(")") + ")") == "(" + d.renderDate(")") + ")";
  }

  lemma SingleIsInert(w: string, i: nat, c: char, d: Dialect, depth: nat)
    requires i < |w| && w[i] == c && c != '{' && !RegionAt(w, i, d.identifierQuotes) && depth <= MAX_ESCAPE_DEPTH
    ensures Slice([c], d, depth) == Ok([c])
  {
    assert !RegionAt([c], 0, d.identifierQuotes);
    InertSlice([c], d, depth);
  }

  lemma StraddledDate(w: string, d: Dialect, depth: nat)
    requires depth <= MAX_ESCAPE_DEPTH && w == STRADDLE && !RegionAt(w, 1, d.identifierQuotes)
    requires MatchBrace(w, 1, d.identifierQuotes) == Some(5)
    ensures Slice(w[1..6], d, depth) == Ok(d.renderDate(")"))
  {
    GroupAlone(w, 1, 5, d, depth);
    var g := "{d )}";
    assert w[1..6] == g;
    DateGroup(g, d, depth);
  }

  lemma DateGroup(g: string, d: Dialect, depth: nat)
    requires depth <= MAX_ESCAPE_DEPTH && g == "{d )}"
    ensures Group(g, d, depth) == Ok(d.renderDate(")"))
  {
    DateWords(g);
    hide Slice, Trim, GroupKind, KeywordEnd, Function;
  }

  lemma DateWords(g: string)
    requires g == "{d )}"
    ensures IsGroup(g) && GroupKind(g) == DateKind && Trim(g[KeywordEnd(g)..|g| - 1]) == ")"
  {
    hide KindOf, TrimStart, TrimEnd, Run;
    DateKeyword(g);
    assert g[1..2] == "d" && g[2..4] == " )";
    DateTrim();
  }

  lemma DateKeyword(g: string)
    requires g == "{d )}"
    ensures RunIn(g, 1, Blank) == 1 && KeywordEnd(g) == 2 && ToAsciiLowercase("d") == "d"
    ensures KindOf("d", false) == DateKind
  {
    assert Run(g, 2, |g|, Alnum) == 2;
    assert ToAsciiLowercase("d") == "d";
  }

  lemma DateTrim()
    ensures Trim(" )") == ")"
  {
    assert " )"[1..] == ")" && TrimStart(")") == ")" && TrimEnd(")") == ")";
  }
}
