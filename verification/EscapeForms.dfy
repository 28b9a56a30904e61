/**
 Escapes as an application writes them. Each statement here is put together from
 its parts, and the law says what its translation is in terms of those parts.
 */
module EscapeForms {
  import opened Wrappers
  import opened Text
  import opened Lexer
  import opened Escape
  import opened EscapeLaws

  // ----- keywords -----

  /** `word` is `keyword`, each letter in either case. */
  predicate Spells(word: string, keyword: string) {
    |word| == |keyword|
    && forall k :: 0 <= k < |word| ==> word[k] == keyword[k] || word[k] as int == keyword[k] as int - 32
  }

  const KEYWORDS := ["fn", "d", "t", "ts", "oj", "escape", "call"]

  /** An escape: blanks, the longest word behind them, and the rest. */
  datatype Form = Form(blank: string, word: string, rest: string)
  {
    predicate Valid() {
      && AllBlank(blank) && (forall k :: 0 <= k < |word| ==> IsAlphanumeric(word[k]))
      && (rest != "" ==> !IsAlphanumeric(rest[0]) && (word == "" ==> !IsWhitespace(rest[0])))
    }

    function Text(): string {
      "{" + blank + word + rest + "}"
    }

    predicate IsReturnCall() {
      word == "" && rest != "" && rest[0] == '?'
    }

    predicate Unknown() {
      !IsReturnCall() && forall k :: 0 <= k < |KEYWORDS| ==> !Spells(word, KEYWORDS[k])
    }
  }

  lemma {:induction false} RunEndsAt(s: string, i: nat, e: nat, limit: nat, cls: CharClass)
    requires i <= e <= limit <= |s| && (forall k :: i <= k < e ==> InClass(cls, s[k]))
    requires e < limit ==> !InClass(cls, s[e])
    ensures Run(s, i, limit, cls) == e
    decreases e - i
  {
    if i < e { RunEndsAt(s, i + 1, e, limit, cls); }
  }

  lemma LowercaseIs(word: string, keyword: string)
    requires forall k :: 0 <= k < |keyword| ==> 'a' <= keyword[k] <= 'z'
    ensures Spells(word, keyword) <==> ToAsciiLowercase(word) == keyword
  {
    var low := ToAsciiLowercase(word);
    if |word| == |keyword| {
      forall k | 0 <= k < |word|
        ensures low[k] == keyword[k] <==> word[k] == keyword[k] || word[k] as int == keyword[k] as int - 32
      {
      }
    }
  }

  /** Where the words of an escape lie. */
  lemma FormWords(f: Form)
    requires f.Valid()
    ensures var g, kw := f.Text(), 1 + |f.blank|;
      && IsGroup(g) && RunIn(g, 1, Blank) == kw && KeywordEnd(g) == kw + |f.word| < |g|
      && Keyword(g) == ToAsciiLowercase(f.word) && g[KeywordEnd(g)..|g| - 1] == f.rest
      && g[kw] == (if f.word != "" then f.word[0] else if f.rest != "" then f.rest[0] else '}')
  {
    hide IsWhitespace, IsAlphanumeric;
    var g, kw := f.Text(), 1 + |f.blank|;
    var e := kw + |f.word|;
    assert g[1..kw] == f.blank && g[kw..e] == f.word && g[e..|g| - 1] == f.rest;
    CharClasses();
    forall k | 1 <= k < kw ensures InClass(Blank, g[k]) { assert g[k] == f.blank[k - 1]; }
    forall k | kw <= k < e ensures InClass(Alnum, g[k]) { assert g[k] == f.word[k - kw]; }
    assert g[e] == if f.rest != "" then f.rest[0] else '}';
    RunEndsAt(g, 1, kw, |g|, Blank);
    RunEndsAt(g, kw, e, |g|, Alnum);
  }

  lemma CharClasses()
    ensures forall c :: IsAlphanumeric(c) || c == '_' || c == '}' || c == '(' ==> !IsWhitespace(c)
    ensures !IsAlphanumeric('}') && !IsAlphanumeric('(')
  {
  }

  /** What each keyword asks for, of the text behind it. */
  ghost predicate Becomes(f: Form, d: Dialect, depth: nat, r: Translation) {
    && (Spells(f.word, "d") ==> r == Ok(d.renderDate(Trim(f.rest))))
    && (Spells(f.word, "t") ==> r == Ok(d.renderTime(Trim(f.rest))))
    && (Spells(f.word, "ts") ==> r == Ok(d.renderTimestamp(Trim(f.rest))))
    && (Spells(f.word, "escape") ==> r == Ok("ESCAPE " + Trim(f.rest)))
    && (Spells(f.word, "oj") ==>
          r == match Slice(f.rest, d, depth + 1) case Ok(joined) => Ok(Trim(joined)) case Err(e) => Err(e))
    && (Spells(f.word, "call") || f.IsReturnCall() ==> r == Err(FeatureNotImplemented))
    && (f.Unknown() ==> r == Ok(f.Text()))
  }

  lemma KindIs(f: Form)
    requires f.Valid()
    ensures IsGroup(f.Text())
    ensures var kind := GroupKind(f.Text());
      && (Spells(f.word, "fn") ==> kind == FnKind) && (Spells(f.word, "d") ==> kind == DateKind)
      && (Spells(f.word, "t") ==> kind == TimeKind) && (Spells(f.word, "ts") ==> kind == TimestampKind)
      && (Spells(f.word, "oj") ==> kind == JoinKind) && (Spells(f.word, "escape") ==> kind == LikeKind)
      && (Spells(f.word, "call") || f.IsReturnCall() ==> kind == CallKind) && (f.Unknown() ==> kind == NoKind)
  {
    hide RunIn, KeywordEnd, Keyword, Spells;
    FormWords(f);
    LowercaseIs(f.word, "fn");
    LowercaseIs(f.word, "d");
    LowercaseIs(f.word, "t");
    LowercaseIs(f.word, "ts");
    LowercaseIs(f.word, "oj");
    LowercaseIs(f.word, "escape");
    LowercaseIs(f.word, "call");
    assert f.Unknown() ==> forall w :: w in KEYWORDS ==> !Spells(f.word, w);
  }

  lemma GroupBecomes(f: Form, d: Dialect, depth: nat)
    requires f.Valid() && depth <= MAX_ESCAPE_DEPTH
    ensures IsGroup(f.Text()) && Becomes(f, d, depth, Group(f.Text(), d, depth))
  {
    hide GroupKind, KeywordEnd, Spells, Form.Unknown, Form.IsReturnCall, Trim, Slice, Function;
    FormWords(f);
    KindIs(f);
  }

  /** Every escape that is no function call, at any depth, by its keyword in any case. */
  lemma EscapeBecomes(f: Form, d: Dialect, depth: nat)
    requires f.Valid() && IsEscape(f.Text(), d.identifierQuotes) && depth <= MAX_ESCAPE_DEPTH
    ensures Becomes(f, d, depth, Slice(f.Text(), d, depth))
  {
    hide Becomes, Slice, Group;
    GroupBecomes(f, d, depth);
    EscapeAlone(f.Text(), d, depth);
  }

  /** The same for a whole statement at the entry point. */
  lemma StatementBecomes(f: Form, d: Dialect)
    requires f.Valid() && IsEscape(f.Text(), d.identifierQuotes)
    ensures Becomes(f, d, 0, TranslateEscapes(f.Text(), d))
  {
    hide Becomes, Slice;
    FastPathAgrees(f.Text(), d);
    EscapeBecomes(f, d, 0);
  }

  // ----- function calls -----

  predicate IsWordChar(c: char) {
    IsAlphanumeric(c) || c == '_'
  }

  /** The rest of an `{fn}` escape: blanks, the longest name behind them, and what follows it. */
  datatype FnForm = FnForm(gap: string, name: string, more: string)
  {
    predicate Valid() {
      && AllBlank(gap) && (forall k :: 0 <= k < |name| ==> IsWordChar(name[k]))
      && (more != "" ==> !IsWordChar(more[0]) && (name == "" ==> !IsWhitespace(more[0])))
    }

    function Text(): string {
      gap + name + more
    }
  }

  /** What follows a name: blanks and a `(`, its arguments, the matching `)` and the rest; or no such thing. */
  datatype Arguments = Arguments(space: string, args: string, tail: string)
  {
    function Text(): string {
      space + "(" + args + ")" + tail
    }
  }

  /** The name a dialect puts in place of a function's. */
  function Remapped(d: Dialect, name: string): string {
    match d.remapScalarFn(name) case Some(other) => other case None => name
  }

  /** A call is offered to the dialect with its arguments translated; if declined, it is kept with its name remapped. */
  function CallBecomes(name: string, a: Arguments, d: Dialect, depth: nat): Translation {
    match (Slice(a.args, d, depth + 1), Slice(a.tail, d, depth + 1))
    case (Err(e), _) => Err(e)
    case (_, Err(e)) => Err(e)
    case (Ok(args), Ok(tail)) =>
      match d.rewriteScalarFn(name, Trim(args))
      case Some(text) => Ok(text + TrimEnd(tail))
      case None => Ok(Remapped(d, name) + a.space + "(" + args + ")" + tail)
  }

  lemma Held(g: string, i: nat, w: string)
    requires i + |w| < |g| && g[i..i + |w|] == w
    ensures forall k :: 0 <= k < |w| ==> g[i + k] == w[k]
  {
    forall k | 0 <= k < |w| ensures g[i + k] == w[k] { assert g[i..i + |w|][k] == w[k]; }
  }

  /** Where the name of a function lies. */
  lemma NameRuns(g: string, kw: nat, n: FnForm)
    requires IsGroup(g) && 1 <= kw < |g| && n.Valid() && g[kw..|g| - 1] == n.Text()
    ensures var start := kw + |n.gap|;
      var end := start + |n.name|;
      && RunIn(g, kw, Blank) == start && RunIn(g, start, Word) == end < |g|
      && g[start..end] == n.name && g[end..|g| - 1] == n.more
  {
    hide IsWhitespace, IsAlphanumeric;
    CharClasses();
    var w := n.Text();
    var start := kw + |n.gap|;
    var end := start + |n.name|;
    Held(g, kw, w);
    NameParts(g, kw, n);
    forall k | kw <= k < start ensures InClass(Blank, g[k]) { assert g[kw + (k - kw)] == w[k - kw] == n.gap[k - kw]; }
    forall k | start <= k < end ensures InClass(Word, g[k]) {
      assert g[kw + (k - kw)] == w[k - kw] == n.name[k - start];
    }
    assert end < |g| - 1 ==> g[kw + (end - kw)] == w[end - kw] == n.more[0];
    assert n.name != "" ==> g[kw + (start - kw)] == w[start - kw] == n.name[0];
    RunEndsAt(g, kw, start, |g|, Blank);
    RunEndsAt(g, start, end, |g|, Word);
  }

  lemma NameParts(g: string, kw: nat, n: FnForm)
    requires 1 <= kw < |g| && g[kw..|g| - 1] == n.Text()
    ensures var start := kw + |n.gap|;
      var end := start + |n.name|;
      end + |n.more| == |g| - 1 && g[start..end] == n.name && g[end..|g| - 1] == n.more
  {
    assert g == g[..kw] + (n.gap + n.name + n.more) + [g[|g| - 1]];
  }

  /** An escape whose keyword is `fn`, and the function it names. */
  lemma NameLies(f: Form, n: FnForm, d: Dialect, depth: nat) returns (g: string, end: nat)
    requires f.Valid() && Spells(f.word, "fn") && n.Valid() && f.rest == n.Text()
    requires IsEscape(f.Text(), d.identifierQuotes) && depth <= MAX_ESCAPE_DEPTH
    ensures g == f.Text() && IsGroup(g) && end == 1 + |f.blank| + |f.word| + |n.gap| + |n.name| < |g|
    ensures g[end..|g| - 1] == n.more && Slice(g, d, depth) == Function(g, d, depth)
    ensures var start := RunIn(g, KeywordEnd(g), Blank); RunIn(g, start, Word) == end && g[start..end] == n.name
  {
    hide RunIn, KeywordEnd, Slice, GroupKind, Spells, Form.Text, Form.Valid, FnForm.Valid, FnForm.Text, IsEscape,
         Function;
    FormWords(f);
    KindIs(f);
    g := f.Text();
    NameRuns(g, KeywordEnd(g), n);
    EscapeAlone(g, d, depth);
    end := KeywordEnd(g) + |n.gap| + |n.name|;
  }

  /** `{fn}` without a name is kept whole. */
  lemma NamelessIsKept(f: Form, n: FnForm, d: Dialect, depth: nat)
    requires f.Valid() && Spells(f.word, "fn") && n.Valid() && f.rest == n.Text() && n.name == ""
    requires IsEscape(f.Text(), d.identifierQuotes) && depth <= MAX_ESCAPE_DEPTH
    ensures Slice(f.Text(), d, depth) == Ok(f.Text())
  {
    hide RunIn, KeywordEnd, Slice, Form.Text, FnForm.Text, IsEscape;
    var g, end := NameLies(f, n, d, depth);
  }

  /** The function of an escape, by what is found behind its name. */
  lemma FunctionIs(g: string, name: string, end: nat, d: Dialect, depth: nat)
    requires IsGroup(g) && depth <= MAX_ESCAPE_DEPTH && name != "" && 1 <= end < |g|
    requires var start := RunIn(g, KeywordEnd(g), Blank); RunIn(g, start, Word) == end && g[start..end] == name
    ensures Function(g, d, depth) ==
            match Call(g, name, end, d, depth)
            case Err(e) => Err(e)
            case Ok(Rewritten(text)) => Ok(text)
            case Ok(Declined(rest)) => Ok(Remapped(d, name) + rest)
            case Ok(NotACall) => Append(Ok(Remapped(d, name)), Slice(g[end..|g| - 1], d, depth + 1))
  {
    hide RunIn, KeywordEnd, Slice, Call;
  }

  /** A name with no parenthesised arguments: the name is remapped, and the rest translated. */
  lemma NameIsRemapped(f: Form, n: FnForm, space: string, behind: string, d: Dialect, depth: nat)
    requires f.Valid() && Spells(f.word, "fn") && n.Valid() && f.rest == n.Text() && n.name != ""
    requires IsEscape(f.Text(), d.identifierQuotes) && depth <= MAX_ESCAPE_DEPTH
    requires AllBlank(space) && n.more == space + behind && (behind != "" ==> !IsWhitespace(behind[0]))
    requires |behind| < |f.Text()| && (behind == "" || behind[0] != '(' ||
          MatchParen(f.Text(), |f.Text()| - 1 - |behind|, |f.Text()| - 1, d.identifierQuotes) == None)
    ensures Slice(f.Text(), d, depth) == Append(Ok(Remapped(d, n.name)), Slice(n.more, d, depth + 1))
  {
    hide RunIn, KeywordEnd, Slice, Form.Text, Form.Valid, FnForm.Text, FnForm.Valid, IsEscape, MatchParen, AllBlank,
         Spells, Call, IsWhitespace;
    var g, end := NameLies(f, n, d, depth);
    FunctionIs(g, n.name, end, d, depth);
    SpaceEnds(g, end, space, behind);
    NoCall(g, n.name, end, end + |space|, d, depth);
  }

  lemma NoCall(g: string, name: string, end: nat, p: nat, d: Dialect, depth: nat)
    requires IsGroup(g) && 1 <= end < |g| && depth <= MAX_ESCAPE_DEPTH && RunIn(g, end, Blank) == p
    requires g[p] != '(' || MatchParen(g, p, |g| - 1, d.identifierQuotes) == None
    ensures Call(g, name, end, d, depth) == Ok(NotACall)
  {
    hide RunIn, Slice, MatchParen;
  }

  lemma SpaceEnds(g: string, end: nat, space: string, behind: string)
    requires IsGroup(g) && 1 <= end < |g| && AllBlank(space) && g[end..|g| - 1] == space + behind
    requires behind != "" ==> !IsWhitespace(behind[0])
    ensures RunIn(g, end, Blank) == end + |space| && end + |space| + |behind| == |g| - 1
    ensures g[end + |space|] == if behind == "" then '}' else behind[0]
  {
    hide IsWhitespace;
    CharClasses();
    var w := space + behind;
    Held(g, end, w);
    forall k | end <= k < end + |space| ensures InClass(Blank, g[k]) {
      assert g[end + (k - end)] == w[k - end] == space[k - end];
    }
    assert behind != "" ==> g[end + |space|] == w[|space|] == behind[0];
    RunEndsAt(g, end, end + |space|, |g|, Blank);
  }

  /** A name with arguments is offered to the dialect. */
  lemma FnCallBecomes(f: Form, n: FnForm, a: Arguments, d: Dialect, depth: nat)
    requires f.Valid() && Spells(f.word, "fn") && n.Valid() && f.rest == n.Text() && n.name != ""
    requires IsEscape(f.Text(), d.identifierQuotes) && depth <= MAX_ESCAPE_DEPTH
    requires AllBlank(a.space) && n.more == a.Text()
    requires var open := 1 + |f.blank| + |f.word| + |n.gap| + |n.name| + |a.space|;
      open <= |f.Text()| &&
      MatchParen(f.Text(), open, |f.Text()| - 1, d.identifierQuotes) == Some(open + 1 + |a.args|)
    ensures Slice(f.Text(), d, depth) == CallBecomes(n.name, a, d, depth)
  {
    hide RunIn, KeywordEnd, Slice, Form.Text, Form.Valid, FnForm.Text, FnForm.Valid, IsEscape, MatchParen, AllBlank,
         Spells, Call, IsWhitespace, CallBecomes, Function;
    var g, end := NameLies(f, n, d, depth);
    FunctionIs(g, n.name, end, d, depth);
    CallIs(g, n.name, end, a, d, depth);
  }

  lemma CallSpans(g: string, end: nat, a: Arguments)
    requires 1 <= end < |g| && g[end..|g| - 1] == a.Text()
    ensures var p := end + |a.space|;
      var close := p + 1 + |a.args|;
      && close < |g| - 1 && g[p] == '(' && g[close] == ')'
      && g[end..p + 1] == a.space + "(" && g[p + 1..close] == a.args && g[close + 1..|g| - 1] == a.tail
  {
    var w := a.Text();
    assert g == g[..end] + w + [g[|g| - 1]];
  }

  /** A call found, by its parts. */
  lemma CallFound(g: string, name: string, end: nat, p: nat, close: nat, d: Dialect, depth: nat)
    requires IsGroup(g) && 1 <= end <= p < close < |g| - 1 && depth <= MAX_ESCAPE_DEPTH
    requires RunIn(g, end, Blank) == p && g[p] == '(' && MatchParen(g, p, |g| - 1, d.identifierQuotes) == Some(close)
    ensures Call(g, name, end, d, depth) ==
            match (Slice(g[p + 1..close], d, depth + 1), Slice(g[close + 1..|g| - 1], d, depth + 1))
            case (Err(e), _) => Err(e)
            case (_, Err(e)) => Err(e)
            case (Ok(args), Ok(tail)) =>
              match d.rewriteScalarFn(name, Trim(args))
              case Some(text) => Ok(Rewritten(text + TrimEnd(tail)))
              case None => Ok(Declined(g[end..p + 1] + args + [g[close]] + tail))
  {
    hide RunIn, Slice, MatchParen, Trim, TrimEnd;
  }

  /** What a call found becomes, given its parts. */
  lemma FoundBecomes(name: string, a: Arguments, d: Dialect, depth: nat, call: Result<FnCall, SqlState>)
    requires call ==
             match (Slice(a.args, d, depth + 1), Slice(a.tail, d, depth + 1))
             case (Err(e), _) => Err(e)
             case (_, Err(e)) => Err(e)
             case (Ok(args), Ok(tail)) =>
               match d.rewriteScalarFn(name, Trim(args))
               case Some(text) => Ok(Rewritten(text + TrimEnd(tail)))
               case None => Ok(Declined(a.space + "(" + args + [')'] + tail))
    ensures call != Ok(NotACall)
    ensures CallBecomes(name, a, d, depth) ==
            match call
            case Err(e) => Err(e)
            case Ok(Rewritten(text)) => Ok(text)
            case Ok(Declined(rest)) => Ok(Remapped(d, name) + rest)
            case Ok(NotACall) => Ok("")
  {
    hide Slice, Trim, TrimEnd, Arguments.Text, Remapped;
    var args, tail := Slice(a.args, d, depth + 1), Slice(a.tail, d, depth + 1);
    if args.Ok? && tail.Ok? { JoinCall(Remapped(d, name), a.space, args.value, tail.value); }
  }

  lemma CallIs(g: string, name: string, end: nat, a: Arguments, d: Dialect, depth: nat)
    requires IsGroup(g) && 1 <= end < |g| && depth <= MAX_ESCAPE_DEPTH && AllBlank(a.space)
    requires g[end..|g| - 1] == a.Text()
    requires MatchParen(g, end + |a.space|, |g| - 1, d.identifierQuotes) == Some(end + |a.space| + 1 + |a.args|)
    ensures var call := Call(g, name, end, d, depth);
      && call != Ok(NotACall)
      && CallBecomes(name, a, d, depth) ==
         match call
         case Err(e) => Err(e)
         case Ok(Rewritten(text)) => Ok(text)
         case Ok(Declined(rest)) => Ok(Remapped(d, name) + rest)
         case Ok(NotACall) => Ok("")
  {
    hide RunIn, Slice, MatchParen, Trim, TrimEnd, AllBlank, Call, CallBecomes, Remapped, IsWhitespace;
    CallSpans(g, end, a);
    CharClasses();
    SpaceEnds(g, end, a.space, "(" + a.args + ")" + a.tail) by { BehindSpace(a); }
    CallFound(g, name, end, end + |a.space|, end + |a.space| + 1 + |a.args|, d, depth);
    FoundBecomes(name, a, d, depth, Call(g, name, end, d, depth));
  }

  lemma BehindSpace(a: Arguments)
    ensures a.Text() == a.space + ("(" + a.args + ")" + a.tail)
    ensures ("(" + a.args + ")" + a.tail)[0] == '('
  {
  }

  lemma JoinCall(name: string, space: string, args: string, tail: string)
    ensures name + (space + "(" + args + [')'] + tail) == name + space + "(" + args + ")" + tail
  {
  }

  // ----- strings, quoted identifiers and comments -----

  /** `t` with every `c` written twice. */
  function Doubled(t: string, c: char): string {
    if t == "" then "" else (if t[0] == c then [c, c] else [t[0]]) + Doubled(t[1..], c)
  }

  /** The region at the front comes through unchanged, whatever it holds, and the rest is translated on its own. */
  ghost predicate KeptWhole(region: string, behind: string, d: Dialect, depth: nat) {
    Slice(region + behind, d, depth) == Append(Ok(region), Slice(behind, d, depth))
  }

  lemma RegionIsKept(region: string, behind: string, d: Dialect, depth: nat)
    requires depth <= MAX_ESCAPE_DEPTH && region != "" && RegionAt(region + behind, 0, d.identifierQuotes)
    requires RegionEnd(region + behind, 0, d.identifierQuotes) == |region|
    ensures KeptWhole(region, behind, d, depth)
  {
    hide RegionAt, RegionEnd, Slice;
    var s := region + behind;
    assert s[..0] == "" && s[0..|region|] == region && s[|region|..] == behind;
    RegionIsProtected(s, 0, d, depth);
    NothingTranslates(d, depth);
    NothingBefore(Append(Ok(region), Slice(behind, d, depth)));
  }

  lemma NothingTranslates(d: Dialect, depth: nat)
    requires depth <= MAX_ESCAPE_DEPTH
    ensures Slice("", d, depth) == Ok("")
  {
  }

  lemma NothingBefore(r: Translation)
    ensures Append(Ok(""), r) == r
  {
    assert r.Ok? ==> "" + r.value == r.value;
  }

  lemma {:induction false} DoubledEnds(s: string, i: nat, t: string, c: char)
    requires i + |Doubled(t, c)| < |s| && s[i..i + |Doubled(t, c)|] == Doubled(t, c)
    requires var e := i + |Doubled(t, c)|; s[e] == c && (e + 1 < |s| ==> s[e + 1] != c)
    ensures QuotedEnd(s, i, c, true) == i + |Doubled(t, c)| + 1
    decreases |t|
  {
    if t != "" {
      var n, rest := if t[0] == c then 2 else 1, Doubled(t[1..], c);
      Front(s, i, if t[0] == c then [c, c] else [t[0]], rest);
      DoubledEnds(s, i + n, t[1..], c);
    }
  }

  lemma Front(s: string, i: nat, a: string, b: string)
    requires a != "" && i + |a + b| <= |s| && s[i..i + |a + b|] == a + b
    ensures s[i] == a[0] && (|a| > 1 ==> s[i + 1] == a[1]) && s[i + |a|..i + |a| + |b|] == b
  {
    var w := s[i..i + |a + b|];
    assert w[0] == a[0] && (|a| > 1 ==> w[1] == a[1]) && w[|a|..] == b;
  }

  /** A string literal of any text, its quotes doubled. */
  lemma StringIsKept(t: string, behind: string, d: Dialect, depth: nat)
    requires depth <= MAX_ESCAPE_DEPTH && (behind != "" ==> behind[0] != '\'')
    ensures KeptWhole("'" + Doubled(t, '\'') + "'", behind, d, depth)
  {
    hide KeptWhole;
    var region := "'" + Doubled(t, '\'') + "'";
    var s := region + behind;
    assert s[1..1 + |Doubled(t, '\'')|] == Doubled(t, '\'');
    DoubledEnds(s, 1, t, '\'');
    RegionIsKept(region, behind, d, depth);
  }

  lemma {:induction false} PlainEnds(s: string, i: nat, e: nat, close: char)
    requires i <= e < |s| && close !in s[i..e] && s[e] == close
    ensures QuotedEnd(s, i, close, false) == e + 1
    decreases e - i
  {
    if i < e {
      assert s[i] == s[i..e][0] && s[i + 1..e] == s[i..e][1..];
      PlainEnds(s, i + 1, e, close);
    }
  }

  lemma {:induction false} FirstStyleCloses(quotes: Quotes, k: nat)
    requires k < |quotes| && forall j :: 0 <= j < k ==> quotes[j].0 != quotes[k].0
    ensures IdentClose(quotes, quotes[k].0) == Some(quotes[k].1)
    decreases k
  {
    if k > 0 {
      FirstStyleCloses(quotes[1..], k - 1);
    }
  }

  lemma {:induction false} NoStyleOpens(quotes: Quotes, c: char)
    requires forall k :: 0 <= k < |quotes| ==> quotes[k].0 != c
    ensures IdentClose(quotes, c) == None
    decreases |quotes|
  {
    if quotes != [] { NoStyleOpens(quotes[1..], c); }
  }

  /**
   An identifier in quotes of style `k`, the first the dialect has with this
   opening quote: its closing quote is doubled where the two are one character,
   and absent where not.
   */
  lemma IdentifierIsKept(t: string, k: nat, behind: string, d: Dialect, depth: nat)
    requires depth <= MAX_ESCAPE_DEPTH && k < |d.identifierQuotes|
    requires forall j :: 0 <= j < k ==> d.identifierQuotes[j].0 != d.identifierQuotes[k].0
    requires var (open, close) := d.identifierQuotes[k];
      open != '\'' && if open == close then behind != "" ==> behind[0] != close else close !in t
    ensures var (open, close) := d.identifierQuotes[k];
      KeptWhole([open] + (if open == close then Doubled(t, close) else t) + [close], behind, d, depth)
  {
    FirstStyleCloses(d.identifierQuotes, k);
    hide KeptWhole, IdentClose;
    var (open, close) := d.identifierQuotes[k];
    var body := if open == close then Doubled(t, close) else t;
    var region := [open] + body + [close];
    var s := region + behind;
    assert s[1..1 + |body|] == body;
    if open == close { DoubledEnds(s, 1, t, close); } else { PlainEnds(s, 1, 1 + |body|, close); }
    RegionIsKept(region, behind, d, depth);
  }

  lemma {:induction false} LineEnds(s: string, i: nat, e: nat)
    requires i <= e < |s| && '\n' !in s[i..e] && s[e] == '\n'
    ensures LineEnd(s, i) == e + 1
    decreases e - i
  {
    if i < e {
      assert s[i] == s[i..e][0] && s[i + 1..e] == s[i..e][1..];
      LineEnds(s, i + 1, e);
    }
  }

  /** A line comment of any text up to its line end. */
  lemma LineCommentIsKept(t: string, behind: string, d: Dialect, depth: nat)
    requires depth <= MAX_ESCAPE_DEPTH && '\n' !in t
    requires forall k :: 0 <= k < |d.identifierQuotes| ==> d.identifierQuotes[k].0 != '-'
    ensures KeptWhole("--" + t + "\n", behind, d, depth)
  {
    NoStyleOpens(d.identifierQuotes, '-');
    hide KeptWhole;
    var region := "--" + t + "\n";
    var s := region + behind;
    assert s[0..2 + |t|] == "--" + t;
    LineEnds(s, 0, 2 + |t|);
    RegionIsKept(region, behind, d, depth);
  }

  lemma {:induction false} BlockEnds(s: string, i: nat, e: nat)
    requires i <= e && e + 1 < |s| && s[e] == '*' && s[e + 1] == '/'
    requires forall k :: i <= k < e ==> !(s[k] == '*' && s[k + 1] == '/')
    ensures BlockEnd(s, i) == e + 2
    decreases e - i
  {
    if i < e { BlockEnds(s, i + 1, e); }
  }

  /** A block comment of any text without a closer of its own. */
  lemma BlockCommentIsKept(t: string, behind: string, d: Dialect, depth: nat)
    requires depth <= MAX_ESCAPE_DEPTH
    requires forall k :: 0 <= k < |d.identifierQuotes| ==> d.identifierQuotes[k].0 != '/'
    requires forall k :: 0 <= k < |t| ==> !(t[k] == '*' && (t + "*")[k + 1] == '/')
    ensures KeptWhole("/*" + t + "*/", behind, d, depth)
  {
    NoStyleOpens(d.identifierQuotes, '/');
    hide KeptWhole;
    var region := "/*" + t + "*/";
    var s := region + behind;
    forall k | 2 <= k < 2 + |t| ensures !(s[k] == '*' && s[k + 1] == '/') {
      assert s[k] == t[k - 2] && s[k + 1] == (t + "*")[k - 1];
    }
    BlockEnds(s, 2, 2 + |t|);
    RegionIsKept(region, behind, d, depth);
  }
}
