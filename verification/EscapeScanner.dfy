/**
 The escape translator as it runs: cursors that move right over the statement,
 an output that grows, and depth counters that go up and down. Each method is
 proved to compute its function in `Lexer` or `Escape`.

 `work` counts the iterations of every loop that looks at statement text, the
 matchers' and the recursive calls' included, plus the bodies that are trimmed
 without being translated. Trimming translated text is not counted: how long that
 is, the dialect's hooks decide. The bound is linear in the statement, with the
 nesting limit as a factor.
 */
module EscapeScanner {
  import opened Wrappers
  import opened Text
  import opened Lexer
  import opened Escape
  import opened EscapeLaws

  // ----- skipping one region -----

  method SkipQuoted(chars: string, i: nat, close: char, doubling: bool) returns (j: nat, ghost work: nat)
    requires i < |chars|
    ensures j == QuotedEnd(chars, i + 1, close, doubling)
    ensures work <= j - i
  {
    j, work := i + 1, 0;
    while j < |chars|
      invariant i < j <= |chars| && work < j - i
      invariant QuotedEnd(chars, j, close, doubling) == QuotedEnd(chars, i + 1, close, doubling)
    {
      var c := chars[j];
      j, work := j + 1, work + 1;
      if c == close {
        if doubling && j < |chars| && chars[j] == close {
          j := j + 1;
        } else {
          break;
        }
      }
    }
  }

  method SkipLineComment(chars: string, i: nat) returns (j: nat, ghost work: nat)
    requires i < |chars|
    ensures j == LineEnd(chars, i)
    ensures work <= j - i
  {
    j, work := i, 0;
    while j < |chars|
      invariant i <= j <= |chars| && work == j - i
      invariant LineEnd(chars, j) == LineEnd(chars, i)
    {
      var c := chars[j];
      j, work := j + 1, work + 1;
      if c == '\n' { break; }
    }
  }

  method SkipBlockComment(chars: string, i: nat) returns (j: nat, ghost work: nat)
    requires i + 2 <= |chars|
    ensures j == BlockEnd(chars, i + 2)
    ensures work <= j - i
  {
    j, work := i + 2, 0;
    while j < |chars|
      invariant i + 2 <= j <= |chars| && work <= j - i - 2
      invariant BlockEnd(chars, j) == BlockEnd(chars, i + 2)
    {
      work := work + 1;
      if chars[j] == '*' && j + 1 < |chars| && chars[j + 1] == '/' {
        j := j + 2;
        break;
      }
      j := j + 1;
    }
  }

  /** The branches every scanning loop tries first, in their order. */
  method SkipRegion(chars: string, i: nat, q: Quotes) returns (skipped: bool, j: nat, ghost work: nat)
    requires i < |chars|
    ensures skipped == RegionAt(chars, i, q)
    ensures j == if skipped then RegionEnd(chars, i, q) else i
    ensures work <= j - i
  {
    var c := chars[i];
    var close := IdentClose(q, c);
    skipped, j, work := true, i, 0;
    if c == '\'' {
      j, work := SkipQuoted(chars, i, '\'', true);
    } else if close.Some? {
      j, work := SkipQuoted(chars, i, close.value, c == close.value);
    } else if c == '-' && i + 1 < |chars| && chars[i + 1] == '-' {
      j, work := SkipLineComment(chars, i);
    } else if c == '/' && i + 1 < |chars| && chars[i + 1] == '*' {
      j, work := SkipBlockComment(chars, i);
    } else {
      skipped := false;
    }
  }

  // ----- the matchers -----

  method FindMatchingBrace(chars: string, open: nat, q: Quotes) returns (r: Result<nat, SqlState>, ghost work: nat)
    requires open < |chars| && chars[open] == '{' && !RegionAt(chars, open, q)
    ensures r == match MatchBrace(chars, open, q) { case Some(p) => Ok(p) case None => Err(SyntaxError) }
    ensures match r
      case Ok(close) => open < close < |chars| && work <= 2 * (close + 1 - open)
      case Err(_) => work <= 2 * (|chars| - open)
  {
    var depth: nat, i := 0, open;
    work := 0;
    while i < |chars|
      invariant open <= i <= |chars| && work <= 2 * (i - open)
      invariant depth == 0 ==> i == open
      invariant Match(chars, i, depth, |chars|, '{', '}', q) == MatchBrace(chars, open, q)
    {
      var skipped, j, w := SkipRegion(chars, i, q);
      work := work + 1 + w;
      if skipped {
        i := j;
        continue;
      } else if chars[i] == '{' {
        depth := depth + 1;
      } else if chars[i] == '}' {
        depth := depth - 1;
        if depth == 0 { return Ok(i), work; }
      }
      i := i + 1;
    }
    r := Err(SyntaxError);
  }

  method FindMatchingParen(chars: string, open: nat, limit: nat, q: Quotes) returns (r: Option<nat>, ghost work: nat)
    requires open < limit < |chars| && chars[open] == '(' && !RegionAt(chars, open, q)
    requires Reach(chars, open, limit, q)
    ensures r == MatchParen(chars, open, limit, q)
    ensures match r
      case Some(p) => open < p < limit && work <= 2 * (p + 1 - open)
      case None => work <= 2 * (limit - open)
  {
    var depth: nat, i := 0, open;
    work := 0;
    while i < limit
      invariant open <= i <= limit && Reach(chars, i, limit, q) && work <= 2 * (i - open)
      invariant depth == 0 ==> i == open
      invariant Match(chars, i, depth, limit, '(', ')', q) == MatchParen(chars, open, limit, q)
    {
      var skipped, j, w := SkipRegion(chars, i, q);
      work := work + 1 + w;
      if skipped {
        i := j;
        continue;
      } else if chars[i] == '(' {
        depth := depth + 1;
      } else if chars[i] == ')' {
        depth := depth - 1;
        if depth == 0 { return Some(i), work; }
      }
      i := i + 1;
    }
    r := None;
  }

  // ----- the words of an escape -----

  method SkipRun(chars: string, i: nat, limit: nat, cls: CharClass) returns (j: nat, ghost work: nat)
    requires i <= limit <= |chars|
    ensures j == Run(chars, i, limit, cls) && work == j - i
  {
    j, work := i, 0;
    while j < limit && InClass(cls, chars[j])
      invariant i <= j <= limit && work == j - i
      invariant Run(chars, j, limit, cls) == Run(chars, i, limit, cls)
    {
      j, work := j + 1, work + 1;
    }
  }

  /** A run found in the statement is the run the escape on its own has. */
  lemma RunInGroup(s: string, open: nat, close: nat, i: nat, limit: nat, cls: CharClass)
    requires open < i <= close < |s| && close <= limit <= |s| && s[close] == '}'
    ensures Run(s, i, limit, cls) == open + RunIn(s[open..close + 1], i - open, cls) <= close
  {
    var g := s[open..close + 1];
    RunIs(s, i, limit, cls);
    RunIs(g, i - open, |g|, cls);
    var r := RunIn(g, i - open, cls);
    hide Run, InClass;
    assert s[open + r] == g[r];
    forall k | i <= k < open + r ensures InClass(cls, s[k]) { assert s[k] == g[k - open]; }
  }

  lemma SpanOfGroup(s: string, open: nat, close: nat, i: nat, j: nat)
    requires open <= i <= j <= close < |s|
    ensures s[open..close + 1][i - open..j - open] == s[i..j]
  {
    var g := s[open..close + 1];
    assert forall k :: 0 <= k < |g| ==> g[k] == s[open + k];
  }

  // ----- the work bound -----

  /** Six units for each of `n` characters at each remaining level. */
  ghost function Cost(n: nat, levels: nat): nat {
    if levels == 0 then 0 else 6 * n + Cost(n, levels - 1)
  }

  ghost function Budget(n: nat, depth: nat): nat {
    Cost(n, Levels(depth))
  }

  lemma {:induction false} CostAdds(a: nat, b: nat, levels: nat)
    ensures Cost(a, levels) + Cost(b, levels) == Cost(a + b, levels)
  {
    if 0 < levels { CostAdds(a, b, levels - 1); }
  }

  lemma {:induction false} CostIsProduct(n: nat, levels: nat)
    ensures Cost(n, levels) == 6 * n * levels
  {
    if 0 < levels { CostIsProduct(n, levels - 1); }
  }

  lemma BudgetAdds(a: nat, b: nat, depth: nat)
    ensures Budget(a, depth) + Budget(b, depth) == Budget(a + b, depth)
  {
    CostAdds(a, b, Levels(depth));
  }

  lemma BudgetGrows(a: nat, b: nat, depth: nat)
    requires a <= b
    ensures Budget(a, depth) <= Budget(b, depth)
  {
    BudgetAdds(a, b - a, depth);
  }

  /** The price of one unit of the main loop, and of one whole escape. */
  lemma StepBudget(i: nat, next: nat, w: nat, depth: nat)
    requires i < next && depth <= MAX_ESCAPE_DEPTH
    requires w <= 2 * (next - i) || w <= Budget(next - i, depth)
    ensures Budget(i, depth) + w <= Budget(next, depth)
  {
    BudgetAdds(i, next - i, depth);
    assert 2 * (next - i) <= Budget(next - i, depth);
  }

  lemma EscapeBudget(length: nat, scanned: nat, body: nat, w: nat, depth: nat)
    requires depth <= MAX_ESCAPE_DEPTH && 0 < length && body <= length && scanned <= 3 * length
    requires w <= 2 * body + Budget(body, depth + 1)
    ensures scanned + w < Budget(length, depth)
  {
    BudgetGrows(body, length, depth + 1);
    assert Levels(depth) == Levels(depth + 1) + 1;
  }

  lemma SpanBudget(nameEnd: nat, p: nat, a: nat, close: nat, depth: nat)
    requires nameEnd <= p < a < close
    ensures Budget(a - p - 1, depth) + Budget(close - a - 1, depth) <= Budget(close - nameEnd, depth)
  {
    BudgetAdds(a - p - 1, close - a - 1, depth);
    BudgetGrows(a - p - 1 + (close - a - 1), close - nameEnd, depth);
  }

  lemma LevelsDrop(depth: nat)
    requires depth <= MAX_ESCAPE_DEPTH
    ensures Levels(depth + 1) < Levels(depth)
  {
  }

  // ----- the main loop, one unit at a time -----

  /** What is still to be translated, from the cursor on. */
  ghost function Rest(s: string, i: nat, d: Dialect, depth: nat): Translation
    requires i <= |s| && depth <= MAX_ESCAPE_DEPTH
  {
    CopyAround(s, i, d.identifierQuotes, RuleAt(d, depth))
  }

  lemma RestStarts(s: string, d: Dialect, depth: nat)
    ensures depth > MAX_ESCAPE_DEPTH ==> Slice(s, d, depth) == Err(SyntaxError)
    ensures depth <= MAX_ESCAPE_DEPTH ==> Slice(s, d, depth) == Append(Ok(""), Rest(s, 0, d, depth))
  {
    if depth <= MAX_ESCAPE_DEPTH {
      var r := Rest(s, 0, d, depth);
      assert r.Ok? ==> "" + r.value == r.value;
    }
  }

  lemma RestEnds(s: string, out: string, d: Dialect, depth: nat)
    requires depth <= MAX_ESCAPE_DEPTH
    ensures Append(Ok(out), Rest(s, |s|, d, depth)) == Ok(out)
  {
    assert out + "" == out;
  }

  lemma RestPassesRegion(s: string, i: nat, j: nat, out: string, d: Dialect, depth: nat)
    requires depth <= MAX_ESCAPE_DEPTH && i < |s| && RegionAt(s, i, d.identifierQuotes)
    requires j == RegionEnd(s, i, d.identifierQuotes)
    ensures i < j <= |s| && Append(Ok(out), Rest(s, i, d, depth)) == Append(Ok(out + s[i..j]), Rest(s, j, d, depth))
  {
    AppendAssociative(Ok(out), Ok(s[i..j]), Rest(s, j, d, depth));
  }

  lemma RestPassesChar(s: string, i: nat, out: string, d: Dialect, depth: nat)
    requires depth <= MAX_ESCAPE_DEPTH && i < |s| && !RegionAt(s, i, d.identifierQuotes) && s[i] != '{'
    ensures Append(Ok(out), Rest(s, i, d, depth)) == Append(Ok(out + [s[i]]), Rest(s, i + 1, d, depth))
  {
    AppendAssociative(Ok(out), Ok([s[i]]), Rest(s, i + 1, d, depth));
  }

  /** What the escape at `open` comes to and where the cursor goes next. */
  ghost predicate EscapeOutcome(s: string, open: nat, r: Translation, next: nat, d: Dialect, depth: nat)
    requires open < |s| && depth <= MAX_ESCAPE_DEPTH
  {
    match MatchBrace(s, open, d.identifierQuotes)
    case None => r == Err(SyntaxError) && next == |s|
    case Some(close) => IsGroup(s[open..close + 1]) && r == Group(s[open..close + 1], d, depth) && next == close + 1
  }

  lemma RestPassesEscape(s: string, i: nat, out: string, text: Translation, next: nat, d: Dialect, depth: nat)
    requires depth <= MAX_ESCAPE_DEPTH && i < |s| && s[i] == '{' && !RegionAt(s, i, d.identifierQuotes)
    requires EscapeOutcome(s, i, text, next, d, depth)
    ensures i < next <= |s|
    ensures match text
      case Err(e) => Append(Ok(out), Rest(s, i, d, depth)) == Err(e)
      case Ok(t) => Append(Ok(out), Rest(s, i, d, depth)) == Append(Ok(out + t), Rest(s, next, d, depth))
  {
    hide Group, CopyAround, Append, RegionAt, Match;
    var q, rule := d.identifierQuotes, RuleAt(d, depth);
    match MatchBrace(s, i, q)
    case None => NoGroup(s, i, out, q, rule);
    case Some(close) =>
      CopyOverGroup(s, i, close, q, rule);
      RuleIsGroup(s[i..close + 1], d, depth);
      StepOverGroup(s, i, close, out, rule(s[i..close + 1]), q, rule);
  }

  lemma NoGroup(s: string, i: nat, out: string, q: Quotes, rule: GroupRule)
    requires i < |s| && Covers(rule) && s[i] == '{' && !RegionAt(s, i, q) && MatchBrace(s, i, q) == None
    ensures Append(Ok(out), CopyAround(s, i, q, rule)) == Err(SyntaxError)
  {
    hide RegionAt, Match;
  }

  lemma StepOverGroup(s: string, i: nat, close: nat, out: string, text: Translation, q: Quotes, rule: GroupRule)
    requires i < |s| && Covers(rule) && s[i] == '{' && !RegionAt(s, i, q) && MatchBrace(s, i, q) == Some(close)
    requires IsGroup(s[i..close + 1]) && text == rule(s[i..close + 1])
    ensures Append(Ok(out), CopyAround(s, i, q, rule)) ==
            match text { case Err(e) => Err(e) case Ok(t) => Append(Ok(out + t), CopyAround(s, close + 1, q, rule)) }
  {
    AppendAssociative(Ok(out), text, CopyAround(s, close + 1, q, rule));
  }

  // ----- the translator -----

  method TranslateSlice(chars: string, d: Dialect, depth: nat) returns (r: Translation, ghost work: nat)
    requires ValidDialect(d)
    ensures r == Slice(chars, d, depth)
    ensures work <= Budget(|chars|, depth)
    decreases Levels(depth), 3
  {
    hide *;
    work := 0;
    RestStarts(chars, d, depth);
    if depth > MAX_ESCAPE_DEPTH { return Err(SyntaxError), work; }
    var out, i := "", 0;
    while i < |chars|
      invariant i <= |chars| && work <= Budget(i, depth)
      invariant Slice(chars, d, depth) == Append(Ok(out), Rest(chars, i, d, depth))
    {
      var skipped, j, w := SkipRegion(chars, i, d.identifierQuotes);
      if skipped {
        RestPassesRegion(chars, i, j, out, d, depth);
        StepBudget(i, j, w + 1, depth);
        out, i, work := out + chars[i..j], j, work + 1 + w;
      } else if chars[i] == '{' {
        var text, next, w' := TranslateEscape(chars, i, d, depth);
        RestPassesEscape(chars, i, out, text, next, d, depth);
        StepBudget(i, next, w' + 1, depth);
        work := work + 1 + w';
        if text.Err? {
          BudgetGrows(next, |chars|, depth);
          return Err(text.error), work;
        }
        out, i := out + text.value, next;
      } else {
        RestPassesChar(chars, i, out, d, depth);
        StepBudget(i, i + 1, 1, depth);
        out, i, work := out + [chars[i]], i + 1, work + 1;
      }
    }
    RestEnds(chars, out, d, depth);
    r := Ok(out);
  }

  lemma EscapeFails(s: string, open: nat, d: Dialect, depth: nat)
    requires open < |s| && depth <= MAX_ESCAPE_DEPTH && MatchBrace(s, open, d.identifierQuotes) == None
    ensures EscapeOutcome(s, open, Err(SyntaxError), |s|, d, depth)
  {
  }

  /** The words of the escape at `open`, read in the enclosing text, are its own. */
  lemma WordsInGroup(s: string, open: nat, kwStart: nat, kw: nat, close: nat, q: Quotes)
    requires open < |s| && s[open] == '{' && MatchBrace(s, open, q) == Some(close)
    requires kwStart == Run(s, open + 1, |s|, Blank) && kw == Run(s, kwStart, |s|, Alnum)
    ensures open < kwStart <= kw <= close < |s| && IsGroup(s[open..close + 1])
    ensures kw == open + KeywordEnd(s[open..close + 1])
    ensures var keyword := ToAsciiLowercase(s[kwStart..kw]);
      GroupKind(s[open..close + 1]) == KindOf(keyword, keyword == "" && s[kwStart] == '?')
  {
    hide KindOf, Match;
    RunInGroup(s, open, close, open + 1, |s|, Blank);
    RunInGroup(s, open, close, kwStart, |s|, Alnum);
    SpanOfGroup(s, open, close, kwStart, kw);
  }

  method TranslateEscape(chars: string, open: nat, d: Dialect, depth: nat)
    returns (r: Translation, next: nat, ghost work: nat)
    requires ValidDialect(d) && depth <= MAX_ESCAPE_DEPTH
    requires open < |chars| && chars[open] == '{' && !RegionAt(chars, open, d.identifierQuotes)
    ensures EscapeOutcome(chars, open, r, next, d, depth)
    ensures open < next && work < Budget(next - open, depth)
    decreases Levels(depth), 2
  {
    hide *;
    ghost var q := d.identifierQuotes;
    var kwStart, w0 := SkipRun(chars, open + 1, |chars|, Blank);
    var kw, w1 := SkipRun(chars, kwStart, |chars|, Alnum);
    var keyword := ToAsciiLowercase(chars[kwStart..kw]);
    var isReturnCall := keyword == "" && kwStart < |chars| && chars[kwStart] == '?';
    var found, w2 := FindMatchingBrace(chars, open, d.identifierQuotes);
    work := w0 + w1 + w2;
    match found
    case Err(e) =>
      EscapeFails(chars, open, d, depth);
      EscapeBudget(|chars| - open, work, 0, 0, depth);
      r, next := Err(e), |chars|;
    case Ok(close) =>
      WordsInGroup(chars, open, kwStart, kw, close, q);
      next := close + 1;
      ghost var w3;
      r, w3 := TranslateBody(chars, open, kw, close, KindOf(keyword, isReturnCall), d, depth);
      EscapeBudget(next - open, work, close - kw, w3, depth);
      work := work + w3;
      EscapeSucceeds(chars, open, close, r, d, depth);
  }

  lemma EscapeSucceeds(s: string, open: nat, close: nat, r: Translation, d: Dialect, depth: nat)
    requires open < |s| && depth <= MAX_ESCAPE_DEPTH && MatchBrace(s, open, d.identifierQuotes) == Some(close)
    requires IsGroup(s[open..close + 1]) && r == Group(s[open..close + 1], d, depth)
    ensures EscapeOutcome(s, open, r, close + 1, d, depth)
  {
  }

  /** The translator's dispatch on the keyword, once the escape's closing brace is found. */
  method TranslateBody(chars: string, open: nat, kw: nat, close: nat, kind: Kind, d: Dialect, depth: nat)
    returns (r: Translation, ghost work: nat)
    requires ValidDialect(d) && depth <= MAX_ESCAPE_DEPTH
    requires open < kw <= close < |chars| && chars[open] == '{' && !RegionAt(chars, open, d.identifierQuotes)
    requires MatchBrace(chars, open, d.identifierQuotes) == Some(close)
    requires var g := chars[open..close + 1]; IsGroup(g) && kw == open + KeywordEnd(g) && kind == GroupKind(g)
    ensures r == Group(chars[open..close + 1], d, depth)
    ensures work <= 2 * (close - kw) + Budget(close - kw, depth + 1)
    decreases Levels(depth), 1
  {
    hide *;
    work := 0;
    var body := chars[kw..close];
    SpanOfGroup(chars, open, close, kw, close);
    GroupCases(chars[open..close + 1], body, d, depth);
    match kind
    case FnKind => r, work := TranslateFunction(chars, open, kw, close, d, depth);
    case DateKind => r, work := Ok(d.renderDate(Trim(body))), |body|;
    case TimeKind => r, work := Ok(d.renderTime(Trim(body))), |body|;
    case TimestampKind => r, work := Ok(d.renderTimestamp(Trim(body))), |body|;
    case JoinKind =>
      LevelsDrop(depth);
      r, work := TranslateSlice(body, d, depth + 1);
      r := Trimmed(r);
    case LikeKind => r, work := Ok("ESCAPE " + Trim(body)), |body|;
    case CallKind => r := Err(FeatureNotImplemented);
    case NoKind => r := Ok(chars[open..close + 1]);
  }

  lemma GroupCases(g: string, body: string, d: Dialect, depth: nat)
    requires IsGroup(g) && depth <= MAX_ESCAPE_DEPTH && body == g[KeywordEnd(g)..|g| - 1]
    ensures Group(g, d, depth) == match GroupKind(g)
      case FnKind => Function(g, d, depth)
      case DateKind => Ok(d.renderDate(Trim(body)))
      case TimeKind => Ok(d.renderTime(Trim(body)))
      case TimestampKind => Ok(d.renderTimestamp(Trim(body)))
      case JoinKind => Trimmed(Slice(body, d, depth + 1))
      case LikeKind => Ok("ESCAPE " + Trim(body))
      case CallKind => Err(FeatureNotImplemented)
      case NoKind => Ok(g)
  {
    hide Slice, Function, Trim, GroupKind, KeywordEnd;
  }

  /** The `{fn}` arm, from just past the keyword. */
  method TranslateFunction(chars: string, open: nat, kw: nat, close: nat, d: Dialect, depth: nat)
    returns (r: Translation, ghost work: nat)
    requires ValidDialect(d) && depth <= MAX_ESCAPE_DEPTH
    requires open < kw <= close < |chars| && chars[open] == '{' && !RegionAt(chars, open, d.identifierQuotes)
    requires MatchBrace(chars, open, d.identifierQuotes) == Some(close)
    requires IsGroup(chars[open..close + 1]) && kw == open + KeywordEnd(chars[open..close + 1])
    ensures r == Function(chars[open..close + 1], d, depth)
    ensures work <= 2 * (close - kw) + Budget(close - kw, depth + 1)
    decreases Levels(depth), 0, 1
  {
    hide *;
    var nameStart, w0 := SkipRun(chars, kw, |chars|, Blank);
    var nameEnd, w1 := SkipRun(chars, nameStart, |chars|, Word);
    work := w0 + w1;
    NameInGroup(chars, open, kw, close);
    var name := chars[nameStart..nameEnd];
    FunctionCases(chars, open, close, nameStart, nameEnd, name, d, depth);
    if name == "" { return Ok(chars[open..close + 1]), work; }
    var mapped := match d.remapScalarFn(name) case Some(m) => m case None => name;
    var call, w2 := TranslateCall(chars, open, name, nameEnd, close, d, depth);
    work := work + w2;
    BudgetGrows(close - nameEnd, close - kw, depth + 1);
    match call
    case Err(e) => r := Err(e);
    case Ok(Rewritten(text)) => r := Ok(text);
    case Ok(Declined(rest)) => r := Ok(mapped + rest);
    case Ok(NotACall) =>
      LevelsDrop(depth);
      var rest, w3 := TranslateSlice(chars[nameEnd..close], d, depth + 1);
      work := work + w3;
      r := Append(Ok(mapped), rest);
  }

  lemma NameInGroup(s: string, open: nat, kw: nat, close: nat)
    requires open < kw <= close < |s| && IsGroup(s[open..close + 1]) && kw == open + KeywordEnd(s[open..close + 1])
    ensures s[close] == '}'
    ensures var nameStart := Run(s, kw, |s|, Blank);
      var nameEnd := Run(s, nameStart, |s|, Word);
      nameEnd <= close && CutsOf(s, open, close).nameStart == nameStart && CutsOf(s, open, close).nameEnd == nameEnd
  {
    assert s[open..close + 1][close - open] == s[close];
    RunInGroup(s, open, close, kw, |s|, Blank);
    RunInGroup(s, open, close, Run(s, kw, |s|, Blank), |s|, Word);
  }

  lemma FunctionCases(s: string, open: nat, close: nat, nameStart: nat, nameEnd: nat, name: string, d: Dialect,
                      depth: nat)
    requires open < nameStart <= nameEnd <= close < |s| && s[close] == '}' && depth <= MAX_ESCAPE_DEPTH
    requires var c := CutsOf(s, open, close); nameStart == c.nameStart && nameEnd == c.nameEnd
    requires name == s[nameStart..nameEnd]
    ensures IsGroup(s[open..close + 1])
    ensures Function(s[open..close + 1], d, depth) ==
      if name == "" then Ok(s[open..close + 1])
      else
        var mapped := match d.remapScalarFn(name) case Some(m) => m case None => name;
        match Call(s[open..close + 1], name, nameEnd - open, d, depth)
        case Err(e) => Err(e)
        case Ok(Rewritten(text)) => Ok(text)
        case Ok(Declined(rest)) => Ok(mapped + rest)
        case Ok(NotACall) => Append(Ok(mapped), Slice(s[nameEnd..close], d, depth + 1))
  {
    hide Call, Slice;
    SpanOfGroup(s, open, close, nameStart, nameEnd);
    SpanOfGroup(s, open, close, nameEnd, close);
  }

  method TranslateCall(chars: string, ghost open: nat, name: string, nameEnd: nat, close: nat, d: Dialect, depth: nat)
    returns (r: Result<FnCall, SqlState>, ghost work: nat)
    requires ValidDialect(d) && depth <= MAX_ESCAPE_DEPTH
    requires open < close < |chars| && chars[open] == '{' && !RegionAt(chars, open, d.identifierQuotes)
    requires MatchBrace(chars, open, d.identifierQuotes) == Some(close) && chars[close] == '}'
    requires nameEnd == CutsOf(chars, open, close).nameEnd && open < nameEnd <= close && IsGroup(chars[open..close + 1])
    ensures r == Call(chars[open..close + 1], name, nameEnd - open, d, depth)
    ensures work <= 2 * (close - nameEnd) +
                    if r.Ok? && r.value.NotACall? then 0 else Budget(close - nameEnd, depth + 1)
    decreases Levels(depth), 0, 0
  {
    hide *;
    ghost var g, q := chars[open..close + 1], d.identifierQuotes;
    var p, w0 := SkipRun(chars, nameEnd, close, Blank);
    work := w0;
    ParenPosition(chars, open, nameEnd, close, d);
    if chars[p] != '(' {
      CallIsNone(g, name, nameEnd - open, d, depth);
      return Ok(NotACall), work;
    }
    ParenIsPlain(chars, open, nameEnd, close, d);
    var found, w1 := FindMatchingParen(chars, p, close, d.identifierQuotes);
    work := w0 + w1;
    match found
    case None =>
      CallIsNone(g, name, nameEnd - open, d, depth);
      r := Ok(NotACall);
    case Some(argClose) =>
      LevelsDrop(depth);
      SpanBudget(nameEnd, p, argClose, close, depth + 1);
      var args, w2 := TranslateSlice(chars[p + 1..argClose], d, depth + 1);
      CallCases(chars, open, close, name, nameEnd, p, argClose, d, depth);
      work := work + w2;
      if args.Err? { return Err(args.error), work; }
      var tail, w3 := TranslateSlice(chars[argClose + 1..close], d, depth + 1);
      work := work + w3;
      if tail.Err? { return Err(tail.error), work; }
      match d.rewriteScalarFn(name, Trim(args.value)) {
        case Some(rewritten) => r := Ok(Rewritten(rewritten + TrimEnd(tail.value)));
        case None => r := Ok(Declined(chars[nameEnd..p + 1] + args.value + [chars[argClose]] + tail.value));
      }
  }

  /** Where the argument list would open, and that the parenthesis search agrees inside and outside the escape. */
  lemma ParenPosition(s: string, open: nat, nameEnd: nat, close: nat, d: Dialect)
    requires ValidDialect(d) && open < nameEnd <= close < |s| && s[open] == '{' && s[close] == '}'
    requires !RegionAt(s, open, d.identifierQuotes) && MatchBrace(s, open, d.identifierQuotes) == Some(close)
    requires nameEnd == CutsOf(s, open, close).nameEnd && IsGroup(s[open..close + 1])
    ensures var g, p := s[open..close + 1], Run(s, nameEnd, close, Blank);
      && nameEnd <= p <= close && p - open == RunIn(g, nameEnd - open, Blank) && g[p - open] == s[p]
      && Reach(s, p, close, d.identifierQuotes)
      && MatchParen(s, p, close, d.identifierQuotes) ==
         (match MatchParen(g, p - open, close - open, d.identifierQuotes)
          case Some(a) => Some(open + a)
          case None => None)
  {
    hide Match, RegionAt, Reach, Run;
    CutsAreAligned(s, open, close, d);
    RunInGroup(s, open, close, nameEnd, close, Blank);
    ParenInGroup(s, open, close, Run(s, nameEnd, close, Blank), d.identifierQuotes);
  }

  lemma ParenIsPlain(s: string, open: nat, nameEnd: nat, close: nat, d: Dialect)
    requires ValidDialect(d) && nameEnd <= close < |s| && s[close] == '}'
    requires s[Run(s, nameEnd, close, Blank)] == '('
    ensures Run(s, nameEnd, close, Blank) < close && !RegionAt(s, Run(s, nameEnd, close, Blank), d.identifierQuotes)
  {
  }

  lemma CallIsNone(g: string, name: string, nameEnd: nat, d: Dialect, depth: nat)
    requires 1 <= nameEnd < |g| && IsGroup(g) && depth <= MAX_ESCAPE_DEPTH
    requires var p := RunIn(g, nameEnd, Blank); g[p] == '(' ==> MatchParen(g, p, |g| - 1, d.identifierQuotes) == None
    ensures Call(g, name, nameEnd, d, depth) == Ok(NotACall)
  {
  }

  /** The call an escape makes, read off the enclosing text. */
  lemma CallCases(s: string, open: nat, close: nat, name: string, nameEnd: nat, p: nat, a: nat, d: Dialect, depth: nat)
    requires open < nameEnd <= p < a < close < |s| && IsGroup(s[open..close + 1]) && depth <= MAX_ESCAPE_DEPTH
    requires p - open == RunIn(s[open..close + 1], nameEnd - open, Blank) && s[p] == '('
    requires MatchParen(s[open..close + 1], p - open, close - open, d.identifierQuotes) == Some(a - open)
    ensures var args, tail := Slice(s[p + 1..a], d, depth + 1), Slice(s[a + 1..close], d, depth + 1);
      Call(s[open..close + 1], name, nameEnd - open, d, depth) ==
      if args.Err? then Err(args.error)
      else if tail.Err? then Err(tail.error)
      else match d.rewriteScalarFn(name, Trim(args.value))
        case Some(rewritten) => Ok(Rewritten(rewritten + TrimEnd(tail.value)))
        case None => Ok(Declined(s[nameEnd..p + 1] + args.value + [s[a]] + tail.value))
  {
    hide Slice, Trim, TrimEnd, RunIn, MatchParen, Match;
    SpanOfGroup(s, open, close, p + 1, a);
    SpanOfGroup(s, open, close, a + 1, close);
    SpanOfGroup(s, open, close, nameEnd, p + 1);
    assert s[open..close + 1][p - open] == s[p] && s[open..close + 1][a - open] == s[a];
  }

  /** The entry point: the brace-free fast path, then the scanner. */
  method Translate(sql: string, d: Dialect) returns (r: Translation, ghost work: nat)
    requires ValidDialect(d)
    ensures r == TranslateEscapes(sql, d) == Slice(sql, d, 0)
    ensures work <= 391 * |sql|
  {
    FastPathAgrees(sql, d);
    if '{' !in sql { return Ok(sql), |sql|; }
    ghost var w;
    r, w := TranslateSlice(sql, d, 0);
    work := |sql| + w;
    CostIsProduct(|sql|, MAX_ESCAPE_DEPTH + 1);
  }
}
