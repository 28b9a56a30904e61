/**
 What ODBC escape translation means: the text a statement becomes, as functions
 of the statement alone. `EscapeScanner` holds the cursor loops and proves that
 they compute these functions.
 */
module Escape {
  import opened Wrappers
  import opened Text
  import opened Lexer

  datatype SqlState = SyntaxError /* 42000 */ | FeatureNotImplemented /* HYC00 */

  type Translation = Result<string, SqlState>

  /** A backend's rules. The hooks are opaque: nothing is assumed of what they return. */
  datatype Dialect = Dialect(
    identifierQuotes: Quotes,
    remapScalarFn: string -> Option<string>,
    rewriteScalarFn: (string, string) -> Option<string>,
    renderDate: string -> string,
    renderTime: string -> string,
    renderTimestamp: string -> string)

  const MAX_ESCAPE_DEPTH: nat := 64

  // ----- the words of an escape -----

  datatype CharClass = Blank | Alnum | Word

  predicate InClass(cls: CharClass, c: char) {
    match cls
    case Blank => IsWhitespace(c)
    case Alnum => IsAlphanumeric(c)
    case Word => IsAlphanumeric(c) || c == '_'
  }

  /** The end of the run of `cls` characters that starts at `i`, looking no further than `limit`. */
  function Run(s: string, i: nat, limit: nat, cls: CharClass): (e: nat)
    requires i <= limit <= |s|
    ensures i <= e <= limit
    decreases limit - i
  {
    if i < limit && InClass(cls, s[i]) then Run(s, i + 1, limit, cls) else i
  }

  lemma {:induction false} RunIs(s: string, i: nat, limit: nat, cls: CharClass)
    requires i <= limit <= |s|
    ensures var e := Run(s, i, limit, cls);
      (forall k :: i <= k < e ==> InClass(cls, s[k])) && (e < limit ==> !InClass(cls, s[e]))
    decreases limit - i
  {
    if i < limit && InClass(cls, s[i]) { RunIs(s, i + 1, limit, cls); }
  }

  /** Inside an escape a run stops at the closing brace, if not before. */
  function RunIn(g: string, i: nat, cls: CharClass): (e: nat)
    requires IsGroup(g) && 1 <= i < |g|
    ensures i <= e < |g|
  {
    assert !InClass(cls, g[|g| - 1]);
    RunIs(g, i, |g|, cls);
    Run(g, i, |g|, cls)
  }

  /** The text of one escape runs from its `{` to its `}`. */
  predicate IsGroup(g: string) {
    2 <= |g| && g[|g| - 1] == '}'
  }

  /**
   What the scanner asks of a dialect: no identifier quote opens with a
   character that an escape's words are made of, or with `(`. Without it a
   keyword could run past the escape's own closing brace.
   */
  ghost predicate ValidDialect(d: Dialect) {
    forall c: char :: InClass(Blank, c) || InClass(Word, c) || c == '(' ==> IdentClose(d.identifierQuotes, c) == None
  }

  // ----- translation -----

  /** `{fn}` calls: the dialect's replacement, or the translated rest of the escape, or no call at all. */
  datatype FnCall = Rewritten(text: string) | Declined(rest: string) | NotACall

  function Append(a: Translation, b: Translation): Translation {
    if a.Err? then a else if b.Err? then b else Ok(a.value + b.value)
  }

  function Levels(depth: nat): nat {
    if depth > MAX_ESCAPE_DEPTH then 0 else MAX_ESCAPE_DEPTH + 1 - depth
  }

  /** How the escapes met at one depth are rewritten. */
  type GroupRule = string --> Translation

  ghost predicate Covers(rule: GroupRule) {
    forall g :: IsGroup(g) ==> rule.requires(g)
  }

  /** Copy everything outside the escapes, rewrite each escape by `rule`, and stop at the first error. */
  function CopyAround(s: string, i: nat, q: Quotes, rule: GroupRule): Translation
    requires i <= |s| && Covers(rule)
    decreases |s| - i
  {
    if i == |s| then Ok("")
    else if RegionAt(s, i, q) then
      var e := RegionEnd(s, i, q);
      Append(Ok(s[i..e]), CopyAround(s, e, q, rule))
    else if s[i] == '{' then
      match MatchBrace(s, i, q)
      case None => Err(SyntaxError)
      case Some(close) =>
        assert IsGroup(s[i..close + 1]);
        Append(rule(s[i..close + 1]), CopyAround(s, close + 1, q, rule))
    else Append(Ok([s[i]]), CopyAround(s, i + 1, q, rule))
  }

  function Slice(s: string, d: Dialect, depth: nat): Translation
    decreases Levels(depth), 3
  {
    if depth > MAX_ESCAPE_DEPTH then Err(SyntaxError)
    else CopyAround(s, 0, d.identifierQuotes, RuleAt(d, depth))
  }

  function RuleAt(d: Dialect, depth: nat): (rule: GroupRule)
    requires depth <= MAX_ESCAPE_DEPTH
    ensures Covers(rule)
    decreases Levels(depth), 2
  {
    (g: string) requires IsGroup(g) => Group(g, d, depth)
  }

  function KeywordEnd(g: string): (e: nat)
    requires IsGroup(g)
    ensures 1 <= e < |g|
  {
    RunIn(g, RunIn(g, 1, Blank), Alnum)
  }

  function Keyword(g: string): string
    requires IsGroup(g)
  {
    ToAsciiLowercase(g[RunIn(g, 1, Blank)..KeywordEnd(g)])
  }

  /** What an escape's keyword asks for; `{?= call ...}` has no keyword but a `?` where one would be. */
  datatype Kind = FnKind | DateKind | TimeKind | TimestampKind | JoinKind | LikeKind | CallKind | NoKind

  function KindOf(keyword: string, isReturnCall: bool): Kind {
    match keyword
    case "fn" => FnKind
    case "d" => DateKind
    case "t" => TimeKind
    case "ts" => TimestampKind
    case "oj" => JoinKind
    case "escape" => LikeKind
    case "call" => CallKind
    case _ => if isReturnCall then CallKind else NoKind
  }

  function GroupKind(g: string): Kind
    requires IsGroup(g)
  {
    var kwStart := RunIn(g, 1, Blank);
    KindOf(Keyword(g), Keyword(g) == "" && g[kwStart] == '?')
  }

  /** What one escape becomes. */
  function Group(g: string, d: Dialect, depth: nat): Translation
    requires IsGroup(g) && depth <= MAX_ESCAPE_DEPTH
    decreases Levels(depth), 1
  {
    var body := g[KeywordEnd(g)..|g| - 1];
    match GroupKind(g)
    case FnKind => Function(g, d, depth)
    case DateKind => Ok(d.renderDate(Trim(body)))
    case TimeKind => Ok(d.renderTime(Trim(body)))
    case TimestampKind => Ok(d.renderTimestamp(Trim(body)))
    case JoinKind => Trimmed(Slice(body, d, depth + 1))
    case LikeKind => Ok("ESCAPE " + Trim(body))
    case CallKind => Err(FeatureNotImplemented)
    case NoKind => Ok(g)
  }

  function Trimmed(r: Translation): Translation {
    match r case Ok(text) => Ok(Trim(text)) case Err(e) => Err(e)
  }

  function Function(g: string, d: Dialect, depth: nat): Translation
    requires IsGroup(g) && depth <= MAX_ESCAPE_DEPTH
    decreases Levels(depth), 0, 1
  {
    var nameStart := RunIn(g, KeywordEnd(g), Blank);
    var nameEnd := RunIn(g, nameStart, Word);
    var name := g[nameStart..nameEnd];
    if name == "" then Ok(g)
    else
      var mapped := match d.remapScalarFn(name) case Some(m) => m case None => name;
      match Call(g, name, nameEnd, d, depth)
      case Err(e) => Err(e)
      case Ok(Rewritten(text)) => Ok(text)
      case Ok(Declined(rest)) => Ok(mapped + rest)
      case Ok(NotACall) => Append(Ok(mapped), Slice(g[nameEnd..|g| - 1], d, depth + 1))
  }

  function Call(g: string, name: string, nameEnd: nat, d: Dialect, depth: nat): Result<FnCall, SqlState>
    requires 1 <= nameEnd < |g| && g[|g| - 1] == '}' && depth <= MAX_ESCAPE_DEPTH
    decreases Levels(depth), 0, 0
  {
    var close := |g| - 1;
    var p := RunIn(g, nameEnd, Blank);
    if g[p] != '(' then Ok(NotACall)
    else
      match MatchParen(g, p, close, d.identifierQuotes)
      case None => Ok(NotACall)
      case Some(argClose) =>
        var args := Slice(g[p + 1..argClose], d, depth + 1);
        var tail := Slice(g[argClose + 1..close], d, depth + 1);
        if args.Err? then Err(args.error)
        else if tail.Err? then Err(tail.error)
        else
          match d.rewriteScalarFn(name, Trim(args.value))
          case Some(rewritten) => Ok(Rewritten(rewritten + TrimEnd(tail.value)))
          case None => Ok(Declined(g[nameEnd..p + 1] + args.value + [g[argClose]] + tail.value))
  }

  function TranslateEscapes(sql: string, d: Dialect): Translation {
    if '{' !in sql then Ok(sql) else Slice(sql, d, 0)
  }
}
