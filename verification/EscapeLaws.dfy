/**
 Laws of escape translation: where a statement may be cut without changing what
 it translates to, what translation leaves alone, and how deep escapes may nest.
 */
module EscapeLaws {
  import opened Wrappers
  import opened Text
  import opened Lexer
  import opened Locality
  import opened Escape

  // ----- cutting a statement -----

  /** The translator's cursor, started at `i`, stops exactly at `to`: no region and no `{...}` straddles it. */
  predicate CursorStops(s: string, i: nat, to: nat, q: Quotes)
    requires i <= |s| && to <= |s|
    decreases |s| - i
  {
    if i >= to then i == to
    else if RegionAt(s, i, q) then CursorStops(s, RegionEnd(s, i, q), to, q)
    else if s[i] == '{' then
      match MatchBrace(s, i, q)
      case None => false
      case Some(close) => CursorStops(s, close + 1, to, q)
    else CursorStops(s, i + 1, to, q)
  }

  lemma {:induction false} StopsBelow(s: string, i: nat, to: nat, q: Quotes)
    requires i <= |s| && to <= |s| && CursorStops(s, i, to, q)
    ensures i <= to
    decreases |s| - i
  {
  }

  // One turn of the copy, by what stands at the cursor.

  lemma CopyOverRegion(s: string, i: nat, q: Quotes, rule: GroupRule)
    requires i < |s| && Covers(rule) && RegionAt(s, i, q)
    ensures var e := RegionEnd(s, i, q);
      i < e <= |s| && CopyAround(s, i, q, rule) == Append(Ok(s[i..e]), CopyAround(s, e, q, rule))
  {
    hide RegionAt, RegionEnd, Append;
  }

  lemma CopyOverGroup(s: string, i: nat, close: nat, q: Quotes, rule: GroupRule)
    requires i < |s| && Covers(rule) && !RegionAt(s, i, q) && s[i] == '{' && MatchBrace(s, i, q) == Some(close)
    ensures i < close < |s| && IsGroup(s[i..close + 1])
    ensures CopyAround(s, i, q, rule) == Append(rule(s[i..close + 1]), CopyAround(s, close + 1, q, rule))
  {
    hide RegionAt, RegionEnd, Append;
  }

  lemma CopyOverChar(s: string, i: nat, q: Quotes, rule: GroupRule)
    requires i < |s| && Covers(rule) && !RegionAt(s, i, q) && s[i] != '{'
    ensures CopyAround(s, i, q, rule) == Append(Ok([s[i]]), CopyAround(s, i + 1, q, rule))
  {
    hide RegionAt, RegionEnd, Append;
  }

  lemma CopyStops(s: string, i: nat, q: Quotes, rule: GroupRule)
    requires i <= |s| && Covers(rule)
    ensures i == |s| ==> CopyAround(s, i, q, rule) == Ok("")
    ensures i < |s| && !RegionAt(s, i, q) && s[i] == '{' && MatchBrace(s, i, q) == None ==>
              CopyAround(s, i, q, rule) == Err(SyntaxError)
  {
    hide RegionAt, RegionEnd, Match, Append;
  }

  lemma SliceAfter(u: string, v: string, i: nat, e: nat)
    requires i <= e <= |v|
    ensures (u + v)[|u| + i..|u| + e] == v[i..e]
  {
  }

  lemma SliceBefore(u: string, v: string, i: nat, e: nat)
    requires i <= e <= |u|
    ensures (u + v)[i..e] == u[i..e]
  {
  }

  lemma {:induction false} CopyAfter(u: string, v: string, i: nat, q: Quotes, rule: GroupRule)
    requires i <= |v| && Covers(rule)
    ensures CopyAround(u + v, |u| + i, q, rule) == CopyAround(v, i, q, rule)
    decreases |v| - i
  {
    hide RegionAt, RegionEnd, Match, CopyAround, Append, Covers;
    var t, j := u + v, |u| + i;
    CopyStops(t, j, q, rule);
    CopyStops(v, i, q, rule);
    if i < |v| {
      NextAfter(u, v, i, q);
      if RegionAt(v, i, q) {
        var e := RegionEnd(v, i, q);
        CopyOverRegion(v, i, q, rule);
        CopyOverRegion(t, j, q, rule);
        CopyAfter(u, v, e, q, rule);
        SliceAfter(u, v, i, e);
      } else if v[i] == '{' {
        MatchAfter(u, v, i, 0, |v|, '{', '}', q);
        match MatchBrace(v, i, q)
        case None =>
        case Some(close) =>
          CopyOverGroup(v, i, close, q, rule);
          CopyOverGroup(t, j, |u| + close, q, rule);
          CopyAfter(u, v, close + 1, q, rule);
          SliceAfter(u, v, i, close + 1);
      } else {
        CopyOverChar(v, i, q, rule);
        CopyOverChar(t, j, q, rule);
        CopyAfter(u, v, i + 1, q, rule);
      }
    }
  }

  lemma RuleIsGroup(g: string, d: Dialect, depth: nat)
    requires IsGroup(g) && depth <= MAX_ESCAPE_DEPTH
    ensures RuleAt(d, depth).requires(g) && RuleAt(d, depth)(g) == Group(g, d, depth)
  {
    hide Group;
  }

  lemma AppendAssociative(a: Translation, b: Translation, c: Translation)
    ensures Append(a, Append(b, c)) == Append(Append(a, b), c)
  {
    if a.Ok? && b.Ok? && c.Ok? { assert a.value + (b.value + c.value) == a.value + b.value + c.value; }
  }

  lemma CopyAtEnd(u: string, v: string, q: Quotes, rule: GroupRule)
    requires Covers(rule)
    ensures CopyAround(u + v, |u|, q, rule) == Append(CopyAround(u, |u|, q, rule), CopyAround(v, 0, q, rule))
  {
    hide RegionAt, RegionEnd, Match;
    var rest := CopyAround(v, 0, q, rule);
    CopyAfter(u, v, 0, q, rule);
    assert rest.Ok? ==> "" + rest.value == rest.value;
  }

  lemma {:induction false} CopySplits(u: string, v: string, i: nat, q: Quotes, rule: GroupRule)
    requires i <= |u| && Covers(rule) && CursorStops(u + v, i, |u|, q)
    ensures CopyAround(u + v, i, q, rule) == Append(CopyAround(u, i, q, rule), CopyAround(v, 0, q, rule))
    decreases |u| - i
  {
    hide RegionAt, RegionEnd, Match, CopyAround, Append, Covers;
    var t, rest := u + v, CopyAround(v, 0, q, rule);
    if i == |u| {
      CopyAtEnd(u, v, q, rule);
    } else if RegionAt(t, i, q) {
      var e := RegionEnd(t, i, q);
      StopsBelow(t, e, |u|, q);
      NextBefore(u, v, i, q);
      CopySplits(u, v, e, q, rule);
      SliceBefore(u, v, i, e);
      CopyOverRegion(t, i, q, rule);
      CopyOverRegion(u, i, q, rule);
      AppendAssociative(Ok(u[i..e]), CopyAround(u, e, q, rule), rest);
    } else if t[i] == '{' {
      var close := MatchBrace(t, i, q).value;
      StopsBelow(t, close + 1, |u|, q);
      NextBefore(u, v, i, q);
      MatchBefore(u, v, i, 0, |t|, '{', '}', q);
      CopySplits(u, v, close + 1, q, rule);
      SliceBefore(u, v, i, close + 1);
      CopyOverGroup(t, i, close, q, rule);
      CopyOverGroup(u, i, close, q, rule);
      AppendAssociative(rule(u[i..close + 1]), CopyAround(u, close + 1, q, rule), rest);
    } else {
      StopsBelow(t, i + 1, |u|, q);
      NextBefore(u, v, i, q);
      CopySplits(u, v, i + 1, q, rule);
      CopyOverChar(t, i, q, rule);
      CopyOverChar(u, i, q, rule);
      AppendAssociative(Ok([u[i]]), CopyAround(u, i + 1, q, rule), rest);
    }
  }

  /** Cut where the cursor stops, and the parts translate independently, errors included. */
  lemma SliceSplits(u: string, v: string, d: Dialect, depth: nat)
    requires CursorStops(u + v, 0, |u|, d.identifierQuotes)
    ensures Slice(u + v, d, depth) == Append(Slice(u, d, depth), Slice(v, d, depth))
  {
    if depth <= MAX_ESCAPE_DEPTH { CopySplits(u, v, 0, d.identifierQuotes, RuleAt(d, depth)); }
  }

  /** Cut at a region boundary inside a `{...}`, and the first part alone is an error. */
  lemma {:induction false} StraddledCutFails(u: string, v: string, i: nat, q: Quotes, rule: GroupRule)
    requires i <= |u| && Covers(rule)
    requires Reach(u + v, i, |u|, q) && !CursorStops(u + v, i, |u|, q)
    ensures CopyAround(u, i, q, rule).Err?
    decreases |u| - i
  {
    hide RegionAt, RegionEnd, Match, CopyAround, Covers;
    var t := u + v;
    CopyStops(u, i, q, rule);
    if i < |u| {
      NextBefore(u, v, i, q);
      if RegionAt(t, i, q) {
        CopyOverRegion(u, i, q, rule);
        StraddledCutFails(u, v, Next(t, i, q), q, rule);
      } else if t[i] == '{' {
        MatchWithinBoundary(u, v, i, 0, |u|, '{', '}', q);
        match MatchBrace(u, i, q)
        case None =>
        case Some(close) =>
          MatchIgnoresLaterLimit(t, i, 0, |u|, |t|, '{', '}', q);
          MatchFindsFirstZero(t, i, 0, |u|, '{', '}', q);
          ReachSplits(t, i, close, |u|, q);
          CopyOverGroup(u, i, close, q, rule);
          StraddledCutFails(u, v, close + 1, q, rule);
      } else {
        CopyOverChar(u, i, q, rule);
        StraddledCutFails(u, v, Next(t, i, q), q, rule);
      }
    }
  }

  // ----- a declined call -----

  /** Plain text copies itself: no region starts in it and it holds no `{`. */
  predicate Inert(s: string, i: nat, to: nat, q: Quotes)
    requires to <= |s|
  {
    forall k :: i <= k < to ==> !RegionAt(s, k, q) && s[k] != '{'
  }

  lemma {:induction false} InertCopies(s: string, i: nat, q: Quotes, rule: GroupRule)
    requires i <= |s| && Covers(rule) && Inert(s, i, |s|, q)
    ensures CopyAround(s, i, q, rule) == Ok(s[i..])
    decreases |s| - i
  {
    if i < |s| {
      InertCopies(s, i + 1, q, rule);
      assert !RegionAt(s, i, q);
      assert [s[i]] + s[i + 1..] == s[i..];
    }
  }

  lemma {:induction false} InertStops(s: string, i: nat, to: nat, q: Quotes)
    requires i <= to <= |s| && Inert(s, i, to, q)
    ensures CursorStops(s, i, to, q) && Reach(s, i, to, q)
    decreases |s| - i
  {
    if i < to { InertStops(s, i + 1, to, q); }
  }

  /** Characters that begin no region and no escape under a valid dialect. */
  predicate WordLike(c: char) {
    InClass(Blank, c) || InClass(Word, c) || c == '('
  }

  lemma WordLikeIsInert(s: string, i: nat, to: nat, d: Dialect)
    requires i <= to <= |s| && ValidDialect(d) && forall k :: i <= k < to ==> WordLike(s[k])
    ensures Inert(s, i, to, d.identifierQuotes)
  {
    forall k | i <= k < to
      ensures !RegionAt(s, k, d.identifierQuotes) && s[k] != '{'
    {
      assert WordLike(s[k]);
    }
  }

  /** `w` reads as blanks, a `(` at `p`, and its matching `)` at `a`. */
  ghost predicate CallText(w: string, p: nat, a: nat, q: Quotes) {
    && p < |w| && w[p] == '(' && (forall k :: 0 <= k < p ==> IsWhitespace(w[k]))
    && MatchParen(w, p, |w|, q) == Some(a)
  }

  /** What the translator assembles from a call it has cut at `p` and `a`. */
  function Reassembled(w: string, p: nat, a: nat, d: Dialect, depth: nat): Translation
    requires p < a < |w|
  {
    Append(Ok(w[..p + 1]), Append(Slice(w[p + 1..a], d, depth), Append(Ok([w[a]]), Slice(w[a + 1..], d, depth))))
  }

  lemma CallTextBounds(w: string, p: nat, a: nat, d: Dialect)
    requires ValidDialect(d) && CallText(w, p, a, d.identifierQuotes)
    ensures p < a < |w| && w[a] == ')' && !RegionAt(w, a, d.identifierQuotes)
    ensures Inert(w, 0, p + 1, d.identifierQuotes)
    ensures Reach(w, p + 1, a, d.identifierQuotes)
  {
    var q := d.identifierQuotes;
    WordLikeIsInert(w, 0, p + 1, d);
    MatchIsFirstReturn(w, p, |w|, '(', ')', q);
    InertStops(w, p, p + 1, q);
    ReachSplits(w, p, p + 1, a, q);
  }

  lemma InertSlice(s: string, d: Dialect, depth: nat)
    requires depth <= MAX_ESCAPE_DEPTH && Inert(s, 0, |s|, d.identifierQuotes)
    ensures Slice(s, d, depth) == Ok(s)
  {
    InertCopies(s, 0, d.identifierQuotes, RuleAt(d, depth));
  }

  /** Inert text at the front comes through unchanged, whatever follows it. */
  lemma InertPrefix(u: string, v: string, d: Dialect, depth: nat)
    requires depth <= MAX_ESCAPE_DEPTH && Inert(u + v, 0, |u|, d.identifierQuotes)
    ensures Slice(u + v, d, depth) == Append(Ok(u), Slice(v, d, depth))
  {
    InertStops(u + v, 0, |u|, d.identifierQuotes);
    SliceSplits(u, v, d, depth);
    forall k | 0 <= k < |u|
      ensures !RegionAt(u, k, d.identifierQuotes) && u[k] != '{'
    {
      assert !RegionAt(u + v, k, d.identifierQuotes) && (u + v)[k] != '{';
      NextBefore(u, v, k, d.identifierQuotes);
    }
    InertSlice(u, d, depth);
  }

  /** The argument text `args`, cut out at a region boundary from in front of an inert `c`. */
  lemma ArgumentCut(args: string, c: char, tail: string, d: Dialect, depth: nat)
    requires depth <= MAX_ESCAPE_DEPTH && c != '{'
    requires var t := args + ([c] + tail);
      Reach(t, 0, |args|, d.identifierQuotes) && !RegionAt(t, |args|, d.identifierQuotes)
    ensures CursorStops(args + ([c] + tail), 0, |args|, d.identifierQuotes) ==>
              Slice(args + ([c] + tail), d, depth)
                    == Append(Slice(args, d, depth), Append(Ok([c]), Slice(tail, d, depth)))
    ensures !CursorStops(args + ([c] + tail), 0, |args|, d.identifierQuotes) ==> Slice(args, d, depth).Err?
  {
    var q := d.identifierQuotes;
    if CursorStops(args + ([c] + tail), 0, |args|, q) {
      SliceSplits(args, [c] + tail, d, depth);
      NextAfter(args, [c] + tail, 0, q);
      InertPrefix([c], tail, d, depth);
    } else {
      StraddledCutFails(args, [c] + tail, 0, q, RuleAt(d, depth));
    }
  }

  /**
   The declined-call law, at full strength. If no `{...}` straddles the `)`,
   the parts reassemble to what translating the whole would have given, errors
   and all; if one does, the argument text on its own is an error.
   */
  lemma CallCutLaw(w: string, p: nat, a: nat, d: Dialect, depth: nat)
    requires ValidDialect(d) && depth <= MAX_ESCAPE_DEPTH && CallText(w, p, a, d.identifierQuotes)
    ensures p < a < |w|
    ensures CursorStops(w, p + 1, a, d.identifierQuotes) ==> Slice(w, d, depth) == Reassembled(w, p, a, d, depth)
    ensures !CursorStops(w, p + 1, a, d.identifierQuotes) ==> Slice(w[p + 1..a], d, depth).Err?
  {
    hide Slice, Match, RegionAt, CursorStops, Reach;
    var q := d.identifierQuotes;
    CallTextBounds(w, p, a, d);
    var head, args, c, tail := w[..p + 1], w[p + 1..a], w[a], w[a + 1..];
    var inner := args + ([c] + tail);
    assert w == head + inner;
    InertPrefix(head, inner, d, depth);
    StopsAfter(head, inner, 0, |args|, q);
    ReachAfter(head, inner, 0, |args|, q);
    NextAfter(head, inner, |args|, q);
    ArgumentCut(args, c, tail, d, depth);
  }

  lemma {:induction false} StopsAfter(u: string, v: string, i: nat, to: nat, q: Quotes)
    requires i <= |v| && to <= |v|
    ensures CursorStops(u + v, |u| + i, |u| + to, q) == CursorStops(v, i, to, q)
    decreases |v| - i
  {
    if i < to {
      NextAfter(u, v, i, q);
      if RegionAt(v, i, q) {
        StopsAfter(u, v, RegionEnd(v, i, q), to, q);
      } else if v[i] == '{' {
        MatchAfter(u, v, i, 0, |v|, '{', '}', q);
        match MatchBrace(v, i, q)
        case None =>
        case Some(close) => StopsAfter(u, v, close + 1, to, q);
      } else {
        StopsAfter(u, v, i + 1, to, q);
      }
    }
  }

  /** Whenever the whole translates, cutting it at the call agrees exactly when no `{...}` straddles the `)`. */
  lemma CutAgreesIffNothingStraddles(w: string, p: nat, a: nat, d: Dialect, depth: nat)
    requires ValidDialect(d) && depth <= MAX_ESCAPE_DEPTH && CallText(w, p, a, d.identifierQuotes)
    requires Slice(w, d, depth).Ok?
    ensures p < a < |w|
    ensures Reassembled(w, p, a, d, depth) == Slice(w, d, depth) <==> CursorStops(w, p + 1, a, d.identifierQuotes)
  {
    CallCutLaw(w, p, a, d, depth);
  }

  /** The remainder of an escape, from just past the function name to the closing brace, read as a call. */
  lemma CallTextOfGroup(g: string, nameEnd: nat, d: Dialect)
    requires 1 <= nameEnd < |g| && IsGroup(g)
    requires var p := RunIn(g, nameEnd, Blank); g[p] == '(' && MatchParen(g, p, |g| - 1, d.identifierQuotes).Some?
    ensures var p := RunIn(g, nameEnd, Blank);
      var a := MatchParen(g, p, |g| - 1, d.identifierQuotes).value;
      CallText(g[nameEnd..|g| - 1], p - nameEnd, a - nameEnd, d.identifierQuotes)
  {
    hide Match, Run, IsWhitespace;
    var q := d.identifierQuotes;
    var p := RunIn(g, nameEnd, Blank);
    var u, w := g[..nameEnd], g[nameEnd..|g| - 1];
    assert g == u + (w + "}");
    MatchAfter(u, w + "}", p - nameEnd, 0, |w|, '(', ')', q);
    MatchBefore(w, "}", p - nameEnd, 0, |w|, '(', ')', q);
    RunIs(g, nameEnd, |g|, Blank);
    forall k | 0 <= k < p - nameEnd ensures IsWhitespace(w[k]) { assert InClass(Blank, g[nameEnd + k]); }
  }

  /**
   A declined `{fn}` call is handed back exactly the text that translating its
   remainder in one piece, at the same depth, would have produced.
   */
  lemma DeclinedCallIsOnePiece(g: string, name: string, nameEnd: nat, d: Dialect, depth: nat, rest: string)
    requires ValidDialect(d) && 1 <= nameEnd < |g| && IsGroup(g) && depth <= MAX_ESCAPE_DEPTH
    requires Call(g, name, nameEnd, d, depth) == Ok(Declined(rest))
    ensures Slice(g[nameEnd..|g| - 1], d, depth + 1) == Ok(rest)
  {
    var p, a, args, tail := DeclinedCallParts(g, name, nameEnd, d, depth, rest);
    OnePieceOfGroup(g, nameEnd, p, a, args, tail, d, depth + 1);
  }

  lemma OnePieceOfGroup(g: string, nameEnd: nat, p: nat, a: nat, args: string, tail: string, d: Dialect, depth: nat)
    requires ValidDialect(d) && 1 <= nameEnd < |g| && IsGroup(g)
    requires p == RunIn(g, nameEnd, Blank) && g[p] == '(' && MatchParen(g, p, |g| - 1, d.identifierQuotes) == Some(a)
    requires p < a && Slice(g[p + 1..a], d, depth) == Ok(args) && Slice(g[a + 1..|g| - 1], d, depth) == Ok(tail)
    ensures Slice(g[nameEnd..|g| - 1], d, depth) == Ok(g[nameEnd..p + 1] + args + [g[a]] + tail)
  {
    hide Slice, Match, RunIn, CallText;
    CallTextOfGroup(g, nameEnd, d);
    SpansOfGroup(g, nameEnd, p, a);
    ReassembledIsOnePiece(g[nameEnd..|g| - 1], p - nameEnd, a - nameEnd, args, tail, d, depth);
  }

  lemma DeclinedCallParts(g: string, name: string, nameEnd: nat, d: Dialect, depth: nat, rest: string)
    returns (p: nat, a: nat, args: string, tail: string)
    requires ValidDialect(d) && 1 <= nameEnd < |g| && IsGroup(g) && depth <= MAX_ESCAPE_DEPTH
    requires Call(g, name, nameEnd, d, depth) == Ok(Declined(rest))
    ensures p == RunIn(g, nameEnd, Blank) && g[p] == '(' && MatchParen(g, p, |g| - 1, d.identifierQuotes) == Some(a)
    ensures p < a && Slice(g[p + 1..a], d, depth + 1) == Ok(args) && Slice(g[a + 1..|g| - 1], d, depth + 1) == Ok(tail)
    ensures rest == g[nameEnd..p + 1] + args + [g[a]] + tail
  {
    hide Slice, Match, RunIn, TrimEnd, Trim;
    p := RunIn(g, nameEnd, Blank);
    a := MatchParen(g, p, |g| - 1, d.identifierQuotes).value;
    args, tail := Slice(g[p + 1..a], d, depth + 1).value, Slice(g[a + 1..|g| - 1], d, depth + 1).value;
  }

  lemma SpansOfGroup(g: string, nameEnd: nat, p: nat, a: nat)
    requires nameEnd <= p < a < |g| - 1
    ensures var w := g[nameEnd..|g| - 1];
      && w[..p - nameEnd + 1] == g[nameEnd..p + 1]
      && w[p - nameEnd + 1..a - nameEnd] == g[p + 1..a]
      && w[a - nameEnd] == g[a]
      && w[a - nameEnd + 1..] == g[a + 1..|g| - 1]
  {
    var w := g[nameEnd..|g| - 1];
    assert w == g[nameEnd..p + 1] + g[p + 1..a] + g[a..|g| - 1];
  }

  lemma DepthFits(s: string, d: Dialect, depth: nat)
    requires Slice(s, d, depth).Ok?
    ensures depth <= MAX_ESCAPE_DEPTH
  {
  }

  lemma ReassembledIsOnePiece(w: string, p: nat, a: nat, args: string, tail: string, d: Dialect, depth: nat)
    requires ValidDialect(d) && CallText(w, p, a, d.identifierQuotes)
    requires p < a < |w| && Slice(w[p + 1..a], d, depth) == Ok(args) && Slice(w[a + 1..], d, depth) == Ok(tail)
    ensures Slice(w, d, depth) == Ok(w[..p + 1] + args + [w[a]] + tail)
  {
    DepthFits(w[p + 1..a], d, depth);
    hide Slice, CallText, CursorStops;
    CallCutLaw(w, p, a, d, depth);
    assert w[..p + 1] + (args + ([w[a]] + tail)) == w[..p + 1] + args + [w[a]] + tail;
  }

  // ----- what translation leaves alone -----

  /** One unit met by the cursor, a region or a whole escape, translates in place. */
  lemma UnitInPlace(s: string, i: nat, e: nat, d: Dialect, depth: nat)
    requires depth <= MAX_ESCAPE_DEPTH && i < e <= |s| && CursorStops(s, 0, i, d.identifierQuotes)
    requires CursorStops(s, i, e, d.identifierQuotes)
    ensures Slice(s, d, depth) ==
            Append(Slice(s[..i], d, depth), Append(Slice(s[i..e], d, depth), Slice(s[e..], d, depth)))
  {
    var q := d.identifierQuotes;
    assert s == s[..i] + s[i..] && s[i..] == s[i..e] + s[e..];
    SliceSplits(s[..i], s[i..], d, depth);
    StopsAfter(s[..i], s[i..], 0, e - i, q);
    SliceSplits(s[i..e], s[e..], d, depth);
  }

  /** A string, quoted identifier or comment met outside any escape is copied unchanged, in place. */
  lemma RegionIsProtected(s: string, i: nat, d: Dialect, depth: nat)
    requires depth <= MAX_ESCAPE_DEPTH && i < |s| && CursorStops(s, 0, i, d.identifierQuotes)
    requires RegionAt(s, i, d.identifierQuotes)
    ensures var e := RegionEnd(s, i, d.identifierQuotes);
      Slice(s, d, depth) == Append(Slice(s[..i], d, depth), Append(Ok(s[i..e]), Slice(s[e..], d, depth)))
  {
    var q := d.identifierQuotes;
    var e := RegionEnd(s, i, q);
    UnitInPlace(s, i, e, d, depth);
    RegionCopies(s, i, d, depth);
  }

  lemma RegionCopies(s: string, i: nat, d: Dialect, depth: nat)
    requires depth <= MAX_ESCAPE_DEPTH && i < |s| && RegionAt(s, i, d.identifierQuotes)
    ensures var r := s[i..RegionEnd(s, i, d.identifierQuotes)]; Slice(r, d, depth) == Ok(r)
  {
    var q := d.identifierQuotes;
    var e := RegionEnd(s, i, q);
    assert s == s[..i] + s[i..] && s[i..] == s[i..e] + s[e..];
    NextAfter(s[..i], s[i..], 0, q);
    NextBefore(s[i..e], s[e..], 0, q);
    var r := s[i..e];
    assert RegionAt(r, 0, q) && RegionEnd(r, 0, q) == |r|;
    assert CopyAround(r, |r|, q, RuleAt(d, depth)) == Ok("");
    assert r[0..|r|] + "" == r;
  }

  /** A whole escape: its opening brace matches its last character. */
  ghost predicate IsEscape(g: string, q: Quotes) {
    IsGroup(g) && g[0] == '{' && !RegionAt(g, 0, q) && MatchBrace(g, 0, q) == Some(|g| - 1)
  }

  /** The text between an opening brace and its match is a whole escape. */
  lemma GroupIsEscape(s: string, i: nat, close: nat, q: Quotes)
    requires i < close < |s| && s[i] == '{' && !RegionAt(s, i, q) && MatchBrace(s, i, q) == Some(close)
    ensures IsEscape(s[i..close + 1], q)
  {
    hide Match, RegionAt;
    var g, rest := s[i..close + 1], s[close + 1..];
    assert s == s[..i] + s[i..] && s[i..] == g + rest;
    NextAfter(s[..i], s[i..], 0, q);
    NextBefore(g, rest, 0, q);
    MatchAfter(s[..i], s[i..], 0, 0, |s| - i, '{', '}', q);
    MatchBefore(g, rest, 0, 0, |s| - i, '{', '}', q);
  }

  /** An escape standing alone is what its keyword makes of it. */
  lemma GroupAlone(s: string, i: nat, close: nat, d: Dialect, depth: nat)
    requires depth <= MAX_ESCAPE_DEPTH && i < close < |s|
    requires s[i] == '{' && !RegionAt(s, i, d.identifierQuotes) && MatchBrace(s, i, d.identifierQuotes) == Some(close)
    ensures Slice(s[i..close + 1], d, depth) == Group(s[i..close + 1], d, depth)
  {
    var g := s[i..close + 1];
    GroupIsEscape(s, i, close, d.identifierQuotes);
    SoleGroup(g, d.identifierQuotes, RuleAt(d, depth));
    assert RuleAt(d, depth)(g) == Group(g, d, depth);
  }

  lemma SoleGroup(g: string, q: Quotes, rule: GroupRule)
    requires Covers(rule) && IsEscape(g, q)
    ensures CopyAround(g, 0, q, rule) == rule(g)
  {
    assert g[0..|g| - 1 + 1] == g;
    var r := rule(g);
    assert CopyAround(g, |g|, q, rule) == Ok("");
    assert r.Ok? ==> r.value + "" == r.value;
  }

  lemma EscapeAlone(g: string, d: Dialect, depth: nat)
    requires depth <= MAX_ESCAPE_DEPTH && IsEscape(g, d.identifierQuotes)
    ensures IsGroup(g) && Slice(g, d, depth) == Group(g, d, depth)
  {
    hide Group, CopyAround, Match, RegionAt;
    RuleIsGroup(g, d, depth);
    SoleGroup(g, d.identifierQuotes, RuleAt(d, depth));
  }

  /** `{...}` with no keyword the translator knows is kept whole, at any depth. */
  lemma UnrecognisedIsProtected(s: string, i: nat, close: nat, d: Dialect, depth: nat)
    requires depth <= MAX_ESCAPE_DEPTH && i < close < |s| && CursorStops(s, 0, i, d.identifierQuotes)
    requires s[i] == '{' && !RegionAt(s, i, d.identifierQuotes) && MatchBrace(s, i, d.identifierQuotes) == Some(close)
    requires GroupKind(s[i..close + 1]) == NoKind
    ensures Slice(s, d, depth) ==
            Append(Slice(s[..i], d, depth), Append(Ok(s[i..close + 1]), Slice(s[close + 1..], d, depth)))
  {
    hide Slice, CopyAround, Match, GroupKind, CursorStops, RegionAt;
    CursorStepsOverGroup(s, i, close, d.identifierQuotes);
    UnitInPlace(s, i, close + 1, d, depth);
    UnrecognisedCopies(s, i, close, d, depth);
  }

  lemma CursorStepsOverGroup(s: string, i: nat, close: nat, q: Quotes)
    requires i < close < |s| && s[i] == '{' && !RegionAt(s, i, q) && MatchBrace(s, i, q) == Some(close)
    ensures CursorStops(s, i, close + 1, q)
  {
  }

  lemma UnrecognisedCopies(s: string, i: nat, close: nat, d: Dialect, depth: nat)
    requires depth <= MAX_ESCAPE_DEPTH && i < close < |s|
    requires s[i] == '{' && !RegionAt(s, i, d.identifierQuotes) && MatchBrace(s, i, d.identifierQuotes) == Some(close)
    requires GroupKind(s[i..close + 1]) == NoKind
    ensures Slice(s[i..close + 1], d, depth) == Ok(s[i..close + 1])
  {
    GroupAlone(s, i, close, d, depth);
  }

  /** A statement whose braces all lie inside strings, quoted identifiers or comments comes back unchanged. */
  lemma {:induction false} NoEscapeNoChange(s: string, i: nat, q: Quotes, rule: GroupRule)
    requires i <= |s| && Covers(rule) && forall p :: i <= p < |s| && Plain(s, i, p, q) ==> s[p] != '{'
    ensures CopyAround(s, i, q, rule) == Ok(s[i..])
    decreases |s| - i
  {
    if i < |s| {
      var next := Next(s, i, q);
      forall p | next <= p < |s| && Plain(s, next, p, q)
        ensures s[p] != '{'
      {
        assert Plain(s, i, p, q);
      }
      NoEscapeNoChange(s, next, q, rule);
      assert s[i..] == s[i..next] + s[next..];
      if !RegionAt(s, i, q) {
        assert Plain(s, i, i, q);
        assert s[i..next] == [s[i]];
      }
    }
  }

  lemma TextOutsideEscapesIsKept(s: string, d: Dialect, depth: nat)
    requires depth <= MAX_ESCAPE_DEPTH && forall p :: 0 <= p < |s| && Plain(s, 0, p, d.identifierQuotes) ==> s[p] != '{'
    ensures Slice(s, d, depth) == Ok(s)
  {
    NoEscapeNoChange(s, 0, d.identifierQuotes, RuleAt(d, depth));
    assert s[0..] == s;
  }

  /** The brace-free fast path and the scanner agree on every statement. */
  lemma FastPathAgrees(sql: string, d: Dialect)
    ensures TranslateEscapes(sql, d) == Slice(sql, d, 0)
  {
    if '{' !in sql { TextOutsideEscapesIsKept(sql, d, 0); }
  }

  // ----- every span the translator recurses into is aligned with the enclosing text -----

  lemma WordsAreBoundaries(s: string, start: nat, from: nat, to: nat, d: Dialect)
    requires ValidDialect(d) && start <= from <= to <= |s| && Reach(s, start, from, d.identifierQuotes)
    requires forall k :: from <= k < to ==> InClass(Blank, s[k]) || InClass(Word, s[k])
    ensures Reach(s, start, to, d.identifierQuotes)
  {
    WordLikeIsInert(s, from, to, d);
    InertStops(s, from, to, d.identifierQuotes);
    ReachJoins(s, start, from, to, d.identifierQuotes);
  }

  /** The cut points of the escape `s[open..close + 1]`, as positions of `s`. */
  datatype Cuts = Cuts(kwStart: nat, kw: nat, nameStart: nat, nameEnd: nat, paren: nat)

  function CutsOf(s: string, open: nat, close: nat): Cuts
    requires open < close < |s| && s[close] == '}'
  {
    var g := s[open..close + 1];
    var nameStart := RunIn(g, KeywordEnd(g), Blank);
    var nameEnd := RunIn(g, nameStart, Word);
    Cuts(open + RunIn(g, 1, Blank), open + KeywordEnd(g), open + nameStart, open + nameEnd,
         open + RunIn(g, nameEnd, Blank))
  }

  lemma CutsAreAligned(s: string, open: nat, close: nat, d: Dialect)
    requires ValidDialect(d) && open < close < |s| && s[open] == '{' && !RegionAt(s, open, d.identifierQuotes)
    requires MatchBrace(s, open, d.identifierQuotes) == Some(close)
    ensures var q, c := d.identifierQuotes, CutsOf(s, open, close);
      && open < c.kwStart <= c.kw <= c.nameStart <= c.nameEnd <= c.paren <= close
      && Reach(s, open, c.kw, q) && Reach(s, open, c.nameEnd, q) && Reach(s, open, c.paren, q)
            && Reach(s, open, close, q)
      && Reach(s, c.paren, close, q)
  {
    var q, c := d.identifierQuotes, CutsOf(s, open, close);
    MatchIsFirstReturn(s, open, |s|, '{', '}', q);
    WordsOfRuns(s, open, close);
    WordsAreBoundaries(s, open, open + 1, c.kw, d);
    WordsAreBoundaries(s, open, c.kw, c.nameEnd, d);
    WordsAreBoundaries(s, open, c.nameEnd, c.paren, d);
    ReachSplits(s, open, c.paren, close, q);
  }

  /**
   The spans that `{oj}` and `{fn}` translate start and end on region
   boundaries of the enclosing text and lie inside the escape's braces.
   */
  lemma RecursionIsAligned(s: string, open: nat, close: nat, d: Dialect)
    requires ValidDialect(d) && open < close < |s| && s[open] == '{' && !RegionAt(s, open, d.identifierQuotes)
    requires MatchBrace(s, open, d.identifierQuotes) == Some(close)
    ensures var q, c := d.identifierQuotes, CutsOf(s, open, close);
      && open < c.kw <= c.nameEnd <= c.paren <= close
      && Reach(s, open, c.kw, q) && Reach(s, open, c.nameEnd, q) && Reach(s, open, close, q)
      && var r := MatchParen(s, c.paren, close, q);
      (s[c.paren] == '(' && r.Some? ==>
         c.paren < r.value < close && Reach(s, open, c.paren + 1, q) && Reach(s, open, r.value, q)
               && Reach(s, open, r.value + 1, q))
  {
    CutsAreAligned(s, open, close, d);
    var c := CutsOf(s, open, close);
    if s[c.paren] == '(' && MatchParen(s, c.paren, close, d.identifierQuotes).Some? {
      ArgumentsAreAligned(s, open, close, c.paren, d);
    }
  }

  lemma ArgumentsAreAligned(s: string, open: nat, close: nat, p: nat, d: Dialect)
    requires ValidDialect(d) && open <= p <= close < |s| && s[p] == '(' && s[close] == '}'
    requires Reach(s, open, p, d.identifierQuotes) && MatchParen(s, p, close, d.identifierQuotes).Some?
    ensures var q, a := d.identifierQuotes, MatchParen(s, p, close, d.identifierQuotes).value;
      p < a < close && Reach(s, open, p + 1, q) && Reach(s, open, a, q) && Reach(s, open, a + 1, q)
  {
    var q, a := d.identifierQuotes, MatchParen(s, p, close, d.identifierQuotes).value;
    assert !RegionAt(s, p, q);
    MatchIsFirstReturn(s, p, close, '(', ')', q);
    ReachJoins(s, open, p, p + 1, q);
    ReachJoins(s, open, p, a, q);
    ReachJoins(s, open, a, a + 1, q);
  }

  lemma WordsOfRuns(s: string, open: nat, close: nat)
    requires open < close < |s| && s[close] == '}'
    ensures var c := CutsOf(s, open, close);
      && open < c.kwStart <= c.kw <= c.nameStart <= c.nameEnd <= c.paren <= close
      && forall k :: open + 1 <= k < c.paren ==> InClass(Blank, s[k]) || InClass(Word, s[k])
  {
    hide Run;
    var c, g := CutsOf(s, open, close), s[open..close + 1];
    RunIs(g, 1, |g|, Blank);
    RunIs(g, c.kwStart - open, |g|, Alnum);
    RunIs(g, c.kw - open, |g|, Blank);
    RunIs(g, c.nameStart - open, |g|, Word);
    RunIs(g, c.nameEnd - open, |g|, Blank);
    forall k | open + 1 <= k < c.paren
      ensures InClass(Blank, s[k]) || InClass(Word, s[k])
    {
      assert g[k - open] == s[k];
    }
  }

  /** Matching a parenthesis in the enclosing text or in the escape alone is the same search. */
  lemma ParenInGroup(s: string, open: nat, close: nat, p: nat, q: Quotes)
    requires open <= p <= close < |s| && Reach(s, p, close, q)
    ensures MatchParen(s, p, close, q) ==
            match MatchParen(s[open..close + 1], p - open, close - open, q)
            case Some(a) => Some(open + a)
            case None => None
  {
    hide RegionAt, RegionEnd, Match, Reach;
    var u, v, g, rest := s[..open], s[open..], s[open..close + 1], s[close + 1..];
    assert s == u + v && v == g + rest;
    MatchAfter(u, v, p - open, 0, close - open, '(', ')', q);
    ReachAfter(u, v, p - open, close - open, q);
    MatchWithinBoundary(g, rest, p - open, 0, close - open, '(', ')', q);
  }
}
