/**
 The lexical regions of a statement (strings, quoted identifiers and the two
 kinds of comment), the positions that lie outside them, and the delimiter
 matching that counts only those positions.

 Everything here looks forward from a cursor. That is what makes the locality
 lemmas true: cutting a statement at a region boundary changes nothing the
 scanner sees on either side of the cut.
 */
module Lexer {
  import opened Wrappers

  /** Open and close character of each identifier-quoting style. */
  type Quotes = seq<(char, char)>

  /** The close character of the first style that `open` opens. */
  function IdentClose(quotes: Quotes, open: char): Option<char> {
    if quotes == [] then None
    else if quotes[0].0 == open then Some(quotes[0].1)
    else IdentClose(quotes[1..], open)
  }

  // ----- where a region ends -----

  /** End of a quoted body that the cursor `i` is inside. */
  function QuotedEnd(s: string, i: nat, close: char, doubling: bool): (e: nat)
    requires i <= |s|
    ensures i <= e <= |s|
    decreases |s| - i
  {
    if i == |s| then i
    else if s[i] != close then QuotedEnd(s, i + 1, close, doubling)
    else if doubling && i + 1 < |s| && s[i + 1] == close then QuotedEnd(s, i + 2, close, doubling)
    else i + 1
  }

  function LineEnd(s: string, i: nat): (e: nat)
    requires i <= |s|
    ensures i <= e <= |s|
    ensures i < |s| ==> i < e
    decreases |s| - i
  {
    if i == |s| then i
    else if s[i] == '\n' then i + 1
    else LineEnd(s, i + 1)
  }

  /** End of a block comment's body. */
  function BlockEnd(s: string, i: nat): (e: nat)
    requires i <= |s|
    ensures i <= e <= |s|
    decreases |s| - i
  {
    if i == |s| then i
    else if s[i] == '*' && i + 1 < |s| && s[i + 1] == '/' then i + 2
    else BlockEnd(s, i + 1)
  }

  predicate PairAt(s: string, i: nat, a: char, b: char)
    requires i < |s|
  {
    s[i] == a && i + 1 < |s| && s[i + 1] == b
  }

  predicate RegionAt(s: string, i: nat, q: Quotes)
    requires i < |s|
  {
    s[i] == '\'' || IdentClose(q, s[i]).Some? || PairAt(s, i, '-', '-') || PairAt(s, i, '/', '*')
  }

  function RegionEnd(s: string, i: nat, q: Quotes): (e: nat)
    requires i < |s| && RegionAt(s, i, q)
    ensures i < e <= |s|
  {
    if s[i] == '\'' then QuotedEnd(s, i + 1, '\'', true)
    else match IdentClose(q, s[i])
      case Some(close) => QuotedEnd(s, i + 1, close, s[i] == close)
      case None => if PairAt(s, i, '-', '-') then LineEnd(s, i) else BlockEnd(s, i + 2)
  }

  /** The cursor after one unit: a whole region, or a single character outside any. */
  function Next(s: string, i: nat, q: Quotes): (e: nat)
    requires i < |s|
    ensures i < e <= |s|
  {
    if RegionAt(s, i, q) then RegionEnd(s, i, q) else i + 1
  }

  // ----- region boundaries, plain positions, and bracket balance -----

  /** `j` is a unit boundary for a scan that starts at `i`. */
  ghost predicate Reach(s: string, i: nat, j: nat, q: Quotes)
    requires j <= |s|
    decreases |s| - i
  {
    i == j || (i < j && Reach(s, Next(s, i, q), j, q))
  }

  /** Position `p` holds a character outside every region of a scan from `i`. */
  ghost predicate Plain(s: string, i: nat, p: nat, q: Quotes)
    requires p < |s|
  {
    Reach(s, i, p, q) && !RegionAt(s, p, q)
  }

  /** Openers minus closers among the plain positions of `[i, j)`. */
  ghost function Balance(s: string, i: nat, j: nat, o: char, c: char, q: Quotes): int
    requires j <= |s|
    decreases |s| - i
  {
    if i >= j then 0
    else
      var here := if RegionAt(s, i, q) then 0 else if s[i] == o then 1 else if s[i] == c then -1 else 0;
      here + Balance(s, Next(s, i, q), j, o, c, q)
  }

  /** The closer that brings `depth` open brackets back to zero, searched for below `limit`. */
  function Match(s: string, i: nat, depth: nat, limit: nat, o: char, c: char, q: Quotes): (r: Option<nat>)
    requires limit <= |s|
    ensures r.Some? ==> i <= r.value < limit && s[r.value] == c
    decreases |s| - i
  {
    if i >= limit then None
    else if RegionAt(s, i, q) then Match(s, RegionEnd(s, i, q), depth, limit, o, c, q)
    else if s[i] == o then Match(s, i + 1, depth + 1, limit, o, c, q)
    else if s[i] == c then
      if depth <= 1 then Some(i) else Match(s, i + 1, depth - 1, limit, o, c, q)
    else Match(s, i + 1, depth, limit, o, c, q)
  }

  function MatchBrace(s: string, open: nat, q: Quotes): Option<nat>
    requires open <= |s|
  {
    Match(s, open, 0, |s|, '{', '}', q)
  }

  function MatchParen(s: string, open: nat, limit: nat, q: Quotes): Option<nat>
    requires open <= |s| && limit <= |s|
  {
    Match(s, open, 0, limit, '(', ')', q)
  }
}
