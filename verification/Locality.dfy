/**
 What the delimiter matchers find, and why cutting a statement at a region
 boundary is harmless: the scanner reads the same regions, the same brackets
 and the same words on both sides of the cut.
 */
module Locality {
  import opened Wrappers
  import opened Lexer

  // ----- the matchers find the first position where the balance returns to zero -----

  /** From `depth` open brackets at `i`, the plain position `p` brings the count to zero. */
  ghost predicate ZeroAt(s: string, i: nat, depth: nat, p: nat, o: char, c: char, q: Quotes)
    requires p < |s|
  {
    Plain(s, i, p, q) && depth + Balance(s, i, p + 1, o, c, q) == 0
  }

  lemma {:induction false} MatchFindsFirstZero(s: string, i: nat, depth: nat, limit: nat, o: char, c: char, q: Quotes)
    requires i <= |s| && limit <= |s| && o != c
    requires 0 < depth || (i < limit && s[i] == o && !RegionAt(s, i, q))
    ensures match Match(s, i, depth, limit, o, c, q)
      case Some(p) => ZeroAt(s, i, depth, p, o, c, q) && forall k :: i <= k < p ==> !ZeroAt(s, i, depth, k, o, c, q)
      case None => forall k :: i <= k < limit ==> !ZeroAt(s, i, depth, k, o, c, q)
    decreases |s| - i
  {
    if i < limit {
      var next := Next(s, i, q);
      var here := if RegionAt(s, i, q) then 0 else if s[i] == o then 1 else if s[i] == c then -1 else 0;
      if RegionAt(s, i, q) || s[i] != c || depth > 1 {
        MatchFindsFirstZero(s, next, depth + here, limit, o, c, q);
        forall k | i <= k < |s|
          ensures ZeroAt(s, i, depth, k, o, c, q) <==> next <= k && ZeroAt(s, next, depth + here, k, o, c, q)
        {
          assert Balance(s, i, k + 1, o, c, q) == here + Balance(s, next, k + 1, o, c, q);
          if k == i && Plain(s, i, k, q) { assert depth + here != 0; }
        }
      } else {
        assert Balance(s, i, i + 1, o, c, q) == -1;
      }
    }
  }

  /** A bracket group that opens at `open` closes at the first return to balance, or not at all. */
  lemma MatchIsFirstReturn(s: string, open: nat, limit: nat, o: char, c: char, q: Quotes)
    requires open < limit <= |s| && o != c && s[open] == o && !RegionAt(s, open, q)
    ensures match Match(s, open, 0, limit, o, c, q)
      case Some(p) =>
        && open < p < limit && Plain(s, open, p, q) && s[p] == c && Balance(s, open, p + 1, o, c, q) == 0
        && forall k :: open <= k < p && Plain(s, open, k, q) ==> Balance(s, open, k + 1, o, c, q) != 0
      case None => forall k :: open <= k < limit && Plain(s, open, k, q) ==> Balance(s, open, k + 1, o, c, q) != 0
  {
    MatchFindsFirstZero(s, open, 0, limit, o, c, q);
    match Match(s, open, 0, limit, o, c, q)
    case Some(p) =>
      forall k | open <= k < p && Plain(s, open, k, q)
        ensures Balance(s, open, k + 1, o, c, q) != 0
      {
        assert !ZeroAt(s, open, 0, k, o, c, q);
      }
    case None =>
      forall k | open <= k < limit && Plain(s, open, k, q)
        ensures Balance(s, open, k + 1, o, c, q) != 0
      {
        assert !ZeroAt(s, open, 0, k, o, c, q);
      }
  }

  lemma {:induction false} MatchIgnoresLaterLimit(s: string, i: nat, depth: nat, limit: nat, limit': nat, o: char,
                                                  c: char, q: Quotes)
    requires i <= |s| && limit <= |s| && limit' <= |s|
    requires var r := Match(s, i, depth, limit, o, c, q); r.Some? && r.value < limit'
    ensures Match(s, i, depth, limit', o, c, q) == Match(s, i, depth, limit, o, c, q)
    decreases |s| - i
  {
    hide RegionAt, RegionEnd;
    if i < limit {
      if RegionAt(s, i, q) {
        MatchIgnoresLaterLimit(s, RegionEnd(s, i, q), depth, limit, limit', o, c, q);
      } else if s[i] == o {
        MatchIgnoresLaterLimit(s, i + 1, depth + 1, limit, limit', o, c, q);
      } else if s[i] == c {
        if depth > 1 { MatchIgnoresLaterLimit(s, i + 1, depth - 1, limit, limit', o, c, q); }
      } else {
        MatchIgnoresLaterLimit(s, i + 1, depth, limit, limit', o, c, q);
      }
    }
  }

  /** A scan is deterministic: the later of two boundaries is a boundary of the earlier. */
  lemma {:induction false} ReachSplits(s: string, i: nat, j: nat, k: nat, q: Quotes)
    requires j <= k <= |s| && Reach(s, i, j, q) && Reach(s, i, k, q)
    ensures Reach(s, j, k, q)
    decreases |s| - i
  {
    if i < j {
      ReachSplits(s, Next(s, i, q), j, k, q);
    }
  }

  lemma {:induction false} ReachJoins(s: string, i: nat, j: nat, k: nat, q: Quotes)
    requires j <= k <= |s| && Reach(s, i, j, q) && Reach(s, j, k, q)
    ensures Reach(s, i, k, q)
    decreases |s| - i
  {
    if i < j {
      ReachJoins(s, Next(s, i, q), j, k, q);
    }
  }

  // ----- what follows a cut is scanned as if it stood alone -----

  lemma {:induction false} QuotedEndAfter(u: string, v: string, i: nat, close: char, doubling: bool)
    requires i <= |v|
    ensures QuotedEnd(u + v, |u| + i, close, doubling) == |u| + QuotedEnd(v, i, close, doubling)
    decreases |v| - i
  {
    if i < |v| {
      QuotedEndAfter(u, v, i + 1, close, doubling);
      if i + 1 < |v| { QuotedEndAfter(u, v, i + 2, close, doubling); }
    }
  }

  lemma {:induction false} LineEndAfter(u: string, v: string, i: nat)
    requires i <= |v|
    ensures LineEnd(u + v, |u| + i) == |u| + LineEnd(v, i)
    decreases |v| - i
  {
    if i < |v| { LineEndAfter(u, v, i + 1); }
  }

  lemma {:induction false} BlockEndAfter(u: string, v: string, i: nat)
    requires i <= |v|
    ensures BlockEnd(u + v, |u| + i) == |u| + BlockEnd(v, i)
    decreases |v| - i
  {
    if i < |v| { BlockEndAfter(u, v, i + 1); }
  }

  lemma NextAfter(u: string, v: string, i: nat, q: Quotes)
    requires i < |v|
    ensures RegionAt(u + v, |u| + i, q) == RegionAt(v, i, q)
    ensures Next(u + v, |u| + i, q) == |u| + Next(v, i, q)
  {
    var t := u + v;
    assert t[|u| + i] == v[i];
    assert i + 1 < |v| ==> t[|u| + i + 1] == v[i + 1];
    if RegionAt(v, i, q) {
      LineEndAfter(u, v, i);
      if v[i] == '\'' {
        QuotedEndAfter(u, v, i + 1, '\'', true);
      } else if IdentClose(q, v[i]).Some? {
        var close := IdentClose(q, v[i]).value;
        QuotedEndAfter(u, v, i + 1, close, v[i] == close);
      } else if i + 2 <= |v| {
        BlockEndAfter(u, v, i + 2);
      }
    }
  }

  lemma {:induction false} MatchAfter(u: string, v: string, i: nat, depth: nat, limit: nat, o: char, c: char, q: Quotes)
    requires i <= |v| && limit <= |v|
    ensures Match(u + v, |u| + i, depth, |u| + limit, o, c, q) ==
            match Match(v, i, depth, limit, o, c, q) { case Some(p) => Some(|u| + p) case None => None }
    decreases |v| - i
  {
    hide RegionAt, RegionEnd;
    if i < limit {
      NextAfter(u, v, i, q);
      var next := Next(v, i, q);
      MatchAfter(u, v, next, depth, limit, o, c, q);
      MatchAfter(u, v, next, depth + 1, limit, o, c, q);
      if depth > 1 { MatchAfter(u, v, next, depth - 1, limit, o, c, q); }
    }
  }

  lemma {:induction false} ReachAfter(u: string, v: string, i: nat, j: nat, q: Quotes)
    requires i <= j <= |v|
    ensures Reach(u + v, |u| + i, |u| + j, q) == Reach(v, i, j, q)
    decreases |v| - i
  {
    if i < j {
      NextAfter(u, v, i, q);
      if Next(v, i, q) <= j { ReachAfter(u, v, Next(v, i, q), j, q); }
    }
  }

  // ----- what precedes a cut is scanned alike, for every unit that ends by the cut -----

  lemma {:induction false} QuotedEndBefore(u: string, v: string, i: nat, close: char, doubling: bool)
    requires i <= |u| && QuotedEnd(u + v, i, close, doubling) <= |u|
    ensures QuotedEnd(u, i, close, doubling) == QuotedEnd(u + v, i, close, doubling)
    decreases |u| - i
  {
    if i < |u| {
      if u[i] != close {
        QuotedEndBefore(u, v, i + 1, close, doubling);
      } else if doubling && i + 1 < |u + v| && (u + v)[i + 1] == close {
        QuotedEndBefore(u, v, i + 2, close, doubling);
      }
    }
  }

  lemma {:induction false} LineEndBefore(u: string, v: string, i: nat)
    requires i <= |u| && LineEnd(u + v, i) <= |u|
    ensures LineEnd(u, i) == LineEnd(u + v, i)
    decreases |u| - i
  {
    if i < |u| && u[i] != '\n' { LineEndBefore(u, v, i + 1); }
  }

  lemma {:induction false} BlockEndBefore(u: string, v: string, i: nat)
    requires i <= |u| && BlockEnd(u + v, i) <= |u|
    ensures BlockEnd(u, i) == BlockEnd(u + v, i)
    decreases |u| - i
  {
    if i < |u| {
      var t := u + v;
      if !(t[i] == '*' && i + 1 < |t| && t[i + 1] == '/') { BlockEndBefore(u, v, i + 1); }
    }
  }

  lemma NextBefore(u: string, v: string, i: nat, q: Quotes)
    requires i < |u| && Next(u + v, i, q) <= |u|
    ensures RegionAt(u, i, q) == RegionAt(u + v, i, q)
    ensures Next(u, i, q) == Next(u + v, i, q)
  {
    var t := u + v;
    assert t[i] == u[i];
    if RegionAt(t, i, q) {
      if t[i] == '\'' {
        QuotedEndBefore(u, v, i + 1, '\'', true);
      } else if IdentClose(q, t[i]).Some? {
        var close := IdentClose(q, t[i]).value;
        QuotedEndBefore(u, v, i + 1, close, t[i] == close);
      } else if PairAt(t, i, '-', '-') {
        assert LineEnd(t, i) == LineEnd(t, i + 1) == RegionEnd(t, i, q);
        assert i + 1 < |u|;
        LineEndBefore(u, v, i);
      } else {
        assert i + 1 < |u|;
        BlockEndBefore(u, v, i + 2);
      }
    }
  }

  lemma {:induction false} MatchBefore(u: string, v: string, i: nat, depth: nat, limit: nat, o: char, c: char,
                                       q: Quotes)
    requires i <= |u| && limit <= |u + v|
    requires var r := Match(u + v, i, depth, limit, o, c, q); r.Some? && r.value < |u|
    ensures Match(u, i, depth, if limit <= |u| then limit else |u|, o, c, q) == Match(u + v, i, depth, limit, o, c, q)
    decreases |u| - i
  {
    hide RegionAt, RegionEnd;
    var t := u + v;
    if i < limit && i < |u| {
      NextBefore(u, v, i, q);
      if RegionAt(t, i, q) {
        MatchBefore(u, v, RegionEnd(t, i, q), depth, limit, o, c, q);
      } else if t[i] == o {
        MatchBefore(u, v, i + 1, depth + 1, limit, o, c, q);
      } else if t[i] == c {
        if depth > 1 { MatchBefore(u, v, i + 1, depth - 1, limit, o, c, q); }
      } else {
        MatchBefore(u, v, i + 1, depth, limit, o, c, q);
      }
    }
  }

  /** When the limit is itself a boundary, a search that fails also fails alike. */
  lemma {:induction false} MatchWithinBoundary(u: string, v: string, i: nat, depth: nat, limit: nat, o: char, c: char,
                                               q: Quotes)
    requires i <= limit <= |u| && Reach(u + v, i, limit, q)
    ensures Match(u, i, depth, limit, o, c, q) == Match(u + v, i, depth, limit, o, c, q)
    decreases |u| - i
  {
    hide RegionAt, RegionEnd;
    if i < limit {
      var t := u + v;
      NextBefore(u, v, i, q);
      var next := Next(t, i, q);
      MatchWithinBoundary(u, v, next, depth, limit, o, c, q);
      MatchWithinBoundary(u, v, next, depth + 1, limit, o, c, q);
      if depth > 1 { MatchWithinBoundary(u, v, next, depth - 1, limit, o, c, q); }
    }
  }

  lemma {:induction false} ReachBefore(u: string, v: string, i: nat, j: nat, q: Quotes)
    requires i <= j <= |u| && Reach(u + v, i, j, q)
    ensures Reach(u, i, j, q)
    decreases |u| - i
  {
    if i < j {
      NextBefore(u, v, i, q);
      ReachBefore(u, v, Next(u, i, q), j, q);
    }
  }
}
