/** The value list of table types: comma-separated, each value quoted or not. */
module TableTypes {
  import opened Text
  import opened Decimal

  function TrimQuotesStart(s: string): string {
    if s != [] && s[0] == '\'' then TrimQuotesStart(s[1..]) else s
  }

  function TrimQuotesEnd(s: string): string {
    if s != [] && s[|s| - 1] == '\'' then TrimQuotesEnd(s[..|s| - 1]) else s
  }

  function TrimQuotes(s: string): string {
    TrimQuotesEnd(TrimQuotesStart(s))
  }

  function Clean(part: string): string {
    Trim(TrimQuotes(Trim(part)))
  }

  function CleanAll(parts: seq<string>): seq<string> {
    if parts == [] then []
    else
      var rest := CleanAll(parts[1..]);
      if Clean(parts[0]) == [] then rest else [Clean(parts[0])] + rest
  }

  function ParseTableTypeList(value: string): seq<string> {
    CleanAll(Split(value, ','))
  }

  // ----- spelling a list -----

  /**
   One value as an application may write it: any number of quotes on either side,
   blanks inside and outside them.
   */
  datatype Spelled = Spelled(name: string, open: nat, close: nat, before: string, inside: string, behind: string,
                             after: string)
  {
    predicate Valid() {
      && name != [] && ',' !in name && Solid(name[0]) && Solid(name[|name| - 1])
      && AllBlank(before) && AllBlank(inside) && AllBlank(behind) && AllBlank(after)
    }

    function Text(): string {
      before + (Quotes(open) + (inside + name + behind) + Quotes(close)) + after
    }
  }

  function Quotes(n: nat): (q: string)
    ensures |q| == n && forall k :: 0 <= k < n ==> q[k] == '\''
  {
    seq(n, _ => '\'')
  }

  predicate Solid(c: char) {
    !IsWhitespace(c) && c != '\''
  }

  function Names(list: seq<Spelled>): seq<string> {
    if list == [] then [] else [list[0].name] + Names(list[1..])
  }

  function ListText(list: seq<Spelled>): string {
    if list == [] then ""
    else if |list| == 1 then list[0].Text()
    else list[0].Text() + "," + ListText(list[1..])
  }

  lemma {:induction false} QuotesBefore(n: nat, s: string)
    requires s != [] && s[0] != '\''
    ensures TrimQuotesStart(Quotes(n) + s) == s
    decreases n
  {
    if n == 0 {
      assert Quotes(0) + s == s;
    } else {
      assert (Quotes(n) + s)[1..] == Quotes(n - 1) + s;
      QuotesBefore(n - 1, s);
    }
  }

  lemma {:induction false} QuotesBehind(s: string, n: nat)
    requires s != [] && s[|s| - 1] != '\''
    ensures TrimQuotesEnd(s + Quotes(n)) == s
    decreases n
  {
    if n == 0 {
      assert s + Quotes(0) == s;
    } else {
      var t := s + Quotes(n);
      assert t[..|t| - 1] == s + Quotes(n - 1);
      QuotesBehind(s, n - 1);
    }
  }

  lemma QuotesAround(n: nat, s: string, m: nat)
    requires s != [] && s[0] != '\'' && s[|s| - 1] != '\''
    ensures TrimQuotes(Quotes(n) + s + Quotes(m)) == s
  {
    hide TrimQuotesStart, TrimQuotesEnd, Quotes;
    assert Quotes(n) + s + Quotes(m) == Quotes(n) + (s + Quotes(m));
    QuotesBefore(n, s + Quotes(m));
    QuotesBehind(s, m);
  }

  /** Blanks next to no quote count as outside. */
  lemma Shift(v: Spelled) returns (w: Spelled)
    requires v.Valid()
    ensures w.Valid() && w.Text() == v.Text() && w.name == v.name
    ensures (w.open == 0 ==> w.inside == "") && (w.close == 0 ==> w.behind == "")
  {
    w := v;
    if v.open == 0 {
      w := w.(before := v.before + v.inside, inside := "");
      assert Quotes(0) == "";
      assert v.before + ("" + (v.inside + v.name + v.behind) + Quotes(v.close)) ==
             (v.before + v.inside) + ("" + ("" + v.name + v.behind) + Quotes(v.close));
    }
    if v.close == 0 {
      assert Quotes(0) == "";
      assert w.before + (Quotes(w.open) + (w.inside + w.name + v.behind) + "") + v.after ==
             w.before + (Quotes(w.open) + (w.inside + w.name + "") + "") + (v.behind + v.after);
      w := w.(behind := "", after := v.behind + v.after);
    }
  }

  lemma CleanSpelled(v: Spelled)
    requires v.Valid()
    ensures Clean(v.Text()) == v.name
  {
    hide Trim, TrimQuotes, AllBlank, IsWhitespace, Quotes;
    var w := Shift(v);
    var core := w.inside + w.name + w.behind;
    var body := Quotes(w.open) + core + Quotes(w.close);
    CoreEnds(w, core);
    BodyEnds(w.open, core, w.close, w);
    BlanksAround(w.before, body, w.after);
    QuotesAround(w.open, core, w.close);
    BlanksAround(w.inside, w.name, w.behind);
  }

  lemma CoreEnds(w: Spelled, core: string)
    requires w.Valid() && core == w.inside + w.name + w.behind
    ensures core != [] && core[0] != '\'' && core[|core| - 1] != '\''
    ensures w.inside == "" ==> core[0] == w.name[0]
    ensures w.behind == "" ==> core[|core| - 1] == w.name[|w.name| - 1]
  {
    assert core[0] == if w.inside == "" then w.name[0] else w.inside[0];
    assert core[|core| - 1] == if w.behind == "" then w.name[|w.name| - 1] else w.behind[|w.behind| - 1];
  }

  lemma BodyEnds(n: nat, core: string, m: nat, w: Spelled)
    requires core != [] && (n == 0 ==> !IsWhitespace(core[0])) && (m == 0 ==> !IsWhitespace(core[|core| - 1]))
    ensures var body := Quotes(n) + core + Quotes(m);
      body != [] && !IsWhitespace(body[0]) && !IsWhitespace(body[|body| - 1])
  {
    var body := Quotes(n) + core + Quotes(m);
    assert body[0] == if n == 0 then core[0] else '\'';
    assert body[|body| - 1] == if m == 0 then core[|core| - 1] else '\'';
  }

  lemma SpelledHasNoComma(v: Spelled)
    requires v.Valid()
    ensures ',' !in v.Text()
  {
  }

  /** However the values are quoted and spaced, the list reads back as their names in order. */
  lemma {:induction false} ListRoundTrip(list: seq<Spelled>)
    requires forall k :: 0 <= k < |list| ==> list[k].Valid()
    ensures ParseTableTypeList(ListText(list)) == Names(list)
    decreases |list|
  {
    hide Clean, Split, Spelled.Text, Spelled.Valid;
    if list == [] {
      SplitNone("", ',');
      EmptyIsClean();
    } else {
      CleanSpelled(list[0]);
      SpelledHasNoComma(list[0]);
      NamedIsNonEmpty(list[0]);
      ListRoundTrip(list[1..]);
      CleanAllStep(list[0].Text(), if |list| == 1 then [] else Split(ListText(list[1..]), ','));
      if |list| == 1 {
        assert list[1..] == [];
        SplitNone(list[0].Text(), ',');
      } else {
        SplitFirst(list[0].Text(), ',', ListText(list[1..]));
        assert list[0].Text() + "," + ListText(list[1..]) == list[0].Text() + [','] + ListText(list[1..]);
      }
    }
  }

  lemma CleanAllStep(part: string, rest: seq<string>)
    requires Clean(part) != []
    ensures CleanAll([part] + rest) == [Clean(part)] + CleanAll(rest)
    ensures CleanAll([part]) == [Clean(part)]
  {
    hide Clean;
    assert ([part] + rest)[1..] == rest;
    assert [part][1..] == [] && CleanAll([]) == [];
  }

  lemma NamedIsNonEmpty(v: Spelled)
    requires v.Valid()
    ensures v.name != []
  {
  }

  lemma EmptyIsClean()
    ensures Clean("") == ""
  {
  }

  predicate IsTrimmed(t: string) {
    t != [] && !IsWhitespace(t[0]) && !IsWhitespace(t[|t| - 1])
  }

  lemma CleanIsTrimmed(part: string)
    ensures Clean(part) != [] ==> IsTrimmed(Clean(part))
  {
    hide TrimQuotes;
    TrimEnds(TrimQuotes(Trim(part)));
  }

  lemma {:induction false} CleanAllTrimmed(parts: seq<string>)
    ensures forall t :: t in CleanAll(parts) ==> IsTrimmed(t)
    decreases |parts|
  {
    hide IsTrimmed, Clean;
    if parts != [] {
      CleanAllTrimmed(parts[1..]);
      CleanIsTrimmed(parts[0]);
    }
  }

  lemma TrimEnds(s: string)
    ensures var t := Trim(s); t != [] ==> !IsWhitespace(t[0]) && !IsWhitespace(t[|t| - 1])
  {
  }

  /** Whatever the text, no value read from it is empty or padded. */
  lemma ParsedTypesAreTrimmed(value: string)
    ensures forall t :: t in ParseTableTypeList(value) ==> IsTrimmed(t)
  {
    CleanAllTrimmed(Split(value, ','));
  }
}
