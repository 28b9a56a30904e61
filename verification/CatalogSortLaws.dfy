/** What the sort produces: the one stable ordered permutation, NULLs where the collation says. */
module CatalogSortLaws {
  import opened Column
  import opened CatalogSort
  import opened Encoding
  import opened Utf8Order

  ghost predicate Ordered(s: seq<Row>, keys: seq<nat>, nc: int) {
    forall i, j :: 0 <= i < j < |s| ==> RowCompare(s[i], s[j], keys, nc) != Greater
  }

  /** The rows of `s` that tie with `r`, in the order they stand. */
  function Ties(s: seq<Row>, r: Row, keys: seq<nat>, nc: int): seq<Row> {
    if s == [] then []
    else
      var last := s[|s| - 1];
      Ties(s[..|s| - 1], r, keys, nc) + if RowCompare(last, r, keys, nc) == Equal then [last] else []
  }

  /** Rows that tie stand in the order they came in. */
  ghost predicate KeepsTies(out: seq<Row>, was: seq<Row>, keys: seq<nat>, nc: int) {
    forall r :: r in was ==> Ties(out, r, keys, nc) == Ties(was, r, keys, nc)
  }

  ghost predicate StablySorted(out: seq<Row>, was: seq<Row>, keys: seq<nat>, nc: int) {
    Ordered(out, keys, nc) && multiset(out) == multiset(was) && KeepsTies(out, was, keys, nc)
  }

  // ----- permutation -----

  lemma {:induction false} InsertPermutes(s: seq<Row>, x: Row, keys: seq<nat>, nc: int)
    ensures multiset(Insert(s, x, keys, nc)) == multiset(s) + multiset([x])
    decreases |s|
  {
    hide RowCompare;
    if s != [] {
      var init, last := s[..|s| - 1], s[|s| - 1];
      assert s == init + [last];
      InsertPermutes(init, x, keys, nc);
    }
  }

  lemma {:induction false} SortPermutes(s: seq<Row>, keys: seq<nat>, nc: int)
    ensures multiset(SortedRows(s, keys, nc)) == multiset(s)
    decreases |s|
  {
    hide RowCompare, Insert;
    if s != [] {
      assert s == s[..|s| - 1] + [s[|s| - 1]];
      SortPermutes(s[..|s| - 1], keys, nc);
      InsertPermutes(SortedRows(s[..|s| - 1], keys, nc), s[|s| - 1], keys, nc);
    }
  }

  lemma SameRows(a: seq<Row>, b: seq<Row>)
    requires multiset(a) == multiset(b)
    ensures forall r :: r in a <==> r in b
  {
    forall r ensures r in a <==> r in b {
      assert r in a <==> r in multiset(a);
      assert r in b <==> r in multiset(b);
    }
  }

  // ----- order -----

  lemma {:induction false} InsertOrders(s: seq<Row>, x: Row, keys: seq<nat>, nc: int)
    requires Homogeneous(s + [x], keys) && Ordered(s, keys, nc)
    ensures Ordered(Insert(s, x, keys, nc), keys, nc)
    decreases |s|
  {
    hide RowCompare, Compatible;
    if s != [] {
      var init, last := s[..|s| - 1], s[|s| - 1];
      if RowCompare(last, x, keys, nc) == Greater {
        assert forall r :: r in init + [x] ==> r in s + [x];
        InsertOrders(init, x, keys, nc);
        InsertPermutes(init, x, keys, nc);
        SameRows(Insert(init, x, keys, nc), init + [x]);
        forall r | r in Insert(init, x, keys, nc) ensures RowCompare(r, last, keys, nc) != Greater {
          if r == x { RowsFlip(s + [x], last, x, keys, nc); }
        }
        LastIsLargest(Insert(init, x, keys, nc), last, keys, nc);
      } else {
        forall r | r in s ensures RowCompare(r, x, keys, nc) != Greater {
          if r != last { RowsChain(s + [x], r, last, x, keys, nc); }
        }
        LastIsLargest(s, x, keys, nc);
      }
    }
  }

  lemma LastIsLargest(s: seq<Row>, last: Row, keys: seq<nat>, nc: int)
    requires Ordered(s, keys, nc) && forall r :: r in s ==> RowCompare(r, last, keys, nc) != Greater
    ensures Ordered(s + [last], keys, nc)
  {
    hide RowCompare;
  }

  lemma RowsFlip(s: seq<Row>, a: Row, b: Row, keys: seq<nat>, nc: int)
    requires Homogeneous(s, keys) && a in s && b in s
    ensures RowCompare(b, a, keys, nc) == Flip(RowCompare(a, b, keys, nc)) && RowCompare(a, a, keys, nc) == Equal
  {
    hide RowCompare, Compatible;
    RowsConsistent(a, b, a, keys, nc);
  }

  lemma RowsChain(s: seq<Row>, a: Row, b: Row, c: Row, keys: seq<nat>, nc: int)
    requires Homogeneous(s, keys) && a in s && b in s && c in s
    ensures Consistent(RowCompare(a, b, keys, nc), RowCompare(b, c, keys, nc), RowCompare(a, c, keys, nc))
  {
    hide RowCompare, Compatible;
    RowsConsistent(a, b, c, keys, nc);
  }

  lemma {:induction false} SortOrders(s: seq<Row>, keys: seq<nat>, nc: int)
    requires Homogeneous(s, keys)
    ensures Ordered(SortedRows(s, keys, nc), keys, nc)
    decreases |s|
  {
    hide RowCompare, Insert, Compatible;
    if s != [] {
      var init, x := s[..|s| - 1], s[|s| - 1];
      SortOrders(init, keys, nc);
      SortPermutes(init, keys, nc);
      SameRows(SortedRows(init, keys, nc), init);
      assert forall r :: r in SortedRows(init, keys, nc) + [x] ==> r in s;
      InsertOrders(SortedRows(init, keys, nc), x, keys, nc);
    }
  }

  // ----- stability -----

  lemma TiesOfLast(s: seq<Row>, x: Row, r: Row, keys: seq<nat>, nc: int)
    ensures Ties(s + [x], r, keys, nc) == Ties(s, r, keys, nc) + if RowCompare(x, r, keys, nc) == Equal then [x] else []
  {
    hide RowCompare;
    assert (s + [x])[..|s|] == s;
  }

  /** Inserting a row puts it last among those it ties with. */
  lemma {:induction false} InsertKeepsTies(s: seq<Row>, x: Row, r: Row, keys: seq<nat>, nc: int)
    requires Homogeneous(s + [x] + [r], keys)
    ensures Ties(Insert(s, x, keys, nc), r, keys, nc) == Ties(s + [x], r, keys, nc)
    decreases |s|
  {
    hide RowCompare, Compatible;
    if s != [] && RowCompare(s[|s| - 1], x, keys, nc) == Greater {
      var init, last := s[..|s| - 1], s[|s| - 1];
      assert s == init + [last];
      var all := s + [x] + [r];
      assert forall q :: q in init + [x] + [r] ==> q in all;
      InsertKeepsTies(init, x, r, keys, nc);
      hide Insert, Ties;
      TiesOfLast(Insert(init, x, keys, nc), last, r, keys, nc);
      TiesOfLast(init, x, r, keys, nc);
      TiesOfLast(s, x, r, keys, nc);
      TiesOfLast(init, last, r, keys, nc);
      RowsChain(all, last, x, r, keys, nc);
      NotBoth(Ties(init, r, keys, nc), RowCompare(last, r, keys, nc) == Equal, last,
              RowCompare(x, r, keys, nc) == Equal, x);
    }
  }

  lemma NotBoth(t: seq<Row>, a: bool, last: Row, b: bool, x: Row)
    requires !(a && b)
    ensures t + (if b then [x] else []) + (if a then [last] else [])
            == t + (if a then [last] else []) + (if b then [x] else [])
  {
  }

  lemma {:induction false} SortKeepsTies(s: seq<Row>, r: Row, keys: seq<nat>, nc: int)
    requires Homogeneous(s + [r], keys)
    ensures Ties(SortedRows(s, keys, nc), r, keys, nc) == Ties(s, r, keys, nc)
    decreases |s|
  {
    hide RowCompare, Insert, Compatible;
    if s != [] {
      var init, x := s[..|s| - 1], s[|s| - 1];
      var sorted := SortedRows(init, keys, nc);
      assert s == init + [x];
      assert forall q :: q in init + [r] ==> q in s + [r];
      SortKeepsTies(init, r, keys, nc);
      SortPermutes(init, keys, nc);
      SameRows(sorted, init);
      assert forall q :: q in sorted + [x] + [r] ==> q in s + [r];
      InsertKeepsTies(sorted, x, r, keys, nc);
      TiesOfLast(sorted, x, r, keys, nc);
      TiesOfLast(init, x, r, keys, nc);
    }
  }

  /** Homogeneous rows are sorted stably: ordered, a permutation, ties in their original order. */
  lemma SortIsStable(s: seq<Row>, keys: seq<nat>, nc: int)
    requires Homogeneous(s, keys)
    ensures StablySorted(SortedRows(s, keys, nc), s, keys, nc)
  {
    hide RowCompare, Insert, Compatible, SortedRows, Ties;
    SortOrders(s, keys, nc);
    SortPermutes(s, keys, nc);
    forall r | r in s ensures Ties(SortedRows(s, keys, nc), r, keys, nc) == Ties(s, r, keys, nc) {
      assert forall q :: q in s + [r] ==> q in s;
      SortKeepsTies(s, r, keys, nc);
    }
  }

  // ----- there is no other -----

  lemma {:induction false} TiesWithin(s: seq<Row>, r: Row, keys: seq<nat>, nc: int)
    ensures forall q :: q in Ties(s, r, keys, nc) ==> q in s
    decreases |s|
  {
    hide RowCompare;
    if s != [] {
      TiesWithin(s[..|s| - 1], r, keys, nc);
      assert s == s[..|s| - 1] + [s[|s| - 1]];
    }
  }

  ghost predicate SameTies(a: seq<Row>, b: seq<Row>, keys: seq<nat>, nc: int) {
    forall r :: r in a || r in b ==> Ties(a, r, keys, nc) == Ties(b, r, keys, nc)
  }

  /** Two ordered arrangements with the same ties end in the same row. */
  lemma SameLast(a: seq<Row>, b: seq<Row>, keys: seq<nat>, nc: int)
    requires Homogeneous(a + b, keys) && Ordered(a, keys, nc) && Ordered(b, keys, nc) && SameTies(a, b, keys, nc)
    requires a != []
    ensures b != [] && a[|a| - 1] == b[|b| - 1]
  {
    hide RowCompare, Compatible, Ties;
    var x := a[|a| - 1];
    LastTies(a, a + b, keys, nc);
    TiesWithin(b, x, keys, nc);
    assert x in Ties(b, x, keys, nc);
    var y := b[|b| - 1];
    LastTies(b, a + b, keys, nc);
    TiesWithin(a, y, keys, nc);
    assert y in Ties(a, y, keys, nc);
    LargestTie(a, y, keys, nc);
    LargestTie(b, x, keys, nc);
    RowsFlip(a + b, x, y, keys, nc);
    RowsFlip(a + b, y, y, keys, nc);
    LastOfTies(b, x, keys, nc);
  }

  lemma LastOfTies(s: seq<Row>, r: Row, keys: seq<nat>, nc: int)
    requires s != [] && RowCompare(s[|s| - 1], r, keys, nc) == Equal
    ensures var t := Ties(s, r, keys, nc); t != [] && t[|t| - 1] == s[|s| - 1]
  {
    hide RowCompare;
  }

  lemma TiesWithoutLast(a: seq<Row>, b: seq<Row>, x: Row, keys: seq<nat>, nc: int)
    requires SameTies(a + [x], b + [x], keys, nc)
    ensures SameTies(a, b, keys, nc)
  {
    hide RowCompare, Ties;
    forall r | r in a || r in b ensures Ties(a, r, keys, nc) == Ties(b, r, keys, nc) {
      assert r in a + [x] || r in b + [x];
      TiesOfLast(a, x, r, keys, nc);
      TiesOfLast(b, x, r, keys, nc);
      Cancel(Ties(a, r, keys, nc), Ties(b, r, keys, nc), if RowCompare(x, r, keys, nc) == Equal then [x] else []);
    }
  }

  lemma {:induction false} OnlyOneOrder(a: seq<Row>, b: seq<Row>, keys: seq<nat>, nc: int)
    requires Homogeneous(a + b, keys) && Ordered(a, keys, nc) && Ordered(b, keys, nc) && SameTies(a, b, keys, nc)
    ensures a == b
    decreases |a|
  {
    hide RowCompare, Compatible, Ties, SameTies;
    if a == [] {
      if b != [] {
        SameTiesFlip(a, b, keys, nc);
        assert b + a == b && a + b == b;
        SameLast(b, a, keys, nc);
      }
    } else {
      SameLast(a, b, keys, nc);
      var a', b', x := a[..|a| - 1], b[..|b| - 1], a[|a| - 1];
      assert a == a' + [x] && b == b' + [x];
      TiesWithoutLast(a', b', x, keys, nc);
      assert forall r :: r in a' + b' ==> r in a + b;
      OnlyOneOrder(a', b', keys, nc);
    }
  }

  lemma SameTiesFlip(a: seq<Row>, b: seq<Row>, keys: seq<nat>, nc: int)
    requires SameTies(a, b, keys, nc)
    ensures SameTies(b, a, keys, nc)
  {
    hide Ties;
  }

  lemma Cancel(a: seq<Row>, b: seq<Row>, c: seq<Row>)
    requires a + c == b + c
    ensures a == b
  {
    assert |a| == |b|;
    assert (a + c)[..|a|] == a && (b + c)[..|b|] == b;
  }

  /** The last row is one of its own ties. */
  lemma LastTies(s: seq<Row>, all: seq<Row>, keys: seq<nat>, nc: int)
    requires s != [] && Homogeneous(all, keys) && s[|s| - 1] in all
    ensures var t := Ties(s, s[|s| - 1], keys, nc); t != [] && t[|t| - 1] == s[|s| - 1]
  {
    hide RowCompare, Compatible;
    RowsFlip(all, s[|s| - 1], s[|s| - 1], keys, nc);
  }

  lemma LargestTie(s: seq<Row>, r: Row, keys: seq<nat>, nc: int)
    requires s != [] && Ordered(s, keys, nc) && r in s
    ensures r == s[|s| - 1] || RowCompare(r, s[|s| - 1], keys, nc) != Greater
  {
    hide RowCompare;
  }

  /** The stable ordered permutation of homogeneous rows is unique, so any stable sort gives what this one gives. */
  lemma StableSortIsUnique(out: seq<Row>, was: seq<Row>, keys: seq<nat>, nc: int)
    requires Homogeneous(was, keys) && StablySorted(out, was, keys, nc)
    ensures out == SortedRows(was, keys, nc)
  {
    hide RowCompare, Compatible, SortedRows, Ties, Ordered;
    SortIsStable(was, keys, nc);
    var sorted := SortedRows(was, keys, nc);
    SameRows(out, was);
    SameRows(sorted, was);
    assert forall r :: r in out + sorted ==> r in was;
    OnlyOneOrder(out, sorted, keys, nc);
  }

  // ----- NULLs -----

  /** By its leading key, a sorted result has its NULLs first exactly under SQL_NC_LOW, and last otherwise. */
  lemma NullsPlaced(was: seq<Row>, keys: seq<nat>, nc: int, i: nat, j: nat)
    requires Homogeneous(was, keys) && keys != [] && i < j < |was|
    ensures var out, k := SortedRows(was, keys, nc), keys[0];
      && |out| == |was| && k < |out[i]| && k < |out[j]|
      && (nc == SQL_NC_LOW ==> out[j][k].Null? ==> out[i][k].Null?)
      && (nc != SQL_NC_LOW ==> out[i][k].Null? ==> out[j][k].Null?)
  {
    hide Insert, SortedRows;
    SortOrders(was, keys, nc);
    SortPermutes(was, keys, nc);
    var out := SortedRows(was, keys, nc);
    assert |out| == |multiset(out)| == |multiset(was)| == |was|;
    SameRows(out, was);
    assert out[i] in was && out[j] in was;
    assert RowCompare(out[i], out[j], keys, nc) != Greater;
    assert Compatible(out[i], out[j], keys);
  }

  /** Numbers ascend as numbers, text by its code points. */
  predicate Ascends(a: ColumnValue, b: ColumnValue) {
    match (a, b)
    case (I16(m), I16(n)) => m <= n
    case (I32(m), I32(n)) => m <= n
    case (I64(m), I64(n)) => m <= n
    case (String(s), String(t)) => CompareChars(s, t) != Greater
    case _ => false
  }

  lemma NotGreaterAscends(a: ColumnValue, b: ColumnValue, nc: int)
    requires Comparable(a, b) && !a.Null? && !b.Null? && CompareValues(a, b, nc) != Greater
    ensures Ascends(a, b)
  {
    hide CompareBytes, CompareChars, Utf8;
    if a.String? { ByteOrderIsCharOrder(a.text, b.text); }
  }

  /** A sorted result ascends by its leading key: integers numerically, text in code point order. */
  lemma LeadingKeyAscends(was: seq<Row>, keys: seq<nat>, nc: int, i: nat, j: nat)
    requires Homogeneous(was, keys) && keys != [] && i < j < |was|
    ensures var out, k := SortedRows(was, keys, nc), keys[0];
      && |out| == |was| && k < |out[i]| && k < |out[j]|
      && (!out[i][k].Null? && !out[j][k].Null? ==> Ascends(out[i][k], out[j][k]))
  {
    hide Insert, SortedRows, CompareValues, Comparable, Ascends;
    SortOrders(was, keys, nc);
    SortPermutes(was, keys, nc);
    var out, k := SortedRows(was, keys, nc), keys[0];
    assert |out| == |multiset(out)| == |multiset(was)| == |was|;
    SameRows(out, was);
    assert out[i] in was && out[j] in was;
    assert Compatible(out[i], out[j], keys);
    assert RowCompare(out[i], out[j], keys, nc) != Greater;
    assert Comparable(out[i][k], out[j][k]);
    if !out[i][k].Null? && !out[j][k].Null? { NotGreaterAscends(out[i][k], out[j][k], nc); }
  }

  // ----- every key, by the values themselves -----

  /** `s` stands before `t`: at the first difference it has the smaller code point, or it has ended. */
  ghost predicate TextPrecedes(s: string, t: string) {
    exists k :: 0 <= k <= |s| && k < |t| && s[..k] == t[..k] && (k == |s| || s[k] < t[k])
  }

  /** `a` stands strictly before `b`: NULL first exactly under SQL_NC_LOW (1), integers by size, text by code points. */
  ghost predicate Precedes(a: ColumnValue, b: ColumnValue, nc: int) {
    match (a, b)
    case (Null, Null) => false
    case (Null, _) => nc == 1
    case (_, Null) => nc != 1
    case (I16(m), I16(n)) => m < n
    case (I32(m), I32(n)) => m < n
    case (I64(m), I64(n)) => m < n
    case (String(s), String(t)) => TextPrecedes(s, t)
    case _ => false
  }

  lemma {:induction false} TextOrder(s: string, t: string)
    ensures CompareChars(s, t) == Less ==> TextPrecedes(s, t)
    ensures CompareChars(s, t) == Equal ==> s == t
    decreases |s|
  {
    if s == "" {
      if t != "" { assert s[..0] == t[..0]; }
    } else if t != "" && s[0] == t[0] {
      TextOrder(s[1..], t[1..]);
      assert s == [s[0]] + s[1..] && t == [t[0]] + t[1..];
      if CompareChars(s, t) == Less {
        var k :| 0 <= k <= |s[1..]| && k < |t[1..]| && s[1..][..k] == t[1..][..k]
              && (k == |s[1..]| || s[1..][k] < t[1..][k]);
        assert s[..k + 1] == [s[0]] + s[1..][..k] && t[..k + 1] == [t[0]] + t[1..][..k];
      }
    } else if t != "" && s[0] < t[0] {
      assert s[..0] == t[..0];
    }
  }

  /** What one column says: equal only when the values are, less only when the first stands before. */
  lemma ValueOrder(a: ColumnValue, b: ColumnValue, nc: int)
    requires Comparable(a, b)
    ensures CompareValues(a, b, nc) == Equal <==> a == b
    ensures CompareValues(a, b, nc) == Less ==> Precedes(a, b, nc)
  {
    hide CompareBytes, CompareChars, Utf8, TextPrecedes;
    if a.String? && b.String? {
      ByteOrderIsCharOrder(a.text, b.text);
      TextOrder(a.text, b.text);
    }
    ValuesConsistent(a, a, a, nc);
  }

  predicate HasKeys(r: Row, keys: seq<nat>) {
    forall k :: 0 <= k < |keys| ==> keys[k] < |r|
  }

  /** The rows hold the same values in the first `p` key columns. */
  predicate SameKeys(a: Row, b: Row, keys: seq<nat>, p: nat)
    requires HasKeys(a, keys) && HasKeys(b, keys) && p <= |keys|
  {
    forall k :: 0 <= k < p ==> a[keys[k]] == b[keys[k]]
  }

  lemma {:induction false} FirstDifference(a: Row, b: Row, keys: seq<nat>, nc: int, p: nat)
    requires Compatible(a, b, keys) && HasKeys(a, keys) && HasKeys(b, keys) && p <= |keys| && SameKeys(a, b, keys, p)
    ensures RowCompare(a, b, keys, nc) ==
            if p == |keys| then Equal
            else
              var ord := CompareValues(a[keys[p]], b[keys[p]], nc);
              if ord != Equal then ord else RowCompare(a, b, keys[p + 1..], nc)
    decreases p
  {
    hide CompareValues, Comparable;
    if p > 0 {
      assert Comparable(a[keys[0]], b[keys[0]]);
      ValueOrder(a[keys[0]], b[keys[0]], nc);
      FirstDifference(a, b, keys[1..], nc, p - 1);
      if p < |keys| { assert keys[1..][p..] == keys[p + 1..]; }
    }
  }

  lemma SortKeeps(was: seq<Row>, keys: seq<nat>, nc: int)
    requires Homogeneous(was, keys)
    ensures var out := SortedRows(was, keys, nc);
      && |out| == |was| && forall i :: 0 <= i < |out| ==> out[i] in was && HasKeys(out[i], keys)
  {
    hide Insert, SortedRows, Comparable;
    SortPermutes(was, keys, nc);
    var out := SortedRows(was, keys, nc);
    assert |out| == |multiset(out)| == |multiset(was)| == |was|;
    SameRows(out, was);
    forall i | 0 <= i < |out| ensures out[i] in was && HasKeys(out[i], keys) {
      assert out[i] in was;
      assert Compatible(out[i], out[i], keys);
    }
  }

  /**
   Two rows of a sorted result, the earlier first: at the first key column where
   they differ, the earlier one's value stands before the later one's. That is so
   for every key, and not for the first alone.
   */
  lemma FirstDifferenceAscends(was: seq<Row>, keys: seq<nat>, nc: int, i: nat, j: nat, p: nat)
    requires Homogeneous(was, keys) && i < j < |was| && p < |keys|
    ensures var out := SortedRows(was, keys, nc);
      && |out| == |was| && HasKeys(out[i], keys) && HasKeys(out[j], keys)
      && (SameKeys(out[i], out[j], keys, p) && out[i][keys[p]] != out[j][keys[p]] ==>
            Precedes(out[i][keys[p]], out[j][keys[p]], nc))
  {
    hide Insert, SortedRows, Comparable, RowCompare, CompareValues, Precedes;
    SortKeeps(was, keys, nc);
    SortOrders(was, keys, nc);
    var out := SortedRows(was, keys, nc);
    var a, b := out[i], out[j];
    assert RowCompare(a, b, keys, nc) != Greater;
    assert Compatible(a, b, keys);
    if SameKeys(a, b, keys, p) && a[keys[p]] != b[keys[p]] {
      FirstDifference(a, b, keys, nc, p);
      ValueOrder(a[keys[p]], b[keys[p]], nc);
    }
  }

  /** The rows with the key values of `r`, in the order they stand. */
  function WithKeysOf(s: seq<Row>, r: Row, keys: seq<nat>): seq<Row>
    requires HasKeys(r, keys) && forall q :: q in s ==> HasKeys(q, keys)
  {
    if s == [] then []
    else
      var last := s[|s| - 1];
      WithKeysOf(s[..|s| - 1], r, keys) + if SameKeys(last, r, keys, |keys|) then [last] else []
  }

  lemma TieIsSameKeys(a: Row, b: Row, keys: seq<nat>, nc: int)
    requires Compatible(a, b, keys) && HasKeys(a, keys) && HasKeys(b, keys)
    ensures RowCompare(a, b, keys, nc) == Equal <==> SameKeys(a, b, keys, |keys|)
  {
    hide RowCompare, CompareValues, Comparable;
    if SameKeys(a, b, keys, |keys|) {
      FirstDifference(a, b, keys, nc, |keys|);
    } else {
      var k: nat :| k < |keys| && a[keys[k]] != b[keys[k]];
      var p := FirstOther(a, b, keys, k);
      FirstDifference(a, b, keys, nc, p);
      assert Comparable(a[keys[p]], b[keys[p]]);
      ValueOrder(a[keys[p]], b[keys[p]], nc);
    }
  }

  /** The first key column where two rows differ, given one. */
  lemma FirstOther(a: Row, b: Row, keys: seq<nat>, k: nat) returns (p: nat)
    requires HasKeys(a, keys) && HasKeys(b, keys) && k < |keys| && a[keys[k]] != b[keys[k]]
    ensures p < |keys| && SameKeys(a, b, keys, p) && a[keys[p]] != b[keys[p]]
    decreases k
  {
    p := k;
    if !SameKeys(a, b, keys, k) {
      var earlier: nat :| earlier < k && a[keys[earlier]] != b[keys[earlier]];
      p := FirstOther(a, b, keys, earlier);
    }
  }

  lemma {:induction false} TiesAreSameKeys(s: seq<Row>, r: Row, keys: seq<nat>, nc: int)
    requires HasKeys(r, keys) && forall q :: q in s ==> HasKeys(q, keys) && Compatible(q, r, keys)
    ensures Ties(s, r, keys, nc) == WithKeysOf(s, r, keys)
    decreases |s|
  {
    hide RowCompare, Compatible, HasKeys, SameKeys;
    if s != [] {
      TiesAreSameKeys(s[..|s| - 1], r, keys, nc);
      TieIsSameKeys(s[|s| - 1], r, keys, nc);
    }
  }

  /** Rows with equal values in all key columns come out in the order they went in. */
  lemma SameKeysKeepOrder(was: seq<Row>, keys: seq<nat>, nc: int, r: Row)
    requires Homogeneous(was, keys) && r in was
    ensures HasKeys(r, keys) && (forall q :: q in was || q in SortedRows(was, keys, nc) ==> HasKeys(q, keys))
    ensures WithKeysOf(SortedRows(was, keys, nc), r, keys) == WithKeysOf(was, r, keys)
  {
    hide Insert, SortedRows, RowCompare, Ties, WithKeysOf, Comparable;
    var out := SortedRows(was, keys, nc);
    forall q | q in was ensures HasKeys(q, keys) && Compatible(q, r, keys) { assert Compatible(q, q, keys); }
    SortPermutes(was, keys, nc);
    SameRows(out, was);
    TiesAreSameKeys(was, r, keys, nc);
    TiesAreSameKeys(out, r, keys, nc);
    assert forall q :: q in was + [r] ==> q in was;
    SortKeepsTies(was, r, keys, nc);
  }
}
