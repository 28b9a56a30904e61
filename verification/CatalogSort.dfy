/** Sorting a catalog result set: the multi-key comparator and the stable sort by it. */
module CatalogSort {
  import opened Bytes
  import opened Encoding
  import opened Column

  type Row = seq<ColumnValue>

  datatype Ordering = Less | Equal | Greater

  const SQL_NC_LOW: int := 1

  // ----- the comparator -----

  function CompareInts(x: int, y: int): Ordering {
    if x < y then Less else if x == y then Equal else Greater
  }

  function CompareBytes(x: seq<byte>, y: seq<byte>): Ordering {
    if x == [] then (if y == [] then Equal else Less)
    else if y == [] then Greater
    else if x[0] < y[0] then Less
    else if x[0] > y[0] then Greater
    else CompareBytes(x[1..], y[1..])
  }

  /** Text compares by its UTF-8 bytes; variants that do not compare are equal. */
  function CompareValues(a: ColumnValue, b: ColumnValue, nullCollation: int): Ordering {
    var nullsFirst := nullCollation == SQL_NC_LOW;
    match (a, b)
    case (Null, Null) => Equal
    case (Null, _) => if nullsFirst then Less else Greater
    case (_, Null) => if nullsFirst then Greater else Less
    case (String(x), String(y)) => CompareBytes(Utf8(x), Utf8(y))
    case (I16(x), I16(y)) => CompareInts(x, y)
    case (I32(x), I32(y)) => CompareInts(x, y)
    case (I64(x), I64(y)) => CompareInts(x, y)
    case _ => Equal
  }

  /** The first key that tells two rows apart decides; a row too short for a key ends the comparison. */
  function RowCompare(a: Row, b: Row, keys: seq<nat>, nullCollation: int): Ordering {
    if keys == [] then Equal
    else if keys[0] >= |a| || keys[0] >= |b| then Equal
    else
      var ord := CompareValues(a[keys[0]], b[keys[0]], nullCollation);
      if ord != Equal then ord else RowCompare(a, b, keys[1..], nullCollation)
  }

  method CompareRows(a: Row, b: Row, keys: seq<nat>, nullCollation: int) returns (ord: Ordering)
    ensures ord == RowCompare(a, b, keys, nullCollation)
  {
    hide CompareValues;
    assert keys[0..] == keys;
    for i := 0 to |keys|
      invariant RowCompare(a, b, keys, nullCollation) == RowCompare(a, b, keys[i..], nullCollation)
    {
      var k := keys[i];
      if k >= |a| || k >= |b| { return Equal; }
      ord := CompareValues(a[k], b[k], nullCollation);
      if ord != Equal { return; }
      assert keys[i..][1..] == keys[i + 1..];
    }
    ord := Equal;
  }

  // ----- when it is a preorder -----

  /** Three comparisons that one order could give: of `a` with `b`, of `b` with `c`, of `a` with `c`. */
  predicate Consistent(ab: Ordering, bc: Ordering, ac: Ordering) {
    && (ab == Equal ==> ac == bc) && (bc == Equal ==> ac == ab) && (ab == bc ==> ac == ab)
  }

  function Flip(o: Ordering): Ordering {
    match o case Less => Greater case Equal => Equal case Greater => Less
  }

  predicate SameKind(a: ColumnValue, b: ColumnValue) {
    || (a.String? && b.String?) || (a.I16? && b.I16?) || (a.I32? && b.I32?) || (a.I64? && b.I64?)
  }

  /** Two values of one column: NULL, or of one comparable type. */
  predicate Comparable(a: ColumnValue, b: ColumnValue) {
    && (a.Null? || SameKind(a, a)) && (b.Null? || SameKind(b, b)) && (a.Null? || b.Null? || SameKind(a, b))
  }

  predicate Compatible(a: Row, b: Row, keys: seq<nat>) {
    forall i :: 0 <= i < |keys| ==> keys[i] < |a| && keys[i] < |b| && Comparable(a[keys[i]], b[keys[i]])
  }

  /** Every key column is present, and its non-NULL values share one of the comparable types. */
  predicate Homogeneous(rows: seq<Row>, keys: seq<nat>) {
    forall a, b :: a in rows && b in rows ==> Compatible(a, b, keys)
  }

  lemma {:induction false} BytesConsistent(x: seq<byte>, y: seq<byte>, z: seq<byte>)
    ensures Consistent(CompareBytes(x, y), CompareBytes(y, z), CompareBytes(x, z))
    ensures CompareBytes(y, x) == Flip(CompareBytes(x, y)) && CompareBytes(x, x) == Equal
    decreases |x| + |y| + |z|
  {
    if x != [] && y != [] && z != [] {
      BytesConsistent(x[1..], y[1..], z[1..]);
    } else if x != [] && y != [] {
      BytesConsistent(x[1..], y[1..], []);
    } else if x != [] {
      BytesConsistent(x[1..], [], []);
    }
  }

  lemma ValuesConsistent(a: ColumnValue, b: ColumnValue, c: ColumnValue, nc: int)
    requires Comparable(a, b) && Comparable(b, c) && Comparable(a, c)
    ensures Consistent(CompareValues(a, b, nc), CompareValues(b, c, nc), CompareValues(a, c, nc))
    ensures CompareValues(b, a, nc) == Flip(CompareValues(a, b, nc)) && CompareValues(a, a, nc) == Equal
  {
    hide CompareBytes, Utf8;
    var x := if a.String? then Utf8(a.text) else [];
    var y := if b.String? then Utf8(b.text) else [];
    var z := if c.String? then Utf8(c.text) else [];
    BytesConsistent(x, y, z);
  }

  /** On compatible rows the comparator is a total preorder: reflexive, antisymmetric up to ties, transitive. */
  lemma {:induction false} RowsConsistent(a: Row, b: Row, c: Row, keys: seq<nat>, nc: int)
    requires Compatible(a, b, keys) && Compatible(b, c, keys) && Compatible(a, c, keys)
    ensures Consistent(RowCompare(a, b, keys, nc), RowCompare(b, c, keys, nc), RowCompare(a, c, keys, nc))
    ensures RowCompare(b, a, keys, nc) == Flip(RowCompare(a, b, keys, nc)) && RowCompare(a, a, keys, nc) == Equal
    decreases |keys|
  {
    hide CompareValues, Comparable;
    if keys != [] {
      var k := keys[0];
      ValuesConsistent(a[k], b[k], c[k], nc);
      RowsConsistent(a, b, c, keys[1..], nc);
    }
  }

  /** Without that the fallback to equal is no order: two rows tie with a third and not with each other. */
  lemma MixedTypesAreNoOrder()
    ensures var a, b, c, keys := [I32(2)], [String("x")], [I32(1)], [0];
      RowCompare(a, b, keys, 0) == RowCompare(b, c, keys, 0) == Equal && RowCompare(a, c, keys, 0) == Greater
  {
  }

  lemma {:induction false} SameBytesTie(x: seq<byte>)
    ensures CompareBytes(x, x) == Equal
    decreases |x|
  {
    if x != [] { SameBytesTie(x[1..]); }
  }

  /** A row too short for a key ties there, whatever the keys behind it say. */
  lemma {:induction false} MissingKeyTies(a: Row, b: Row, keys: seq<nat>, nc: int, p: nat)
    requires p < |keys| && (keys[p] >= |a| || keys[p] >= |b|)
    requires forall k :: 0 <= k < p ==> keys[k] < |a| && keys[k] < |b| && a[keys[k]] == b[keys[k]]
    ensures RowCompare(a, b, keys, nc) == Equal
    decreases p
  {
    if p > 0 {
      var v := a[keys[0]];
      if v.String? { SameBytesTie(Utf8(v.text)); }
      MissingKeyTies(a, b, keys[1..], nc, p - 1);
    }
  }

  // ----- the sort -----

  /** `x` goes in behind every row it is not smaller than, looking from the end. */
  function Insert(s: seq<Row>, x: Row, keys: seq<nat>, nc: int): seq<Row> {
    if s == [] then [x]
    else if RowCompare(s[|s| - 1], x, keys, nc) == Greater then Insert(s[..|s| - 1], x, keys, nc) + [s[|s| - 1]]
    else s + [x]
  }

  function SortedRows(s: seq<Row>, keys: seq<nat>, nc: int): seq<Row> {
    if s == [] then [] else Insert(SortedRows(s[..|s| - 1], keys, nc), s[|s| - 1], keys, nc)
  }

  method SortRows(rows: array<Row>, keys: seq<nat>, nullCollation: int)
    modifies rows
    ensures rows[..] == SortedRows(old(rows[..]), keys, nullCollation)
  {
    hide Insert;
    ghost var was := rows[..];
    for i := 0 to rows.Length
      invariant rows[..i] == SortedRows(was[..i], keys, nullCollation) && rows[i..] == was[i..]
    {
      assert was[..i + 1][..i] == was[..i] && rows[i] == was[i];
      InsertAt(rows, i, keys, nullCollation);
    }
    assert was[..rows.Length] == was && rows[..rows.Length] == rows[..];
  }

  /** Moves row `i` down among the rows before it. */
  method InsertAt(rows: array<Row>, i: nat, keys: seq<nat>, nullCollation: int)
    requires i < rows.Length
    modifies rows
    ensures rows[..i + 1] == Insert(old(rows[..i]), old(rows[i]), keys, nullCollation)
    ensures rows[i + 1..] == old(rows[i + 1..])
  {
    hide Insert, RowCompare;
    ghost var before := rows[..i];
    var x := rows[i];
    var j := i;
    InsertedBehind(before, i, x, keys, nullCollation);
    while j > 0
      invariant 0 <= j <= i
      invariant forall k :: 0 <= k < j ==> rows[k] == before[k]
      invariant forall k :: j < k <= i ==> rows[k] == before[k - 1]
      invariant forall k :: i < k < rows.Length ==> rows[k] == old(rows[k])
      invariant Inserts(before, j, x, keys, nullCollation)
    {
      var ord := CompareRows(rows[j - 1], x, keys, nullCollation);
      if ord != Greater { break; }
      InsertPasses(before, j, x, keys, nullCollation);
      rows[j] := rows[j - 1];
      j := j - 1;
    }
    rows[j] := x;
    InsertStops(before, j, x, keys, nullCollation);
    Assembled(rows[..i + 1], before, j, x);
  }

  /** Inserting among all the rows is inserting among the first `j`, with the rest behind. */
  ghost predicate Inserts(s: seq<Row>, j: nat, x: Row, keys: seq<nat>, nc: int)
    requires j <= |s|
  {
    Insert(s, x, keys, nc) == Insert(s[..j], x, keys, nc) + s[j..]
  }

  lemma InsertedBehind(s: seq<Row>, n: nat, x: Row, keys: seq<nat>, nc: int)
    requires n == |s|
    ensures Inserts(s, n, x, keys, nc)
  {
    hide Insert;
    assert s[..n] == s && s[n..] == [] && Insert(s, x, keys, nc) + [] == Insert(s, x, keys, nc);
  }

  lemma InsertStops(s: seq<Row>, j: nat, x: Row, keys: seq<nat>, nc: int)
    requires j <= |s| && Inserts(s, j, x, keys, nc) && (j > 0 ==> RowCompare(s[j - 1], x, keys, nc) != Greater)
    ensures Insert(s, x, keys, nc) == s[..j] + [x] + s[j..]
  {
    hide RowCompare;
  }

  lemma Assembled(r: seq<Row>, s: seq<Row>, j: nat, x: Row)
    requires |r| == |s| + 1 && j <= |s| && r[j] == x
    requires (forall k :: 0 <= k < j ==> r[k] == s[k]) && (forall k :: j < k <= |s| ==> r[k] == s[k - 1])
    ensures r == s[..j] + [x] + s[j..]
  {
  }

  lemma InsertPasses(s: seq<Row>, j: nat, x: Row, keys: seq<nat>, nc: int)
    requires 0 < j <= |s| && RowCompare(s[j - 1], x, keys, nc) == Greater && Inserts(s, j, x, keys, nc)
    ensures Inserts(s, j - 1, x, keys, nc)
  {
    hide RowCompare;
    assert s[..j][..j - 1] == s[..j - 1];
    assert s[j - 1..] == [s[j - 1]] + s[j..];
    var head := Insert(s[..j - 1], x, keys, nc);
    assert head + [s[j - 1]] + s[j..] == head + ([s[j - 1]] + s[j..]);
  }
}
