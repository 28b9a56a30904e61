/** UTF-8 keeps the order of code points, so comparing text by its bytes is comparing it by its characters. */
module Utf8Order {
  import opened Bytes
  import opened Encoding
  import opened CatalogSort

  function CompareChars(a: string, b: string): Ordering {
    if a == [] then (if b == [] then Equal else Less)
    else if b == [] then Greater
    else if a[0] < b[0] then Less
    else if a[0] > b[0] then Greater
    else CompareChars(a[1..], b[1..])
  }

  /** The two encodings first differ at byte `k`, in the order of the code points. */
  predicate DifferAt(p: seq<byte>, q: seq<byte>, k: nat, less: bool) {
    k < |p| && k < |q| && p[..k] == q[..k] && (if less then p[k] < q[k] else p[k] > q[k])
  }

  /** The bytes of a code point as integers. */
  function Code(u: nat): (code: seq<int>)
    ensures 1 <= |code| <= 4
  {
    if u < 0x80 then [u]
    else if u < 0x800 then [0xC0 + u / 0x40, 0x80 + u % 0x40]
    else if u < 0x1_0000 then [0xE0 + u / 0x1000, 0x80 + u / 0x40 % 0x40, 0x80 + u % 0x40]
    else [0xF0 + u / 0x4_0000, 0x80 + u / 0x1000 % 0x40, 0x80 + u / 0x40 % 0x40, 0x80 + u % 0x40]
  }

  /** `bytes` hold the integers of `code`. */
  predicate Holds(bytes: seq<byte>, code: seq<int>) {
    |bytes| == |code| && forall i :: 0 <= i < |bytes| ==> bytes[i] as int == code[i]
  }

  lemma OneByteIs(u: nat)
    requires u < 0x80
    ensures Holds([ByteOf(u)], Code(u))
  {
  }

  lemma TwoBytesAre(u: nat)
    requires 0x80 <= u < 0x800
    ensures Holds([ByteOf(0xC0 + u / 0x40), Continuation(u)], Code(u))
  {
    hide ByteOf, Continuation;
  }

  lemma ThreeBytesAre(u: nat)
    requires 0x800 <= u < 0x1_0000
    ensures Holds([ByteOf(0xE0 + u / 0x1000), Continuation(u / 0x40), Continuation(u)], Code(u))
  {
    hide ByteOf, Continuation;
  }

  lemma FourBytesAre(u: nat)
    requires 0x1_0000 <= u <= 0x10_FFFF
    ensures Holds([ByteOf(0xF0 + u / 0x4_0000), Continuation(u / 0x1000), Continuation(u / 0x40), Continuation(u)],
                  Code(u))
  {
    hide ByteOf, Continuation;
  }

  lemma CodeIs(c: char)
    ensures Holds(Utf8Char(c), Code(c as int))
  {
    hide Holds, Code, ByteOf, Continuation;
    var u := c as int;
    if u < 0x80 {
      OneByteIs(u);
    } else if u < 0x800 {
      TwoBytesAre(u);
    } else if u < 0x1_0000 {
      ThreeBytesAre(u);
    } else {
      FourBytesAre(u);
    }
  }

  predicate CodesDifferAt(x: seq<int>, y: seq<int>, k: nat) {
    k < |x| && k < |y| && (forall i :: 0 <= i < k ==> x[i] == y[i]) && x[k] < y[k]
  }

  /** A code point in base 64. */
  lemma Digits(u: nat)
    ensures u == u / 0x40 * 0x40 + u % 0x40
    ensures u / 0x40 == u / 0x1000 * 0x40 + u / 0x40 % 0x40
    ensures u / 0x1000 == u / 0x4_0000 * 0x40 + u / 0x1000 % 0x40
  {
  }

  /** A longer encoding has the larger first byte. */
  lemma LengthDecides(u: nat, v: nat)
    requires u < v <= 0x10_FFFF && |Code(u)| != |Code(v)|
    ensures CodesDifferAt(Code(u), Code(v), 0)
  {
  }

  lemma TwoBytes(u: nat, v: nat) returns (k: nat)
    requires 0x80 <= u < v < 0x800
    ensures CodesDifferAt(Code(u), Code(v), k)
  {
    Digits(u);
    Digits(v);
    k := if u / 0x40 < v / 0x40 then 0 else 1;
  }

  lemma ThreeBytes(u: nat, v: nat) returns (k: nat)
    requires 0x800 <= u < v < 0x1_0000
    ensures CodesDifferAt(Code(u), Code(v), k)
  {
    Digits(u);
    Digits(v);
    k := if u / 0x1000 < v / 0x1000 then 0 else if u / 0x40 < v / 0x40 then 1 else 2;
  }

  lemma FourBytes(u: nat, v: nat) returns (k: nat)
    requires 0x1_0000 <= u < v
    ensures CodesDifferAt(Code(u), Code(v), k)
  {
    Digits(u);
    Digits(v);
    k := if u / 0x4_0000 < v / 0x4_0000 then 0
         else if u / 0x1000 < v / 0x1000 then 1
         else if u / 0x40 < v / 0x40 then 2
         else 3;
  }

  lemma CodesDiffer(u: nat, v: nat) returns (k: nat)
    requires u < v <= 0x10_FFFF
    ensures CodesDifferAt(Code(u), Code(v), k)
  {
    hide CodesDifferAt;
    if |Code(u)| != |Code(v)| {
      LengthDecides(u, v);
      k := 0;
    } else if v < 0x80 {
      k := 0;
      assert CodesDifferAt(Code(u), Code(v), 0) by { OneByte(u, v); }
    } else if v < 0x800 {
      k := TwoBytes(u, v);
    } else if v < 0x1_0000 {
      k := ThreeBytes(u, v);
    } else {
      k := FourBytes(u, v);
    }
  }

  lemma OneByte(u: nat, v: nat)
    requires u < v < 0x80
    ensures CodesDifferAt(Code(u), Code(v), 0)
  {
  }

  lemma CharsDiffer(c: char, d: char) returns (k: nat)
    requires c < d
    ensures DifferAt(Utf8Char(c), Utf8Char(d), k, true)
  {
    hide Utf8Char, Code;
    k := CodesDiffer(c as int, d as int);
    CodeIs(c);
    CodeIs(d);
  }

  lemma {:induction false} SamePrefix(p: seq<byte>, x: seq<byte>, y: seq<byte>)
    ensures CompareBytes(p + x, p + y) == CompareBytes(x, y)
    decreases |p|
  {
    if p == [] {
      assert p + x == x && p + y == y;
    } else {
      assert (p + x)[1..] == p[1..] + x && (p + y)[1..] == p[1..] + y;
      SamePrefix(p[1..], x, y);
    }
  }

  lemma {:induction false} DifferenceDecides(p: seq<byte>, q: seq<byte>, k: nat, x: seq<byte>, y: seq<byte>)
    requires DifferAt(p, q, k, true)
    ensures CompareBytes(p + x, q + y) == Less && CompareBytes(q + y, p + x) == Greater
    decreases k
  {
    if k > 0 {
      assert p[0] == p[..k][0] == q[..k][0] == q[0];
      assert p[1..][..k - 1] == p[..k][1..] && q[1..][..k - 1] == q[..k][1..];
      assert (p + x)[1..] == p[1..] + x && (q + y)[1..] == q[1..] + y;
      DifferenceDecides(p[1..], q[1..], k - 1, x, y);
    }
  }

  /** Byte order is code point order. */
  lemma {:induction false} ByteOrderIsCharOrder(a: string, b: string)
    ensures CompareBytes(Utf8(a), Utf8(b)) == CompareChars(a, b)
    decreases |a| + |b|
  {
    hide CompareBytes, Utf8Char;
    EmptyCompares(Utf8(a));
    EmptyCompares(Utf8(b));
    if a != [] && b != [] {
      var p, q, x, y := Utf8Char(a[0]), Utf8Char(b[0]), Utf8(a[1..]), Utf8(b[1..]);
      if a[0] == b[0] {
        SamePrefix(p, x, y);
        ByteOrderIsCharOrder(a[1..], b[1..]);
      } else if a[0] < b[0] {
        var k := CharsDiffer(a[0], b[0]);
        DifferenceDecides(p, q, k, x, y);
      } else {
        var k := CharsDiffer(b[0], a[0]);
        DifferenceDecides(q, p, k, y, x);
      }
    }
  }

  lemma EmptyCompares(x: seq<byte>)
    ensures CompareBytes([], x) == if x == [] then Equal else Less
    ensures x != [] ==> CompareBytes(x, []) == Greater
  {
  }
}
