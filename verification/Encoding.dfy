/** Bytes and code units: UTF-8, UTF-16 (section 2.1 of RFC 2781), and units laid out in memory. */
module Encoding {
  import opened Bytes

  newtype u16 = n: int | 0 <= n < 0x1_0000

  function Utf16Char(c: char): (units: seq<u16>)
    ensures 1 <= |units| <= 2
  {
    var u := c as int;
    if u < 0x1_0000 then [u as u16]
    else [(0xD800 + (u - 0x1_0000) / 0x400) as u16, (0xDC00 + (u - 0x1_0000) % 0x400) as u16]
  }

  function Utf16(s: string): seq<u16> {
    if s == [] then [] else Utf16Char(s[0]) + Utf16(s[1..])
  }

  function Continuation(u: nat): (b: byte)
    ensures b as int == 0x80 + u % 0x40
  {
    ByteOf(0x80 + u % 0x40)
  }

  function Utf8Char(c: char): (bytes: seq<byte>)
    ensures 1 <= |bytes| <= 4
  {
    var u := c as int;
    if u < 0x80 then [ByteOf(u)]
    else if u < 0x800 then [ByteOf(0xC0 + u / 0x40), Continuation(u)]
    else if u < 0x1_0000 then [ByteOf(0xE0 + u / 0x1000), Continuation(u / 0x40), Continuation(u)]
    else [ByteOf(0xF0 + u / 0x4_0000), Continuation(u / 0x1000), Continuation(u / 0x40), Continuation(u)]
  }

  function Utf8(s: string): seq<byte> {
    if s == [] then [] else Utf8Char(s[0]) + Utf8(s[1..])
  }

  function Low(u: u16): byte {
    ByteOf(u as int % 0x100)
  }

  function High(u: u16): byte {
    ByteOf(u as int / 0x100)
  }

  /** UTF-16 units as they lie in memory, low byte first. */
  function UnitBytes(units: seq<u16>): (bytes: seq<byte>)
    ensures |bytes| == 2 * |units|
  {
    if units == [] then []
    else
      var rest := UnitBytes(units[1..]);
      [Low(units[0]), High(units[0])] + rest
  }

  lemma {:induction false} Utf16Concat(a: string, b: string)
    ensures Utf16(a + b) == Utf16(a) + Utf16(b)
  {
    if a == [] {
      assert a + b == b;
    } else {
      assert (a + b)[0] == a[0] && (a + b)[1..] == a[1..] + b;
      Utf16Concat(a[1..], b);
    }
  }

  lemma {:induction false} Utf8Concat(a: string, b: string)
    ensures Utf8(a + b) == Utf8(a) + Utf8(b)
  {
    if a == [] {
      assert a + b == b;
    } else {
      assert (a + b)[0] == a[0] && (a + b)[1..] == a[1..] + b;
      Utf8Concat(a[1..], b);
    }
  }

  lemma {:induction false} UnitBytesConcat(a: seq<u16>, b: seq<u16>)
    ensures UnitBytes(a + b) == UnitBytes(a) + UnitBytes(b)
  {
    if a == [] {
      assert a + b == b;
    } else {
      assert (a + b)[0] == a[0] && (a + b)[1..] == a[1..] + b;
      UnitBytesConcat(a[1..], b);
    }
  }
}
