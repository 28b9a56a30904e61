/**
 What an application makes of the bytes it is given: UTF-16 decoded as section 2.2
 of RFC 2781 says, UTF-8 as section 3 of RFC 3629 says. What the driver encodes
 decodes to the text it came from.
 */
module Decoding {
  import opened Wrappers
  import opened Bytes
  import opened Encoding

  function Prepend(c: char, rest: Option<string>): Option<string> {
    match rest case None => None case Some(s) => Some([c] + s)
  }

  // ----- UTF-16 -----

  /** Units into text; an unpaired surrogate is an error. */
  function DecodeUtf16(units: seq<u16>): Option<string> {
    if units == [] then Some("")
    else
      var w1 := units[0] as int;
      if w1 < 0xD800 || w1 > 0xDFFF then Prepend(w1 as char, DecodeUtf16(units[1..]))
      else if w1 > 0xDBFF || |units| < 2 then None
      else
        var w2 := units[1] as int;
        if w2 < 0xDC00 || w2 > 0xDFFF then None
        else Prepend((0x1_0000 + (w1 - 0xD800) * 0x400 + (w2 - 0xDC00)) as char, DecodeUtf16(units[2..]))
  }

  lemma Utf16CharDecodes(c: char, rest: seq<u16>)
    ensures DecodeUtf16(Utf16Char(c) + rest) == Prepend(c, DecodeUtf16(rest))
  {
    var units := Utf16Char(c) + rest;
    if c as int < 0x1_0000 { assert units[1..] == rest; } else { assert units[2..] == rest; }
  }

  lemma {:induction false} Utf16Decodes(s: string)
    ensures DecodeUtf16(Utf16(s)) == Some(s)
    decreases |s|
  {
    hide Utf16Char, DecodeUtf16;
    if s == "" {
      NothingDecodes();
    } else {
      Utf16CharDecodes(s[0], Utf16(s[1..]));
      Utf16Decodes(s[1..]);
      assert [s[0]] + s[1..] == s;
    }
  }

  lemma NothingDecodes()
    ensures DecodeUtf16([]) == Some("") && DecodeUtf8([]) == Some("")
  {
  }

  /** Two bytes a unit, the low one first. */
  function ReadUnits(bytes: seq<byte>): seq<u16>
    requires |bytes| % 2 == 0
  {
    if bytes == [] then [] else [(bytes[0] as int + 0x100 * (bytes[1] as int)) as u16] + ReadUnits(bytes[2..])
  }

  lemma UnitIsRead(u: u16)
    ensures (Low(u) as int + 0x100 * (High(u) as int)) as u16 == u
  {
  }

  lemma {:induction false} UnitBytesRead(units: seq<u16>)
    ensures ReadUnits(UnitBytes(units)) == units
    decreases |units|
  {
    hide Low, High;
    if units != [] {
      var bytes := UnitBytes(units);
      UnitIsRead(units[0]);
      assert bytes[0] == Low(units[0]) && bytes[1] == High(units[0]) && bytes[2..] == UnitBytes(units[1..]);
      UnitBytesRead(units[1..]);
    }
  }

  // ----- UTF-8 -----

  /** Continuation byte `k`, its six bits. */
  function Six(bytes: seq<byte>, k: nat): Option<nat> {
    if k < |bytes| && 0x80 <= bytes[k] as int < 0xC0 then Some(bytes[k] as int - 0x80) else None
  }

  /** The code point an encoding of `n` bytes holds, by its first byte's bits and its continuation bytes. */
  function CodePoint(bytes: seq<byte>, n: nat, bits: nat): Option<nat>
    requires 1 <= n <= 4
  {
    if n == 1 then Some(bits)
    else
      match (CodePoint(bytes, n - 1, bits), Six(bytes, n - 1))
      case (Some(high), Some(low)) => Some(0x40 * high + low)
      case _ => None
  }

  /** Bytes in the encoding that starts with this byte, and the bits it holds itself. */
  function Lead(b: int): Option<(nat, nat)> {
    if 0 <= b < 0x80 then Some((1, b))
    else if 0xC0 <= b < 0xE0 then Some((2, b - 0xC0))
    else if 0xE0 <= b < 0xF0 then Some((3, b - 0xE0))
    else if 0xF0 <= b < 0xF8 then Some((4, b - 0xF0))
    else None
  }

  /** The shortest encodings of Unicode scalar values only. */
  predicate Shortest(n: nat, u: nat) {
    match n
    case 1 => u < 0x80
    case 2 => 0x80 <= u < 0x800
    case 3 => 0x800 <= u < 0x1_0000 && !(0xD800 <= u < 0xE000)
    case _ => 0x1_0000 <= u < 0x11_0000
  }

  function DecodeUtf8(bytes: seq<byte>): Option<string> {
    if bytes == [] then Some("")
    else
      match Lead(bytes[0] as int)
      case None => None
      case Some((n, bits)) =>
        match CodePoint(bytes, n, bits)
        case None => None
        case Some(u) =>
          if |bytes| < n || !Shortest(n, u) then None else Prepend(u as char, DecodeUtf8(bytes[n..]))
  }

  /** The bytes at the front of `bytes`, as integers. */
  ghost predicate StartsWith(bytes: seq<byte>, code: seq<int>) {
    |code| <= |bytes| && forall k :: 0 <= k < |code| ==> bytes[k] as int == code[k]
  }

  lemma CodePointIs(bytes: seq<byte>, n: nat, code: seq<int>, bits: nat)
    requires 1 <= n <= 4 && |code| == n && StartsWith(bytes, code)
    requires forall k :: 1 <= k < n ==> 0x80 <= code[k] < 0xC0
    ensures CodePoint(bytes, n, bits) == Some(
              if n == 1 then bits
              else if n == 2 then 0x40 * bits + (code[1] - 0x80)
              else if n == 3 then 0x40 * (0x40 * bits + (code[1] - 0x80)) + (code[2] - 0x80)
              else 0x40 * (0x40 * (0x40 * bits + (code[1] - 0x80)) + (code[2] - 0x80)) + (code[3] - 0x80))
  {
    assert CodePoint(bytes, 1, bits) == Some(bits);
    if n > 1 {
      assert Six(bytes, 1) == Some(code[1] - 0x80);
      assert CodePoint(bytes, 2, bits) == Some(0x40 * bits + (code[1] - 0x80));
    }
    if n > 2 {
      assert Six(bytes, 2) == Some(code[2] - 0x80);
      assert CodePoint(bytes, 3, bits) == Some(0x40 * (0x40 * bits + (code[1] - 0x80)) + (code[2] - 0x80));
    }
    if n > 3 { assert Six(bytes, 3) == Some(code[3] - 0x80); }
  }

  lemma Base64(u: nat)
    ensures u == 0x40 * (u / 0x40) + u % 0x40
    ensures u / 0x40 == 0x40 * (u / 0x1000) + u / 0x40 % 0x40
    ensures u / 0x1000 == 0x40 * (u / 0x4_0000) + u / 0x1000 % 0x40
  {
  }

  /** One character off the front. */
  lemma OneDecodes(bytes: seq<byte>, n: nat, bits: nat, u: nat)
    requires 1 <= n <= 4 && n <= |bytes| && Lead(bytes[0] as int) == Some((n, bits))
    requires CodePoint(bytes, n, bits) == Some(u) && Shortest(n, u)
    ensures u < 0xD800 || 0xE000 <= u < 0x11_0000
    ensures DecodeUtf8(bytes) == Prepend(u as char, DecodeUtf8(bytes[n..]))
  {
    hide CodePoint, Lead;
  }

  lemma TwoBytesDecode(bytes: seq<byte>, u: nat)
    requires 0x80 <= u < 0x800 && StartsWith(bytes, [0xC0 + u / 0x40, 0x80 + u % 0x40])
    ensures DecodeUtf8(bytes) == Prepend(u as char, DecodeUtf8(bytes[2..]))
  {
    hide DecodeUtf8, CodePoint;
    Base64(u);
    CodePointIs(bytes, 2, [0xC0 + u / 0x40, 0x80 + u % 0x40], u / 0x40);
    OneDecodes(bytes, 2, u / 0x40, u);
  }

  lemma ThreeBytesDecode(bytes: seq<byte>, u: nat)
    requires 0x800 <= u < 0x1_0000 && !(0xD800 <= u < 0xE000)
    requires StartsWith(bytes, [0xE0 + u / 0x1000, 0x80 + u / 0x40 % 0x40, 0x80 + u % 0x40])
    ensures DecodeUtf8(bytes) == Prepend(u as char, DecodeUtf8(bytes[3..]))
  {
    hide DecodeUtf8, CodePoint;
    Base64(u);
    CodePointIs(bytes, 3, [0xE0 + u / 0x1000, 0x80 + u / 0x40 % 0x40, 0x80 + u % 0x40], u / 0x1000);
    OneDecodes(bytes, 3, u / 0x1000, u);
  }

  lemma FourBytesDecode(bytes: seq<byte>, u: nat)
    requires 0x1_0000 <= u < 0x11_0000
    requires StartsWith(bytes, [0xF0 + u / 0x4_0000, 0x80 + u / 0x1000 % 0x40, 0x80 + u / 0x40 % 0x40, 0x80 + u % 0x40])
    ensures DecodeUtf8(bytes) == Prepend(u as char, DecodeUtf8(bytes[4..]))
  {
    hide DecodeUtf8, CodePoint;
    Base64(u);
    CodePointIs(bytes, 4, [0xF0 + u / 0x4_0000, 0x80 + u / 0x1000 % 0x40, 0x80 + u / 0x40 % 0x40, 0x80 + u % 0x40],
                u / 0x4_0000);
    OneDecodes(bytes, 4, u / 0x4_0000, u);
  }

  lemma Utf8CharDecodes(c: char, rest: seq<byte>)
    ensures DecodeUtf8(Utf8Char(c) + rest) == Prepend(c, DecodeUtf8(rest))
  {
    hide DecodeUtf8, Lead, CodePoint;
    var u: nat, code := c as int, Utf8Char(c);
    var bytes := code + rest;
    assert bytes[|code|..] == rest;
    if u < 0x80 {
      assert CodePoint(bytes, 1, u) == Some(u) by { CodePointIs(bytes, 1, [u], u); }
      assert Lead(u) == Some((1, u)) by { LeadIsItself(u); }
      OneDecodes(bytes, 1, u, u);
    } else if u < 0x800 {
      TwoBytesDecode(bytes, u);
    } else if u < 0x1_0000 {
      ThreeBytesDecode(bytes, u);
    } else {
      FourBytesDecode(bytes, u);
    }
  }

  lemma LeadIsItself(u: nat)
    requires u < 0x80
    ensures Lead(u) == Some((1, u))
  {
  }

  lemma {:induction false} Utf8Decodes(s: string)
    ensures DecodeUtf8(Utf8(s)) == Some(s)
    decreases |s|
  {
    hide Utf8Char, DecodeUtf8;
    NothingDecodes();
    if s != "" {
      Utf8CharDecodes(s[0], Utf8(s[1..]));
      Utf8Decodes(s[1..]);
      assert [s[0]] + s[1..] == s;
    }
  }
}
