// Bytes and UTF-8. The Ruby code reads message blobs as binary strings and
// turns payloads into text with `force_encoding('UTF-8').encode('UTF-8',
// invalid: :replace, replace: '')`, which keeps every well-formed UTF-8
// sequence and drops the ill-formed bytes. Well-formedness follows Table 3-7
// of the Unicode Standard, chapter 3.

module Utf8 {
  import opened Str

  type byte = x: int | 0 <= x < 256

  predicate IsCont(b: byte) { 0x80 <= b <= 0xBF }

  predicate IsUnicodeScalar(cp: int) { 0 <= cp < 0xD800 || 0xE000 <= cp < 0x11_0000 }

  datatype Decoded = Decoded(c: char, len: nat)

  /** The well-formed UTF-8 sequence at the start of `b`, if there is one. */
  function DecodeAt(b: seq<byte>): (r: Option<Decoded>)
    ensures r.Some? ==> 1 <= r.value.len <= 4 && r.value.len <= |b|
  {
    if b == [] then None
    else
      var b0 := b[0] as int;
      if b0 < 0x80 then Some(Decoded(b0 as char, 1))
      else if 0xC2 <= b0 <= 0xDF then
        if |b| >= 2 && IsCont(b[1]) then
          Some(Decoded(((b0 - 0xC0) * 64 + (b[1] as int - 0x80)) as char, 2))
        else None
      else if 0xE0 <= b0 <= 0xEF then
        if |b| >= 3 && IsCont(b[1]) && IsCont(b[2])
           && (b0 != 0xE0 || b[1] >= 0xA0) && (b0 != 0xED || b[1] <= 0x9F) then
          Some(Decoded(((b0 - 0xE0) * 4096 + (b[1] as int - 0x80) * 64 + (b[2] as int - 0x80)) as char, 3))
        else None
      else if 0xF0 <= b0 <= 0xF4 then
        if |b| >= 4 && IsCont(b[1]) && IsCont(b[2]) && IsCont(b[3])
           && (b0 != 0xF0 || b[1] >= 0x90) && (b0 != 0xF4 || b[1] <= 0x8F) then
          Some(Decoded(((b0 - 0xF0) * 0x40000 + (b[1] as int - 0x80) * 4096
                        + (b[2] as int - 0x80) * 64 + (b[3] as int - 0x80)) as char, 4))
        else None
      else None
  }

  /** The text of `b` with every ill-formed byte dropped. Dropping one byte at a
      time gives the same text as dropping each maximal ill-formed subpart,
      since what follows a rejected lead byte never starts a sequence of its own. */
  function Scrub(b: seq<byte>): (r: string)
    ensures |r| <= |b|
    decreases |b|
  {
    if b == [] then []
    else
      match DecodeAt(b)
      case Some(d) => [d.c] + Scrub(b[d.len..])
      case None => Scrub(b[1..])
  }

  /** The UTF-8 encoding of one character. */
  function EncodeChar(c: char): (r: seq<byte>)
    ensures 1 <= |r| <= 4
  {
    var cp := c as int;
    if cp < 0x80 then [cp]
    else if cp < 0x800 then [0xC0 + cp / 64, 0x80 + cp % 64]
    else if cp < 0x1_0000 then [0xE0 + cp / 4096, 0x80 + (cp / 64) % 64, 0x80 + cp % 64]
    else [0xF0 + cp / 0x40000, 0x80 + (cp / 4096) % 64, 0x80 + (cp / 64) % 64, 0x80 + cp % 64]
  }

  function Encode(s: string): (r: seq<byte>)
    ensures |r| >= |s|
  {
    if s == [] then [] else EncodeChar(s[0]) + Encode(s[1..])
  }

  lemma DivMod64(n: nat)
    ensures n == (n / 64) * 64 + n % 64 && 0 <= n % 64 < 64
  {}

  lemma DecodeEncode2(c: char, rest: seq<byte>)
    requires 0x80 <= c as int < 0x800
    ensures DecodeAt(EncodeChar(c) + rest) == Some(Decoded(c, 2))
  {
    var cp := c as int;
    DivMod64(cp);
    var e := EncodeChar(c) + rest;
    assert e[0] == 0xC0 + cp / 64 && e[1] == 0x80 + cp % 64;
    assert (e[0] as int - 0xC0) * 64 + (e[1] as int - 0x80) == cp;
  }

  lemma DecodeEncode3(c: char, rest: seq<byte>)
    requires 0x800 <= c as int < 0x1_0000
    ensures DecodeAt(EncodeChar(c) + rest) == Some(Decoded(c, 3))
  {
    var cp := c as int;
    var q := cp / 64;
    DivMod64(cp);
    DivMod64(q);
    assert q / 64 == cp / 4096;
    var e := EncodeChar(c) + rest;
    assert e[0] as int == 0xE0 + q / 64 && e[1] as int == 0x80 + q % 64 && e[2] as int == 0x80 + cp % 64;
    assert (e[0] as int - 0xE0) * 4096 + (e[1] as int - 0x80) * 64 + (e[2] as int - 0x80) == cp;
  }

  lemma DecodeEncode4(c: char, rest: seq<byte>)
    requires 0x1_0000 <= c as int
    ensures DecodeAt(EncodeChar(c) + rest) == Some(Decoded(c, 4))
  {
    var cp := c as int;
    var q := cp / 64;
    var q2 := q / 64;
    DivMod64(cp);
    DivMod64(q);
    DivMod64(q2);
    assert q2 == cp / 4096;
    assert q2 / 64 == cp / 0x40000;
    var e := EncodeChar(c) + rest;
    assert e[0] as int == 0xF0 + q2 / 64 && e[1] as int == 0x80 + q2 % 64;
    assert e[2] as int == 0x80 + q % 64 && e[3] as int == 0x80 + cp % 64;
    assert (e[0] as int - 0xF0) * 0x40000 + (e[1] as int - 0x80) * 4096
           + (e[2] as int - 0x80) * 64 + (e[3] as int - 0x80) == cp;
  }

  lemma DecodeEncodeChar(c: char, rest: seq<byte>)
    ensures DecodeAt(EncodeChar(c) + rest) == Some(Decoded(c, |EncodeChar(c)|))
  {
    var cp := c as int;
    if cp < 0x80 {
    } else if cp < 0x800 {
      DecodeEncode2(c, rest);
    } else if cp < 0x1_0000 {
      DecodeEncode3(c, rest);
    } else {
      DecodeEncode4(c, rest);
    }
  }

  /** Scrubbing well-formed UTF-8 gives back the text it encodes. */
  lemma {:induction false} ScrubEncode(s: string)
    ensures Scrub(Encode(s)) == s
  {
    if s != [] {
      var e := Encode(s);
      var h := EncodeChar(s[0]);
      DecodeEncodeChar(s[0], Encode(s[1..]));
      assert e[|h|..] == Encode(s[1..]);
      ScrubEncode(s[1..]);
    }
  }

  /** Concatenating byte strings at a well-formed boundary concatenates their text. */
  lemma {:induction false} ScrubAppendEncoded(s: string, b: seq<byte>)
    ensures Scrub(Encode(s) + b) == s + Scrub(b)
  {
    if s != [] {
      DecodeEncodeChar(s[0], Encode(s[1..]) + b);
      var h := EncodeChar(s[0]);
      assert Encode(s) + b == h + (Encode(s[1..]) + b);
      assert (h + (Encode(s[1..]) + b))[|h|..] == Encode(s[1..]) + b;
      ScrubAppendEncoded(s[1..], b);
    } else {
      assert Encode(s) + b == b;
    }
  }

  /** An ASCII byte string reads as the same characters. */
  predicate IsAscii(b: seq<byte>) { forall i :: 0 <= i < |b| ==> b[i] < 0x80 }

  function AsciiChars(b: seq<byte>): (r: string)
    requires IsAscii(b)
    ensures |r| == |b| && forall i :: 0 <= i < |b| ==> r[i] as int == b[i]
  {
    if b == [] then [] else [b[0] as char] + AsciiChars(b[1..])
  }

  /** The bytes of an ASCII string literal. */
  function AsciiBytes(s: string): (r: seq<byte>)
    requires forall i :: 0 <= i < |s| ==> s[i] as int < 0x80
    ensures |r| == |s| && forall i :: 0 <= i < |s| ==> r[i] == s[i] as int
  {
    if s == [] then [] else [s[0] as int] + AsciiBytes(s[1..])
  }
}
