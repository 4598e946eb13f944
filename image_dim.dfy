// The image dimension sniffer: width and height read off the first bytes
// of a PNG, GIF, JPEG or WebP file.
//
// The sniffer is modelled twice over one set of definitions, selected by a
// `Reading`: `AsWritten` is what the code does, `Intended` what its
// comments and the formats it names say it should do. The two differ in
// five places: the byte-signature literals are UTF-8 strings, so any
// header with a byte >= 0x80 makes `start_with?` raise; the VP8X size
// fields are unpacked from 3 bytes with a 4-byte directive; the VP8 start
// code is a UTF-8 literal too, so `index` either raises or never matches;
// the JPEG marker byte `"\xFF"` is one as well, so the JPEG scan raises on
// a buffer with a high byte and finds no marker in one without; and the
// JPEG start-of-image marker is read as if a segment length followed it.
// The last is hidden behind the first and the fourth: as written the scan
// never reaches a marker.

module ImageDim {
  import opened Str
  import Utf8

  type byte = Utf8.byte

  datatype Reading = AsWritten | Intended

  /** `[w, h]`. */
  datatype Dims = Dims(width: int, height: int)

  predicate Positive(r: Option<Dims>)
  {
    r.Some? ==> r.value.width > 0 && r.value.height > 0
  }

  /** `valid_dim`: both present and positive. */
  function ValidDim(w: Option<int>, h: Option<int>): (r: Option<Dims>)
    ensures r.Some? <==> w.Some? && h.Some? && w.value > 0 && h.value > 0
    ensures r.Some? ==> r.value == Dims(w.value, h.value)
  {
    if w.Some? && h.Some? && w.value > 0 && h.value > 0 then Some(Dims(w.value, h.value)) else None
  }

  // ---------------------------------------------------------------- integers in bytes

  /** `unpack1('n')`: big-endian 16 bits. */
  function BE16(b: seq<byte>, i: nat): nat
    requires i + 2 <= |b|
  {
    (b[i] as int) * 0x100 + b[i + 1]
  }

  /** `unpack1('N')`: big-endian 32 bits. */
  function BE32(b: seq<byte>, i: nat): nat
    requires i + 4 <= |b|
  {
    BE16(b, i) * 0x1_0000 + BE16(b, i + 2)
  }

  /** `unpack('v')`: little-endian 16 bits. */
  function LE16(b: seq<byte>, i: nat): nat
    requires i + 2 <= |b|
  {
    b[i] + (b[i + 1] as int) * 0x100
  }

  /** Little-endian 24 bits, as `unpack1('V') & 0xFFFFFF` reads from four bytes. */
  function LE24(b: seq<byte>, i: nat): nat
    requires i + 3 <= |b|
  {
    LE16(b, i) + (b[i + 2] as int) * 0x1_0000
  }

  /** Little-endian 32 bits. */
  function LE32(b: seq<byte>, i: nat): nat
    requires i + 4 <= |b|
  {
    LE24(b, i) + (b[i + 3] as int) * 0x100_0000
  }

  /** `unpack1('V')`: little-endian 32 bits; `nil` with fewer than four bytes. */
  function UnpackV(b: seq<byte>): (r: Option<nat>)
    ensures r.Some? <==> |b| >= 4
  {
    if |b| >= 4 then Some(LE32(b, 0)) else None
  }

  /** The bytes of `x` most significant first. */
  function BE16Bytes(x: nat): (b: seq<byte>)
    requires x < 0x1_0000
    ensures |b| == 2 && BE16(b, 0) == x
  {
    [x / 0x100, x % 0x100]
  }

  function BE32Bytes(x: nat): (b: seq<byte>)
    requires x < 0x1_0000_0000
    ensures |b| == 4 && BE32(b, 0) == x
  {
    var b := BE16Bytes(x / 0x1_0000) + BE16Bytes(x % 0x1_0000);
    assert b[2..] == BE16Bytes(x % 0x1_0000);
    b
  }

  function LE16Bytes(x: nat): (b: seq<byte>)
    requires x < 0x1_0000
    ensures |b| == 2 && LE16(b, 0) == x
  {
    [x % 0x100, x / 0x100]
  }

  function LE24Bytes(x: nat): (b: seq<byte>)
    requires x < 0x100_0000
    ensures |b| == 3 && LE24(b, 0) == x
  {
    LE16Bytes(x % 0x1_0000) + [x / 0x1_0000]
  }

  // ---------------------------------------------------------------- signatures

  /** `"\x89PNG\r\n\x1A\n"`. */
  const PngSignature: seq<byte> := [0x89, 0x50, 0x4E, 0x47, 0x0D, 0x0A, 0x1A, 0x0A]
  const Gif87a: seq<byte> := [0x47, 0x49, 0x46, 0x38, 0x37, 0x61]
  const Gif89a: seq<byte> := [0x47, 0x49, 0x46, 0x38, 0x39, 0x61]
  const Riff: seq<byte> := [0x52, 0x49, 0x46, 0x46]
  const Webp: seq<byte> := [0x57, 0x45, 0x42, 0x50]
  const Soi: seq<byte> := [0xFF, 0xD8]

  /** No byte of the text has its high bit set: Ruby compares such a binary
      string with a UTF-8 literal byte by byte, and raises for any other. */
  predicate Ascii(b: seq<byte>)
  {
    forall i :: 0 <= i < |b| ==> b[i] < 0x80
  }

  // ---------------------------------------------------------------- PNG and GIF

  /** `png`: the IHDR width and height, big-endian at offsets 16 and 20
      (section 11.2.2 of the PNG specification). */
  function Png(header: seq<byte>): (r: Option<Dims>)
    ensures r.Some? ==> |header| >= 24 && r == Some(Dims(BE32(header, 16), BE32(header, 20)))
    ensures |header| >= 24 && BE32(header, 16) > 0 && BE32(header, 20) > 0 ==> r.Some?
  {
    if |header| < 24 then None else ValidDim(Some(BE32(header, 16)), Some(BE32(header, 20)))
  }

  /** `gif`: the logical screen width and height, little-endian at offsets
      6 and 8 (section 18 of GIF89a). */
  function Gif(header: seq<byte>): (r: Option<Dims>)
    ensures r.Some? ==> |header| >= 10 && r == Some(Dims(LE16(header, 6), LE16(header, 8)))
    ensures |header| >= 10 && LE16(header, 6) > 0 && LE16(header, 8) > 0 ==> r.Some?
  {
    if |header| < 10 then None else ValidDim(Some(LE16(header, 6)), Some(LE16(header, 8)))
  }

  // ---------------------------------------------------------------- reading the file

  const ReadSize: nat := 4096


  /** `buf << io.read(4096)` until `buf` holds `n` bytes; `None` when the
      file ends first. `rest` is what the file still holds. */
  function Fill(buf: seq<byte>, rest: seq<byte>, n: nat): (r: Option<(seq<byte>, seq<byte>)>)
    ensures r.None? <==> |buf| + |rest| < n
    ensures r.Some? ==> r.value.0 + r.value.1 == buf + rest && |r.value.0| >= n && |r.value.0| >= |buf|
    decreases |rest|
  {
    if |buf| >= n then Some((buf, rest))
    else if rest == [] then None
    else
      var k := Min(ReadSize, |rest|);
      assert buf + rest == (buf + rest[..k]) + rest[k..];
      Fill(buf + rest[..k], rest[k..], n)
  }

  /** The reading loop itself. */
  method Refill(buf: seq<byte>, rest: seq<byte>, n: nat) returns (ok: bool, buf': seq<byte>, rest': seq<byte>)
    ensures ok <==> Fill(buf, rest, n).Some?
    ensures ok ==> (buf', rest') == Fill(buf, rest, n).value
  {
    buf', rest' := buf, rest;
    while |buf'| < n
      invariant Fill(buf', rest', n) == Fill(buf, rest, n)
      decreases |rest'|
    {
      if rest' == [] {
        return false, buf', rest';
      }
      var k := Min(ReadSize, |rest'|);
      buf', rest' := buf' + rest'[..k], rest'[k..];
    }
    ok := true;
  }

  // ---------------------------------------------------------------- JPEG

  /** `sof_marker?`: the start-of-frame markers of Table B.1 of ITU-T T.81,
      which carry the frame size. */
  predicate SofMarker(m: byte): (r: bool)
    ensures r <==> 0xC0 <= m <= 0xCF && m != 0xC4 && m != 0xC8 && m != 0xCC
  {
    m in {0xC0, 0xC1, 0xC2, 0xC3, 0xC5, 0xC6, 0xC7, 0xC9, 0xCA, 0xCB, 0xCD, 0xCE, 0xCF}
  }

  /** The markers the scan steps over without a length. As written only
      RST0-RST7; SOI and EOI carry no length either (section B.1.1.3 of
      ITU-T T.81). */
  predicate Standalone(m: byte, rd: Reading): (r: bool)
    ensures r ==> 0xD0 <= m <= 0xD9
    ensures rd == AsWritten ==> (r <==> 0xD0 <= m <= 0xD7)
    ensures rd == Intended ==> (r <==> 0xD0 <= m <= 0xD9)
  {
    0xD0 <= m <= 0xD9 && (rd == Intended || (m != 0xD8 && m != 0xD9))
  }

  /** The first position at or after `from` holding `x`. */
  function FirstIndex(b: seq<byte>, x: byte, from: nat): (r: Option<nat>)
    ensures r.Some? ==> from <= r.value < |b| && b[r.value] == x
    ensures r.Some? ==> forall k :: from <= k < r.value ==> b[k] != x
    ensures r.None? ==> forall k :: from <= k < |b| ==> b[k] != x
    decreases |b| - from
  {
    if from >= |b| then None else if b[from] == x then Some(from) else FirstIndex(b, x, from + 1)
  }

  /** The end of the run of 0xFF fill bytes from `k`. */
  function FillEnd(b: seq<byte>, k: nat): (e: nat)
    requires k <= |b|
    ensures k <= e <= |b| && (e < |b| ==> b[e] != 0xFF)
    ensures forall i :: k <= i < e ==> b[i] == 0xFF
    decreases |b| - k
  {
    if k < |b| && b[k] == 0xFF then FillEnd(b, k + 1) else k
  }

  /** One turn of the scan: the result, or what is left to scan. */
  datatype Scan = Done(dims: Option<Dims>) | Next(buf: seq<byte>, rest: seq<byte>)

  /** The frame size after a SOF marker: height then width, big-endian,
      after the precision byte; both needed, so the segment must hold at
      least 7 bytes (section B.2.2 of ITU-T T.81). */
  function FrameSize(b: seq<byte>, segLen: nat): (r: Option<Dims>)
    requires 2 + segLen <= |b|
    ensures segLen < 7 ==> r.None?
    ensures r.Some? ==> 0 < r.value.width < 0x1_0000 && 0 < r.value.height < 0x1_0000
  {
    if segLen < 7 then None else ValidDim(Some(BE16(b, 7)), Some(BE16(b, 5)))
  }

  /** One turn of `jpeg`'s loop on the buffer `buf`, with `rest` still in
      the file: at least 4 bytes, then on from the next 0xFF. */
  function JpegStep(buf: seq<byte>, rest: seq<byte>, rd: Reading): (s: Scan)
    ensures s.Next? ==> |s.buf| + |s.rest| < |buf| + |rest|
    ensures s.Done? ==> Positive(s.dims)
    ensures rd == AsWritten ==> s == Done(None)
  {
    match Fill(buf, rest, 4)
    case None => Done(None)
    case Some(f) =>
      if rd == AsWritten && !Ascii(f.0) then Done(None)
      else
      match FirstIndex(f.0, 0xFF, 0)
      case None => Done(None)
      case Some(idx) =>
        assert f.0[idx..] + f.1 == (f.0 + f.1)[idx..];
        AtMarker(Collapsed(f.0[idx..]), f.1, rd)
  }

  /** A marker with its fill bytes collapsed to one 0xFF. */
  function Collapsed(b: seq<byte>): (c: seq<byte>)
    requires b != []
    ensures c != [] && c[0] == b[0] && |c| <= |b|
  {
    b[..1] + b[FillEnd(b, 1)..]
  }

  /** The buffer at a marker: a standalone one is stepped over; any other
      has its 2-byte length read. */
  function AtMarker(b: seq<byte>, r: seq<byte>, rd: Reading): (s: Scan)
    ensures s.Next? ==> |s.buf| + |s.rest| < |b| + |r|
    ensures s.Done? ==> Positive(s.dims)
  {
    if |b| < 2 then Done(None)
    else if Standalone(b[1], rd) then Next(b[2..], r)
    else
      match Fill(b, r, 4)
      case None => Done(None)
      case Some(g) => Segment(g.0, g.1, b[1], rd)
  }

  /** A segment with its length at offset 2: the frame size for a SOF
      marker, else the buffer after the segment. */
  function Segment(b: seq<byte>, r: seq<byte>, marker: byte, rd: Reading): (s: Scan)
    requires |b| >= 4
    ensures s.Next? ==> |s.buf| + |s.rest| < |b| + |r|
    ensures s.Done? ==> Positive(s.dims)
  {
    var segLen := BE16(b, 2);
    if segLen < 2 then Done(None)
    else
      match Fill(b, r, 2 + segLen)
      case None => Done(None)
      case Some(h) =>
        if SofMarker(marker) then Done(FrameSize(h.0, segLen))
        else
          assert h.0[2 + segLen..] + h.1 == (h.0 + h.1)[2 + segLen..];
          Next(h.0[2 + segLen..], h.1)
  }

  /** `jpeg`: scan marker by marker to the first SOF segment. */
  function JpegScan(buf: seq<byte>, rest: seq<byte>, rd: Reading): (r: Option<Dims>)
    ensures Positive(r)
    ensures rd == AsWritten ==> r.None?
    decreases |buf| + |rest|
  {
    match JpegStep(buf, rest, rd)
    case Done(d) => d
    case Next(b, r) => JpegScan(b, r, rd)
  }

  /** `jpeg`'s loop, on the 64-byte header and the file after it. */
  method Jpeg(header: seq<byte>, file: seq<byte>, rd: Reading) returns (dims: Option<Dims>)
    ensures dims == JpegScan(header, file, rd)
  {
    var buf, rest := header, file;
    while true
      invariant JpegScan(buf, rest, rd) == JpegScan(header, file, rd)
      decreases |buf| + |rest|
    {
      var s := JpegTurn(buf, rest, rd);
      if s.Done? {
        return s.dims;
      }
      buf, rest := s.buf, s.rest;
    }
  }

  /** The body of `jpeg`'s loop. */
  method JpegTurn(buf0: seq<byte>, rest0: seq<byte>, rd: Reading) returns (s: Scan)
    ensures s == JpegStep(buf0, rest0, rd)
  {
    var ok, buf, rest := Refill(buf0, rest0, 4);
    if !ok {
      return Done(None);
    }
    if rd == AsWritten && !Ascii(buf) {
      return Done(None);
    }
    var idx := FirstIndex(buf, 0xFF, 0);
    if idx.None? {
      return Done(None);
    }
    buf := buf[idx.value..];
    var k := 1;
    while k < |buf| && buf[k] == 0xFF
      invariant 1 <= k <= |buf| && FillEnd(buf, k) == FillEnd(buf, 1)
      decreases |buf| - k
    {
      k := k + 1;
    }
    buf := buf[..1] + buf[k..];
    if |buf| < 2 {
      return Done(None);
    }
    var marker := buf[1];
    if Standalone(marker, rd) {
      return Next(buf[2..], rest);
    }
    ok, buf, rest := Refill(buf, rest, 4);
    if !ok {
      return Done(None);
    }
    var segLen := BE16(buf, 2);
    if segLen < 2 {
      return Done(None);
    }
    ok, buf, rest := Refill(buf, rest, 2 + segLen);
    if !ok {
      return Done(None);
    }
    if SofMarker(marker) {
      return Done(FrameSize(buf, segLen));
    }
    s := Next(buf[2 + segLen..], rest);
  }

  // ---------------------------------------------------------------- WebP

  const Vp8xTag: seq<byte> := [0x56, 0x50, 0x38, 0x58]
  const Vp8Tag: seq<byte> := [0x56, 0x50, 0x38, 0x20]
  const Vp8lTag: seq<byte> := [0x56, 0x50, 0x38, 0x4C]
  const Vp8Signature: seq<byte> := [0x9D, 0x01, 0x2A]

  /** The second reading loop of `webp`: reads of at least 4096 bytes
      until `buf` holds `need` bytes or the file ends. */
  function FillUpTo(buf: seq<byte>, rest: seq<byte>, need: nat): (r: (seq<byte>, seq<byte>))
    ensures r.0 + r.1 == buf + rest && |r.0| >= |buf| && (|r.0| >= need || r.1 == [])
    decreases |rest|
  {
    if |buf| >= need || rest == [] then (buf, rest)
    else
      var k := Min(if need - |buf| > ReadSize then need - |buf| else ReadSize, |rest|);
      assert buf + rest == (buf + rest[..k]) + rest[k..];
      FillUpTo(buf + rest[..k], rest[k..], need)
  }

  method ReadUpTo(buf: seq<byte>, rest: seq<byte>, need: nat) returns (buf': seq<byte>, rest': seq<byte>)
    ensures (buf', rest') == FillUpTo(buf, rest, need)
  {
    buf', rest' := buf, rest;
    while |buf'| < need
      invariant FillUpTo(buf', rest', need) == FillUpTo(buf, rest, need)
      decreases |rest'|
    {
      if rest' == [] {
        break;
      }
      var k := Min(if need - |buf'| > ReadSize then need - |buf'| else ReadSize, |rest'|);
      buf', rest' := buf' + rest'[..k], rest'[k..];
    }
  }

  /** The buffer `webp` parses: the header, read on to 20 bytes (else
      `None`), then on to the whole first chunk where the file has it. */
  function WebpBuffer(header: seq<byte>, rest: seq<byte>): (r: Option<seq<byte>>)
    ensures r.Some? ==> |r.value| >= 20 && |r.value| >= |header| && StartsWith(header + rest, r.value)
  {
    match Fill(header, rest, 20)
    case None => None
    case Some(f) =>
      var (b, r) := f;
      var need := 20 + LE32(b, 16);
      var (b', r') := FillUpTo(b, r, need);
      assert (header + rest)[..|b'|] == b';
      Some(b')
  }

  /** VP8X: canvas width and height less one, 24-bit little-endian at
      offsets 24 and 27 (the VP8X header of RFC 9649). */
  function Vp8x(buf: seq<byte>): (r: Option<Dims>)
    ensures r.Some? <==> |buf| >= 30
    ensures r.Some? ==> 1 <= r.value.width <= 0x100_0000 && 1 <= r.value.height <= 0x100_0000
  {
    if |buf| < 30 then None else ValidDim(Some(LE24(buf, 24) + 1), Some(LE24(buf, 27) + 1))
  }

  /** VP8X as written: `unpack1('V')` of a 3-byte slice is `nil`, `nil &
      0xFFFFFF` is `false`, and `false + 1` raises. */
  function Vp8xAsWritten(buf: seq<byte>): (r: Option<Dims>)
  {
    if |buf| < 30 then None
    else
      match UnpackV(buf[24..27])
      case None => None
      case Some(w) => ValidDim(Some(w % 0x100_0000 + 1), Some(LE24(buf, 27) + 1))
  }

  /** VP8: the first key-frame start code from offset 20, then width and
      height as two little-endian 16-bit words (section 9.1 of RFC 6386),
      the scale bits included. */
  function Vp8(buf: seq<byte>): (r: Option<Dims>)
    ensures r.Some? ==> SignatureFrom(buf, 20).Some?
    ensures r.Some? ==> 0 < r.value.width < 0x1_0000 && 0 < r.value.height < 0x1_0000
  {
    match SignatureFrom(buf, 20)
    case None => None
    case Some(sig) =>
      var off := sig + 3;
      if |buf| < off + 4 then None else ValidDim(Some(LE16(buf, off)), Some(LE16(buf, off + 2)))
  }

  /** The first position at or after `from` where the VP8 start code occurs. */
  function SignatureFrom(b: seq<byte>, from: nat): (r: Option<nat>)
    ensures r.Some? ==> from <= r.value && OccursAt(b, Vp8Signature, r.value)
    ensures r.Some? ==> forall k :: from <= k < r.value ==> !OccursAt(b, Vp8Signature, k)
    decreases |b| - from
  {
    if from + 3 > |b| then None
    else if b[from] == 0x9D && b[from + 1] == 0x01 && b[from + 2] == 0x2A then
      assert b[from..from + 3] == Vp8Signature;
      Some(from)
    else
      assert b[from..from + 3][0] == b[from] && b[from..from + 3][1] == b[from + 1] && b[from..from + 3][2] == b[from + 2];
      SignatureFrom(b, from + 1)
  }

  /** VP8L: 14-bit width and height less one, packed little-endian from
      byte 21 (the VP8L header of RFC 9649). The source's `|` joins bit
      ranges that do not overlap, so it is written as `+`. */
  function Vp8l(buf: seq<byte>): (r: Option<Dims>)
    ensures r.Some? <==> |buf| >= 25
    ensures r.Some? ==> 1 <= r.value.width <= 0x4000 && 1 <= r.value.height <= 0x4000
  {
    if |buf| < 25 then None
    else
      var b0: int, b1: int, b2: int, b3: int := buf[21], buf[22], buf[23], buf[24];
      ValidDim(Some((b1 % 0x40) * 0x100 + b0 + 1), Some((b3 % 0x10) * 0x400 + b2 * 4 + b1 / 0x40 + 1))
  }

  /** `webp`: dispatch on the first chunk's tag. As written, VP8X always
      fails, and so does VP8, whose start-code literal makes `index` raise
      on a buffer with a high byte and match nothing in one without. */
  function WebpDims(buf: seq<byte>, rd: Reading): (r: Option<Dims>)
    requires |buf| >= 20
    ensures Positive(r)
  {
    var tag := buf[12..16];
    if tag == Vp8xTag then (if rd == AsWritten then Vp8xAsWritten(buf) else Vp8x(buf))
    else if tag == Vp8Tag then (if rd == AsWritten then None else Vp8(buf))
    else if tag == Vp8lTag then Vp8l(buf)
    else None
  }

  function WebpScan(header: seq<byte>, rest: seq<byte>, rd: Reading): (r: Option<Dims>)
    ensures Positive(r)
  {
    match WebpBuffer(header, rest)
    case None => None
    case Some(b) => WebpDims(b, rd)
  }

  /** `webp`'s two reading loops and its dispatch. */
  method WebpRead(header: seq<byte>, file: seq<byte>, rd: Reading) returns (dims: Option<Dims>)
    ensures dims == WebpScan(header, file, rd)
  {
    var ok, buf, rest := Refill(header, file, 20);
    if !ok {
      return None;
    }
    var need := 20 + LE32(buf, 16);
    buf, rest := ReadUpTo(buf, rest, need);
    dims := WebpDims(buf, rd);
  }

  // ---------------------------------------------------------------- sniff

  /** `sniff`: nothing for a path that is not a file; otherwise dispatch on
      the first 64 bytes. As written, a header with a byte >= 0x80 makes
      the first `start_with?` raise, and the error becomes `nil`. */
  function SniffWith(contents: Option<seq<byte>>, rd: Reading): (r: Option<Dims>)
    ensures Positive(r)
  {
    if contents.None? then None
    else
      var file := contents.value;
      var n := Min(64, |file|);
      var header, rest := file[..n], file[n..];
      if rd == AsWritten && !Ascii(header) then None
      else if StartsWith(header, PngSignature) then Png(header)
      else if StartsWith(header, Gif87a) || StartsWith(header, Gif89a) then Gif(header)
      else if StartsWith(header, Riff) && |header| >= 12 && header[8..12] == Webp then WebpScan(header, rest, rd)
      else if StartsWith(header, Soi) then JpegScan(header, rest, rd)
      else None
  }

  /** `sniff` as its authors meant it: dimensions only ever positive. */
  function Sniff(contents: Option<seq<byte>>): (r: Option<Dims>)
    ensures Positive(r)
  {
    SniffWith(contents, Intended)
  }

  function SniffAsWritten(contents: Option<seq<byte>>): (r: Option<Dims>)
    ensures Positive(r)
  {
    SniffWith(contents, AsWritten)
  }

  // ---------------------------------------------------------------- what is read where

  /** The header `sniff` reads: the first 64 bytes. */
  function Header(file: seq<byte>): seq<byte>
  {
    file[..Min(64, |file|)]
  }

  /** A PNG file gives its IHDR size. */
  lemma PngSniffed(file: seq<byte>, w: nat, h: nat)
    requires |file| >= 24 && file[..8] == PngSignature
    requires 0 < w < 0x1_0000_0000 && 0 < h < 0x1_0000_0000
    requires file[16..20] == BE32Bytes(w) && file[20..24] == BE32Bytes(h)
    ensures Sniff(Some(file)) == Some(Dims(w, h))
  {
    var header := Header(file);
    assert header[..8] == PngSignature;
    ReadBE32(header, 16, w);
    ReadBE32(header, 20, h);
  }

  lemma ReadBE32(b: seq<byte>, i: nat, x: nat)
    requires i + 4 <= |b| && x < 0x1_0000_0000 && b[i..i + 4] == BE32Bytes(x)
    ensures BE32(b, i) == x
  {
    var e := BE32Bytes(x);
    assert b[i] == e[0] && b[i + 1] == e[1] && b[i + 2] == e[2] && b[i + 3] == e[3];
  }

  /** As written no PNG file is ever sniffed: its first byte is 0x89. */
  lemma PngNotSniffedAsWritten(file: seq<byte>)
    requires |file| >= 8 && file[..8] == PngSignature
    ensures SniffAsWritten(Some(file)) == None
  {
    assert Header(file)[0] == 0x89;
  }

  /** A GIF file gives its logical screen size. */
  lemma GifSniffed(file: seq<byte>, w: nat, h: nat)
    requires |file| >= 10 && (file[..6] == Gif87a || file[..6] == Gif89a)
    requires 0 < w < 0x1_0000 && 0 < h < 0x1_0000
    requires file[6..8] == LE16Bytes(w) && file[8..10] == LE16Bytes(h)
    ensures Sniff(Some(file)) == Some(Dims(w, h))
  {
    var header := Header(file);
    assert header[..6] == file[..6];
    assert header[0] == 0x47;
    ReadLE16(header, 6, w);
    ReadLE16(header, 8, h);
  }

  lemma ReadLE16(b: seq<byte>, i: nat, x: nat)
    requires i + 2 <= |b| && x < 0x1_0000 && b[i..i + 2] == LE16Bytes(x)
    ensures LE16(b, i) == x
  {
    var e := LE16Bytes(x);
    assert b[i] == e[0] && b[i + 1] == e[1];
  }

  /** On a header without high bytes, and outside WebP, the two readings
      agree: the high-byte failure is the only difference there. */
  lemma AsWrittenAgreesOnAscii(file: seq<byte>)
    requires Ascii(Header(file))
    requires !(StartsWith(Header(file), Riff) && |Header(file)| >= 12 && Header(file)[8..12] == Webp)
    ensures SniffAsWritten(Some(file)) == Sniff(Some(file))
  {
    var header := Header(file);
    if header != [] {
      assert header[0] < 0x80;
      assert !StartsWith(header, PngSignature) by { assert PngSignature[0] == 0x89; }
      assert !StartsWith(header, Soi) by { assert Soi[0] == 0xFF; }
    }
  }

  // ---------------------------------------------------------------- JPEG segments

  /** A buffer that starts at a marker is scanned from there. */
  lemma StepAtMarker(b: seq<byte>)
    requires |b| >= 4 && b[0] == 0xFF && b[1] != 0xFF
    ensures JpegStep(b, [], Intended) == AtMarker(b, [], Intended)
  {
    assert FirstIndex(b, 0xFF, 0) == Some(0);
    assert FillEnd(b, 1) == 1;
    assert b[0..] == b && b[..1] + b[1..] == b;
  }

  /** A standalone marker is stepped over. */
  lemma JpegSkipsStandalone(m: byte, more: seq<byte>)
    requires Standalone(m, Intended) && |more| >= 2
    ensures JpegScan([0xFF, m] + more, [], Intended) == JpegScan(more, [], Intended)
  {
    var b := [0xFF, m] + more;
    StepAtMarker(b);
    assert b[2..] == more;
  }

  /** A segment that is not a frame header is stepped over by its length. */
  lemma JpegSkipsSegment(m: byte, payload: seq<byte>, more: seq<byte>)
    requires m != 0xFF && !Standalone(m, Intended) && !SofMarker(m) && |payload| + 2 < 0x1_0000
    ensures JpegScan([0xFF, m] + BE16Bytes(|payload| + 2) + payload + more, [], Intended) == JpegScan(more, [], Intended)
  {
    var b := [0xFF, m] + BE16Bytes(|payload| + 2) + payload + more;
    assert b[1] == m && b[0] == 0xFF;
    StepAtMarker(b);
    assert b[2..4] == BE16Bytes(|payload| + 2);
    ReadBE16(b, 2, |payload| + 2);
    assert Segment(b, [], m, Intended) == Next(more, []) by {
      assert b[4 + |payload|..] == more;
    }
  }

  lemma ReadBE16(b: seq<byte>, i: nat, x: nat)
    requires i + 2 <= |b| && x < 0x1_0000 && b[i..i + 2] == BE16Bytes(x)
    ensures BE16(b, i) == x
  {
    var e := BE16Bytes(x);
    assert b[i] == e[0] && b[i + 1] == e[1];
  }

  /** Bytes before the next 0xFF are passed over. */
  lemma JpegSkipsGarbage(g: seq<byte>, more: seq<byte>)
    requires 0xFF !in g && |more| >= 4 && more[0] == 0xFF
    ensures JpegScan(g + more, [], Intended) == JpegScan(more, [], Intended)
  {
    var b := g + more;
    assert b[|g|] == 0xFF;
    assert forall k :: 0 <= k < |g| ==> b[k] == g[k];
    assert FirstIndex(b, 0xFF, 0) == Some(|g|);
    assert b[|g|..] == more;
  }

  /** A frame header gives its size: width after height. */
  lemma JpegReadsFrame(m: byte, p: byte, h: nat, w: nat, payload: seq<byte>, more: seq<byte>)
    requires SofMarker(m) && 0 < h < 0x1_0000 && 0 < w < 0x1_0000 && |payload| + 7 < 0x1_0000
    ensures JpegScan([0xFF, m] + BE16Bytes(|payload| + 7) + [p] + BE16Bytes(h) + BE16Bytes(w) + payload + more, [], Intended) ==
      Some(Dims(w, h))
  {
    var head := [0xFF, m] + BE16Bytes(|payload| + 7) + [p] + BE16Bytes(h) + BE16Bytes(w);
    var b := head + (payload + more);
    assert b == [0xFF, m] + BE16Bytes(|payload| + 7) + [p] + BE16Bytes(h) + BE16Bytes(w) + payload + more;
    assert b[..9] == head;
    FrameHead(b, m, p, |payload| + 7, h, w);
    StepAtMarker(b);
    FrameSegment(b, m, Intended);
  }

  lemma FrameHead(b: seq<byte>, m: byte, p: byte, len: nat, h: nat, w: nat)
    requires len < 0x1_0000 && h < 0x1_0000 && w < 0x1_0000
    requires |b| >= 9 && b[..9] == [0xFF, m] + BE16Bytes(len) + [p] + BE16Bytes(h) + BE16Bytes(w)
    ensures b[0] == 0xFF && b[1] == m && BE16(b, 2) == len && BE16(b, 5) == h && BE16(b, 7) == w
  {
    var e := b[..9];
    assert b[0] == e[0] && b[1] == e[1] && b[2] == e[2] && b[3] == e[3];
    assert b[5] == e[5] && b[6] == e[6] && b[7] == e[7] && b[8] == e[8];
  }

  lemma FrameSegment(b: seq<byte>, m: byte, rd: Reading)
    requires |b| >= 9 && b[1] == m && SofMarker(m) && 7 <= BE16(b, 2) && 2 + BE16(b, 2) <= |b|
    requires BE16(b, 5) > 0 && BE16(b, 7) > 0
    ensures AtMarker(b, [], rd) == Done(Some(Dims(BE16(b, 7), BE16(b, 5))))
  {
    assert !Standalone(m, rd);
  }

  /** The smallest JPEG: start of image, then a frame header. */
  function MinimalJpeg(h: nat, w: nat): (file: seq<byte>)
    requires h < 0x1_0000 && w < 0x1_0000
    ensures |file| == 21 && file[..2] == Soi
  {
    Soi + MinimalFrame(h, w)
  }

  function MinimalFrame(h: nat, w: nat): (frame: seq<byte>)
    requires h < 0x1_0000 && w < 0x1_0000
    ensures |frame| == 19
  {
    [0xFF, 0xC0] + BE16Bytes(17) + [8] + BE16Bytes(h) + BE16Bytes(w) + [1, 1, 0x11, 0, 2, 0x11, 0, 3, 0x11, 0]
  }

  /** A file starting with SOI is sniffed by the JPEG scan. */
  lemma SniffJpegRoute(file: seq<byte>, rd: Reading)
    requires |file| >= 2 && file[..2] == Soi
    ensures var header := Header(file);
      SniffWith(Some(file), rd) == if rd == AsWritten && !Ascii(header) then None else JpegScan(header, file[|header|..], rd)
  {
    var header := Header(file);
    assert header[0] == 0xFF && header[1] == 0xD8;
    assert header[..2] == Soi;
    FirstByteDiffers(header, PngSignature);
    FirstByteDiffers(header, Gif87a);
    FirstByteDiffers(header, Gif89a);
    FirstByteDiffers(header, Riff);
  }

  lemma FirstByteDiffers(h: seq<byte>, p: seq<byte>)
    requires h != [] && p != [] && h[0] != p[0]
    ensures !StartsWith(h, p)
  {
    if |p| <= |h| {
      assert h[..|p|][0] != p[0];
    }
  }

  /** As intended, it gives its size. */
  lemma JpegSniffed(h: nat, w: nat)
    requires 0 < h < 0x1_0000 && 0 < w < 0x1_0000
    ensures Sniff(Some(MinimalJpeg(h, w))) == Some(Dims(w, h))
  {
    var file := MinimalJpeg(h, w);
    var frame := MinimalFrame(h, w);
    assert Header(file) == file && file[|file|..] == [];
    SniffJpegRoute(file, Intended);
    assert file == [0xFF, 0xD8] + frame;
    JpegSkipsStandalone(0xD8, frame);
    var payload: seq<byte> := [1, 1, 0x11, 0, 2, 0x11, 0, 3, 0x11, 0];
    assert frame == [0xFF, 0xC0] + BE16Bytes(|payload| + 7) + [8] + BE16Bytes(h) + BE16Bytes(w) + payload + [];
    JpegReadsFrame(0xC0, 8, h, w, payload, []);
  }

  /** As written, the start-of-image marker is read as a segment whose
      length is the next marker, 0xFFC0: far more than the file holds, so
      the scan ends there with nothing, even once a marker is found. */
  lemma JpegSoiAsWritten(h: nat, w: nat)
    requires h < 0x1_0000 && w < 0x1_0000
    ensures AtMarker(MinimalJpeg(h, w), [], AsWritten) == Done(None)
  {
    var b := MinimalJpeg(h, w);
    assert b[0] == 0xFF && b[1] == 0xD8 && b[2] == 0xFF && b[3] == 0xC0;
    assert BE16(b, 2) == 0xFFC0;
  }

  // ---------------------------------------------------------------- WebP files

  /** The two 14-bit fields of a VP8L header, less one each. */
  function Vp8lBits(a: nat, b: nat): (r: seq<byte>)
    requires a < 0x4000 && b < 0x4000
    ensures |r| == 4
  {
    [a % 0x100, a / 0x100 + (b % 4) * 0x40, (b / 4) % 0x100, b / 0x400]
  }

  /** The chunk tag and what `webp` reads after it lie in the header when
      the file holds them. */
  lemma WebpBufferHolds(file: seq<byte>, n: nat)
    requires |file| >= n && 20 <= n <= 64
    ensures var header := Header(file); var b := WebpBuffer(header, file[|header|..]);
      b.Some? && |b.value| >= n && b.value[..n] == file[..n]
  {
    var header := Header(file);
    assert header + file[|header|..] == file;
  }

  /** A file starting with RIFF....WEBP is sniffed by the WebP reader. */
  lemma SniffWebpRoute(file: seq<byte>, rd: Reading)
    requires |file| >= 12 && file[..4] == Riff && file[8..12] == Webp
    ensures var header := Header(file);
      SniffWith(Some(file), rd) == if rd == AsWritten && !Ascii(header) then None else WebpScan(header, file[|header|..], rd)
  {
    var header := Header(file);
    assert header[..4] == Riff && header[8..12] == Webp;
    assert header[0] == 0x52;
    FirstByteDiffers(header, PngSignature);
    FirstByteDiffers(header, Gif87a);
    FirstByteDiffers(header, Gif89a);
  }

  lemma Vp8lDecode(a: nat, b: nat)
    requires a < 0x4000 && b < 0x4000
    ensures var r := Vp8lBits(a, b);
      ((r[1] as int) % 0x40) * 0x100 + r[0] == a && ((r[3] as int) % 0x10) * 0x400 + (r[2] as int) * 4 + (r[1] as int) / 0x40 == b
  {
    var r := Vp8lBits(a, b);
    assert r[1] % 0x40 == a / 0x100 && r[1] / 0x40 == b % 4;
    assert r[3] % 0x10 == b / 0x400;
  }

  /** A WebP file with a VP8L first chunk gives its size, in both readings. */
  lemma Vp8lSniffed(file: seq<byte>, w: nat, h: nat, rd: Reading)
    requires |file| >= 25 && file[..4] == Riff && file[8..12] == Webp && file[12..16] == Vp8lTag
    requires 1 <= w <= 0x4000 && 1 <= h <= 0x4000 && file[21..25] == Vp8lBits(w - 1, h - 1)
    requires rd == AsWritten ==> Ascii(Header(file))
    ensures SniffWith(Some(file), rd) == Some(Dims(w, h))
  {
    var header := Header(file);
    SniffWebpRoute(file, rd);
    WebpBufferHolds(file, 25);
    var b := WebpBuffer(header, file[|header|..]).value;
    assert b[12..16] == Vp8lTag by { assert b[12..16] == b[..25][12..16]; }
    assert b[21..25] == Vp8lBits(w - 1, h - 1) by { assert b[21..25] == b[..25][21..25]; }
    Vp8lOf(b, w, h, rd);
  }

  lemma Vp8lOf(b: seq<byte>, w: nat, h: nat, rd: Reading)
    requires |b| >= 25 && b[12..16] == Vp8lTag
    requires 1 <= w <= 0x4000 && 1 <= h <= 0x4000 && b[21..25] == Vp8lBits(w - 1, h - 1)
    ensures WebpDims(b, rd) == Some(Dims(w, h))
  {
    assert b[12..16] != Vp8xTag && b[12..16] != Vp8Tag by { assert b[12..16][3] == 0x4C; }
    assert WebpDims(b, rd) == Vp8l(b);
    Vp8lReads(b, w - 1, h - 1);
  }

  lemma Vp8lReads(b: seq<byte>, a: nat, c: nat)
    requires |b| >= 25 && a < 0x4000 && c < 0x4000 && b[21..25] == Vp8lBits(a, c)
    ensures Vp8l(b) == Some(Dims(a + 1, c + 1))
  {
    var e := Vp8lBits(a, c);
    assert b[21] == e[0] && b[22] == e[1] && b[23] == e[2] && b[24] == e[3];
    Vp8lDecode(a, c);
    var b0: int, b1: int, b2: int, b3: int := b[21], b[22], b[23], b[24];
    assert (b1 % 0x40) * 0x100 + b0 == a;
    assert (b3 % 0x10) * 0x400 + b2 * 4 + b1 / 0x40 == c;
  }

  lemma ReadLE24(b: seq<byte>, i: nat, x: nat)
    requires i + 3 <= |b| && x < 0x100_0000 && b[i..i + 3] == LE24Bytes(x)
    ensures LE24(b, i) == x
  {
    var e := LE24Bytes(x);
    assert b[i] == e[0] && b[i + 1] == e[1] && b[i + 2] == e[2];
    assert LE16(e, 0) == x % 0x1_0000;
  }

  /** A VP8X first chunk gives the canvas size as intended; as written,
      the 3-byte `unpack1('V')` makes it fail. */
  lemma Vp8xOf(b: seq<byte>, w: nat, h: nat)
    requires |b| >= 30 && b[12..16] == Vp8xTag
    requires 1 <= w <= 0x100_0000 && 1 <= h <= 0x100_0000
    requires b[24..27] == LE24Bytes(w - 1) && b[27..30] == LE24Bytes(h - 1)
    ensures WebpDims(b, Intended) == Some(Dims(w, h))
    ensures WebpDims(b, AsWritten) == None
  {
    ReadLE24(b, 24, w - 1);
    ReadLE24(b, 27, h - 1);
    assert |b[24..27]| == 3;
  }

  /** A WebP file with a VP8X first chunk: sniffed as intended, `nil` as written. */
  lemma Vp8xSniffed(file: seq<byte>, w: nat, h: nat)
    requires |file| >= 30 && file[..4] == Riff && file[8..12] == Webp && file[12..16] == Vp8xTag
    requires 1 <= w <= 0x100_0000 && 1 <= h <= 0x100_0000
    requires file[24..27] == LE24Bytes(w - 1) && file[27..30] == LE24Bytes(h - 1)
    ensures Sniff(Some(file)) == Some(Dims(w, h))
    ensures SniffAsWritten(Some(file)) == None
  {
    var header := Header(file);
    SniffWebpRoute(file, Intended);
    SniffWebpRoute(file, AsWritten);
    WebpBufferHolds(file, 30);
    var b := WebpBuffer(header, file[|header|..]).value;
    assert b[12..16] == Vp8xTag by { assert b[12..16] == b[..30][12..16]; }
    assert b[24..27] == LE24Bytes(w - 1) by { assert b[24..27] == b[..30][24..27]; }
    assert b[27..30] == LE24Bytes(h - 1) by { assert b[27..30] == b[..30][27..30]; }
    Vp8xOf(b, w, h);
  }

  lemma SignatureSkip(b: seq<byte>, from: nat)
    requires from + 3 <= |b| && b[from] != 0x9D
    ensures SignatureFrom(b, from) == SignatureFrom(b, from + 1)
  {
  }

  /** The VP8 reader finds the start code after the 3-byte frame tag and
      reads the two words after it; as written it finds nothing. */
  lemma Vp8Of(b: seq<byte>, w: nat, h: nat)
    requires |b| >= 30 && b[12..16] == Vp8Tag
    requires b[20] != 0x9D && b[21] != 0x9D && b[22] != 0x9D && b[23..26] == Vp8Signature
    requires 1 <= w < 0x1_0000 && 1 <= h < 0x1_0000
    requires b[26..28] == LE16Bytes(w) && b[28..30] == LE16Bytes(h)
    ensures WebpDims(b, Intended) == Some(Dims(w, h))
    ensures WebpDims(b, AsWritten) == None
  {
    assert b[12..16] != Vp8xTag by { assert b[12..16][3] == 0x20; }
    SignatureSkip(b, 20);
    SignatureSkip(b, 21);
    SignatureSkip(b, 22);
    assert b[23] == 0x9D && b[24] == 0x01 && b[25] == 0x2A by { assert b[23..26][0] == b[23]; assert b[23..26][1] == b[24]; assert b[23..26][2] == b[25]; }
    assert SignatureFrom(b, 23) == Some(23);
    ReadLE16(b, 26, w);
    ReadLE16(b, 28, h);
  }

  /** A WebP file with a VP8 first chunk: sniffed as intended, `nil` as written. */
  lemma Vp8Sniffed(file: seq<byte>, w: nat, h: nat)
    requires |file| >= 30 && file[..4] == Riff && file[8..12] == Webp && file[12..16] == Vp8Tag
    requires file[20] != 0x9D && file[21] != 0x9D && file[22] != 0x9D && file[23..26] == Vp8Signature
    requires 1 <= w < 0x1_0000 && 1 <= h < 0x1_0000
    requires file[26..28] == LE16Bytes(w) && file[28..30] == LE16Bytes(h)
    ensures Sniff(Some(file)) == Some(Dims(w, h))
    ensures SniffAsWritten(Some(file)) == None
  {
    var header := Header(file);
    SniffWebpRoute(file, Intended);
    SniffWebpRoute(file, AsWritten);
    WebpBufferHolds(file, 30);
    var b := WebpBuffer(header, file[|header|..]).value;
    assert b[..30] == file[..30];
    assert b[12..16] == Vp8Tag by { assert b[12..16] == b[..30][12..16]; }
    assert b[20] == file[20] && b[21] == file[21] && b[22] == file[22] by { assert b[..30][20] == b[20]; assert b[..30][21] == b[21]; assert b[..30][22] == b[22]; }
    assert b[23..26] == Vp8Signature by { assert b[23..26] == b[..30][23..26]; }
    assert b[26..28] == LE16Bytes(w) by { assert b[26..28] == b[..30][26..28]; }
    assert b[28..30] == LE16Bytes(h) by { assert b[28..30] == b[..30][28..30]; }
    Vp8Of(b, w, h);
  }
}
