// The text decoder for `attributedBody` blobs: a fast path that reads the
// length-prefixed string after the first `NSString` marker of a typedstream,
// then a first-success-wins chain of a property-list tier, a heuristic tier
// that keeps the most sentence-like readable run, and a last resort that keeps
// the longest printable ASCII run that looks like user text.

module MessageDecoder {
  import opened Str
  import opened Utf8

  // ---------------------------------------------------------------- regex matchers

  /** Ruby's `\w`. */
  predicate IsWordChar(c: char) { IsAlnum(c) || c == '_' }

  predicate IsHexOrDash(c: char) { IsHexDigit(c) || c == '-' }

  /** A `\b` before position `p`, where `s[p]` is a word character. */
  predicate BoundaryBefore(s: string, p: nat) { p == 0 || (p <= |s| && !IsWordChar(s[p - 1])) }

  /** `at_<digits>_<hex or dash>`, case-insensitive, at `q`: the end of the match. */
  function PlaceholderCoreAt(s: string, q: nat): (r: Option<nat>)
    ensures r.Some? ==> q < r.value <= |s|
  {
    if q + 3 > |s| || Lower(s[q..q + 3]) != "at_" then None
    else
      var d := RunEnd(s, q + 3, IsDigit);
      if d == q + 3 || d == |s| || s[d] != '_' then None
      else
        var h := RunEnd(s, d + 1, IsHexOrDash);
        if h == d + 1 then None else Some(h)
  }

  /** The placeholder pattern `\)?at_\d+_[A-F0-9-]+` (case-insensitive) at `p`.
      An optional `)` is taken when the rest matches after it; without it the
      match would have to start at the `)` itself, which cannot happen. */
  function PlaceholderAt(s: string, p: nat): (r: Option<nat>)
    ensures r.Some? ==> p < r.value <= |s|
  {
    if p < |s| && s[p] == ')' then PlaceholderCoreAt(s, p + 1) else PlaceholderCoreAt(s, p)
  }

  /** `\bstreamtyped\b`, case-insensitive. */
  function StreamtypedAt(s: string, p: nat): (r: Option<nat>)
    ensures r.Some? ==> p < r.value <= |s|
  {
    if p + 11 <= |s| && BoundaryBefore(s, p) && Lower(s[p..p + 11]) == "streamtyped"
       && (p + 11 == |s| || !IsWordChar(s[p + 11]))
    then Some(p + 11) else None
  }

  /** `\$[a-zA-Z0-9_]+`. */
  function DollarWordAt(s: string, p: nat): (r: Option<nat>)
    ensures r.Some? ==> p < r.value <= |s|
  {
    if p < |s| && s[p] == '$' then
      var e := RunEnd(s, p + 1, IsWordChar);
      if e > p + 1 then Some(e) else None
    else None
  }

  /** `\b<prefix>[A-Za-z0-9_]+\b` for a prefix that starts with a word character:
      the word after the prefix runs to the end of the word. */
  function PrefixedWordAt(s: string, p: nat, prefix: string): (r: Option<nat>)
    ensures r.Some? ==> p < r.value <= |s|
  {
    if p + |prefix| < |s| && BoundaryBefore(s, p) && s[p..p + |prefix|] == prefix then
      var e := RunEnd(s, p + |prefix|, IsWordChar);
      if e > p + |prefix| then Some(e) else None
    else None
  }

  function NSWordAt(s: string, p: nat): (r: Option<nat>)
    ensures r.Some? ==> p < r.value <= |s|
  {
    PrefixedWordAt(s, p, "NS")
  }

  function KimWordAt(s: string, p: nat): (r: Option<nat>)
    ensures r.Some? ==> p < r.value <= |s|
  {
    PrefixedWordAt(s, p, "__kIM")
  }

  /** `gsub(pattern, rep)` from position `p`, for a pattern that never matches
      the empty string: `m(s, p)` is the end of its match at `p`. */
  function GsubFrom(s: string, p: nat, m: (string, nat) -> Option<nat>, rep: string): (r: string)
    requires p <= |s|
    decreases |s| - p
  {
    if p == |s| then []
    else
      match m(s, p)
      case Some(e) =>
        if p < e <= |s| then rep + GsubFrom(s, e, m, rep) else [s[p]] + GsubFrom(s, p + 1, m, rep)
      case None => [s[p]] + GsubFrom(s, p + 1, m, rep)
  }

  function Gsub(s: string, m: (string, nat) -> Option<nat>, rep: string): string
  {
    GsubFrom(s, 0, m, rep)
  }

  /** A pattern that matches nowhere leaves the string as it is. */
  lemma {:induction false} GsubNoMatch(s: string, p: nat, m: (string, nat) -> Option<nat>, rep: string)
    requires p <= |s|
    requires forall q :: p <= q < |s| ==> m(s, q).None?
    ensures GsubFrom(s, p, m, rep) == s[p..]
    decreases |s| - p
  {
    if p < |s| {
      GsubNoMatch(s, p + 1, m, rep);
      assert s[p..] == [s[p]] + s[p + 1..];
    }
  }

  /** Replacing matches with nothing only deletes characters. */
  lemma {:induction false} GsubDeletes(s: string, p: nat, m: (string, nat) -> Option<nat>)
    requires p <= |s|
    ensures forall c :: c in GsubFrom(s, p, m, "") ==> c in s[p..]
    decreases |s| - p
  {
    if p < |s| {
      match m(s, p)
      case Some(e) =>
        if p < e <= |s| {
          GsubDeletes(s, e, m);
          assert forall c :: c in s[e..] ==> c in s[p..];
        } else {
          GsubDeletes(s, p + 1, m);
          assert forall c :: c in s[p + 1..] ==> c in s[p..];
        }
      case None =>
        GsubDeletes(s, p + 1, m);
        assert forall c :: c in s[p + 1..] ==> c in s[p..];
    }
  }

  /** A string with no attachment placeholder in it. */
  predicate NoPlaceholder(s: string) { forall q :: 0 <= q < |s| ==> PlaceholderAt(s, q).None? }

  function RemovePlaceholders(s: string): string { Gsub(s, PlaceholderAt, "") }

  /** `gsub(/[\x00-\x1F\x7F]/, ' ')`. */
  predicate IsControl(c: char) { c as int <= 0x1F || c as int == 0x7F }

  function ControlsToSpace(s: string): (r: string)
    ensures |r| == |s|
    ensures forall i :: 0 <= i < |s| ==> r[i] == (if IsControl(s[i]) then ' ' else s[i])
  {
    if s == [] then [] else [if IsControl(s[0]) then ' ' else s[0]] + ControlsToSpace(s[1..])
  }

  // ---------------------------------------------------------------- tier 0: typedstream

  /** The bytes of "NSString". */
  const Marker: seq<byte> := [0x4E, 0x53, 0x53, 0x74, 0x72, 0x69, 0x6E, 0x67]

  /** The payload as text: ill-formed UTF-8 dropped, placeholders removed,
      whitespace squished. */
  function CleanPayload(raw: seq<byte>): (r: string)
    ensures Collapsed(r)
    ensures r == [] || (!IsStripChar(r[0]) && !IsStripChar(r[|r| - 1]))
  {
    SquishCollapsed(RemovePlaceholders(Scrub(raw)));
    Squish(RemovePlaceholders(Scrub(raw)))
  }

  /** Text already in the decoder's output form survives encoding and cleaning. */
  lemma {:induction false} CleanPayloadOfText(text: string)
    requires Squish(text) == text && NoPlaceholder(text)
    ensures CleanPayload(Encode(text)) == text
  {
    ScrubEncode(text);
    GsubNoMatch(text, 0, PlaceholderAt, "");
    assert text[0..] == text;
  }

  /** Tier 0 (`extract_nsstring_from_typedstream`): the payload after the
      first marker; nil when there is no marker. */
  function ExtractNSString(blob: seq<byte>): (r: Option<string>)
    ensures !Contains(blob, Marker) ==> r.None?
    ensures r.Some? ==> r.value != [] && Collapsed(r.value)
    ensures r.Some? ==> !IsStripChar(r.value[0]) && !IsStripChar(r.value[|r.value| - 1])
  {
    match IndexOf(blob, Marker)
    case None => None
    case Some(idx) =>
      match PayloadRange(blob, idx)
      case None => None
      case Some(span) => NonEmpty(CleanPayload(blob[span.0..span.1]))
  }

  /** Where the length-prefixed payload for a marker at `idx` lies. The length
      byte sits five metadata bytes after the marker; 0x81 announces a
      two-byte little-endian length. A read past the end gives nil. */
  function PayloadRange(blob: seq<byte>, idx: nat): (r: Option<(nat, nat)>)
    ensures r.Some? ==> idx + 14 <= r.value.0 <= r.value.1 <= |blob|
  {
    var cursor := idx + 8 + 5;  // past the 8-byte marker and 5 metadata bytes
    if cursor >= |blob| then None
    else
      var b0 := blob[cursor];
      // with 0x81, both length bytes must exist: `getbyte` past the end is nil
      if b0 == 0x81 && cursor + 2 >= |blob| then None
      else
        var len := if b0 == 0x81 then blob[cursor + 1] as int + blob[cursor + 2] as int * 256 else b0 as int;
        var start := if b0 == 0x81 then cursor + 3 else cursor + 1;
        if start + len > |blob| then None
        else Some((start, start + len))
  }

  function NonEmpty(s: string): (r: Option<string>)
    ensures r.None? <==> s == []
    ensures r.Some? ==> r.value == s
  {
    if s == [] then None else Some(s)
  }

  /** "NSString" does not overlap itself, so when a blob starts with
      `header + Marker` and `header` has no marker, the first marker is the one
      after `header`. */
  lemma {:induction false} FirstMarker(b: seq<byte>, header: seq<byte>)
    requires !Contains(header, Marker)
    requires |header| + 8 <= |b| && b[..|header| + 8] == header + Marker
    ensures IndexOf(b, Marker) == Some(|header|)
  {
    assert b[|header|..|header| + 8] == (header + Marker)[|header|..] == Marker;
    assert OccursAt(b, Marker, |header|);
    forall j: nat | j < |header| ensures !OccursAt(b, Marker, j) {
      if j + 8 <= |header| {
        assert header[j..j + 8] == b[j..j + 8];
        assert !OccursAt(header, Marker, j);
      } else {
        // a marker at j would put one of its later bytes on the 'N' that
        // starts the appended marker, and 'N' occurs only first in "NSString"
        var k := |header| - j;
        assert b[|header|] == 0x4E;
        assert b[j..j + 8][k] == b[|header|];
        assert Marker[k] != 0x4E;
      }
    }
  }

  /** A length byte other than 0x81 at marker + 13 is the payload length, and
      the payload starts right after it. */
  lemma {:induction false} ShortLengthRange(blob: seq<byte>, idx: nat)
    requires idx + 13 < |blob| && blob[idx + 13] != 0x81
    ensures var n := blob[idx + 13] as int;
      PayloadRange(blob, idx) == if idx + 14 + n > |blob| then None else Some((idx + 14, idx + 14 + n))
  {}

  /** 0x81 at marker + 13 announces a little-endian length in the next two
      bytes, and the payload starts after them; without both bytes there is
      no payload. */
  lemma {:induction false} LongLengthRange(blob: seq<byte>, idx: nat)
    requires idx + 13 < |blob| && blob[idx + 13] == 0x81
    ensures idx + 15 >= |blob| ==> PayloadRange(blob, idx).None?
    ensures idx + 15 < |blob| ==>
      var n := blob[idx + 14] as int + 256 * blob[idx + 15] as int;
      PayloadRange(blob, idx) == if idx + 16 + n > |blob| then None else Some((idx + 16, idx + 16 + n))
  {}

  /** The one-byte length prefix of a short payload. */
  function ShortPrefix(n: nat): (r: seq<byte>)
    requires n < 256 && n != 0x81
    ensures |r| == 1 && r[0] as int == n
  {
    [n]
  }

  /** The prefix of a payload whose length needs two bytes: 0x81, then the
      length little-endian. */
  function LongPrefix(n: nat): (r: seq<byte>)
    requires n < 0x1_0000
    ensures |r| == 3 && r[0] == 0x81 && r[1] as int + 256 * r[2] as int == n
  {
    [0x81, n % 256, n / 256]
  }

  /** A payload `e` framed after a first marker with a one-byte length is
      what tier 0 cleans. */
  lemma {:induction false} FramedShort(header: seq<byte>, meta: seq<byte>, e: seq<byte>, trailer: seq<byte>)
    requires !Contains(header, Marker) && |meta| == 5 && |e| < 256 && |e| != 0x81
    ensures ExtractNSString(header + Marker + meta + ShortPrefix(|e|) + e + trailer) == NonEmpty(CleanPayload(e))
  {
    var p := header + Marker + meta;
    var blob := p + ShortPrefix(|e|) + e + trailer;
    assert blob[..|header| + 8] == header + Marker;
    FirstMarker(blob, header);
    assert |p| == |header| + 13;
    assert blob[|p|] as int == |e|;
    assert blob[|p| + 1..|p| + 1 + |e|] == e;
    ShortLengthRange(blob, |header|);
  }

  /** The same with a two-byte little-endian length announced by 0x81. */
  lemma {:induction false} FramedLong(header: seq<byte>, meta: seq<byte>, e: seq<byte>, trailer: seq<byte>)
    requires !Contains(header, Marker) && |meta| == 5 && |e| < 0x1_0000
    ensures ExtractNSString(header + Marker + meta + LongPrefix(|e|) + e + trailer) == NonEmpty(CleanPayload(e))
  {
    var n := |e|;
    var p := header + Marker + meta;
    var pre := LongPrefix(n);
    var blob := p + pre + e + trailer;
    assert blob[..|header| + 8] == header + Marker;
    FirstMarker(blob, header);
    assert |p| == |header| + 13;
    assert blob[|p|] == 0x81 && blob[|p| + 1] == pre[1] && blob[|p| + 2] == pre[2];
    assert blob[|p| + 3..|p| + 3 + n] == e;
    LongLengthRange(blob, |header|);
  }

  /** Text in the decoder's output form, UTF-8 encoded and framed after a
      first marker with a one-byte length, decodes back to itself. */
  lemma {:induction false} FastPathRoundTripShort(header: seq<byte>, meta: seq<byte>, text: string, trailer: seq<byte>)
    requires !Contains(header, Marker) && |meta| == 5
    requires text != [] && Squish(text) == text && NoPlaceholder(text)
    requires |Encode(text)| < 256 && |Encode(text)| != 0x81
    ensures ExtractNSString(header + Marker + meta + ShortPrefix(|Encode(text)|) + Encode(text) + trailer) == Some(text)
  {
    FramedShort(header, meta, Encode(text), trailer);
    CleanPayloadOfText(text);
  }

  /** The same with a two-byte length. */
  lemma {:induction false} FastPathRoundTripLong(header: seq<byte>, meta: seq<byte>, text: string, trailer: seq<byte>)
    requires !Contains(header, Marker) && |meta| == 5
    requires text != [] && Squish(text) == text && NoPlaceholder(text)
    requires |Encode(text)| < 0x1_0000
    ensures ExtractNSString(header + Marker + meta + LongPrefix(|Encode(text)|) + Encode(text) + trailer) == Some(text)
  {
    FramedLong(header, meta, Encode(text), trailer);
    CleanPayloadOfText(text);
  }

  // ---------------------------------------------------------------- tier 1: property list

  /** The native value CFPropertyList produces, as far as the decoder looks
      at it. Data comes back as a binary String, so the decoder sees it as text. */
  datatype Plist =
    | PString(s: string)
    | PData(bytes: seq<byte>)
    | PDict(entries: map<string, Plist>)
    | PArray(items: seq<Plist>)
    | PBool(b: bool)
    | POther  // numbers, dates

  /** Ruby truthiness of a hash lookup: present and not `false`. */
  predicate Truthy(v: Option<Plist>) { v.Some? && v.value != PBool(false) }

  /** `is_a?(String)`: text, or data as a binary string. */
  predicate IsRubyString(v: Plist) { v.PString? || v.PData? }

  /** The characters of a value that is a Ruby string; data gives one per byte. */
  function RubyText(v: Plist): string
    requires IsRubyString(v)
  {
    if v.PString? then v.s else ByteChars(v.bytes)
  }

  /** A string `$objects.find` accepts: it does not start with `$`. */
  predicate PlainString(v: Plist) { IsRubyString(v) && !StartsWith(RubyText(v), "$") }

  function Get(m: map<string, Plist>, k: string): Option<Plist>
  {
    if k in m then Some(m[k]) else None
  }

  /** `$objects.find { String && !start_with?('$') }`: the first plain
      string, or nothing when there is none. */
  function FirstPlainString(items: seq<Plist>): (r: Option<Plist>)
    ensures r.None? <==> forall i :: 0 <= i < |items| ==> !PlainString(items[i])
    ensures r.Some? ==> exists i :: 0 <= i < |items| && items[i] == r.value && PlainString(items[i]) &&
                          forall j :: 0 <= j < i ==> !PlainString(items[j])
  {
    if items == [] then None
    else if PlainString(items[0]) then Some(items[0])
    else
      var r := FirstPlainString(items[1..]);
      assert forall i :: 0 <= i < |items| - 1 ==> items[1..][i] == items[i + 1];
      r
  }

  function ObjectsString(m: map<string, Plist>): Option<Plist>
  {
    match Get(m, "$objects")
    case Some(PArray(items)) => FirstPlainString(items)
    case _ => None
  }

  /** Tier 1: `parsed['NSString'] || parsed['NS.string'] || $objects.find{…}`,
      kept when it is a non-empty string. `parse` is CFPropertyList; None is a
      parse failure, which the tier rescues. A value without `empty?` (a
      number, a date, `true`) raises inside the rescued block, so it gives
      nothing too. */
  function PlistTier(blob: seq<byte>, parse: seq<byte> -> Option<Plist>): (r: Option<string>)
    ensures r.Some? ==> r.value != []
  {
    match parse(blob)
    case Some(PDict(m)) =>
      var a := Get(m, "NSString");
      var b := Get(m, "NS.string");
      var t := if Truthy(a) then a else if Truthy(b) then b else ObjectsString(m);
      if t.Some? && IsRubyString(t.value) && RubyText(t.value) != [] then Some(RubyText(t.value)) else None
    case _ => None
  }

  lemma PlistPrefersNSString(blob: seq<byte>, parse: seq<byte> -> Option<Plist>, s: string, m: map<string, Plist>)
    requires parse(blob) == Some(PDict(m)) && "NSString" in m && m["NSString"] == PString(s)
    ensures PlistTier(blob, parse) == if s == [] then None else Some(s)
  {}

  /** Without `NSString` or `NS.string`, the tier gives the first plain
      string of `$objects`, data included, whatever follows it. */
  lemma PlistObjectsFirst(blob: seq<byte>, parse: seq<byte> -> Option<Plist>, items: seq<Plist>, i: nat)
    requires parse(blob) == Some(PDict(map["$objects" := PArray(items)]))
    requires i < |items| && PlainString(items[i]) && RubyText(items[i]) != []
    requires forall j :: 0 <= j < i ==> !PlainString(items[j])
    ensures PlistTier(blob, parse) == Some(RubyText(items[i]))
  {
    var m := map["$objects" := PArray(items)];
    assert !Truthy(Get(m, "NSString")) && !Truthy(Get(m, "NS.string")) by {
      assert "NSString" !in m && "NS.string" !in m;
    }
    assert ObjectsString(m) == Some(items[i]) by {
      FirstPlainAt(items, i);
    }
  }

  /** A data object listed before the text is what the tier returns. */
  lemma PlistDataBeforeText(blob: seq<byte>, parse: seq<byte> -> Option<Plist>)
    requires parse(blob) == Some(PDict(map["$objects" := PArray([PString("$null"), PData([0x62, 0x69, 0x6E]), PString("hello")])]))
    ensures PlistTier(blob, parse) == Some("bin")
  {
    var items := [PString("$null"), PData([0x62, 0x69, 0x6E]), PString("hello")];
    assert !PlainString(items[0]) by { assert items[0].s[..1] == "$"; }
    assert RubyText(items[1]) == "bin" by {
      assert ByteChars([0x62, 0x69, 0x6E]) == ['b'] + ByteChars([0x69, 0x6E]);
      assert ByteChars([0x69, 0x6E]) == ['i'] + ByteChars([0x6E]);
      assert ByteChars([0x6E]) == ['n'] + ByteChars([]);
    }
    PlistObjectsFirst(blob, parse, items, 1);
  }

  lemma {:induction false} FirstPlainAt(items: seq<Plist>, i: nat)
    requires i < |items| && PlainString(items[i])
    requires forall j :: 0 <= j < i ==> !PlainString(items[j])
    ensures FirstPlainString(items) == Some(items[i])
    decreases i
  {
    if i > 0 {
      assert !PlainString(items[0]);
      assert items[1..][i - 1] == items[i];
      assert forall j :: 0 <= j < i - 1 ==> items[1..][j] == items[j + 1];
      FirstPlainAt(items[1..], i - 1);
    }
  }

  // ---------------------------------------------------------------- tier 2: heuristic

  /** The blob as text with archive markers blanked out and whitespace squished. */
  function Cleaned(blob: seq<byte>): (r: string)
    ensures Collapsed(r)
  {
    var t0 := ControlsToSpace(Scrub(blob));
    var t1 := Gsub(t0, StreamtypedAt, " ");
    var t2 := Gsub(t1, DollarWordAt, " ");
    var t3 := Gsub(t2, NSWordAt, " ");
    var t4 := Gsub(t3, KimWordAt, " ");
    SquishCollapsed(t4);
    Squish(t4)
  }

  function LetterCount(s: string): (n: nat)
    ensures n <= |s|
  {
    if s == [] then 0 else (if IsLetter(s[0]) then 1 else 0) + LetterCount(s[1..])
  }

  /** `[letter count, length]`, the heuristic's ranking. */
  function SentenceKey(s: string): Key { Key(LetterCount(s), |s|) }

  /** The runs of at least six letters, digits, punctuation and blanks the
      heuristic ranks. `punct` is the `\p{Punct}` class. */
  function HeuristicCandidates(blob: seq<byte>, punct: char -> bool): (r: seq<string>)
    ensures forall k :: 0 <= k < |r| ==> |r[k]| >= 6
  {
    Runs(Cleaned(blob), c => IsAlnum(c) || punct(c) || IsSpace(c), 6)
  }

  /** `strip`, placeholder characters removed, then `squish`. */
  function Polished(s: string): (r: string)
    ensures Collapsed(r)
  {
    SquishCollapsed(RemovePlaceholders(Strip(s)));
    Squish(RemovePlaceholders(Strip(s)))
  }

  /** Candidate `i` has the most letters, then the greatest length, and
      every earlier candidate has fewer letters, or as many and is shorter. */
  predicate MostSentenceLikeAt(c: seq<string>, i: int)
  {
    0 <= i < |c| &&
    (forall j :: 0 <= j < |c| ==>
       LetterCount(c[j]) < LetterCount(c[i]) || (LetterCount(c[j]) == LetterCount(c[i]) && |c[j]| <= |c[i]|)) &&
    (forall j :: 0 <= j < i ==>
       LetterCount(c[j]) < LetterCount(c[i]) || (LetterCount(c[j]) == LetterCount(c[i]) && |c[j]| < |c[i]|))
  }

  /** Text kept by tier 2: nothing when it is empty or the cleaned blob
      still starts with `bplist`. */
  function Kept(chosen: string, cleaned: string): Option<string>
  {
    if chosen == [] || StartsWith(cleaned, "bplist") then None else Some(chosen)
  }

  /** Tier 2: the most sentence-like run (the whole cleaned text when there
      is none), polished, unless that is empty or the blob is a property list. */
  function HeuristicTier(blob: seq<byte>, punct: char -> bool): (r: Option<string>)
    ensures r.Some? ==> r.value != [] && Collapsed(r.value) && !StartsWith(Cleaned(blob), "bplist")
    ensures HeuristicCandidates(blob, punct) == [] ==> r == Kept(Polished(Cleaned(blob)), Cleaned(blob))
    ensures HeuristicCandidates(blob, punct) != [] ==>
      exists i :: MostSentenceLikeAt(HeuristicCandidates(blob, punct), i) &&
        r == Kept(Polished(HeuristicCandidates(blob, punct)[i]), Cleaned(blob))
  {
    var cleaned := Cleaned(blob);
    var candidates := HeuristicCandidates(blob, punct);
    if candidates == [] then Kept(Polished(cleaned), cleaned)
    else
      var i := ArgMaxFirst(candidates, SentenceKey);
      HeuristicPicksMostSentenceLike(candidates);
      Kept(Polished(candidates[i]), cleaned)
  }

  /** The run the heuristic picks has the most letters, then the greatest
      length, and every earlier candidate ranks strictly lower. */
  lemma HeuristicPicksMostSentenceLike(candidates: seq<string>)
    requires candidates != []
    ensures MostSentenceLikeAt(candidates, ArgMaxFirst(candidates, SentenceKey))
  {
    var i := ArgMaxFirst(candidates, SentenceKey);
    forall j | 0 <= j < |candidates|
      ensures LetterCount(candidates[j]) < LetterCount(candidates[i])
         || (LetterCount(candidates[j]) == LetterCount(candidates[i]) && |candidates[j]| <= |candidates[i]|)
    {
      assert !KeyLess(SentenceKey(candidates[i]), SentenceKey(candidates[j]));
    }
    forall j | 0 <= j < i
      ensures LetterCount(candidates[j]) < LetterCount(candidates[i])
         || (LetterCount(candidates[j]) == LetterCount(candidates[i]) && |candidates[j]| < |candidates[i]|)
    {
      assert KeyLess(SentenceKey(candidates[j]), SentenceKey(candidates[i]));
    }
  }

  /** At most one candidate is the most sentence-like, so tier 2's choice is determined. */
  lemma MostSentenceLikeUnique(c: seq<string>, i: int, j: int)
    requires MostSentenceLikeAt(c, i) && MostSentenceLikeAt(c, j)
    ensures i == j
  {
    var li, lj, ni, nj := LetterCount(c[i]), LetterCount(c[j]), |c[i]|, |c[j]|;
    assert lj < li || (lj == li && nj <= ni);
    assert li < lj || (li == lj && ni <= nj);
    assert i < j ==> li < lj || (li == lj && ni < nj);
    assert j < i ==> lj < li || (lj == li && nj < ni);
  }

  // ---------------------------------------------------------------- tier 3: last resort

  /** A binary string's characters: one per byte. */
  function ByteChars(b: seq<byte>): (r: string)
    ensures |r| == |b| && forall i :: 0 <= i < |b| ==> r[i] as int == b[i]
  {
    if b == [] then [] else [b[0] as char] + ByteChars(b[1..])
  }

  predicate IsPrintableAscii(c: char) { 0x20 <= c as int <= 0x7E }

  /** `/^\$|^NS|^IM|^__kIM/`; the runs hold no newline, so `^` is the start. */
  predicate LooksLikeArchiveName(s: string)
  {
    StartsWith(s, "$") || StartsWith(s, "NS") || StartsWith(s, "IM") || StartsWith(s, "__kIM")
  }

  function LastResortCandidates(blob: seq<byte>): (r: seq<string>)
    ensures forall k :: 0 <= k < |r| ==> |r[k]| >= 4 && HasLetter(r[k]) && !LooksLikeArchiveName(r[k])
    ensures forall k, i :: 0 <= k < |r| && 0 <= i < |r[k]| ==> IsPrintableAscii(r[k][i])
  {
    var runs := Runs(ByteChars(blob), IsPrintableAscii, 4);
    var kept := Filter(runs, s => !LooksLikeArchiveName(s));
    var lettered := Filter(kept, HasLetter);
    assert forall s :: s in lettered ==> s in runs;
    lettered
  }

  function LengthKey(s: string): Key { Key(|s|, 0) }

  lemma StripKeepsLetter(s: string)
    requires HasLetter(s)
    ensures Strip(s) != []
  {
    var i :| 0 <= i < |s| && IsLetter(s[i]);
    assert !IsStripChar(s[i]);
    StripEmptyIffBlank(s);
  }

  /** Candidate `k` is a longest one, and every earlier one is shorter. */
  predicate IsFirstLongestAt(c: seq<string>, k: int)
  {
    0 <= k < |c| && (forall j :: 0 <= j < |c| ==> |c[j]| <= |c[k]|) && (forall j :: 0 <= j < k ==> |c[j]| < |c[k]|)
  }

  /** Tier 3: the longest candidate (the first of equal length), stripped. */
  function LastResort(blob: seq<byte>): (r: Option<string>)
    ensures r.Some? <==> LastResortCandidates(blob) != []
    ensures r.Some? ==> r.value != []
    ensures r.Some? ==> exists k :: IsFirstLongestAt(LastResortCandidates(blob), k) && r.value == Strip(LastResortCandidates(blob)[k])
  {
    var cands := LastResortCandidates(blob);
    if cands == [] then None
    else
      var k := ArgMaxFirst(cands, LengthKey);
      LongestPicked(cands);
      StripKeepsLetter(cands[k]);
      Some(Strip(cands[k]))
  }

  /** `max_by(&:length)` picks the first longest string. */
  lemma LongestPicked(c: seq<string>)
    requires c != []
    ensures IsFirstLongestAt(c, ArgMaxFirst(c, LengthKey))
  {
    var k := ArgMaxFirst(c, LengthKey);
    assert forall j :: 0 <= j < |c| ==> !KeyLess(LengthKey(c[k]), LengthKey(c[j]));
    assert forall j :: 0 <= j < k ==> KeyLess(LengthKey(c[j]), LengthKey(c[k]));
  }

  /** At most one candidate is the first longest. */
  lemma FirstLongestUnique(c: seq<string>, i: int, j: int)
    requires IsFirstLongestAt(c, i) && IsFirstLongestAt(c, j)
    ensures i == j
  {
    var ni, nj := |c[i]|, |c[j]|;
    assert ni <= nj && nj <= ni;
    assert i < j ==> ni < nj;
    assert j < i ==> nj < ni;
  }

  // ---------------------------------------------------------------- the chain

  /** `decode_attributed_body`: nil for no blob, otherwise the first tier
      that produces text, in the order typedstream, property list,
      heuristic, last resort. No tier can raise out of the decoder. */
  function DecodeAttributedBody(blob: Option<seq<byte>>, parse: seq<byte> -> Option<Plist>,
                                punct: char -> bool): (r: Option<string>)
    ensures blob.None? ==> r.None?
    ensures r.Some? ==> r.value != []
    ensures blob.Some? && ExtractNSString(blob.value).Some? ==> r == ExtractNSString(blob.value)
    ensures blob.Some? && ExtractNSString(blob.value).None? && PlistTier(blob.value, parse).Some? ==>
              r == PlistTier(blob.value, parse)
    ensures blob.Some? && ExtractNSString(blob.value).None? && PlistTier(blob.value, parse).None? &&
            HeuristicTier(blob.value, punct).Some? ==>
              r == HeuristicTier(blob.value, punct)
    ensures blob.Some? && ExtractNSString(blob.value).None? && PlistTier(blob.value, parse).None? &&
            HeuristicTier(blob.value, punct).None? ==>
              r == LastResort(blob.value)
    ensures blob.Some? && r.None? ==> LastResortCandidates(blob.value) == []
  {
    match blob
    case None => None
    case Some(b) =>
      var t0 := ExtractNSString(b);
      if t0.Some? then t0
      else
        var t1 := PlistTier(b, parse);
        if t1.Some? then t1
        else
          var t2 := HeuristicTier(b, punct);
          if t2.Some? then t2 else LastResort(b)
  }
}
