// The vCard reader: FN, EMAIL and TEL lines of a contacts export become a
// map from lower-cased email or normalised phone to a display name
// (RFC 6350, sections 6.2.1, 6.4.2 and 6.4.1), and handles are looked up
// in that map.

module Contacts {
  import opened Str

  // ---------------------------------------------------------------- values

  /** Every occurrence of `pat`, left to right and without overlap,
      replaced by `rep`: `gsub` with a plain string pattern. */
  function ReplaceAll(s: string, pat: string, rep: string): (r: string)
    requires pat != []
    ensures |rep| <= |pat| ==> |r| <= |s|
    ensures |rep| == |pat| ==> |r| == |s|
    decreases |s|
  {
    if |s| < |pat| then s
    else if s[..|pat|] == pat then rep + ReplaceAll(s[|pat|..], pat, rep)
    else [s[0]] + ReplaceAll(s[1..], pat, rep)
  }

  /** A string with no occurrence of `pat` is left as it is. */
  lemma {:induction false} ReplaceAbsent(s: string, pat: string, rep: string)
    requires pat != [] && !Contains(s, pat)
    ensures ReplaceAll(s, pat, rep) == s
    decreases |s|
  {
    if |s| >= |pat| {
      assert !OccursAt(s, pat, 0);
      assert !Contains(s[1..], pat) by {
        forall i: nat | i <= |s[1..]| ensures !OccursAt(s[1..], pat, i) {
          assert !OccursAt(s, pat, i + 1);
          if i + |pat| <= |s[1..]| {
            assert s[1..][i..i + |pat|] == s[i + 1..i + 1 + |pat|];
          }
        }
      }
      ReplaceAbsent(s[1..], pat, rep);
    }
  }

  /** `decode_value`: the vCard escapes `\n` and `\,` undone, then stripped. */
  function DecodeValue(v: string): (r: string)
    ensures r == [] || (!IsStripChar(r[0]) && !IsStripChar(r[|r| - 1]))
  {
    Strip(ReplaceAll(ReplaceAll(v, "\\n", " "), "\\,", ","))
  }

  /** A value without backslashes is only stripped. */
  lemma DecodePlain(v: string)
    requires '\\' !in v
    ensures DecodeValue(v) == Strip(v)
  {
    assert !Contains(v, "\\n") by {
      forall i: nat | i <= |v| ensures !OccursAt(v, "\\n", i) {
        if i + 2 <= |v| { assert v[i] == v[i..i + 2][0]; }
      }
    }
    assert !Contains(v, "\\,") by {
      forall i: nat | i <= |v| ensures !OccursAt(v, "\\,", i) {
        if i + 2 <= |v| { assert v[i] == v[i..i + 2][0]; }
      }
    }
    ReplaceAbsent(v, "\\n", " ");
    ReplaceAbsent(v, "\\,", ",");
  }

  /** `normalize_phone`: `+` and the digits, a leading 1 dropped from
      eleven digits; nil when there are no digits. */
  function NormalizePhone(s: string): (r: Option<string>)
    ensures r.None? <==> Digits(s) == []
    ensures r.Some? ==> |r.value| >= 2 && r.value[0] == '+' && AllDigits(r.value[1..])
    ensures r.Some? ==> r.value[1..] == (var d := Digits(s); if |d| == 11 && d[0] == '1' then d[1..] else d)
  {
    var d := Digits(s);
    if d == [] then None
    else
      var d2 := if |d| == 11 && d[0] == '1' then d[1..] else d;
      assert AllDigits(d2);
      Some("+" + d2)
  }

  /** A normalised phone normalises to itself. */
  lemma NormalizePhoneIdempotent(s: string)
    requires NormalizePhone(s).Some?
    ensures NormalizePhone(NormalizePhone(s).value) == NormalizePhone(s)
  {
    var r := NormalizePhone(s).value;
    assert r == "+" + r[1..];
    PlusDigits(r[1..]);
  }

  /** A ten-digit number and the same number with the country code 1
      normalise alike. */
  lemma NormalizePhoneCountryOne(d: string)
    requires |d| == 10 && AllDigits(d)
    ensures NormalizePhone("1" + d) == NormalizePhone(d)
  {
    DigitsAppend("1", d);
    assert Digits("1") == "1";
    assert ("1" + d)[1..] == d;
  }

  // ---------------------------------------------------------------- lines

  /** `each_line`: the pieces of `s`, each ending just after a newline
      except maybe the last. */
  function Lines(s: string): (ls: seq<string>)
    ensures forall i :: 0 <= i < |ls| ==> ls[i] != []
    decreases |s|
  {
    if s == [] then []
    else
      var e := LineEnd(s, 0);
      if e == |s| then [s] else [s[..e + 1]] + Lines(s[e + 1..])
  }

  /** What a stripped vCard line means to the reader. */
  datatype Line = Begin | Name(name: string) | Email(email: string) | Tel(phone: string) | End | Other

  /** The text after the first colon that follows the first occurrence of
      the field name `f` (lower case) in any case, when that text is not
      empty: the capture of `/F[^:]*:(.+)$/i` on a line without newlines.
      A later occurrence of the name would find the same colon or none. */
  function FieldValue(line: string, f: string): (v: Option<string>)
    requires f != []
    ensures v.Some? ==> v.value != [] && exists c :: 0 <= c < |line| && line[c] == ':' && v.value == line[c + 1..]
  {
    match IndexOf(Lower(line), f)
    case None => None
    case Some(p) =>
      match IndexFrom(line, ":", p + |f|)
      case None => None
      case Some(c) =>
        assert line[c..c + 1] == ":";
        assert line[c] == ':';
        if c + 1 < |line| then Some(line[c + 1..]) else None
  }

  /** The FN line's value, unescaped: `/^FN[:;](.+)$/i`. */
  function NameOf(line: string): (n: Option<string>)
    ensures n.Some? ==> |line| > 3 && (line[2] == ':' || line[2] == ';')
    ensures n.Some? ==> n.value == [] || (!IsStripChar(n.value[0]) && !IsStripChar(n.value[|n.value| - 1]))
    ensures |line| > 3 && line[..3] == "FN:" ==> n.Some?
  {
    if |line| > 3 && LowerChar(line[0]) == 'f' && LowerChar(line[1]) == 'n' && (line[2] == ':' || line[2] == ';')
    then Some(DecodeValue(line[3..]))
    else None
  }

  /** An EMAIL line's address, stripped and lower-cased, unless empty. */
  function EmailOf(line: string): (e: Option<string>)
    ensures e.Some? ==> e.value != [] && forall i :: 0 <= i < |e.value| ==> !IsUpper(e.value[i])
  {
    match FieldValue(line, "email")
    case None => None
    case Some(v) => var e := Lower(Strip(v)); if e == [] then None else Some(e)
  }

  /** A TEL line's phone, normalised, unless it has no digits. */
  function TelOf(line: string): (p: Option<string>)
    ensures p.Some? ==> |p.value| >= 2 && p.value[0] == '+' && AllDigits(p.value[1..])
  {
    match FieldValue(line, "tel")
    case None => None
    case Some(v) => var raw := Strip(v); if raw == [] then None else NormalizePhone(raw)
  }

  /** The `case` of `load_vcard` on one line, in its order: BEGIN, FN,
      EMAIL, TEL, END. A line that matches EMAIL or TEL but gives no key is
      passed over without trying the later patterns. */
  function Classify(raw: string): (k: Line)
    ensures k.Email? ==> k.email != [] && forall i :: 0 <= i < |k.email| ==> !IsUpper(k.email[i])
    ensures k.Tel? ==> |k.phone| >= 2 && k.phone[0] == '+' && AllDigits(k.phone[1..])
  {
    var line := Strip(raw);
    if StartsWith(Lower(line), "begin:vcard") then Begin
    else if NameOf(line).Some? then Name(NameOf(line).value)
    else if FieldValue(line, "email").Some? then (if EmailOf(line).Some? then Email(EmailOf(line).value) else Other)
    else if FieldValue(line, "tel").Some? then (if TelOf(line).Some? then Tel(TelOf(line).value) else Other)
    else if StartsWith(Lower(line), "end:vcard") then End
    else Other
  }

  // ---------------------------------------------------------------- the reader

  /** One line applied to the map and to the name in force: a card's start
      or end forgets the name, FN sets it, EMAIL and TEL store their key
      under the name, or under the key itself when no name is in force. */
  function Step(m: map<string, string>, cur: Option<string>, k: Line): (st: (map<string, string>, Option<string>))
    ensures KeyOf(k).Some? ==> st.0 == m[KeyOf(k).value := OrElse(cur, KeyOf(k).value)]
    ensures KeyOf(k).None? ==> st.0 == m
    ensures Resets(k) ==> st.1.None?
    ensures k.Name? ==> st.1 == Some(k.name)
    ensures !Resets(k) && !k.Name? ==> st.1 == cur
  {
    match k
    case Begin => (m, None)
    case End => (m, None)
    case Name(n) => (m, Some(n))
    case Email(e) => (m[e := OrElse(cur, e)], cur)
    case Tel(p) => (m[p := OrElse(cur, p)], cur)
    case Other => (m, cur)
  }

  /** The map and the name in force after the lines `ks`, starting from
      `m0` with no name. */
  function Run(m0: map<string, string>, ks: seq<Line>): (st: (map<string, string>, Option<string>))
    ensures m0.Keys <= st.0.Keys
    ensures ks != [] && Resets(ks[|ks| - 1]) ==> st.1.None?
    ensures ks != [] && ks[|ks| - 1].Name? ==> st.1 == Some(ks[|ks| - 1].name)
  {
    if ks == [] then (m0, None)
    else
      var st := Run(m0, ks[..|ks| - 1]);
      Step(st.0, st.1, ks[|ks| - 1])
  }

  function Kinds(ls: seq<string>): (ks: seq<Line>)
    ensures |ks| == |ls| && forall i :: 0 <= i < |ls| ==> ks[i] == Classify(ls[i])
  {
    seq(|ls|, i requires 0 <= i < |ls| => Classify(ls[i]))
  }

  predicate Resets(k: Line) { k.Begin? || k.End? }

  /** The map key a line writes. */
  function KeyOf(k: Line): (r: Option<string>)
  {
    match k
    case Email(e) => Some(e)
    case Tel(p) => Some(p)
    case _ => None
  }

  /** The name in force is that of the last FN line not followed by FN,
      BEGIN or END; there is none when every FN line is followed by BEGIN
      or END, so a name never carries over into the next card. */
  lemma {:induction false} NameInForce(m0: map<string, string>, ks: seq<Line>)
    ensures Run(m0, ks).1.Some? ==> (exists j :: 0 <= j < |ks| && ks[j] == Name(Run(m0, ks).1.value) && (forall l :: j < l < |ks| ==> !Resets(ks[l]) && !ks[l].Name?))
    ensures Run(m0, ks).1.None? ==> forall j :: 0 <= j < |ks| && ks[j].Name? ==> exists l :: j < l < |ks| && Resets(ks[l])
    decreases |ks|
  {
    if ks != [] {
      var p := ks[..|ks| - 1];
      var k := ks[|ks| - 1];
      var st := Run(m0, p);
      assert Run(m0, ks) == Step(st.0, st.1, k);
      NameInForce(m0, p);
      if Resets(k) {
        assert Run(m0, ks).1.None?;
        NoneAfterReset(ks);
      } else if k.Name? {
        assert Run(m0, ks).1 == Some(k.name);
        assert ks[|ks| - 1] == Name(Run(m0, ks).1.value);
      } else {
        assert Run(m0, ks).1 == st.1;
        CarryName(p, k, ks, st.1);
      }
    }
  }

  lemma NoneAfterReset(ks: seq<Line>)
    requires ks != [] && Resets(ks[|ks| - 1])
    ensures forall j :: 0 <= j < |ks| && ks[j].Name? ==> exists l :: j < l < |ks| && Resets(ks[l])
  {
    forall j | 0 <= j < |ks| && ks[j].Name? ensures exists l :: j < l < |ks| && Resets(ks[l]) {
      assert Resets(ks[|ks| - 1]);
    }
  }

  lemma CarryName(p: seq<Line>, k: Line, ks: seq<Line>, cur: Option<string>)
    requires ks == p + [k] && !Resets(k) && !k.Name?
    requires cur.Some? ==> (exists j :: 0 <= j < |p| && p[j] == Name(cur.value) && (forall l :: j < l < |p| ==> !Resets(p[l]) && !p[l].Name?))
    requires cur.None? ==> forall j :: 0 <= j < |p| && p[j].Name? ==> exists l :: j < l < |p| && Resets(p[l])
    ensures cur.Some? ==> (exists j :: 0 <= j < |ks| && ks[j] == Name(cur.value) && (forall l :: j < l < |ks| ==> !Resets(ks[l]) && !ks[l].Name?))
    ensures cur.None? ==> forall j :: 0 <= j < |ks| && ks[j].Name? ==> exists l :: j < l < |ks| && Resets(ks[l])
  {
    assert forall i :: 0 <= i < |p| ==> ks[i] == p[i];
    if cur.Some? {
      var j :| 0 <= j < |p| && p[j] == Name(cur.value) && forall l :: j < l < |p| ==> !Resets(p[l]) && !p[l].Name?;
      assert ks[j] == Name(cur.value);
    } else {
      forall j | 0 <= j < |ks| && ks[j].Name? ensures exists l :: j < l < |ks| && Resets(ks[l]) {
        assert j < |p| && p[j].Name?;
        var l :| j < l < |p| && Resets(p[l]);
        assert Resets(ks[l]);
      }
    }
  }

  /** A key is in the final map exactly when it was there before or some
      line writes it; a key no line writes keeps its value. */
  lemma {:induction false} EntryKeys(m0: map<string, string>, ks: seq<Line>, key: string)
    ensures key in Run(m0, ks).0 <==> key in m0 || exists i :: 0 <= i < |ks| && KeyOf(ks[i]) == Some(key)
    ensures (forall i :: 0 <= i < |ks| ==> KeyOf(ks[i]) != Some(key)) && key in m0 ==> Run(m0, ks).0[key] == m0[key]
    decreases |ks|
  {
    if ks != [] {
      var p := ks[..|ks| - 1];
      EntryKeys(m0, p, key);
      assert forall i :: 0 <= i < |p| ==> ks[i] == p[i];
      if exists i :: 0 <= i < |ks| && KeyOf(ks[i]) == Some(key) {
        var i :| 0 <= i < |ks| && KeyOf(ks[i]) == Some(key);
        if i < |p| { assert KeyOf(p[i]) == Some(key); }
      }
    }
  }

  /** The value of a key is the name in force at the last line that writes
      it, or the key itself when no name was in force: a later entry for the
      same key overwrites an earlier one. */
  lemma {:induction false} EntryValue(m0: map<string, string>, ks: seq<Line>, key: string, i: nat)
    requires i < |ks| && KeyOf(ks[i]) == Some(key)
    requires forall l :: i < l < |ks| ==> KeyOf(ks[l]) != Some(key)
    ensures key in Run(m0, ks).0 && Run(m0, ks).0[key] == OrElse(Run(m0, ks[..i]).1, key)
    decreases |ks|
  {
    var p := ks[..|ks| - 1];
    if i < |p| {
      assert forall l :: 0 <= l < |p| ==> ks[l] == p[l];
      EntryValue(m0, p, key, i);
      assert p[..i] == ks[..i];
    } else {
      assert p == ks[..i];
    }
  }

  /** The reader: a map from address or phone to name, filled by
      `LoadVcard` and read by `Lookup`. */
  class ContactsResolver {
    var entries: map<string, string>

    constructor ()
      ensures entries == map[]
    {
      entries := map[];
    }

    /** `load_vcard`: the lines of `text` in order, with the name in force
        carried from line to line. */
    method LoadVcard(text: string)
      modifies this
      ensures entries == Run(old(entries), Kinds(Lines(text))).0
    {
      var lines := Lines(text);
      ghost var ks := Kinds(lines);
      ghost var m0 := entries;
      var cur: Option<string> := None;
      for i := 0 to |lines|
        invariant (entries, cur) == Run(m0, ks[..i])
      {
        assert ks[..i + 1][..i] == ks[..i];
        assert Run(m0, ks[..i + 1]) == Step(entries, cur, ks[i]);
        match Classify(lines[i])
        case Begin => cur := None;
        case Name(n) => cur := Some(n);
        case Email(e) => entries := entries[e := if cur.Some? then cur.value else e];
        case Tel(p) => entries := entries[p := if cur.Some? then cur.value else p];
        case End => cur := None;
        case Other =>
      }
      assert ks[..|lines|] == ks;
    }

    /** `lookup`: an address is looked up lower-cased, anything else as a
        normalised phone; nil for nil or a phone without digits. */
    function Lookup(handle: Option<string>): (r: Option<string>)
      reads this
      ensures handle.None? ==> r.None?
      ensures handle.Some? && '@' in handle.value ==>
        r == (if Lower(handle.value) in entries then Some(entries[Lower(handle.value)]) else None)
      ensures handle.Some? && '@' !in handle.value ==>
        r == (var k := NormalizePhone(handle.value); if k.Some? && k.value in entries then Some(entries[k.value]) else None)
      ensures r.Some? ==> r.value in entries.Values
    {
      if handle.None? then None
      else
        var key := if '@' in handle.value then Some(Lower(handle.value)) else NormalizePhone(handle.value);
        if key.Some? && key.value in entries then Some(entries[key.value]) else None
    }
  }

  /** Two phone handles with the same digits look up alike, whatever their
      punctuation. */
  lemma LookupByDigits(c: ContactsResolver, a: string, b: string)
    requires '@' !in a && '@' !in b && Digits(a) == Digits(b)
    ensures c.Lookup(Some(a)) == c.Lookup(Some(b))
  {}
}
