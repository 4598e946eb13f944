// Identity resolution for group chats: the canonical form of a participant
// handle, the two lookup indexes built from the address book, the lookup of
// a handle's contact key, the group signature over a participant set, the
// buckets that coalesce chats with the same participants, and the names
// chosen or built for a group.

module Chats {
  import opened Str
  import opened AddressBook
  import HandleUtil

  // ---------------------------------------------------------------- metadata

  /** `compact`: the handles that are not NULL, in order. */
  function Compact(hs: seq<Option<string>>): (r: seq<string>)
    ensures |r| <= |hs|
    decreases |hs|
  {
    if hs == [] then [] else Compact(hs[..|hs| - 1]) + (if hs[|hs| - 1].Some? then [hs[|hs| - 1].value] else [])
  }

  /** `is_group`: more than one participant handle. */
  predicate IsGroup(handles: seq<Option<string>>)
  {
    |Compact(handles)| > 1
  }

  predicate TwoHandles(hs: seq<Option<string>>)
  {
    exists i, j :: 0 <= i < j < |hs| && hs[i].Some? && hs[j].Some?
  }

  /** A chat is a group exactly when two of its participant handles are not NULL. */
  lemma {:induction false} IsGroupIff(hs: seq<Option<string>>)
    ensures IsGroup(hs) <==> TwoHandles(hs)
    ensures |Compact(hs)| == 0 <==> forall i :: 0 <= i < |hs| ==> hs[i].None?
    decreases |hs|
  {
    if hs != [] {
      var p := hs[..|hs| - 1];
      var n := |hs| - 1;
      IsGroupIff(p);
      assert forall i :: 0 <= i < |p| ==> hs[i] == p[i];
      if TwoHandles(hs) {
        var i, j :| 0 <= i < j < |hs| && hs[i].Some? && hs[j].Some?;
        if j < n {
          assert p[i].Some? && p[j].Some?;
        } else {
          assert p[i].Some?;
        }
      }
      if |Compact(hs)| > 1 {
        if hs[n].None? {
          var i, j :| 0 <= i < j < |p| && p[i].Some? && p[j].Some?;
          assert hs[i].Some? && hs[j].Some?;
        } else {
          var i :| 0 <= i < |p| && p[i].Some?;
          assert hs[i].Some? && hs[n].Some?;
        }
      }
    }
  }

  // ---------------------------------------------------------------- canonical handles

  /** `canonicalize_handle_for_group`: an email-like handle is lower-cased,
      any other is `+` and the last ten (at most) digits of the
      un-canonicalised form, or of the handle; lower-cased when there are
      no digits. */
  function CanonicalizeHandleForGroup(hid: string, uncanon: Option<string>): (r: string)
    ensures Contains(Lower(hid), "@") ==> r == Lower(hid)
    ensures var d := Digits(OrElse(uncanon, Lower(hid)));
      !Contains(Lower(hid), "@") ==>
        (d == [] ==> r == Lower(hid)) &&
        (d != [] ==> r == "+" + d[|d| - Min(|d|, 10)..])
  {
    var s := Lower(hid);
    if Contains(s, "@") then s
    else
      var d0 := Digits(OrElse(uncanon, s));
      var d := if |d0| > 10 then d0[|d0| - 10..] else d0;
      if d == [] then s else "+" + d
  }


  lemma LowerFixed(s: string)
    requires forall i :: 0 <= i < |s| ==> !IsUpper(s[i])
    ensures Lower(s) == s
  {
  }

  lemma NoAt(s: string)
    requires forall i :: 0 <= i < |s| ==> s[i] != '@'
    ensures !Contains(s, "@")
  {
    forall i: nat | i <= |s| ensures !OccursAt(s, "@", i) {
      if i + 1 <= |s| {
        assert s[i..i + 1][0] == s[i];
      }
    }
  }

  /** `+` and at most ten digits is already canonical. */
  lemma PlusDigitsCanonical(d: string)
    requires AllDigits(d) && 1 <= |d| <= 10
    ensures CanonicalizeHandleForGroup("+" + d, None) == "+" + d
  {
    var r := "+" + d;
    assert forall i :: 0 <= i < |r| ==> r[i] == '+' || IsDigit(r[i]);
    LowerFixed(r);
    NoAt(r);
    assert r[1..] == d;
  }

  /** A canonical handle is its own canonical form, unless it came from an
      un-canonicalised id without digits (then the handle's own digits were
      never looked at). */
  lemma CanonicalizeIdempotent(hid: string, uncanon: Option<string>)
    requires uncanon.None? || Digits(uncanon.value) != []
    ensures var r := CanonicalizeHandleForGroup(hid, uncanon);
      CanonicalizeHandleForGroup(r, None) == r
  {
    var s := Lower(hid);
    var r := CanonicalizeHandleForGroup(hid, uncanon);
    LowerIdempotent(hid);
    if Contains(s, "@") {
      assert r == s;
    } else {
      var d0 := Digits(OrElse(uncanon, s));
      if d0 == [] {
        assert uncanon.None? && r == s;
      } else {
        var t := d0[|d0| - Min(|d0|, 10)..];
        assert r == "+" + t;
        PlusDigitsCanonical(t);
      }
    }
  }

  // ---------------------------------------------------------------- index writes

  /** One assignment into an index: `index[key] = value` when `force`,
      `index[key] ||= value` otherwise. */
  datatype Write = Write(key: string, value: string, force: bool)

  /** The index after the writes, in order. */
  function Apply(m: map<string, string>, ws: seq<Write>): (r: map<string, string>)
    decreases |ws|
  {
    if ws == [] then m
    else
      var p := Apply(m, ws[..|ws| - 1]);
      var w := ws[|ws| - 1];
      if w.force || w.key !in p then p[w.key := w.value] else p
  }

  lemma {:induction false} ApplyAppend(m: map<string, string>, a: seq<Write>, b: seq<Write>)
    ensures Apply(m, a + b) == Apply(Apply(m, a), b)
    decreases |b|
  {
    if b == [] {
      assert a + b == a;
    } else {
      assert (a + b)[..|a + b| - 1] == a + b[..|b| - 1];
      ApplyAppend(m, a, b[..|b| - 1]);
    }
  }

  predicate Forced(ws: seq<Write>, x: string) { exists i :: 0 <= i < |ws| && ws[i].key == x && ws[i].force }
  predicate Written(ws: seq<Write>, x: string) { exists i :: 0 <= i < |ws| && ws[i].key == x }

  /** Writes that all store the same value `v`: a forced write of `x`
      always leaves `v`; conditional writes leave `v` only when `x` was
      absent; otherwise `x` keeps what it had. */
  lemma {:induction false} ApplyUniform(m: map<string, string>, ws: seq<Write>, v: string, x: string)
    requires forall i :: 0 <= i < |ws| ==> ws[i].value == v
    ensures Forced(ws, x) ==> x in Apply(m, ws) && Apply(m, ws)[x] == v
    ensures !Forced(ws, x) && Written(ws, x) && x !in m ==> x in Apply(m, ws) && Apply(m, ws)[x] == v
    ensures !Forced(ws, x) && x in m ==> x in Apply(m, ws) && Apply(m, ws)[x] == m[x]
    ensures !Written(ws, x) ==> (x in Apply(m, ws) <==> x in m)
    decreases |ws|
  {
    if ws != [] {
      var p := ws[..|ws| - 1];
      var w := ws[|ws| - 1];
      ApplyUniform(m, p, v, x);
      assert forall i :: 0 <= i < |p| ==> ws[i] == p[i];
      if Forced(ws, x) && !Forced(p, x) {
        assert w.key == x && w.force;
      }
      if Written(ws, x) && !Written(p, x) {
        assert w.key == x;
      }
      if Forced(p, x) {
        var i :| 0 <= i < |p| && p[i].key == x && p[i].force;
        assert ws[i].key == x && ws[i].force;
      }
      if Written(p, x) {
        var i :| 0 <= i < |p| && p[i].key == x;
        assert ws[i].key == x;
      }
    }
  }

  /** Every key the writes leave was there before or was written. */
  lemma {:induction false} ApplyKeys(m: map<string, string>, ws: seq<Write>, x: string)
    ensures x in Apply(m, ws) <==> x in m || Written(ws, x)
    decreases |ws|
  {
    if ws != [] {
      var p := ws[..|ws| - 1];
      ApplyKeys(m, p, x);
      assert forall i :: 0 <= i < |p| ==> ws[i] == p[i];
      if Written(p, x) {
        var i :| 0 <= i < |p| && p[i].key == x;
        assert ws[i].key == x;
      }
      if Written(ws, x) && !Written(p, x) {
        assert ws[|ws| - 1].key == x;
      }
    }
  }

  /** Every value the writes leave was there before or was written. */
  lemma {:induction false} ApplyValues(m: map<string, string>, ws: seq<Write>, x: string)
    requires x in Apply(m, ws)
    ensures (x in m && Apply(m, ws)[x] == m[x]) || exists i :: 0 <= i < |ws| && ws[i].value == Apply(m, ws)[x]
    decreases |ws|
  {
    if ws != [] {
      var p := ws[..|ws| - 1];
      var w := ws[|ws| - 1];
      if !(w.key == x && (w.force || x !in Apply(m, p))) {
        ApplyValues(m, p, x);
        if !(x in m && Apply(m, ws)[x] == m[x]) {
          var i :| 0 <= i < |p| && p[i].value == Apply(m, p)[x];
          assert ws[i] == p[i];
        }
      }
    }
  }

  // ---------------------------------------------------------------- per-contact writes

  /** `/\A\+?\d[\d\s().-]*\z/`: an IM id that is a phone number. */
  predicate PhoneLikeId(s: string)
  {
    var t := if s != [] && s[0] == '+' then s[1..] else s;
    t != [] && IsDigit(t[0]) && forall i :: 1 <= i < |t| ==> HandleUtil.PhoneChar(t[i])
  }

  /** How an IM id enters the indexes: skipped when blank, as a phone
      (`tel:` removed) or as an exact, lower-cased id. */
  datatype ImKind = Skip | PhoneIm(phone: string) | IdIm(id: string)

  function ClassifyIm(mid: string): (k: ImKind)
  {
    var s := Strip(mid);
    if s == [] then Skip
    else if StartsWith(s, "tel:") then PhoneIm(s[4..])
    else if PhoneLikeId(s) then PhoneIm(s)
    else IdIm(Lower(s))
  }

  /** The phone-like IM ids, in order. */
  function ImPhones(ims: seq<string>): (ps: seq<string>)
    decreases |ims|
  {
    if ims == [] then [] else ImPhones(ims[..|ims| - 1]) + PhonePart(ClassifyIm(ims[|ims| - 1]))
  }

  function PhonePart(k: ImKind): seq<string> { if k.PhoneIm? then [k.phone] else [] }

  function ImIdWrites(ims: seq<string>, key: string): (ws: seq<Write>)
    decreases |ims|
  {
    if ims == [] then [] else ImIdWrites(ims[..|ims| - 1], key) + IdPart(ClassifyIm(ims[|ims| - 1]), key)
  }

  function IdPart(k: ImKind, key: string): seq<Write> { if k.IdIm? then [Write(k.id, key, true)] else [] }

  /** `id_index[x.downcase] = key` for each address. */
  function ExactWrites(xs: seq<string>, key: string): (ws: seq<Write>)
    decreases |xs|
  {
    if xs == [] then [] else ExactWrites(xs[..|xs| - 1], key) + [Write(Lower(xs[|xs| - 1]), key, true)]
  }

  /** The digit strings a phone's digits are indexed and looked up under,
      in the order they are tried: all the digits, then the digits without
      their first one, two and three (while at least seven remain), then
      the last ten (when there are ten). */
  function Variants(d: string): (vs: seq<string>)
    ensures forall i :: 0 <= i < |vs| ==> vs[i] != []
  {
    if d == [] then [] else [d] + DropVariants(d, 3) + (if |d| >= 10 then [d[|d| - 10..]] else [])
  }

  function DropVariants(d: string, n: nat): (vs: seq<string>)
    requires n <= 3
    ensures forall i :: 0 <= i < |vs| ==> |vs[i]| >= 7
    decreases n
  {
    if n == 0 then [] else DropVariants(d, n - 1) + (if |d| - n >= 7 then [d[n..]] else [])
  }

  /** The digit-index writes for one phone's digits: all the digits are
      forced, the shorter variants only fill absent keys. */
  function DigitWrites(d: string, key: string): (ws: seq<Write>)
  {
    if d == [] then [] else [Write(d, key, true)] + DropWrites(d, key, 3) + (if |d| >= 10 then [Write(d[|d| - 10..], key, false)] else [])
  }

  function DropWrites(d: string, key: string, n: nat): (ws: seq<Write>)
    requires n <= 3
    decreases n
  {
    if n == 0 then [] else DropWrites(d, key, n - 1) + (if |d| - n >= 7 then [Write(d[n..], key, false)] else [])
  }

  function PhoneDigitWrites(ps: seq<string>, key: string): (ws: seq<Write>)
    decreases |ps|
  {
    if ps == [] then [] else PhoneDigitWrites(ps[..|ps| - 1], key) + DigitWrites(Digits(ps[|ps| - 1]), key)
  }

  /** The phones of a contact, then its phone-like IM ids. */
  function PhoneLike(c: Contact): seq<string>
  {
    c.phones + ImPhones(c.imIds)
  }

  function ContactIdWrites(c: Contact): seq<Write>
  {
    ExactWrites(c.emails, c.key) + ImIdWrites(c.imIds, c.key) + ExactWrites(PhoneLike(c), c.key)
  }

  function ContactDigitWrites(c: Contact): seq<Write>
  {
    PhoneDigitWrites(PhoneLike(c), c.key)
  }

  function AllIdWrites(cs: seq<Contact>): seq<Write>
    decreases |cs|
  {
    if cs == [] then [] else AllIdWrites(cs[..|cs| - 1]) + ContactIdWrites(cs[|cs| - 1])
  }

  function AllDigitWrites(cs: seq<Contact>): seq<Write>
    decreases |cs|
  {
    if cs == [] then [] else AllDigitWrites(cs[..|cs| - 1]) + ContactDigitWrites(cs[|cs| - 1])
  }

  /** The id index over the contacts, in address-book order. */
  function IdIndex(cs: seq<Contact>): map<string, string>
  {
    Apply(map[], AllIdWrites(cs))
  }

  /** The digits index over the contacts, in address-book order. */
  function DigitsIndex(cs: seq<Contact>): map<string, string>
  {
    Apply(map[], AllDigitWrites(cs))
  }

  // ---------------------------------------------------------------- build_contact_indexes

  /** `build_contact_indexes`: one pass over the contacts filling both indexes. */
  method BuildContactIndexes(contacts: seq<Contact>) returns (idIndex: map<string, string>, digitsIndex: map<string, string>)
    ensures idIndex == IdIndex(contacts)
    ensures digitsIndex == DigitsIndex(contacts)
  {
    idIndex, digitsIndex := map[], map[];
    var i := 0;
    while i < |contacts|
      invariant 0 <= i <= |contacts|
      invariant idIndex == IdIndex(contacts[..i])
      invariant digitsIndex == DigitsIndex(contacts[..i])
    {
      assert contacts[..i + 1][..i] == contacts[..i];
      ApplyAppend(map[], AllIdWrites(contacts[..i]), ContactIdWrites(contacts[i]));
      ApplyAppend(map[], AllDigitWrites(contacts[..i]), ContactDigitWrites(contacts[i]));
      idIndex, digitsIndex := IndexContact(idIndex, digitsIndex, contacts[i]);
      i := i + 1;
    }
    assert contacts[..i] == contacts;
  }

  /** The body of the loop over contacts: emails, then IM ids (collecting
      the phone-like ones), then every phone-like string. */
  method IndexContact(id0: map<string, string>, dg0: map<string, string>, c: Contact)
    returns (idIndex: map<string, string>, digitsIndex: map<string, string>)
    ensures idIndex == Apply(id0, ContactIdWrites(c))
    ensures digitsIndex == Apply(dg0, ContactDigitWrites(c))
  {
    var id1 := IndexEmails(id0, c.emails, c.key);
    var id2, phoneLike := IndexIms(id1, c.imIds, c.key, c.phones);
    idIndex, digitsIndex := IndexPhones(id2, dg0, phoneLike, c.key);
    ContactWrites(id0, c);
  }

  /** `id_index[e.downcase] = key` for each email. */
  method IndexEmails(id0: map<string, string>, xs: seq<string>, key: string) returns (idIndex: map<string, string>)
    ensures idIndex == Apply(id0, ExactWrites(xs, key))
  {
    idIndex := id0;
    var j := 0;
    while j < |xs|
      invariant 0 <= j <= |xs|
      invariant idIndex == Apply(id0, ExactWrites(xs[..j], key))
    {
      ExactStep(id0, xs, j, key, idIndex);
      idIndex := idIndex[Lower(xs[j]) := key];
      j := j + 1;
    }
    assert xs[..j] == xs;
  }

  /** The IM-id loop: a phone-like id joins the phones, any other non-blank
      id is indexed exactly. */
  method IndexIms(id0: map<string, string>, ims: seq<string>, key: string, phones: seq<string>)
    returns (idIndex: map<string, string>, phoneLike: seq<string>)
    ensures idIndex == Apply(id0, ImIdWrites(ims, key))
    ensures phoneLike == phones + ImPhones(ims)
  {
    idIndex, phoneLike := id0, phones;
    var j := 0;
    assert phones + ImPhones(ims[..0]) == phones + [] == phones;
    while j < |ims|
      invariant 0 <= j <= |ims|
      invariant idIndex == Apply(id0, ImIdWrites(ims[..j], key))
      invariant phoneLike == phones + ImPhones(ims[..j])
    {
      ImStep(id0, ims, j, key, idIndex);
      var k := ClassifyIm(ims[j]);
      if k.IdIm? {
        idIndex := idIndex[k.id := key];
      }
      Assoc(phones, ImPhones(ims[..j]), PhonePart(k));
      phoneLike := phoneLike + PhonePart(k);
      j := j + 1;
    }
    assert ims[..j] == ims;
  }

  /** The phone loop: each phone-like string is indexed exactly and under
      its digit variants. */
  method IndexPhones(id0: map<string, string>, dg0: map<string, string>, ps: seq<string>, key: string)
    returns (idIndex: map<string, string>, digitsIndex: map<string, string>)
    ensures idIndex == Apply(id0, ExactWrites(ps, key))
    ensures digitsIndex == Apply(dg0, PhoneDigitWrites(ps, key))
  {
    idIndex, digitsIndex := id0, dg0;
    var j := 0;
    while j < |ps|
      invariant 0 <= j <= |ps|
      invariant idIndex == Apply(id0, ExactWrites(ps[..j], key))
      invariant digitsIndex == Apply(dg0, PhoneDigitWrites(ps[..j], key))
    {
      ExactStep(id0, ps, j, key, idIndex);
      PhoneStep(dg0, ps, j, key);
      idIndex := idIndex[Lower(ps[j]) := key];
      digitsIndex := IndexDigits(digitsIndex, Digits(ps[j]), key);
      j := j + 1;
    }
    assert ps[..j] == ps;
  }

  lemma ExactStep(m: map<string, string>, xs: seq<string>, j: nat, key: string, p: map<string, string>)
    requires j < |xs| && p == Apply(m, ExactWrites(xs[..j], key))
    ensures p[Lower(xs[j]) := key] == Apply(m, ExactWrites(xs[..j + 1], key))
  {
    assert xs[..j + 1][..j] == xs[..j];
    ApplySnoc(m, ExactWrites(xs[..j], key), Write(Lower(xs[j]), key, true));
  }

  /** One pass of the IM-id loop, as `ClassifyIm` describes it. */
  lemma ImStep(m: map<string, string>, ims: seq<string>, j: nat, key: string, p: map<string, string>)
    requires j < |ims| && p == Apply(m, ImIdWrites(ims[..j], key))
    ensures ImPhones(ims[..j + 1]) == ImPhones(ims[..j]) + PhonePart(ClassifyIm(ims[j]))
    ensures ClassifyIm(ims[j]).IdIm? ==> p[ClassifyIm(ims[j]).id := key] == Apply(m, ImIdWrites(ims[..j + 1], key))
    ensures !ClassifyIm(ims[j]).IdIm? ==> p == Apply(m, ImIdWrites(ims[..j + 1], key))
  {
    ImSnoc(ims, j, key);
    ApplyIdPart(m, ImIdWrites(ims[..j], key), ClassifyIm(ims[j]), key);
  }

  lemma ImSnoc(ims: seq<string>, j: nat, key: string)
    requires j < |ims|
    ensures ImPhones(ims[..j + 1]) == ImPhones(ims[..j]) + PhonePart(ClassifyIm(ims[j]))
    ensures ImIdWrites(ims[..j + 1], key) == ImIdWrites(ims[..j], key) + IdPart(ClassifyIm(ims[j]), key)
  {
    assert ims[..j + 1][..j] == ims[..j];
  }

  lemma ApplyIdPart(m: map<string, string>, ws: seq<Write>, k: ImKind, key: string)
    ensures k.IdIm? ==> Apply(m, ws + IdPart(k, key)) == Apply(m, ws)[k.id := key]
    ensures !k.IdIm? ==> Apply(m, ws + IdPart(k, key)) == Apply(m, ws)
  {
    if k.IdIm? {
      ApplySnoc(m, ws, Write(k.id, key, true));
    } else {
      assert ws + IdPart(k, key) == ws;
    }
  }

  lemma PhoneStep(m: map<string, string>, ps: seq<string>, j: nat, key: string)
    requires j < |ps|
    ensures Apply(m, PhoneDigitWrites(ps[..j + 1], key)) == Apply(Apply(m, PhoneDigitWrites(ps[..j], key)), DigitWrites(Digits(ps[j]), key))
  {
    assert ps[..j + 1][..j] == ps[..j];
    ApplyAppend(m, PhoneDigitWrites(ps[..j], key), DigitWrites(Digits(ps[j]), key));
  }

  /** The three groups of id writes, one after the other. */
  lemma ContactWrites(m: map<string, string>, c: Contact)
    ensures Apply(m, ContactIdWrites(c)) ==
      Apply(Apply(Apply(m, ExactWrites(c.emails, c.key)), ImIdWrites(c.imIds, c.key)), ExactWrites(PhoneLike(c), c.key))
  {
    ApplyAppend(m, ExactWrites(c.emails, c.key), ImIdWrites(c.imIds, c.key));
    ApplyAppend(m, ExactWrites(c.emails, c.key) + ImIdWrites(c.imIds, c.key), ExactWrites(PhoneLike(c), c.key));
  }

  /** The digit keys of one phone: all its digits overwrite, the shorter
      variants only fill absent keys. */
  method IndexDigits(dg0: map<string, string>, d: string, key: string) returns (digitsIndex: map<string, string>)
    ensures digitsIndex == Apply(dg0, DigitWrites(d, key))
  {
    digitsIndex := dg0;
    if d != [] {
      digitsIndex := IndexDropVariants(digitsIndex[d := key], d, key);
      ghost var m1 := digitsIndex;
      if |d| >= 10 {
        var last := d[|d| - 10..];
        if last !in digitsIndex {
          digitsIndex := digitsIndex[last := key];
        }
      }
      DigitStep(dg0, d, key, m1);
    }
  }

  /** `1.upto(3)`: the digits without their first one, two and three, each
      only while seven digits remain and only into an absent key. */
  method IndexDropVariants(dg0: map<string, string>, d: string, key: string) returns (digitsIndex: map<string, string>)
    ensures digitsIndex == Apply(dg0, DropWrites(d, key, 3))
  {
    digitsIndex := dg0;
    var drop := 1;
    while drop <= 3
      invariant 1 <= drop <= 4
      invariant digitsIndex == Apply(dg0, DropWrites(d, key, drop - 1))
    {
      if |d| - drop >= 7 {
        DropStep(d, key, drop, dg0, digitsIndex);
        var sfx := d[drop..];
        if sfx !in digitsIndex {
          digitsIndex := digitsIndex[sfx := key];
        }
      } else {
        DropSkip(d, key, drop);
      }
      drop := drop + 1;
    }
  }

  /** One pass of the `1.upto(3)` loop that writes a shorter variant. */
  lemma DropStep(d: string, key: string, drop: nat, m: map<string, string>, p: map<string, string>)
    requires 1 <= drop <= 3 && |d| - drop >= 7
    requires p == Apply(m, DropWrites(d, key, drop - 1))
    ensures (if d[drop..] !in p then p[d[drop..] := key] else p) == Apply(m, DropWrites(d, key, drop))
  {
    assert DropWrites(d, key, drop) == DropWrites(d, key, drop - 1) + [Write(d[drop..], key, false)];
    ApplySnoc(m, DropWrites(d, key, drop - 1), Write(d[drop..], key, false));
  }

  /** A pass that leaves fewer than seven digits writes nothing. */
  lemma DropSkip(d: string, key: string, drop: nat)
    requires 1 <= drop <= 3 && |d| - drop < 7
    ensures DropWrites(d, key, drop) == DropWrites(d, key, drop - 1)
  {
    assert DropWrites(d, key, drop) == DropWrites(d, key, drop - 1) + [];
  }

  lemma ApplySnoc(m: map<string, string>, ws: seq<Write>, w: Write)
    ensures var p := Apply(m, ws);
      Apply(m, ws + [w]) == if w.force || w.key !in p then p[w.key := w.value] else p
  {
    assert (ws + [w])[..|ws|] == ws;
  }

  /** The writes of one phone's digits, split as the loop performs them. */
  lemma DigitStep(m: map<string, string>, d: string, key: string, m1: map<string, string>)
    requires d != [] && m1 == Apply(m[d := key], DropWrites(d, key, 3))
    ensures Apply(m, DigitWrites(d, key)) ==
      if |d| >= 10 && d[|d| - 10..] !in m1 then m1[d[|d| - 10..] := key] else m1
  {
    var w := [Write(d, key, true)];
    var dw := DropWrites(d, key, 3);
    assert Apply(m, w) == m[d := key] by {
      assert w[..0] == [];
    }
    ApplyAppend(m, w, dw);
    assert Apply(m, w + dw) == m1;
    if |d| >= 10 {
      var l := Write(d[|d| - 10..], key, false);
      ApplySnoc(m, w + dw, l);
      assert DigitWrites(d, key) == w + dw + [l];
    } else {
      assert DigitWrites(d, key) == w + dw;
    }
  }

  // ---------------------------------------------------------------- what the indexes hold

  lemma {:induction false} ForcedAppend(a: seq<Write>, b: seq<Write>, x: string)
    ensures Forced(a + b, x) <==> Forced(a, x) || Forced(b, x)
    ensures Written(a + b, x) <==> Written(a, x) || Written(b, x)
  {
    if Forced(a + b, x) {
      var i :| 0 <= i < |a + b| && (a + b)[i].key == x && (a + b)[i].force;
      if i >= |a| { assert b[i - |a|] == (a + b)[i]; } else { assert a[i] == (a + b)[i]; }
    }
    if Written(a + b, x) {
      var i :| 0 <= i < |a + b| && (a + b)[i].key == x;
      if i >= |a| { assert b[i - |a|] == (a + b)[i]; } else { assert a[i] == (a + b)[i]; }
    }
    if Forced(a, x) {
      var i :| 0 <= i < |a| && a[i].key == x && a[i].force;
      assert (a + b)[i] == a[i];
    }
    if Written(a, x) {
      var i :| 0 <= i < |a| && a[i].key == x;
      assert (a + b)[i] == a[i];
    }
    if Forced(b, x) {
      var i :| 0 <= i < |b| && b[i].key == x && b[i].force;
      assert (a + b)[|a| + i] == b[i];
    }
    if Written(b, x) {
      var i :| 0 <= i < |b| && b[i].key == x;
      assert (a + b)[|a| + i] == b[i];
    }
  }

  predicate AllValues(ws: seq<Write>, v: string) { forall i :: 0 <= i < |ws| ==> ws[i].value == v }

  /** The exact writes are the lower-cased addresses, in order, all forced. */
  lemma {:induction false} ExactWritesShape(xs: seq<string>, key: string)
    ensures |ExactWrites(xs, key)| == |xs|
    ensures forall i :: 0 <= i < |xs| ==> ExactWrites(xs, key)[i] == Write(Lower(xs[i]), key, true)
    decreases |xs|
  {
    if xs != [] {
      var p := xs[..|xs| - 1];
      ExactWritesShape(p, key);
      assert forall i :: 0 <= i < |p| ==> xs[i] == p[i];
    }
  }

  lemma {:induction false} ImIdWritesValues(ims: seq<string>, key: string)
    ensures AllValues(ImIdWrites(ims, key), key)
    decreases |ims|
  {
    if ims != [] {
      ImIdWritesValues(ims[..|ims| - 1], key);
    }
  }

  /** The shorter variants are written in the order `DropVariants` lists them, none forced. */
  lemma {:induction false} DropWritesShape(d: string, key: string, n: nat)
    requires n <= 3
    ensures |DropWrites(d, key, n)| == |DropVariants(d, n)|
    ensures forall i :: 0 <= i < |DropVariants(d, n)| ==> DropWrites(d, key, n)[i] == Write(DropVariants(d, n)[i], key, false)
    decreases n
  {
    if n > 0 {
      DropWritesShape(d, key, n - 1);
    }
  }

  /** One phone's digit writes cover exactly its lookup variants; only the
      full digit string is forced. */
  lemma DigitWritesShape(d: string, key: string)
    ensures |DigitWrites(d, key)| == |Variants(d)|
    ensures forall i :: 0 <= i < |Variants(d)| ==> DigitWrites(d, key)[i].key == Variants(d)[i]
    ensures AllValues(DigitWrites(d, key), key)
    ensures forall i :: 0 <= i < |Variants(d)| ==> (DigitWrites(d, key)[i].force <==> i == 0)
  {
    if d != [] {
      DropWritesShape(d, key, 3);
      var vs, ws := Variants(d), DigitWrites(d, key);
      var dv, dw := DropVariants(d, 3), DropWrites(d, key, 3);
      var tv: seq<string> := if |d| >= 10 then [d[|d| - 10..]] else [];
      var tw: seq<Write> := if |d| >= 10 then [Write(d[|d| - 10..], key, false)] else [];
      assert vs == [d] + dv + tv;
      assert ws == [Write(d, key, true)] + dw + tw;
      forall i | 0 <= i < |ws| ensures ws[i] == Write(vs[i], key, i == 0) {
        if 0 < i <= |dw| {
          assert ws[i] == dw[i - 1] && vs[i] == dv[i - 1];
        } else if i > |dw| {
          assert ws[i] == tw[0] && vs[i] == tv[0];
        }
      }
    }
  }

  /** Every variant is a suffix of the digits. */
  lemma {:induction false} DropVariantsSuffix(d: string, n: nat)
    requires n <= 3
    ensures forall i :: 0 <= i < |DropVariants(d, n)| ==> EndsWith(d, DropVariants(d, n)[i])
    decreases n
  {
    if n > 0 {
      DropVariantsSuffix(d, n - 1);
    }
  }

  lemma VariantsDigits(d: string)
    requires AllDigits(d)
    ensures forall i :: 0 <= i < |Variants(d)| ==> AllDigits(Variants(d)[i])
  {
    DropVariantsSuffix(d, 3);
    forall i | 0 <= i < |Variants(d)| ensures AllDigits(Variants(d)[i]) {
      var v := Variants(d)[i];
      assert EndsWith(d, v) by {
        if i > 0 && i <= |DropVariants(d, 3)| {
          assert v == DropVariants(d, 3)[i - 1];
        }
      }
      assert forall k :: 0 <= k < |v| ==> v[k] == d[|d| - |v| + k];
    }
  }

  lemma ValuesAppend(a: seq<Write>, b: seq<Write>, v: string)
    requires AllValues(a, v) && AllValues(b, v)
    ensures AllValues(a + b, v)
  {
    forall i | 0 <= i < |a + b| ensures (a + b)[i].value == v {
      if i >= |a| { assert (a + b)[i] == b[i - |a|]; } else { assert (a + b)[i] == a[i]; }
    }
  }

  lemma {:induction false} PhoneDigitValues(ps: seq<string>, key: string)
    ensures AllValues(PhoneDigitWrites(ps, key), key)
    decreases |ps|
  {
    if ps != [] {
      PhoneDigitValues(ps[..|ps| - 1], key);
      DigitWritesShape(Digits(ps[|ps| - 1]), key);
      ValuesAppend(PhoneDigitWrites(ps[..|ps| - 1], key), DigitWrites(Digits(ps[|ps| - 1]), key), key);
    }
  }

  /** A forced digit key is the digit string of one of the phones; every
      written key is a non-empty string of digits. */
  lemma {:induction false} PhoneDigitKeys(ps: seq<string>, key: string, x: string)
    ensures Forced(PhoneDigitWrites(ps, key), x) ==> exists j :: 0 <= j < |ps| && Digits(ps[j]) == x
    ensures Written(PhoneDigitWrites(ps, key), x) ==> x != [] && AllDigits(x)
    decreases |ps|
  {
    if ps != [] {
      var p, d := ps[..|ps| - 1], Digits(ps[|ps| - 1]);
      var ws := DigitWrites(d, key);
      PhoneDigitKeys(p, key, x);
      ForcedAppend(PhoneDigitWrites(p, key), ws, x);
      DigitWritesShape(d, key);
      VariantsDigits(d);
      if Forced(ws, x) {
        var i :| 0 <= i < |ws| && ws[i].key == x && ws[i].force;
        assert i == 0;
      }
      if Written(ws, x) {
        var i :| 0 <= i < |ws| && ws[i].key == x;
        assert x == Variants(d)[i];
      }
      if exists j :: 0 <= j < |p| && Digits(p[j]) == x {
        var j :| 0 <= j < |p| && Digits(p[j]) == x;
        assert ps[j] == p[j];
      }
    }
  }

  /** Every phone's digit string, and every lookup variant of it, is written. */
  lemma {:induction false} PhoneDigitWritten(ps: seq<string>, key: string, j: nat, x: string)
    requires j < |ps| && x in Variants(Digits(ps[j]))
    ensures Written(PhoneDigitWrites(ps, key), x)
    ensures x == Digits(ps[j]) ==> Forced(PhoneDigitWrites(ps, key), x)
    decreases |ps|
  {
    var p := ps[..|ps| - 1];
    var d := Digits(ps[|ps| - 1]);
    var a, b := PhoneDigitWrites(p, key), DigitWrites(d, key);
    assert PhoneDigitWrites(ps, key) == a + b;
    ForcedAppend(a, b, x);
    if j < |ps| - 1 {
      assert Written(a, x) && (x == Digits(ps[j]) ==> Forced(a, x)) by {
        assert p[j] == ps[j];
        PhoneDigitWritten(p, key, j, x);
      }
    } else {
      assert Written(b, x) && (x == Digits(ps[j]) ==> Forced(b, x)) by {
        DigitWritesCover(d, key, x);
      }
    }
  }


  lemma DigitWritesCover(d: string, key: string, x: string)
    requires x in Variants(d)
    ensures Written(DigitWrites(d, key), x)
    ensures x == d ==> Forced(DigitWrites(d, key), x)
  {
    var ws := DigitWrites(d, key);
    DigitWritesShape(d, key);
    var i :| 0 <= i < |Variants(d)| && Variants(d)[i] == x;
    assert ws[i].key == x;
    if x == d {
      assert ws[0] == Write(d, key, true);
    }
  }

  /** Every write of a contact stores its key. */
  lemma ContactValues(c: Contact)
    ensures AllValues(ContactIdWrites(c), c.key)
    ensures AllValues(ContactDigitWrites(c), c.key)
  {
    ExactWritesShape(c.emails, c.key);
    ImIdWritesValues(c.imIds, c.key);
    ExactWritesShape(PhoneLike(c), c.key);
    ValuesAppend(ExactWrites(c.emails, c.key), ImIdWrites(c.imIds, c.key), c.key);
    ValuesAppend(ExactWrites(c.emails, c.key) + ImIdWrites(c.imIds, c.key), ExactWrites(PhoneLike(c), c.key), c.key);
    PhoneDigitValues(PhoneLike(c), c.key);
  }

  /** Each address and phone-like string of a contact is an exact, forced id write. */
  lemma ContactIdForced(c: Contact, e: string)
    requires e in c.emails || e in PhoneLike(c)
    ensures Forced(ContactIdWrites(c), Lower(e))
  {
    var a, b, p := ExactWrites(c.emails, c.key), ImIdWrites(c.imIds, c.key), ExactWrites(PhoneLike(c), c.key);
    ForcedAppend(a, b, Lower(e));
    ForcedAppend(a + b, p, Lower(e));
    if e in c.emails {
      ExactWritesShape(c.emails, c.key);
      var i :| 0 <= i < |c.emails| && c.emails[i] == e;
      assert a[i] == Write(Lower(e), c.key, true);
    } else {
      ExactWritesShape(PhoneLike(c), c.key);
      var i :| 0 <= i < |PhoneLike(c)| && PhoneLike(c)[i] == e;
      assert p[i] == Write(Lower(e), c.key, true);
    }
  }

  /** Adding one contact applies its writes to the indexes so far. */
  lemma IndexStep(cs: seq<Contact>, c: Contact)
    ensures IdIndex(cs + [c]) == Apply(IdIndex(cs), ContactIdWrites(c))
    ensures DigitsIndex(cs + [c]) == Apply(DigitsIndex(cs), ContactDigitWrites(c))
  {
    assert (cs + [c])[..|cs|] == cs;
    ApplyAppend(map[], AllIdWrites(cs), ContactIdWrites(c));
    ApplyAppend(map[], AllDigitWrites(cs), ContactDigitWrites(c));
  }

  /** A contact's own addresses and phone-like strings map to it in the id
      index, whatever earlier contacts wrote: exact writes override. */
  lemma IdIndexOwnAddress(cs: seq<Contact>, c: Contact, e: string)
    requires e in c.emails || e in PhoneLike(c)
    ensures Lower(e) in IdIndex(cs + [c]) && IdIndex(cs + [c])[Lower(e)] == c.key
  {
    IndexStep(cs, c);
    ContactValues(c);
    ContactIdForced(c, e);
    ApplyUniform(IdIndex(cs), ContactIdWrites(c), c.key, Lower(e));
  }

  /** All the digits of a contact's phone map to it: the full digit string is
      a forced write. */
  lemma DigitsIndexOwnPhone(cs: seq<Contact>, c: Contact, p: string)
    requires p in PhoneLike(c) && Digits(p) != []
    ensures Digits(p) in DigitsIndex(cs + [c]) && DigitsIndex(cs + [c])[Digits(p)] == c.key
  {
    var j :| 0 <= j < |PhoneLike(c)| && PhoneLike(c)[j] == p;
    assert Variants(Digits(p))[0] == Digits(p);
    PhoneDigitWritten(PhoneLike(c), c.key, j, Digits(p));
    IndexStep(cs, c);
    ContactValues(c);
    ApplyUniform(DigitsIndex(cs), ContactDigitWrites(c), c.key, Digits(p));
  }

  /** A shorter variant only fills a key no earlier contact took. */
  lemma DigitsIndexFillsVariant(cs: seq<Contact>, c: Contact, p: string, x: string)
    requires p in PhoneLike(c) && x in Variants(Digits(p)) && x !in DigitsIndex(cs)
    ensures x in DigitsIndex(cs + [c]) && DigitsIndex(cs + [c])[x] == c.key
  {
    var j :| 0 <= j < |PhoneLike(c)| && PhoneLike(c)[j] == p;
    PhoneDigitWritten(PhoneLike(c), c.key, j, x);
    IndexStep(cs, c);
    ContactValues(c);
    ApplyUniform(DigitsIndex(cs), ContactDigitWrites(c), c.key, x);
  }

  /** A digit key that is not the full digit string of one of the new
      contact's phones keeps the contact that took it first. */
  lemma DigitsIndexKeepsEarlier(cs: seq<Contact>, c: Contact, x: string)
    requires x in DigitsIndex(cs)
    requires forall p :: p in PhoneLike(c) ==> Digits(p) != x
    ensures x in DigitsIndex(cs + [c]) && DigitsIndex(cs + [c])[x] == DigitsIndex(cs)[x]
  {
    PhoneDigitKeys(PhoneLike(c), c.key, x);
    IndexStep(cs, c);
    ContactValues(c);
    ApplyUniform(DigitsIndex(cs), ContactDigitWrites(c), c.key, x);
  }

  /** Every value in either index is the key of one of the contacts. */
  lemma {:induction false} IndexValuesAreKeys(cs: seq<Contact>, x: string)
    ensures x in IdIndex(cs) ==> exists i :: 0 <= i < |cs| && IdIndex(cs)[x] == cs[i].key
    ensures x in DigitsIndex(cs) ==> exists i :: 0 <= i < |cs| && DigitsIndex(cs)[x] == cs[i].key
    decreases |cs|
  {
    if cs != [] {
      var p, c := cs[..|cs| - 1], cs[|cs| - 1];
      assert cs == p + [c];
      IndexValuesAreKeys(p, x);
      IndexStep(p, c);
      ContactValues(c);
      assert forall i :: 0 <= i < |p| ==> cs[i] == p[i];
      if x in IdIndex(cs) {
        ApplyValues(IdIndex(p), ContactIdWrites(c), x);
      }
      if x in DigitsIndex(cs) {
        ApplyValues(DigitsIndex(p), ContactDigitWrites(c), x);
      }
    }
  }

  /** The digits index holds only non-empty strings of digits. */
  lemma DigitsIndexKeys(cs: seq<Contact>, x: string)
    requires x in DigitsIndex(cs)
    ensures x != [] && AllDigits(x)
  {
    ApplyKeys(map[], AllDigitWrites(cs), x);
    WrittenDigitKeys(cs, x);
  }

  /** Every key the contacts' digit writes name is a non-empty string of digits. */
  lemma {:induction false} WrittenDigitKeys(cs: seq<Contact>, x: string)
    requires Written(AllDigitWrites(cs), x)
    ensures x != [] && AllDigits(x)
    decreases |cs|
  {
    var p, c := cs[..|cs| - 1], cs[|cs| - 1];
    assert AllDigitWrites(cs) == AllDigitWrites(p) + ContactDigitWrites(c);
    ForcedAppend(AllDigitWrites(p), ContactDigitWrites(c), x);
    if Written(AllDigitWrites(p), x) {
      WrittenDigitKeys(p, x);
    } else {
      PhoneDigitKeys(PhoneLike(c), c.key, x);
    }
  }

  /** What one contact writes is written into the whole index. */
  lemma {:induction false} AllIdWritten(cs: seq<Contact>, i: nat, x: string)
    requires i < |cs| && Written(ContactIdWrites(cs[i]), x)
    ensures Written(AllIdWrites(cs), x)
    decreases |cs|
  {
    var p := cs[..|cs| - 1];
    var a, b := AllIdWrites(p), ContactIdWrites(cs[|cs| - 1]);
    assert AllIdWrites(cs) == a + b;
    if i < |p| {
      assert p[i] == cs[i];
      AllIdWritten(p, i, x);
      WrittenLeft(a, b, x);
    } else {
      assert i == |cs| - 1;
      assert b == ContactIdWrites(cs[i]);
      WrittenRight(a, b, x);
    }
  }

  lemma {:induction false} AllDigitWritten(cs: seq<Contact>, i: nat, x: string)
    requires i < |cs| && Written(ContactDigitWrites(cs[i]), x)
    ensures Written(AllDigitWrites(cs), x)
    decreases |cs|
  {
    var p := cs[..|cs| - 1];
    var a, b := AllDigitWrites(p), ContactDigitWrites(cs[|cs| - 1]);
    assert AllDigitWrites(cs) == a + b;
    if i < |p| {
      assert p[i] == cs[i];
      AllDigitWritten(p, i, x);
      WrittenLeft(a, b, x);
    } else {
      assert i == |cs| - 1;
      assert b == ContactDigitWrites(cs[i]);
      WrittenRight(a, b, x);
    }
  }

  lemma WrittenLeft(a: seq<Write>, b: seq<Write>, x: string)
    requires Written(a, x)
    ensures Written(a + b, x)
  {
    var i :| 0 <= i < |a| && a[i].key == x;
    assert (a + b)[i] == a[i];
  }

  lemma WrittenRight(a: seq<Write>, b: seq<Write>, x: string)
    requires Written(b, x)
    ensures Written(a + b, x)
  {
    var i :| 0 <= i < |b| && b[i].key == x;
    assert (a + b)[|a| + i] == b[i];
  }

  // ---------------------------------------------------------------- map_handle_to_contact_key

  /** The position of the first candidate that is a key of `m`; `|vs|` when none is. */
  function HitIndex(m: map<string, string>, vs: seq<string>): (i: nat)
    ensures i <= |vs|
    ensures i < |vs| ==> vs[i] in m
    ensures forall j :: 0 <= j < i ==> vs[j] !in m
    decreases |vs|
  {
    if vs == [] || vs[0] in m then 0
    else
      var i := HitIndex(m, vs[1..]);
      assert forall j :: 1 <= j < |vs| ==> vs[j] == vs[1..][j - 1];
      i + 1
  }

  /** The value of the first candidate that is a key of `m`. */
  function FirstHit(m: map<string, string>, vs: seq<string>): Option<string>
  {
    var i := HitIndex(m, vs);
    if i < |vs| then Some(m[vs[i]]) else None
  }

  /** No candidate is a key of `m`. */
  predicate Misses(m: map<string, string>, vs: seq<string>) { forall i :: 0 <= i < |vs| ==> vs[i] !in m }

  /** Found exactly when some candidate is a key, and then under the first such. */
  lemma FirstHitFinds(m: map<string, string>, vs: seq<string>)
    ensures FirstHit(m, vs).None? <==> Misses(m, vs)
    ensures FirstHit(m, vs).Some? ==> FirstHit(m, vs).value in m.Values
    ensures FirstHit(m, vs).Some? ==> FirstHit(m, vs) == Some(m[vs[HitIndex(m, vs)]])
    ensures FirstHit(m, vs).Some? ==>
      exists i :: 0 <= i < |vs| && vs[i] in m && FirstHit(m, vs).value == m[vs[i]] &&
        forall j :: 0 <= j < i ==> vs[j] !in m
  {
    var i := HitIndex(m, vs);
    if i < |vs| {
      assert vs[i] in m && FirstHit(m, vs).value == m[vs[i]];
    }
  }

  /** `map_handle_to_contact_key`: the exact id first, then the digits of
      the handle and of its un-canonicalised form, each tried in the order
      `Variants` lists; nil when nothing matches. */
  function MapHandleToContactKey(hid: string, uncanon: Option<string>,
                                 idIndex: map<string, string>, digitsIndex: map<string, string>): (r: Option<string>)
    ensures Lower(hid) in idIndex ==> r == Some(idIndex[Lower(hid)])
    ensures Lower(hid) !in idIndex ==>
      (r.None? <==> Misses(digitsIndex, Variants(Digits(hid))) && Misses(digitsIndex, Variants(Digits(OrElse(uncanon, [])))))
    ensures r.Some? ==> r.value in idIndex.Values || r.value in digitsIndex.Values
    ensures var vh := Variants(Digits(hid));
      Lower(hid) !in idIndex && HitIndex(digitsIndex, vh) < |vh| ==> r == Some(digitsIndex[vh[HitIndex(digitsIndex, vh)]])
    ensures var vh, vu := Variants(Digits(hid)), Variants(Digits(OrElse(uncanon, [])));
      Lower(hid) !in idIndex && Misses(digitsIndex, vh) ==>
        r == (if HitIndex(digitsIndex, vu) < |vu| then Some(digitsIndex[vu[HitIndex(digitsIndex, vu)]]) else None)
  {
    var idLc := Lower(hid);
    if idLc in idIndex then Some(idIndex[idLc])
    else
      var own := FirstHit(digitsIndex, Variants(Digits(hid)));
      FirstHitFinds(digitsIndex, Variants(Digits(hid)));
      FirstHitFinds(digitsIndex, Variants(Digits(OrElse(uncanon, []))));
      if own.Some? then own else FirstHit(digitsIndex, Variants(Digits(OrElse(uncanon, []))))
  }

  /** A handle is only ever mapped to the key of a contact. */
  lemma MapHandleSound(cs: seq<Contact>, hid: string, uncanon: Option<string>)
    ensures var r := MapHandleToContactKey(hid, uncanon, IdIndex(cs), DigitsIndex(cs));
      r.Some? ==> exists i :: 0 <= i < |cs| && r.value == cs[i].key
  {
    var r := MapHandleToContactKey(hid, uncanon, IdIndex(cs), DigitsIndex(cs));
    if r.Some? {
      if r.value in IdIndex(cs).Values {
        var x :| x in IdIndex(cs) && IdIndex(cs)[x] == r.value;
        IndexValuesAreKeys(cs, x);
      } else {
        var x :| x in DigitsIndex(cs) && DigitsIndex(cs)[x] == r.value;
        IndexValuesAreKeys(cs, x);
      }
    }
  }

  /** Every address and phone-like string of every contact is in the id index. */
  lemma IdIndexHasAddress(cs: seq<Contact>, i: nat, e: string)
    requires i < |cs| && (e in cs[i].emails || e in PhoneLike(cs[i]))
    ensures Lower(e) in IdIndex(cs)
  {
    ContactIdForced(cs[i], e);
    AllIdWritten(cs, i, Lower(e));
    ApplyKeys(map[], AllIdWrites(cs), Lower(e));
  }

  /** Every lookup variant of every contact phone is in the digits index. */
  lemma DigitsIndexHasPhone(cs: seq<Contact>, i: nat, p: string, x: string)
    requires i < |cs| && p in PhoneLike(cs[i]) && x in Variants(Digits(p))
    ensures x in DigitsIndex(cs)
  {
    var j :| 0 <= j < |PhoneLike(cs[i])| && PhoneLike(cs[i])[j] == p;
    PhoneDigitWritten(PhoneLike(cs[i]), cs[i].key, j, x);
    AllDigitWritten(cs, i, x);
    ApplyKeys(map[], AllDigitWrites(cs), x);
  }

  /** A handle that is one of a contact's addresses, in any case, is mapped
      to some contact. */
  lemma MapHandleFindsAddress(cs: seq<Contact>, i: nat, e: string, hid: string, uncanon: Option<string>)
    requires i < |cs| && (e in cs[i].emails || e in PhoneLike(cs[i])) && Lower(hid) == Lower(e)
    ensures MapHandleToContactKey(hid, uncanon, IdIndex(cs), DigitsIndex(cs)).Some?
  {
    IdIndexHasAddress(cs, i, e);
  }

  /** A handle that is an address of the last contact to list it is mapped
      to that contact. */
  lemma MapHandleFindsLast(cs: seq<Contact>, c: Contact, e: string, hid: string, uncanon: Option<string>)
    requires (e in c.emails || e in PhoneLike(c)) && Lower(hid) == Lower(e)
    ensures MapHandleToContactKey(hid, uncanon, IdIndex(cs + [c]), DigitsIndex(cs + [c])) == Some(c.key)
  {
    IdIndexOwnAddress(cs, c, e);
  }

  /** A handle with the same digits as one of a contact's phones is mapped
      to some contact, even when its text differs (`+1 (555) …` and `555…`). */
  lemma MapHandleFindsPhone(cs: seq<Contact>, i: nat, p: string, hid: string, uncanon: Option<string>)
    requires i < |cs| && p in PhoneLike(cs[i]) && Digits(p) != [] && Digits(hid) == Digits(p)
    ensures MapHandleToContactKey(hid, uncanon, IdIndex(cs), DigitsIndex(cs)).Some?
  {
    var d := Digits(p);
    assert Variants(d)[0] == d;
    DigitsIndexHasPhone(cs, i, p, d);
  }

  // ---------------------------------------------------------------- participant keys of a group

  /** The lookup chain `compute_group_buckets` writes out inline: the exact
      id, the handle's digits, the un-canonicalised digits, the handle's
      last ten digits, and else the handle itself. The shorter variants are
      not tried. */
  function InlineKey(hid: string, uncanon: Option<string>,
                     idIndex: map<string, string>, digitsIndex: map<string, string>): (r: string)
    ensures r == hid || r in idIndex.Values || r in digitsIndex.Values
  {
    var d := Digits(hid);
    var u := Digits(OrElse(uncanon, []));
    if Lower(hid) in idIndex then idIndex[Lower(hid)]
    else if d in digitsIndex then digitsIndex[d]
    else if u in digitsIndex then digitsIndex[u]
    else if |d| >= 10 && d[|d| - 10..] in digitsIndex then digitsIndex[d[|d| - 10..]]
    else hid
  }

  /** Over indexes built from contacts, the inline chain falls back to the
      handle whenever `map_handle_to_contact_key` finds nothing, and agrees
      with it on an exact or full-digit hit. */
  lemma InlineKeyVersusMap(cs: seq<Contact>, hid: string, uncanon: Option<string>)
    ensures var m, r := MapHandleToContactKey(hid, uncanon, IdIndex(cs), DigitsIndex(cs)), InlineKey(hid, uncanon, IdIndex(cs), DigitsIndex(cs));
      (m.None? ==> r == hid) &&
      (Lower(hid) in IdIndex(cs) ==> m == Some(r)) &&
      (Digits(hid) in DigitsIndex(cs) ==> m == Some(r))
  {
    var d, u := Digits(hid), Digits(OrElse(uncanon, []));
    var id, dg := IdIndex(cs), DigitsIndex(cs);
    if d != [] {
      assert Variants(d)[0] == d;
    } else if d in dg {
      DigitsIndexKeys(cs, d);
    }
    if u != [] {
      assert Variants(u)[0] == u;
    } else if u in dg {
      DigitsIndexKeys(cs, u);
    }
    if |d| >= 10 {
      assert Variants(d)[|Variants(d)| - 1] == d[|d| - 10..];
    }
  }

  /** The inline chain misses a handle whose digits carry one extra leading
      digit over an indexed seven-digit number; the indexed lookup finds it. */
  lemma InlineSkipsDropVariants(c: char, t: string, key: string)
    requires IsDigit(c) && AllDigits(t) && |t| == 7
    ensures MapHandleToContactKey([c] + t, None, map[], map[t := key]) == Some(key)
    ensures InlineKey([c] + t, None, map[], map[t := key]) == [c] + t
  {
    var d := [c] + t;
    EightDigitVariants(c, t);
    var m := map[t := key];
    assert d !in m;
    assert HitIndex(m, [d, t]) == 1 by {
      assert [d, t][1..] == [t];
    }
    assert Digits([]) == [];
  }

  /** The lookup variants of eight digits: all eight, then the last seven. */
  lemma EightDigitVariants(c: char, t: string)
    requires IsDigit(c) && AllDigits(t) && |t| == 7
    ensures Digits([c] + t) == [c] + t
    ensures Variants([c] + t) == [[c] + t, t]
  {
    var d := [c] + t;
    assert AllDigits(d);
    assert d[1..] == t;
    assert DropVariants(d, 1) == [t];
    assert DropVariants(d, 3) == [t];
  }

  /** Both indexes, present only together with the address book. */
  datatype Indexes = Indexes(idIndex: map<string, string>, digitsIndex: map<string, string>)

  /** The key of one participant: through the indexes when there are
      any, else its canonical form. */
  function ParticipantKey(hid: string, uncanon: Option<string>, ix: Option<Indexes>): (r: string)
    ensures ix.None? ==> r == CanonicalizeHandleForGroup(hid, uncanon)
    ensures ix.Some? ==> r == hid || r in ix.value.idIndex.Values || r in ix.value.digitsIndex.Values
  {
    if ix.Some? then InlineKey(hid, uncanon, ix.value.idIndex, ix.value.digitsIndex)
    else CanonicalizeHandleForGroup(hid, uncanon)
  }

  // ---------------------------------------------------------------- signature

  predicate StrictlySorted(s: seq<string>) { forall i, j :: 0 <= i < j < |s| ==> StrLess(s[i], s[j]) }

  /** `x` put into its place in a strictly sorted list, unless it is there. */
  function Insert(x: string, s: seq<string>): (r: seq<string>)
    decreases |s|
  {
    if s == [] then [x]
    else if x == s[0] then s
    else if StrLess(x, s[0]) then [x] + s
    else [s[0]] + Insert(x, s[1..])
  }

  lemma {:induction false} InsertSorted(x: string, s: seq<string>)
    requires StrictlySorted(s)
    ensures StrictlySorted(Insert(x, s))
    ensures forall y :: y in Insert(x, s) <==> y == x || y in s
    decreases |s|
  {
    if s != [] && x != s[0] {
      if StrLess(x, s[0]) {
        forall j | 0 < j < |s| ensures StrLess(x, s[j]) {
          StrLessTransitive(x, s[0], s[j]);
        }
      } else {
        var t := s[1..];
        assert StrictlySorted(t) by {
          assert forall i :: 0 <= i < |t| ==> t[i] == s[i + 1];
        }
        InsertSorted(x, t);
        StrLessTotal(x, s[0]);
        var r := Insert(x, t);
        assert forall i :: 0 <= i < |r| ==> StrLess(s[0], r[i]) by {
          forall i | 0 <= i < |r| ensures StrLess(s[0], r[i]) {
            assert r[i] in r;
            if r[i] != x {
              var k :| 0 <= k < |t| && t[k] == r[i];
              assert s[k + 1] == t[k];
            }
          }
        }
        assert s == [s[0]] + t;
        assert Insert(x, s) == [s[0]] + r;
      }
    }
  }

  /** `keys.uniq.sort`: the distinct keys in ascending order. */
  function SortedUniq(keys: seq<string>): (r: seq<string>)
    ensures StrictlySorted(r)
    ensures forall x :: x in r <==> x in keys
    decreases |keys|
  {
    if keys == [] then []
    else
      var p := SortedUniq(keys[..|keys| - 1]);
      InsertSorted(keys[|keys| - 1], p);
      assert keys == keys[..|keys| - 1] + [keys[|keys| - 1]];
      Insert(keys[|keys| - 1], p)
  }

  /** A strictly sorted list is determined by its elements. */
  lemma {:induction false} SortedUnique(a: seq<string>, b: seq<string>)
    requires StrictlySorted(a) && StrictlySorted(b)
    requires forall x :: x in a <==> x in b
    ensures a == b
    decreases |a|
  {
    SameElementsEmpty(a, b);
    if a != [] {
      assert a[0] == b[0] by {
        assert a[0] in b && b[0] in a;
        var i :| 0 <= i < |b| && b[i] == a[0];
        var j :| 0 <= j < |a| && a[j] == b[0];
        if i > 0 && j > 0 {
          StrLessAsymmetric(a[0], a[j]);
        }
      }
      var ta, tb := a[1..], b[1..];
      forall x ensures x in ta <==> x in tb {
        if x in ta {
          var k :| 0 <= k < |ta| && ta[k] == x;
          assert a[k + 1] == x && StrLess(a[0], x);
          StrLessIrreflexive(x);
          assert x in b;
          var m :| 0 <= m < |b| && b[m] == x;
          assert m != 0 && tb[m - 1] == x;
        }
        if x in tb {
          var k :| 0 <= k < |tb| && tb[k] == x;
          assert b[k + 1] == x && StrLess(b[0], x);
          StrLessIrreflexive(x);
          assert x in a;
          var m :| 0 <= m < |a| && a[m] == x;
          assert m != 0 && ta[m - 1] == x;
        }
      }
      assert StrictlySorted(ta) by { assert forall i :: 0 <= i < |ta| ==> ta[i] == a[i + 1]; }
      assert StrictlySorted(tb) by { assert forall i :: 0 <= i < |tb| ==> tb[i] == b[i + 1]; }
      SortedUnique(ta, tb);
      assert a == [a[0]] + ta && b == [b[0]] + tb;
    }
  }

  lemma SameElementsEmpty(a: seq<string>, b: seq<string>)
    requires forall x :: x in a <==> x in b
    ensures a == [] <==> b == []
  {
    if a != [] {
      assert a[0] in b;
    }
    if b != [] {
      assert b[0] in a;
    }
  }

  /** `Digest::SHA1.hexdigest(keys.join(','))[0,12]`; the digest itself is a
      parameter of the model. */
  function Signature(keys: seq<string>, sha1: string -> string): (sig: string)
    ensures |sig| <= 12
  {
    var h := sha1(Join(keys, ","));
    h[..Min(|h|, 12)]
  }

  /** Two participant lists with the same distinct keys, in any order and
      with any repetition, have the same sorted keys and so the same signature. */
  lemma SignatureOfSameKeys(k1: seq<string>, k2: seq<string>, sha1: string -> string)
    requires forall x :: x in k1 <==> x in k2
    ensures SortedUniq(k1) == SortedUniq(k2)
    ensures Signature(SortedUniq(k1), sha1) == Signature(SortedUniq(k2), sha1)
  {
    SortedUnique(SortedUniq(k1), SortedUniq(k2));
  }

  // ---------------------------------------------------------------- compute_group_buckets

  /** One row of `chat_handle_join`: the SQL-lower-cased handle id and its
      un-canonicalised form. */
  datatype Participant = Participant(hid: string, uncanon: Option<string>)

  /** A chat with more than one participant, with its participants. */
  datatype GroupChat = GroupChat(chatId: int, displayName: Option<string>, participants: seq<Participant>)

  /** The chats that share a signature, in the order they were met. */
  datatype Bucket = Bucket(sig: string, chatIds: seq<int>, names: seq<string>, keys: seq<string>)

  /** The participant keys in participant order, before `uniq.sort`. */
  function RawKeys(ps: seq<Participant>, ix: Option<Indexes>): (ks: seq<string>)
    ensures |ks| == |ps|
    decreases |ps|
  {
    if ps == [] then []
    else RawKeys(ps[..|ps| - 1], ix) + [ParticipantKey(ps[|ps| - 1].hid, ps[|ps| - 1].uncanon, ix)]
  }

  function ChatKeys(g: GroupChat, ix: Option<Indexes>): seq<string>
  {
    SortedUniq(RawKeys(g.participants, ix))
  }

  function ChatSig(g: GroupChat, ix: Option<Indexes>, sha1: string -> string): string
  {
    Signature(ChatKeys(g, ix), sha1)
  }

  /** `b['names'] << dn if dn && !dn.strip.empty?` */
  function NamePart(dn: Option<string>): seq<string>
  {
    if dn.Some? && Strip(dn.value) != [] then [dn.value] else []
  }

  /** The position of the bucket with signature `sig`, `|bs|` when there is none. */
  function SigIndex(bs: seq<Bucket>, sig: string): (i: nat)
    ensures i <= |bs|
    ensures i < |bs| ==> bs[i].sig == sig
    ensures forall j :: 0 <= j < i ==> bs[j].sig != sig
    decreases |bs|
  {
    if bs == [] || bs[0].sig == sig then 0
    else
      var i := SigIndex(bs[1..], sig);
      assert forall j :: 1 <= j < |bs| ==> bs[j] == bs[1..][j - 1];
      i + 1
  }

  /** What the bucket loop uses of one chat. */
  datatype Entry = Entry(sig: string, keys: seq<string>, chatId: int, displayName: Option<string>)

  function EntryOf(g: GroupChat, ix: Option<Indexes>, sha1: string -> string): Entry
  {
    Entry(ChatSig(g, ix, sha1), ChatKeys(g, ix), g.chatId, g.displayName)
  }

  function Entries(rows: seq<GroupChat>, ix: Option<Indexes>, sha1: string -> string): (es: seq<Entry>)
    ensures |es| == |rows|
    ensures forall k :: 0 <= k < |rows| ==> es[k] == EntryOf(rows[k], ix, sha1)
    decreases |rows|
  {
    if rows == [] then []
    else
      var p := rows[..|rows| - 1];
      var es := Entries(p, ix, sha1);
      assert forall k :: 0 <= k < |p| ==> rows[k] == p[k];
      es + [EntryOf(rows[|rows| - 1], ix, sha1)]
  }

  /** One chat into the buckets: appended to the bucket of its signature,
      or a new bucket, holding the chat's keys, at the end. */
  function AddChat(bs: seq<Bucket>, e: Entry): seq<Bucket>
  {
    var i := SigIndex(bs, e.sig);
    if i < |bs| then bs[i := Bucket(e.sig, bs[i].chatIds + [e.chatId], bs[i].names + NamePart(e.displayName), bs[i].keys)]
    else bs + [Bucket(e.sig, [e.chatId], NamePart(e.displayName), e.keys)]
  }

  /** The buckets after the chats, in order. */
  function BucketsOf(es: seq<Entry>): seq<Bucket>
    decreases |es|
  {
    if es == [] then [] else AddChat(BucketsOf(es[..|es| - 1]), es[|es| - 1])
  }

  predicate SigsDistinct(bs: seq<Bucket>) { forall i, j :: 0 <= i < j < |bs| ==> bs[i].sig != bs[j].sig }

  /** No two buckets share a signature. */
  lemma {:induction false} BucketsSigsDistinct(es: seq<Entry>)
    ensures SigsDistinct(BucketsOf(es))
    decreases |es|
  {
    if es != [] {
      BucketsSigsDistinct(es[..|es| - 1]);
    }
  }

  /** Adding a chat keeps every bucket's signature, keys and chats. */
  lemma AddChatKeeps(bs: seq<Bucket>, e: Entry, i: nat)
    requires i < |bs|
    ensures var r := AddChat(bs, e);
      i < |r| && r[i].sig == bs[i].sig && r[i].keys == bs[i].keys &&
      (forall c :: c in bs[i].chatIds ==> c in r[i].chatIds)
  {
  }

  /** The added chat is in the bucket of its signature. */
  lemma AddChatPlaces(bs: seq<Bucket>, e: Entry)
    ensures var r := AddChat(bs, e);
      exists i :: 0 <= i < |r| && r[i].sig == e.sig && e.chatId in r[i].chatIds
  {
    var r := AddChat(bs, e);
    var i := SigIndex(bs, e.sig);
    assert r[i].sig == e.sig && e.chatId in r[i].chatIds;
  }

  /** Every chat is in the bucket of its own signature. */
  lemma {:induction false} BucketsHoldChat(es: seq<Entry>, k: nat)
    requires k < |es|
    ensures var bs := BucketsOf(es);
      exists i :: 0 <= i < |bs| && bs[i].sig == es[k].sig && es[k].chatId in bs[i].chatIds
    decreases |es|
  {
    var p, e := es[..|es| - 1], es[|es| - 1];
    var bp := BucketsOf(p);
    var r := AddChat(bp, e);
    assert BucketsOf(es) == r;
    if k < |p| {
      assert p[k] == es[k];
      BucketsHoldChat(p, k);
      var i :| 0 <= i < |bp| && bp[i].sig == es[k].sig && es[k].chatId in bp[i].chatIds;
      AddChatKeeps(bp, e, i);
      assert r[i].sig == es[k].sig && es[k].chatId in r[i].chatIds;
    } else {
      assert k == |es| - 1;
      assert es[k] == e;
      AddChatPlaces(bp, e);
    }
  }

  /** Every chat in a bucket is a chat with that bucket's signature. */
  lemma {:induction false} BucketChatsHaveSig(es: seq<Entry>, i: nat, j: nat)
    requires i < |BucketsOf(es)| && j < |BucketsOf(es)[i].chatIds|
    ensures var b := BucketsOf(es)[i];
      exists k :: 0 <= k < |es| && es[k].chatId == b.chatIds[j] && es[k].sig == b.sig
    decreases |es|
  {
    var p, e := es[..|es| - 1], es[|es| - 1];
    var bp := BucketsOf(p);
    var r := AddChat(bp, e);
    assert BucketsOf(es) == r;
    var at := SigIndex(bp, e.sig);
    if i < |bp| && (i != at || j < |bp[i].chatIds|) {
      assert r[i].sig == bp[i].sig && r[i].chatIds[j] == bp[i].chatIds[j];
      BucketChatsHaveSig(p, i, j);
      var k :| 0 <= k < |p| && p[k].chatId == bp[i].chatIds[j] && p[k].sig == bp[i].sig;
      assert es[k] == p[k];
    } else {
      assert r[i].chatIds[j] == e.chatId && r[i].sig == e.sig;
      assert es[|es| - 1] == e;
    }
  }

  /** A bucket keeps the keys of the first chat with its signature. */
  lemma {:induction false} BucketKeysOfFirst(es: seq<Entry>, i: nat)
    requires i < |BucketsOf(es)|
    ensures var b := BucketsOf(es)[i];
      exists k :: 0 <= k < |es| && es[k].sig == b.sig && es[k].keys == b.keys && (forall l :: 0 <= l < k ==> es[l].sig != b.sig)
    decreases |es|
  {
    var p, e := es[..|es| - 1], es[|es| - 1];
    var bp := BucketsOf(p);
    var r := AddChat(bp, e);
    assert BucketsOf(es) == r;
    if i < |bp| {
      assert r[i].sig == bp[i].sig && r[i].keys == bp[i].keys;
      BucketKeysOfFirst(p, i);
      var k :| 0 <= k < |p| && p[k].sig == bp[i].sig && p[k].keys == bp[i].keys && (forall l :: 0 <= l < k ==> p[l].sig != bp[i].sig);
      assert es[k] == p[k];
      assert forall l :: 0 <= l < k ==> es[l] == p[l];
    } else {
      var k := |es| - 1;
      assert SigIndex(bp, e.sig) == |bp|;
      assert es[k] == e && r[i].sig == e.sig && r[i].keys == e.keys;
      forall l | 0 <= l < k ensures es[l].sig != e.sig {
        assert es[l] == p[l];
        BucketsHoldChat(p, l);
      }
    }
  }

  /** Only non-blank display names are collected. */
  lemma {:induction false} BucketNamesNonBlank(es: seq<Entry>, i: nat, j: nat)
    requires i < |BucketsOf(es)| && j < |BucketsOf(es)[i].names|
    ensures Strip(BucketsOf(es)[i].names[j]) != []
    decreases |es|
  {
    var p, e := es[..|es| - 1], es[|es| - 1];
    var bp := BucketsOf(p);
    var r := AddChat(bp, e);
    assert BucketsOf(es) == r;
    if i < |bp| && j < |bp[i].names| {
      assert r[i].names[j] == bp[i].names[j];
      BucketNamesNonBlank(p, i, j);
    }
  }

  /** `compute_group_buckets`: the group chats coalesced by the signature
      of their participant keys, in first-seen order. */
  method ComputeGroupBuckets(rows: seq<GroupChat>, ix: Option<Indexes>, sha1: string -> string) returns (buckets: seq<Bucket>)
    ensures buckets == BucketsOf(Entries(rows, ix, sha1))
  {
    ghost var es := Entries(rows, ix, sha1);
    buckets := [];
    var pos: map<string, nat> := map[];
    var k := 0;
    while k < |rows|
      invariant 0 <= k <= |rows|
      invariant buckets == BucketsOf(es[..k])
      invariant PositionsOf(pos, buckets)
    {
      var e := ChatEntry(rows[k], ix, sha1);
      EntryAt(rows, ix, sha1, k);
      BucketsOfSnoc(es, k);
      buckets, pos := AddToBuckets(buckets, pos, e);
      k := k + 1;
    }
    assert es[..k] == es;
  }

  /** `pos` is the hash from signature to bucket position. */
  ghost predicate PositionsOf(pos: map<string, nat>, bs: seq<Bucket>)
  {
    (forall s :: s in pos <==> SigIndex(bs, s) < |bs|) &&
    (forall s :: s in pos ==> pos[s] == SigIndex(bs, s))
  }

  /** `b = (buckets[sig] ||= {...})`, then the chat and its name into `b`. */
  method AddToBuckets(bs: seq<Bucket>, pos: map<string, nat>, e: Entry) returns (bs': seq<Bucket>, pos': map<string, nat>)
    requires PositionsOf(pos, bs)
    ensures bs' == AddChat(bs, e)
    ensures PositionsOf(pos', bs')
  {
    if e.sig in pos {
      var i := pos[e.sig];
      var b := bs[i];
      bs' := bs[i := Bucket(e.sig, b.chatIds + [e.chatId], b.names + NamePart(e.displayName), b.keys)];
      pos' := pos;
      forall s ensures SigIndex(bs', s) == SigIndex(bs, s) {
        SigIndexUpdate(bs, i, bs'[i], s);
      }
    } else {
      pos' := pos[e.sig := |bs|];
      bs' := bs + [Bucket(e.sig, [e.chatId], NamePart(e.displayName), e.keys)];
      forall s ensures SigIndex(bs', s) == (if SigIndex(bs, s) < |bs| then SigIndex(bs, s) else if s == e.sig then |bs| else |bs'|) {
        SigIndexAppend(bs, bs'[|bs|], s);
      }
    }
  }

  /** The signature, keys, id and name of one chat. */
  method ChatEntry(r: GroupChat, ix: Option<Indexes>, sha1: string -> string) returns (e: Entry)
    ensures e == EntryOf(r, ix, sha1)
    ensures |e.sig| <= 12 && StrictlySorted(e.keys) && e.chatId == r.chatId && e.displayName == r.displayName
  {
    var keys := GroupKeys(r.participants, ix);
    var sig := Signature(keys, sha1);
    e := Entry(sig, keys, r.chatId, r.displayName);
  }

  lemma EntryAt(rows: seq<GroupChat>, ix: Option<Indexes>, sha1: string -> string, k: nat)
    requires k < |rows|
    ensures Entries(rows, ix, sha1)[k] == EntryOf(rows[k], ix, sha1)
  {
  }

  lemma BucketsOfSnoc(es: seq<Entry>, k: nat)
    requires k < |es|
    ensures BucketsOf(es[..k + 1]) == AddChat(BucketsOf(es[..k]), es[k])
  {
    assert es[..k + 1][..k] == es[..k];
  }

  /** The keys of one chat: each participant's key, then `uniq.sort`. */
  method GroupKeys(ps: seq<Participant>, ix: Option<Indexes>) returns (keys: seq<string>)
    ensures keys == SortedUniq(RawKeys(ps, ix))
  {
    var raw := [];
    var j := 0;
    while j < |ps|
      invariant 0 <= j <= |ps|
      invariant raw == RawKeys(ps[..j], ix)
    {
      RawKeysSnoc(ps, j, ix);
      raw := raw + [ParticipantKey(ps[j].hid, ps[j].uncanon, ix)];
      j := j + 1;
    }
    assert ps[..j] == ps;
    keys := SortedUniq(raw);
  }

  lemma SigIndexUpdate(bs: seq<Bucket>, i: nat, b: Bucket, s: string)
    requires i < |bs| && b.sig == bs[i].sig
    ensures SigIndex(bs[i := b], s) == SigIndex(bs, s)
  {
    var r := bs[i := b];
    var n := SigIndex(bs, s);
    assert forall j :: 0 <= j < |bs| ==> r[j].sig == bs[j].sig;
    SigIndexAt(r, n, s);
  }

  lemma SigIndexAppend(bs: seq<Bucket>, b: Bucket, s: string)
    ensures var r, n := bs + [b], SigIndex(bs, s);
      SigIndex(r, s) == if n < |bs| then n else if s == b.sig then |bs| else |bs| + 1
  {
    var r, n := bs + [b], SigIndex(bs, s);
    assert forall j :: 0 <= j < |bs| ==> r[j] == bs[j];
    if n < |bs| {
      SigIndexAt(r, n, s);
    } else if s == b.sig {
      SigIndexAt(r, |bs|, s);
    } else {
      SigIndexAt(r, |bs| + 1, s);
    }
  }

  /** `SigIndex` is characterised by its contract. */
  lemma SigIndexAt(bs: seq<Bucket>, n: nat, s: string)
    requires n <= |bs| && (n < |bs| ==> bs[n].sig == s) && forall j :: 0 <= j < n ==> bs[j].sig != s
    ensures SigIndex(bs, s) == n
  {
    var m := SigIndex(bs, s);
    assert m < |bs| ==> bs[m].sig == s;
  }

  lemma RawKeysSnoc(ps: seq<Participant>, j: nat, ix: Option<Indexes>)
    requires j < |ps|
    ensures RawKeys(ps[..j + 1], ix) == RawKeys(ps[..j], ix) + [ParticipantKey(ps[j].hid, ps[j].uncanon, ix)]
  {
    assert ps[..j + 1][..j] == ps[..j];
  }

  /** Two chats whose participants resolve to the same keys, in whatever
      order and repetition, are coalesced into one bucket. */
  lemma SameKeysSameBucket(rows: seq<GroupChat>, ix: Option<Indexes>, sha1: string -> string, k1: nat, k2: nat)
    requires k1 < |rows| && k2 < |rows|
    requires forall x :: x in RawKeys(rows[k1].participants, ix) <==> x in RawKeys(rows[k2].participants, ix)
    ensures var bs := BucketsOf(Entries(rows, ix, sha1));
      exists i :: 0 <= i < |bs| && rows[k1].chatId in bs[i].chatIds && rows[k2].chatId in bs[i].chatIds
  {
    var es := Entries(rows, ix, sha1);
    var bs := BucketsOf(es);
    SignatureOfSameKeys(RawKeys(rows[k1].participants, ix), RawKeys(rows[k2].participants, ix), sha1);
    EntryAt(rows, ix, sha1, k1);
    EntryAt(rows, ix, sha1, k2);
    assert es[k1].sig == es[k2].sig;
    BucketsHoldChat(es, k1);
    BucketsHoldChat(es, k2);
    BucketsSigsDistinct(es);
    var i1 :| 0 <= i1 < |bs| && bs[i1].sig == es[k1].sig && es[k1].chatId in bs[i1].chatIds;
    var i2 :| 0 <= i2 < |bs| && bs[i2].sig == es[k2].sig && es[k2].chatId in bs[i2].chatIds;
    assert i1 == i2;
  }

  // ---------------------------------------------------------------- choose_group_display_name

  /** A name that counts: present and not blank. */
  predicate Named(n: Option<string>) { n.Some? && Strip(n.value) != [] }

  /** How often `x` occurs among the names. */
  function CountOf(names: seq<Option<string>>, x: string): (c: nat)
    ensures c <= |names|
    decreases |names|
  {
    if names == [] then 0
    else CountOf(names[..|names| - 1], x) + (if names[|names| - 1] == Some(x) then 1 else 0)
  }

  /** `freq.max_by { |(_n, c)| c }.first` over the non-blank names: nil
      when there is none, else a name of the highest count, the one seen
      first among equally frequent names. */
  ghost predicate MostFrequentName(names: seq<Option<string>>, r: Option<string>)
  {
    (r.None? <==> forall k :: 0 <= k < |names| ==> !Named(names[k])) &&
    (r.Some? ==> (Named(r) && CountOf(names, r.value) > 0 &&
      forall k :: 0 <= k < |names| ==> NoMoreFrequentAt(names, r.value, k)))
  }

  /** The name at position `k`, when it counts, is no more frequent than
      `x`, and when it is as frequent, `x` occurs at or before `k`. */
  ghost predicate NoMoreFrequentAt(names: seq<Option<string>>, x: string, k: nat)
    requires k < |names|
  {
    Named(names[k]) ==>
      CountOf(names, names[k].value) <= CountOf(names, x) &&
      (CountOf(names, names[k].value) == CountOf(names, x) ==> exists j :: 0 <= j <= k && names[j] == Some(x))
  }

  /** The position of the first occurrence of `x`, `|names|` when it does not occur. */
  function FirstOf(names: seq<Option<string>>, x: string): (i: nat)
    ensures i <= |names|
    ensures i < |names| ==> names[i] == Some(x)
    ensures forall j :: 0 <= j < i ==> names[j] != Some(x)
    decreases |names|
  {
    if names == [] || names[0] == Some(x) then 0
    else
      var i := FirstOf(names[1..], x);
      assert forall j :: 1 <= j < |names| ==> names[j] == names[1..][j - 1];
      i + 1
  }

  lemma {:induction false} CountPositive(names: seq<Option<string>>, x: string)
    ensures CountOf(names, x) > 0 <==> FirstOf(names, x) < |names|
    decreases |names|
  {
    if names != [] {
      var p := names[..|names| - 1];
      CountPositive(p, x);
      assert forall j :: 0 <= j < |p| ==> names[j] == p[j];
      if FirstOf(p, x) < |p| {
        assert names[FirstOf(p, x)] == Some(x);
      }
      if FirstOf(names, x) < |p| {
        assert p[FirstOf(names, x)] == Some(x);
      }
    }
  }

  /** The most frequent name is determined: the property fixes the result. */
  lemma MostFrequentUnique(names: seq<Option<string>>, r1: Option<string>, r2: Option<string>)
    requires MostFrequentName(names, r1) && MostFrequentName(names, r2)
    ensures r1 == r2
  {
    if r1.Some? && r2.Some? {
      var f1, f2 := FirstOf(names, r1.value), FirstOf(names, r2.value);
      CountPositive(names, r1.value);
      CountPositive(names, r2.value);
      assert NoMoreFrequentAt(names, r2.value, f1) && NoMoreFrequentAt(names, r1.value, f2);
      var j2 :| 0 <= j2 <= f1 && names[j2] == r2;
      var j1 :| 0 <= j1 <= f2 && names[j1] == r1;
      assert f2 <= j2 && f1 <= j1;
    }
  }

  /** `choose_group_display_name` given plain names. */
  method ChooseFromNames(names: seq<Option<string>>) returns (r: Option<string>)
    ensures MostFrequentName(names, r)
  {
    var freq, order := CountNames(names);
    if order == [] {
      NoneCounted(names);
      return None;
    }
    FreqKeys(names);
    var best := MaxByCount(freq, order);
    MaxIsMostFrequent(names, best);
    r := Some(order[best]);
  }

  /** No name was counted: there is no non-blank name. */
  lemma NoneCounted(names: seq<Option<string>>)
    requires FreqOrder(names) == []
    ensures MostFrequentName(names, None)
  {
    forall k | 0 <= k < |names| ensures !Named(names[k]) {
      if Named(names[k]) {
        CountPositive(names, names[k].value);
        FreqCounts(names, names[k].value);
      }
    }
  }

  lemma FreqKeys(names: seq<Option<string>>)
    ensures forall x :: x in FreqOrder(names) ==> x in Freq(names)
  {
    forall x | x in FreqOrder(names) ensures x in Freq(names) {
      FreqCounts(names, x);
    }
  }

  /** The first key of the highest count is the most frequent name. */
  lemma MaxIsMostFrequent(names: seq<Option<string>>, best: nat)
    requires best < |FreqOrder(names)| && forall x :: x in FreqOrder(names) ==> x in Freq(names)
    requires forall j :: 0 <= j < |FreqOrder(names)| ==> Freq(names)[FreqOrder(names)[j]] <= Freq(names)[FreqOrder(names)[best]]
    requires forall j :: 0 <= j < best ==> Freq(names)[FreqOrder(names)[j]] < Freq(names)[FreqOrder(names)[best]]
    ensures MostFrequentName(names, Some(FreqOrder(names)[best]))
  {
    var y := FreqOrder(names)[best];
    FreqCounts(names, y);
    CountPositive(names, y);
    forall k | 0 <= k < |names|
      ensures NoMoreFrequentAt(names, y, k)
    {
      if Named(names[k]) {
        var x := names[k].value;
        CountPositive(names, x);
        FreqCounts(names, x);
        var j :| 0 <= j < |FreqOrder(names)| && FreqOrder(names)[j] == x;
        MaxAt(names, best, j, k);
      }
    }
    assert !forall k :: 0 <= k < |names| ==> !Named(names[k]) by {
      assert Named(names[FirstOf(names, y)]);
    }
  }

  /** A name `x`, counted at position `j` of the keys and occurring at `k`,
      that is as frequent as the key at `best` comes no earlier. */
  lemma MaxAt(names: seq<Option<string>>, best: nat, j: nat, k: nat)
    requires best < |FreqOrder(names)| && j < |FreqOrder(names)| && k < |names|
    requires names[k] == Some(FreqOrder(names)[j])
    requires FreqOrder(names)[best] in Freq(names) && FreqOrder(names)[j] in Freq(names)
    requires Freq(names)[FreqOrder(names)[j]] <= Freq(names)[FreqOrder(names)[best]]
    requires j < best ==> Freq(names)[FreqOrder(names)[j]] < Freq(names)[FreqOrder(names)[best]]
    requires Freq(names)[FreqOrder(names)[j]] == CountOf(names, FreqOrder(names)[j])
    requires Freq(names)[FreqOrder(names)[best]] == CountOf(names, FreqOrder(names)[best])
    ensures CountOf(names, names[k].value) == CountOf(names, FreqOrder(names)[best]) ==>
      exists i :: 0 <= i <= k && names[i] == Some(FreqOrder(names)[best])
  {
    var o := FreqOrder(names);
    var y, x := o[best], o[j];
    if CountOf(names, x) == CountOf(names, y) {
      assert best <= j;
      FreqOrderFirst(names);
      assert FirstOf(names, y) <= FirstOf(names, x) by {
        if best < j {
          assert FirstOf(names, o[best]) < FirstOf(names, o[j]);
        }
      }
      assert FirstOf(names, x) <= k;
      assert FirstOf(names, y) < |names|;
    }
  }

  /** The `freq` hash after the names: one more for each non-blank name. */
  function Freq(names: seq<Option<string>>): map<string, nat>
    decreases |names|
  {
    if names == [] then map[]
    else
      var m := Freq(names[..|names| - 1]);
      var n := names[|names| - 1];
      if Named(n) then m[n.value := if n.value in m then m[n.value] + 1 else 1] else m
  }

  /** The keys of `Freq`, in the order they were first counted. */
  function FreqOrder(names: seq<Option<string>>): seq<string>
    decreases |names|
  {
    if names == [] then []
    else
      var o := FreqOrder(names[..|names| - 1]);
      var n := names[|names| - 1];
      if Named(n) && n.value !in Freq(names[..|names| - 1]) then o + [n.value] else o
  }

  /** The hash counts exactly the non-blank names. */
  lemma {:induction false} FreqCounts(names: seq<Option<string>>, x: string)
    ensures x in Freq(names) <==> Strip(x) != [] && CountOf(names, x) > 0
    ensures x in Freq(names) ==> Freq(names)[x] == CountOf(names, x)
    ensures x in Freq(names) <==> x in FreqOrder(names)
    decreases |names|
  {
    if names != [] {
      var p := names[..|names| - 1];
      FreqCounts(p, x);
    }
  }

  /** The names of `o` first occur in `names`, in the order of `o`. */
  predicate FirstsIncrease(names: seq<Option<string>>, o: seq<string>)
  {
    (forall i, j :: 0 <= i < j < |o| ==> FirstOf(names, o[i]) < FirstOf(names, o[j])) &&
    (forall i :: 0 <= i < |o| ==> FirstOf(names, o[i]) < |names|)
  }

  /** The hash's keys come in the order of their first occurrence. */
  lemma {:induction false} FreqOrderFirst(names: seq<Option<string>>)
    ensures FirstsIncrease(names, FreqOrder(names))
    decreases |names|
  {
    if names != [] {
      var k := |names| - 1;
      var p := names[..k];
      var o := FreqOrder(p);
      FreqOrderFirst(p);
      FirstsExtend(names, k, o);
      var n := names[k];
      if Named(n) && n.value !in Freq(p) {
        FreqCounts(p, n.value);
        CountPositive(p, n.value);
        FirstOfPrefix(names, k, n.value);
        FirstsSnoc(names, o, n.value);
      }
    }
  }

  /** First occurrences within a prefix stay first occurrences. */
  lemma FirstsExtend(names: seq<Option<string>>, k: nat, o: seq<string>)
    requires k <= |names| && FirstsIncrease(names[..k], o)
    ensures FirstsIncrease(names, o)
  {
    forall i | 0 <= i < |o| ensures FirstOf(names, o[i]) == FirstOf(names[..k], o[i]) {
      FirstOfPrefix(names, k, o[i]);
    }
  }

  /** A name first occurring after all of `o` extends it. */
  lemma FirstsSnoc(names: seq<Option<string>>, o: seq<string>, x: string)
    requires FirstsIncrease(names, o) && FirstOf(names, x) == |names| - 1
    requires forall i :: 0 <= i < |o| ==> FirstOf(names, o[i]) < |names| - 1
    ensures FirstsIncrease(names, o + [x])
  {
    var o' := o + [x];
    assert forall i :: 0 <= i < |o| ==> o'[i] == o[i];
  }

  /** The first occurrence within a prefix is the first occurrence overall. */
  lemma FirstOfPrefix(names: seq<Option<string>>, k: nat, x: string)
    requires k <= |names|
    ensures FirstOf(names[..k], x) < k ==> FirstOf(names, x) == FirstOf(names[..k], x)
    ensures FirstOf(names[..k], x) == k && k < |names| && names[k] == Some(x) ==> FirstOf(names, x) == k
  {
    var f, g := FirstOf(names[..k], x), FirstOf(names, x);
    assert forall j :: 0 <= j < k ==> names[..k][j] == names[j];
    if f < k {
      assert names[f] == Some(x);
    }
    if f == k && k < |names| && names[k] == Some(x) {
      assert g <= k;
    }
  }

  /** The `freq` hash of the non-blank names, filled in one pass. */
  method CountNames(names: seq<Option<string>>) returns (freq: map<string, nat>, order: seq<string>)
    ensures freq == Freq(names) && order == FreqOrder(names)
  {
    freq, order := map[], [];
    var k := 0;
    while k < |names|
      invariant 0 <= k <= |names|
      invariant freq == Freq(names[..k])
      invariant order == FreqOrder(names[..k])
    {
      ghost var freq0, order0 := freq, order;
      freq, order := CountOne(freq, order, names[k]);
      FreqSnoc(names, k, freq0, order0, freq, order);
      k := k + 1;
    }
    assert names[..k] == names;
  }

  /** The hash after counting one more name: a non-blank name's count goes up by one. */
  function Bump(freq: map<string, nat>, n: Option<string>): map<string, nat>
  {
    if Named(n) then freq[n.value := (if n.value in freq then freq[n.value] else 0) + 1] else freq
  }

  /** The key order after one more name: a name seen for the first time joins it. */
  function Extend(order: seq<string>, freq: map<string, nat>, n: Option<string>): seq<string>
  {
    if Named(n) && n.value !in freq then order + [n.value] else order
  }

  /** One turn of the counting loop. */
  method CountOne(freq: map<string, nat>, order: seq<string>, n: Option<string>) returns (freq': map<string, nat>, order': seq<string>)
    ensures freq' == Bump(freq, n) && order' == Extend(order, freq, n)
  {
    freq', order' := freq, order;
    if Named(n) {
      if n.value !in freq {
        order' := order + [n.value];
      }
      var count := if n.value in freq then freq[n.value] else 0;
      freq' := freq[n.value := count + 1];
    }
  }

  /** One more name counted: the hash and its key order as the loop updates them. */
  lemma FreqSnoc(names: seq<Option<string>>, k: nat, m: map<string, nat>, o: seq<string>, m': map<string, nat>, o': seq<string>)
    requires k < |names| && m == Freq(names[..k]) && o == FreqOrder(names[..k])
    requires m' == Bump(m, names[k]) && o' == Extend(o, m, names[k])
    ensures m' == Freq(names[..k + 1]) && o' == FreqOrder(names[..k + 1])
  {
    assert names[..k + 1][..k] == names[..k];
  }

  /** `max_by { |(_n, c)| c }`: the first position of a highest count. */
  method MaxByCount(freq: map<string, nat>, order: seq<string>) returns (best: nat)
    requires order != [] && forall x :: x in order ==> x in freq
    ensures best < |order|
    ensures forall j :: 0 <= j < |order| ==> freq[order[j]] <= freq[order[best]]
    ensures forall j :: 0 <= j < best ==> freq[order[j]] < freq[order[best]]
  {
    best := 0;
    var i := 1;
    while i < |order|
      invariant 1 <= i <= |order| && best < i
      invariant forall j :: 0 <= j < i ==> freq[order[j]] <= freq[order[best]]
      invariant forall j :: 0 <= j < best ==> freq[order[j]] < freq[order[best]]
    {
      if freq[order[i]] > freq[order[best]] {
        best := i;
      }
      i := i + 1;
    }
  }

  // ---------------------------------------------------------------- name/time pairs

  /** `t || -Float::INFINITY`: a pair without a time is earlier than every timed one. */
  function TimeKey(p: (Option<string>, Option<int>)): Key
  {
    if p.1.None? then Key(0, 0) else Key(1, p.1.value)
  }

  function NamesOf(pairs: seq<(Option<string>, Option<int>)>): (ns: seq<Option<string>>)
    ensures |ns| == |pairs| && forall k :: 0 <= k < |pairs| ==> ns[k] == pairs[k].0
  {
    seq(|pairs|, k requires 0 <= k < |pairs| => pairs[k].0)
  }

  /** `choose_group_display_name` given `[name, time]` pairs: the name of the
      latest pair (the first of equally late ones) when it is not blank,
      else the most frequent non-blank name; nil for no pairs. */
  ghost predicate ChosenFromPairs(pairs: seq<(Option<string>, Option<int>)>, r: Option<string>)
  {
    if pairs == [] then r.None?
    else
      var recent := pairs[ArgMaxFirst(pairs, TimeKey)].0;
      if Named(recent) then r == recent else MostFrequentName(NamesOf(pairs), r)
  }

  /** `max_by { |(n, t)| t || -Float::INFINITY }`, one pair at a time. */
  method RecentIndex(pairs: seq<(Option<string>, Option<int>)>) returns (i: nat)
    requires pairs != []
    ensures i == ArgMaxFirst(pairs, TimeKey)
  {
    i := 0;
    var k := 1;
    while k < |pairs|
      invariant 1 <= k <= |pairs| && i == ArgMaxFirst(pairs[..k], TimeKey)
    {
      assert pairs[..k + 1][..k] == pairs[..k];
      if KeyLess(TimeKey(pairs[i]), TimeKey(pairs[k])) {
        i := k;
      }
      k := k + 1;
    }
    assert pairs[..k] == pairs;
  }

  /** `choose_group_display_name` on pairs. */
  method ChooseFromPairs(pairs: seq<(Option<string>, Option<int>)>) returns (r: Option<string>)
    ensures ChosenFromPairs(pairs, r)
  {
    if pairs == [] {
      return None;
    }
    var i := RecentIndex(pairs);
    if Named(pairs[i].0) {
      return pairs[i].0;
    }
    r := ChooseFromNames(NamesOf(pairs));
  }

  /** A non-blank name strictly later than every other pair is the one chosen. */
  lemma LatestNamedWins(pairs: seq<(Option<string>, Option<int>)>, k: nat, r: Option<string>)
    requires k < |pairs| && Named(pairs[k].0) && pairs[k].1.Some?
    requires forall j :: 0 <= j < |pairs| && j != k ==> pairs[j].1.None? || pairs[j].1.value < pairs[k].1.value
    requires ChosenFromPairs(pairs, r)
    ensures r == pairs[k].0
  {
    var i := ArgMaxFirst(pairs, TimeKey);
    assert !KeyLess(TimeKey(pairs[i]), TimeKey(pairs[k]));
  }

  /** Without any times the first pair counts as the latest. */
  lemma UntimedFirstWins(pairs: seq<(Option<string>, Option<int>)>, r: Option<string>)
    requires pairs != [] && Named(pairs[0].0)
    requires forall j :: 0 <= j < |pairs| ==> pairs[j].1.None?
    requires ChosenFromPairs(pairs, r)
    ensures r == pairs[0].0
  {
    var i := ArgMaxFirst(pairs, TimeKey);
    assert TimeKey(pairs[0]) == TimeKey(pairs[i]) == Key(0, 0);
    assert !KeyLess(TimeKey(pairs[0]), TimeKey(pairs[i]));
    assert i == 0;
  }

  // ---------------------------------------------------------------- group names

  /** The contact stored under key `k`, when there is one. */
  function ContactByKey(ab: Option<seq<Contact>>, k: string): (r: Option<Contact>)
    ensures r.Some? ==> ab.Some? && r.value in ab.value && r.value.key == k
    ensures r.None? <==> ab.None? || forall i :: 0 <= i < |ab.value| ==> ab.value[i].key != k
  {
    if ab.None? then None else FirstWhere(ab.value, (c: Contact) => c.key == k)
  }

  /** The label shown for a participant key: its contact's non-blank name,
      else the contact's first email, else its first phone, else the key. */
  function ParticipantLabel(k: string, ab: Option<seq<Contact>>): (r: string)
    ensures ContactByKey(ab, k).None? ==> r == k
    ensures ContactByKey(ab, k).Some? && Strip(ContactByKey(ab, k).value.name) != [] ==> r == ContactByKey(ab, k).value.name
    ensures r == k || exists c :: c in OrElse(ab, []) && c.key == k && (r == c.name || r in c.emails || r in c.phones)
  {
    var c := ContactByKey(ab, k);
    if c.None? then k
    else
      assert c.value in OrElse(ab, []) && c.value.key == k;
      if Strip(c.value.name) != [] then c.value.name
    else if c.value.emails != [] then c.value.emails[0]
    else if c.value.phones != [] then c.value.phones[0]
    else k
  }

  function Labels(keys: seq<string>, ab: Option<seq<Contact>>): (ls: seq<string>)
    ensures |ls| == |keys| && forall i :: 0 <= i < |keys| ==> ls[i] == ParticipantLabel(keys[i], ab)
  {
    seq(|keys|, i requires 0 <= i < |keys| => ParticipantLabel(keys[i], ab))
  }

  function ShortLabels(keys: seq<string>, ab: Option<seq<Contact>>): (ls: seq<string>)
    ensures |ls| == |keys| && forall i :: 0 <= i < |keys| ==> ls[i] == HandleUtil.SanitizeTruncate(ParticipantLabel(keys[i], ab), 13)
  {
    seq(|keys|, i requires 0 <= i < |keys| => HandleUtil.SanitizeTruncate(ParticipantLabel(keys[i], ab), 13))
  }

  /** ` (+N more)` for the participants beyond the third. */
  function MoreSuffix(n: nat): (r: string)
    ensures n <= 3 ==> r == []
    ensures n > 3 ==> r == " (+" + IntToString(n - 3) + " more)"
  {
    if n > 3 then " (+" + IntToString(n - 3) + " more)" else ""
  }

  /** `build_group_display_name`: the first three labels, each cut to 13
      characters, joined and cut to 25, then the count of the rest. */
  function BuildGroupDisplayName(keys: seq<string>, ab: Option<seq<Contact>>): (r: string)
    ensures keys == [] ==> r == []
    ensures |keys| <= 3 ==> |r| <= 26
    ensures |keys| > 3 ==> EndsWith(r, MoreSuffix(|keys|)) && |r| <= 26 + |MoreSuffix(|keys|)|
    ensures r == HandleUtil.TruncateTotal(Join(ShortLabels(keys, ab)[..Min(3, |keys|)], ", "), 25) + MoreSuffix(|keys|)
  {
    var names := ShortLabels(keys, ab);
    var base := Join(if |names| <= 3 then names else names[..3], ", ");
    assert (if |names| <= 3 then names else names[..3]) == names[..Min(3, |keys|)];
    var r := HandleUtil.TruncateTotal(base, 25) + MoreSuffix(|keys|);
    assert r[|r| - |MoreSuffix(|keys|)|..] == MoreSuffix(|keys|);
    r
  }

  /** `build_group_full_name`: every label, uncut, joined with `, `. */
  function BuildGroupFullName(keys: seq<string>, ab: Option<seq<Contact>>): (r: string)
    ensures keys == [] ==> r == []
    ensures keys != [] ==> StartsWith(r, ParticipantLabel(keys[0], ab))
    ensures |keys| == 1 ==> r == ParticipantLabel(keys[0], ab)
  {
    Join(Labels(keys, ab), ", ")
  }

  /** The full name is the first label, `, `, then the full name of the rest. */
  lemma FullNameCons(keys: seq<string>, ab: Option<seq<Contact>>)
    requires |keys| > 1
    ensures BuildGroupFullName(keys, ab) == ParticipantLabel(keys[0], ab) + ", " + BuildGroupFullName(keys[1..], ab)
  {
    var ls := Labels(keys, ab);
    assert ls == [ParticipantLabel(keys[0], ab)] + Labels(keys[1..], ab);
    JoinCons(ParticipantLabel(keys[0], ab), Labels(keys[1..], ab), ", ");
  }

  /** Each part nonempty: the joined text ends with the last part's last character. */
  lemma {:induction false} JoinLast(parts: seq<string>, sep: string)
    requires parts != [] && parts[|parts| - 1] != []
    ensures var j, l := Join(parts, sep), parts[|parts| - 1]; j != [] && j[|j| - 1] == l[|l| - 1]
    decreases |parts|
  {
    if |parts| > 1 {
      JoinLast(parts[1..], sep);
    }
  }

  /** A label that survives cutting unchanged: nonblank, stripped and short. */
  predicate Tidy(l: string) { l != [] && Strip(l) == l && |l| <= 13 }

  /** With at most three tidy labels that fit in 25 characters, the short
      name and the full name agree. */
  lemma DisplayIsFullWhenShort(keys: seq<string>, ab: Option<seq<Contact>>)
    requires |keys| <= 3
    requires forall i :: 0 <= i < |keys| ==> Tidy(ParticipantLabel(keys[i], ab))
    requires |Join(Labels(keys, ab), ", ")| <= 25
    ensures BuildGroupDisplayName(keys, ab) == BuildGroupFullName(keys, ab)
  {
    var ls := Labels(keys, ab);
    ShortLabelsTidy(keys, ab);
    JoinTidy(ls);
    assert MoreSuffix(|keys|) == [];
  }

  /** Tidy labels are not cut. */
  lemma ShortLabelsTidy(keys: seq<string>, ab: Option<seq<Contact>>)
    requires forall i :: 0 <= i < |keys| ==> Tidy(ParticipantLabel(keys[i], ab))
    ensures ShortLabels(keys, ab) == Labels(keys, ab)
  {
    forall i | 0 <= i < |keys| ensures ShortLabels(keys, ab)[i] == Labels(keys, ab)[i] {
      assert Tidy(ParticipantLabel(keys[i], ab));
    }
  }

  /** Tidy labels joined within the limit are not cut either. */
  lemma JoinTidy(ls: seq<string>)
    requires forall i :: 0 <= i < |ls| ==> Tidy(ls[i])
    requires |Join(ls, ", ")| <= 25
    ensures HandleUtil.TruncateTotal(Join(ls, ", "), 25) == Join(ls, ", ")
  {
    var j := Join(ls, ", ");
    if ls != [] {
      var l := ls[|ls| - 1];
      assert Tidy(l);
      JoinLast(ls, ", ");
      assert !IsStripChar(j[|j| - 1]);
    } else {
      assert j == [];
    }
    HandleUtil.TruncateShort(j, 25);
  }
}
