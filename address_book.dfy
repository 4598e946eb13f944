// Address-book contacts as the reader builds them from the contacts
// database, and the two searches over them: `ab:` selectors and the slow
// scan that finds the contact of a message handle.

module AddressBook {
  import opened Str

  /** `AddressBookResolver::Contact`. */
  datatype Contact = Contact(key: string, linkId: Option<string>, pk: int, name: string,
                             emails: seq<string>, phones: seq<string>, imIds: seq<string>)

  // ---------------------------------------------------------------- building contacts

  /** The key of a contact: its link id when that is non-empty, else `pk:<pk>`. */
  function ContactKey(linkId: Option<string>, pk: int): (k: string)
    ensures linkId.Some? && linkId.value != [] ==> k == linkId.value
    ensures linkId.None? || linkId.value == [] ==> k == "pk:" + IntToString(pk)
  {
    if linkId.Some? && linkId.value != [] then linkId.value else "pk:" + IntToString(pk)
  }

  /** Two contacts without a link id share a key only when they share a pk. */
  lemma PkKeysDistinct(pk1: int, pk2: int, l1: Option<string>, l2: Option<string>)
    requires l1.None? || l1.value == []
    requires l2.None? || l2.value == []
    requires ContactKey(l1, pk1) == ContactKey(l2, pk2)
    ensures pk1 == pk2
  {
    var k := ContactKey(l1, pk1);
    assert k[3..] == IntToString(pk1);
    assert ContactKey(l2, pk2)[3..] == IntToString(pk2);
    IntToStringInjective(pk1, pk2);
  }

  /** A contact as the record query creates it: keyed, with its display
      name stripped and no addresses yet. */
  function NewContact(linkId: Option<string>, pk: int, display: Option<string>): (c: Contact)
    ensures c.key == ContactKey(linkId, pk) && c.linkId == linkId && c.pk == pk
    ensures Strip(c.name) == c.name
    ensures c.emails == [] && c.phones == [] && c.imIds == []
  {
    var name := Strip(OrElse(display, ""));
    StripFixed(name);
    Contact(ContactKey(linkId, pk), linkId, pk, name, [], [], [])
  }

  /** An email address as it is stored: stripped and lower-cased; a blank
      one is not stored. */
  function NormalizeEmail(addr: Option<string>): (r: Option<string>)
    ensures r.Some? ==> r.value != [] && !IsStripChar(r.value[0]) && !IsStripChar(r.value[|r.value| - 1])
    ensures r.Some? ==> forall i :: 0 <= i < |r.value| ==> !IsUpper(r.value[i])
    ensures r.None? <==> IsBlank(OrElse(addr, ""))
    ensures r == (if IsBlank(OrElse(addr, "")) then None else Some(Lower(Strip(OrElse(addr, "")))))
  {
    var e := Lower(Strip(OrElse(addr, "")));
    StripEmptyIffBlank(OrElse(addr, ""));
    if e == [] then None else Some(e)
  }

  /** A stored address is stored unchanged. */
  lemma NormalizeEmailIdempotent(addr: Option<string>)
    requires NormalizeEmail(addr).Some?
    ensures NormalizeEmail(NormalizeEmail(addr)) == NormalizeEmail(addr)
  {
    var e := NormalizeEmail(addr).value;
    StripFixed(e);
    assert Lower(e) == e;
  }

  /** The digits of the country code, then of the area code and local
      number when both are present. */
  function ComponentDigits(cc: Option<string>, ac: Option<string>, ln: Option<string>): (d: string)
    ensures AllDigits(d)
  {
    Digits(OrElse(cc, "")) + (if ac.Some? && ln.Some? then Digits(ac.value) + Digits(ln.value) else [])
  }

  /** `e164_from_components`: `+` and the digits of the full number when it
      has any; else the country-code digits, followed by the area and local
      digits when both are present; nil when that leaves no digits. */
  method E164FromComponents(full: Option<string>, cc: Option<string>, ac: Option<string>, ln: Option<string>)
    returns (r: Option<string>)
    ensures r.Some? ==> |r.value| >= 2 && r.value[0] == '+' && AllDigits(r.value[1..])
    ensures r.Some? ==> Digits(r.value) == r.value[1..]
    ensures full.Some? && Strip(full.value) != [] && Digits(full.value) != [] ==> r == Some("+" + Digits(full.value))
    ensures !(full.Some? && Strip(full.value) != [] && Digits(full.value) != []) ==>
      r == (var d := ComponentDigits(cc, ac, ln); if d == [] then None else Some("+" + d))
  {
    if full.Some? && Strip(full.value) != [] {
      var s := Digits(full.value);
      if s != [] {
        PlusDigits(s);
        return Some("+" + s);
      }
    }
    ghost var d := ComponentDigits(cc, ac, ln);
    var digits := "";
    if cc.Some? && cc.value != [] {
      digits := digits + Digits(cc.value);
    }
    assert digits == Digits(OrElse(cc, ""));
    if ac.Some? && ln.Some? {
      digits := digits + Digits(ac.value) + Digits(ln.value);
    }
    assert digits == d;
    if digits == [] {
      return None;
    }
    PlusDigits(digits);
    r := Some("+" + digits);
  }

  // ---------------------------------------------------------------- selectors

  lemma NoNewlineSlice(s: string, a: nat, e: nat)
    requires a <= e <= |s| && forall k :: a <= k < e ==> s[k] != '\n'
    ensures '\n' !in s[a..e]
  {}

  /** The capture of `/^ab:(.+)$/i` from position `p` on: the rest of the
      first line that starts with `ab:`, in any case, and goes on after it. */
  function AbRestFrom(s: string, p: nat): (r: Option<string>)
    requires p <= |s|
    ensures r.Some? ==> r.value != [] && '\n' !in r.value
    decreases |s| - p
  {
    if p + 3 < |s| && LineStart(s, p) && Lower(s[p..p + 3]) == "ab:" && s[p + 3] != '\n' then
      var e := LineEnd(s, p + 3);
      NoNewlineSlice(s, p + 3, e);
      Some(s[p + 3..e])
    else if p == |s| then None
    else AbRestFrom(s, p + 1)
  }

  /** The position of the first contact from `i` on satisfying `P`. */
  function FirstIndexFrom(cs: seq<Contact>, P: Contact -> bool, i: nat): (r: Option<nat>)
    requires i <= |cs|
    ensures r.Some? ==> i <= r.value < |cs| && P(cs[r.value]) && forall j :: i <= j < r.value ==> !P(cs[j])
    ensures r.None? ==> forall j :: i <= j < |cs| ==> !P(cs[j])
    decreases |cs| - i
  {
    if i == |cs| then None else if P(cs[i]) then Some(i) else FirstIndexFrom(cs, P, i + 1)
  }

  /** Searches with predicates that agree on the contacts agree. */
  lemma {:induction false} FirstIndexSame(cs: seq<Contact>, P: Contact -> bool, Q: Contact -> bool, i: nat)
    requires i <= |cs| && forall c :: c in cs ==> P(c) == Q(c)
    ensures FirstIndexFrom(cs, P, i) == FirstIndexFrom(cs, Q, i)
    decreases |cs| - i
  {
    if i < |cs| {
      FirstIndexSame(cs, P, Q, i + 1);
    }
  }

  /** The first contact satisfying `P`, in the address book's order. */
  function FirstWhere(cs: seq<Contact>, P: Contact -> bool): (r: Option<Contact>)
    ensures r.Some? ==> exists i :: 0 <= i < |cs| && cs[i] == r.value && P(cs[i]) && forall j :: 0 <= j < i ==> !P(cs[j])
    ensures r.None? <==> forall i :: 0 <= i < |cs| ==> !P(cs[i])
  {
    match FirstIndexFrom(cs, P, 0)
    case None => None
    case Some(i) => Some(cs[i])
  }

  function KeyOf(c: Option<Contact>): Option<string>
  {
    if c.Some? then Some(c.value.key) else None
  }

  /** `resolve_selector_to_key`: `ab:pk:<n>` names the first contact whose
      pk prints as `n`, `ab:<id>` the first whose link id is `id`. */
  function ResolveSelectorToKey(ab: Option<seq<Contact>>, selector: Option<string>): (r: Option<string>)
    ensures ab.None? || selector.None? || AbRestFrom(selector.value, 0).None? ==> r.None?
    ensures r.Some? ==> exists c :: c in ab.value && c.key == r.value
  {
    if ab.None? || selector.None? then None
    else
      match AbRestFrom(selector.value, 0)
      case None => None
      case Some(rest) =>
        if StartsWith(rest, "pk:") then
          var pk := rest[3..];
          KeyOf(FirstWhere(ab.value, (c: Contact) => IntToString(c.pk) == pk))
        else
          KeyOf(FirstWhere(ab.value, (c: Contact) => OrElse(c.linkId, "") == rest))
  }

  lemma AbRestOf(rest: string)
    requires rest != [] && '\n' !in rest
    ensures AbRestFrom("ab:" + rest, 0) == Some(rest)
  {
    var s := "ab:" + rest;
    assert s[0..3] == "ab:";
    assert Lower("ab:") == "ab:";
    assert forall k :: 3 <= k < |s| ==> s[k] == rest[k - 3];
    var e := LineEnd(s, 3);
    assert e == |s|;
    assert s[3..e] == rest;
  }

  lemma IntToStringNoNewline(i: int)
    ensures '\n' !in IntToString(i)
  {
    var r := IntToString(i);
    if i < 0 {
      assert forall k :: 1 <= k < |r| ==> r[k] == r[1..][k - 1];
    }
    assert forall k :: 0 <= k < |r| ==> r[k] != '\n';
  }

  /** `ab:pk:<n>` resolves to the key of the first contact whose pk is `n`. */
  lemma ResolvePk(ab: seq<Contact>, n: int)
    ensures ResolveSelectorToKey(Some(ab), Some("ab:pk:" + IntToString(n))) ==
      KeyOf(FirstWhere(ab, (c: Contact) => c.pk == n))
  {
    var rest := "pk:" + IntToString(n);
    IntToStringNoNewline(n);
    assert "ab:pk:" + IntToString(n) == "ab:" + rest;
    AbRestOf(rest);
    assert rest[3..] == IntToString(n);
    PkTextSame(ab, n);
    FirstIndexSame(ab, (c: Contact) => IntToString(c.pk) == rest[3..], (c: Contact) => c.pk == n, 0);
  }

  lemma PkTextSame(ab: seq<Contact>, n: int)
    ensures forall c :: c in ab ==> (IntToString(c.pk) == IntToString(n)) == (c.pk == n)
  {
    forall c | c in ab ensures (IntToString(c.pk) == IntToString(n)) == (c.pk == n) {
      if IntToString(c.pk) == IntToString(n) {
        IntToStringInjective(c.pk, n);
      }
    }
  }

  /** `ab:<id>` resolves to the key of the first contact with link id `id`. */
  lemma ResolveLinkId(ab: seq<Contact>, id: string)
    requires id != [] && '\n' !in id && !StartsWith(id, "pk:")
    ensures ResolveSelectorToKey(Some(ab), Some("ab:" + id)) ==
      KeyOf(FirstWhere(ab, (c: Contact) => OrElse(c.linkId, "") == id))
  {
    AbRestOf(id);
  }

  // ---------------------------------------------------------------- handle scan

  /** A phone matches a lower-cased handle `s` with digits `d` by its
      lower-cased text, by its digits, or by the last ten digits of both. */
  predicate PhoneMatch(p: string, s: string, d: string)
  {
    Lower(p) == s || Digits(p) == d || (Last10(Digits(p)).Some? && Last10(Digits(p)) == Last10(d))
  }

  /** The phone comparison as the source writes it: the last-ten slices are
      compared even when both are nil. */
  predicate PhoneMatchAsWritten(p: string, s: string, d: string)
  {
    Lower(p) == s || Digits(p) == d || Last10(Digits(p)) == Last10(d)
  }

  /** A messaging address matches by its lower-cased text, or as `tel:`
      followed by the handle's digits. */
  predicate ImMatch(m: string, s: string, d: string)
  {
    var t := Lower(m);
    t == s || (StartsWith(t, "tel:") && Digits(t[4..]) == d)
  }

  predicate Matches(c: Contact, s: string, d: string)
  {
    (exists i :: 0 <= i < |c.emails| && Lower(c.emails[i]) == s) ||
    (exists i :: 0 <= i < |c.phones| && PhoneMatch(c.phones[i], s, d)) ||
    (exists i :: 0 <= i < |c.imIds| && ImMatch(c.imIds[i], s, d))
  }

  predicate MatchesAsWritten(c: Contact, s: string, d: string)
  {
    (exists i :: 0 <= i < |c.emails| && Lower(c.emails[i]) == s) ||
    (exists i :: 0 <= i < |c.phones| && PhoneMatchAsWritten(c.phones[i], s, d)) ||
    (exists i :: 0 <= i < |c.imIds| && ImMatch(c.imIds[i], s, d))
  }

  /** `find_contact_for_handle` as written: the first contact, in order,
      that matches with the last-ten slices compared even when both are nil. */
  function FindContactForHandleAsWritten(ab: Option<seq<Contact>>, handle: Option<string>): (r: Option<Contact>)
    ensures ab.None? || handle.None? ==> r.None?
    ensures r.Some? ==> var s := Lower(handle.value);
      exists i :: 0 <= i < |ab.value| && ab.value[i] == r.value && MatchesAsWritten(r.value, s, Digits(s)) &&
        forall j :: 0 <= j < i ==> !MatchesAsWritten(ab.value[j], s, Digits(s))
    ensures ab.Some? && handle.Some? && r.None? ==> var s := Lower(handle.value);
      forall i :: 0 <= i < |ab.value| ==> !MatchesAsWritten(ab.value[i], s, Digits(s))
  {
    if ab.None? || handle.None? then None
    else
      var s := Lower(handle.value);
      FirstWhere(ab.value, c => MatchesAsWritten(c, s, Digits(s)))
  }

  /** `find_contact_for_handle` with the last-ten comparison made only
      between two ten-digit slices: the first contact, in order, with an
      email equal to the lower-cased handle, a matching phone or a matching
      messaging address. */
  function FindContactForHandle(ab: Option<seq<Contact>>, handle: Option<string>): (r: Option<Contact>)
    ensures ab.None? || handle.None? ==> r.None?
    ensures r.Some? ==> var s := Lower(handle.value);
      exists i :: 0 <= i < |ab.value| && ab.value[i] == r.value && Matches(r.value, s, Digits(s)) &&
        forall j :: 0 <= j < i ==> !Matches(ab.value[j], s, Digits(s))
    ensures ab.Some? && handle.Some? && r.None? ==> var s := Lower(handle.value);
      forall i :: 0 <= i < |ab.value| ==> !Matches(ab.value[i], s, Digits(s))
  {
    if ab.None? || handle.None? then None
    else
      var s := Lower(handle.value);
      FirstWhere(ab.value, c => Matches(c, s, Digits(s)))
  }

  /** The corrected comparison only drops matches. */
  lemma MatchesIsAsWritten(c: Contact, s: string, d: string)
    requires Matches(c, s, d)
    ensures MatchesAsWritten(c, s, d)
  {
    if exists i :: 0 <= i < |c.phones| && PhoneMatch(c.phones[i], s, d) {
      var i :| 0 <= i < |c.phones| && PhoneMatch(c.phones[i], s, d);
      assert PhoneMatchAsWritten(c.phones[i], s, d);
    }
  }

  lemma NoDigits(s: string)
    requires forall i :: 0 <= i < |s| ==> !IsDigit(s[i])
    ensures Digits(s) == []
  {
    DigitsEmptyIffNoDigit(s);
  }

  /** A contact whose only phone is a short code matches every email handle
      in the scan as written, since both last-ten slices are nil. */
  lemma ShortPhoneMatchesAnyEmail()
    ensures var c := Contact("pk:1", None, 1, "Short Code", [], ["+44"], []);
      FindContactForHandleAsWritten(Some([c]), Some("a@b")) == Some(c) &&
      FindContactForHandle(Some([c]), Some("a@b")) == None
  {
    var c := Contact("pk:1", None, 1, "Short Code", [], ["+44"], []);
    var s := "a@b";
    assert Lower(s) == s;
    ShortCodeMatches(c, s);
    assert FirstIndexFrom([c], (x: Contact) => MatchesAsWritten(x, s, Digits(s)), 0) == Some(0);
  }

  lemma ShortCodeMatches(c: Contact, s: string)
    requires c == Contact("pk:1", None, 1, "Short Code", [], ["+44"], []) && s == "a@b"
    ensures MatchesAsWritten(c, s, Digits(s)) && !Matches(c, s, Digits(s))
  {
    NoDigits(s);
    PlusDigits("44");
    assert PhoneMatchAsWritten(c.phones[0], s, Digits(s));
    assert !PhoneMatch(c.phones[0], s, Digits(s));
  }
}
