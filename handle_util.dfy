// Display helpers for raw handles (phone numbers and email addresses):
// phone grouping, author labels from a friendly-name map, and the caps that
// keep long handles short in lists. Grapheme clusters are modelled as
// single characters.

module HandleUtil {
  import opened Str

  const Ellipsis: char := '\U{2026}'

  // ---------------------------------------------------------------- truncation

  /** The long case of both truncations: the first `max` characters,
      right-stripped, then an ellipsis. The kept head is the longest prefix
      of those `max` characters that does not end in a blank. */
  function Cut(s: string, max: nat): (r: string)
    requires |s| > max
    ensures r != [] && r[|r| - 1] == Ellipsis && |r| <= max + 1
    ensures var h := r[..|r| - 1];
      |h| <= max && h == s[..|h|] && (h == [] || !IsStripChar(h[|h| - 1])) &&
      forall k :: |h| <= k < max ==> IsStripChar(s[k])
  {
    var head := RStrip(s[..max]);
    assert (head + [Ellipsis])[..|head|] == head;
    head + [Ellipsis]
  }

  /** `truncate_total`: right-strip; a string of at most `max` characters is
      kept, a longer one is cut to `max`, right-stripped again and ended with
      an ellipsis. */
  function TruncateTotal(str: string, max: nat): (r: string)
    ensures |r| <= max + 1
    ensures |RStrip(str)| <= max ==> r == RStrip(str)
    ensures |RStrip(str)| > max ==> r == Cut(RStrip(str), max) && r == RStrip(RStrip(str)[..max]) + [Ellipsis]
    ensures |RStrip(str)| > max ==> StartsWith(str, r[..|r| - 1])
  {
    var s := RStrip(str);
    if |s| <= max then s else Cut(s, max)
  }

  /** `sanitize_truncate`: as `TruncateTotal`, but strips both ends first. */
  function SanitizeTruncate(str: string, max: nat): (r: string)
    ensures |r| <= max + 1
    ensures |Strip(str)| <= max ==> r == Strip(str)
    ensures |Strip(str)| > max ==> r == Cut(Strip(str), max) && r == RStrip(Strip(str)[..max]) + [Ellipsis]
  {
    var s := Strip(str);
    if |s| <= max then s else Cut(s, max)
  }

  /** A string that is already short and has no trailing blank is kept. */
  lemma TruncateShort(s: string, max: nat)
    requires |s| <= max && (s == [] || !IsStripChar(s[|s| - 1]))
    ensures TruncateTotal(s, max) == s
  {
  }

  // ---------------------------------------------------------------- format_handle

  /** Ruby's `/^\+\d+$/`: some line of `s` is `+` followed by digits. */
  predicate PlusDigitsLine(s: string)
  {
    exists p: nat :: p < |s| && LineStart(s, p) && s[p] == '+' && PlusDigitsFrom(s, p + 1)
  }

  /** From `q` to the end of its line there is at least one character, and all are digits. */
  predicate PlusDigitsFrom(s: string, q: nat)
    requires q <= |s|
  {
    var e := LineEnd(s, q);
    e > q && forall k :: q <= k < e ==> IsDigit(s[k])
  }

  /** Eleven digits written as `+D (DDD) DDD-DDDD`. */
  function Block(a: string): (r: string)
    requires |a| == 11
  {
    "+" + (a[..1] + (" (" + (a[1..4] + (") " + (a[4..7] + ("-" + a[7..11]))))))
  }

  /** `gsub(/(\+\d)(\d{3})(\d{3})(\d{4})/, '\1 (\2) \3-\4')`: every `+`
      followed by eleven digits, left to right without overlap, becomes
      `+D (DDD) DDD-DDDD`. */
  function GroupPhones(s: string): (r: string)
    ensures |r| >= |s|
    ensures |s| < 12 ==> r == s
    decreases |s|
  {
    if |s| >= 12 && s[0] == '+' && AllDigits(s[1..12]) then Block(s[1..12]) + GroupPhones(s[12..])
    else if s == [] then []
    else [s[0]] + GroupPhones(s[1..])
  }

  /** `format_handle`. */
  function FormatHandle(handle: Option<string>): (r: string)
    ensures handle.None? ==> r == []
    ensures handle.Some? && !PlusDigitsLine(handle.value) ==> r == handle.value
  {
    if handle.None? then []
    else if PlusDigitsLine(handle.value) then GroupPhones(handle.value)
    else handle.value
  }

  /** Text without a `+` is left as it is by the grouping. */
  lemma {:induction false} GroupPhonesNoPlus(s: string)
    requires forall i :: 0 <= i < |s| ==> s[i] != '+'
    ensures GroupPhones(s) == s
    decreases |s|
  {
    if s != [] {
      GroupPhonesNoPlus(s[1..]);
    }
  }

  lemma BlockDigits(a: string)
    requires |a| == 11 && AllDigits(a)
    ensures Digits(Block(a)) == a
  {
    DigitsBetween("+", a[..1], " (", a[1..4], ") ", a[4..7], "-", a[7..11]);
    assert a[4..7] + a[7..11] == a[4..];
    assert a[1..4] + a[4..] == a[1..];
    assert a[..1] + a[1..] == a;
  }

  predicate NoDigit(p: string) { forall i :: 0 <= i < |p| ==> !IsDigit(p[i]) }

  /** Digits interleaved with separators without digits keep just the digits. */
  lemma DigitsBetween(c1: string, x1: string, c2: string, x2: string, c3: string, x3: string, c4: string, x4: string)
    requires NoDigit(c1) && NoDigit(c2) && NoDigit(c3) && NoDigit(c4)
    requires AllDigits(x1) && AllDigits(x2) && AllDigits(x3) && AllDigits(x4)
    ensures Digits(c1 + (x1 + (c2 + (x2 + (c3 + (x3 + (c4 + x4))))))) == x1 + (x2 + (x3 + x4))
  {
    NoDigitsThen(c4, x4);
    DigitsThen(x3, c4 + x4);
    NoDigitsThen(c3, x3 + (c4 + x4));
    DigitsThen(x2, c3 + (x3 + (c4 + x4)));
    NoDigitsThen(c2, x2 + (c3 + (x3 + (c4 + x4))));
    DigitsThen(x1, c2 + (x2 + (c3 + (x3 + (c4 + x4)))));
    NoDigitsThen(c1, x1 + (c2 + (x2 + (c3 + (x3 + (c4 + x4))))));
  }

  lemma NoDigitsThen(p: string, x: string)
    requires NoDigit(p)
    ensures Digits(p + x) == Digits(x)
  {
    DigitsAppend(p, x);
    DigitsEmptyIffNoDigit(p);
  }

  lemma DigitsThen(p: string, x: string)
    requires AllDigits(p)
    ensures Digits(p + x) == p + Digits(x)
  {
    DigitsAppend(p, x);
  }

  /** The grouping only inserts spaces and punctuation: the digits are kept, in order. */
  lemma {:induction false} GroupPhonesDigits(s: string)
    ensures Digits(GroupPhones(s)) == Digits(s)
    decreases |s|
  {
    if |s| >= 12 && s[0] == '+' && AllDigits(s[1..12]) {
      var a, rest := s[1..12], s[12..];
      GroupPhonesDigits(rest);
      BlockDigits(a);
      DigitsAppend(Block(a), GroupPhones(rest));
      assert s == [s[0]] + (a + rest);
      assert Digits(s) == Digits(a + rest);
      DigitsAppend(a, rest);
    } else if s != [] {
      GroupPhonesDigits(s[1..]);
      DigitsAppend([s[0]], GroupPhones(s[1..]));
      DigitsAppend([s[0]], s[1..]);
      assert s == [s[0]] + s[1..];
    }
  }

  /** Formatting a handle never changes its digits. */
  lemma FormatHandleDigits(handle: string)
    ensures Digits(FormatHandle(Some(handle))) == Digits(handle)
  {
    GroupPhonesDigits(handle);
  }

  /** `+` and eleven or more digits: the first eleven are grouped as
      `+D (DDD) DDD-DDDD` and any further digits follow unchanged. */
  lemma FormatLongNumber(d: string)
    requires AllDigits(d) && |d| >= 11
    ensures FormatHandle(Some("+" + d)) == Block(d[..11]) + d[11..]
  {
    var s := "+" + d;
    assert PlusDigitsFrom(s, 1) by {
      assert forall k :: 1 <= k < |s| ==> s[k] == d[k - 1];
      LineEndNoNewline(s, 1);
    }
    assert PlusDigitsLine(s) by { assert LineStart(s, 0) && s[0] == '+'; }
    assert s[1..12] == d[..11];
    assert s[12..] == d[11..];
    GroupPhonesNoPlus(d[11..]);
  }

  /** A line without newlines ends at the end of the text. */
  lemma {:induction false} LineEndNoNewline(s: string, p: nat)
    requires p <= |s| && forall k :: p <= k < |s| ==> s[k] != '\n'
    ensures LineEnd(s, p) == |s|
    decreases |s| - p
  {
    if p < |s| {
      LineEndNoNewline(s, p + 1);
    }
  }

  /** `+` and fewer than eleven digits is shown unchanged. */
  lemma FormatShortNumber(d: string)
    requires AllDigits(d) && |d| < 11
    ensures FormatHandle(Some("+" + d)) == "+" + d
  {
    var s := "+" + d;
    GroupPhonesNoPlus(d);
    assert s[1..] == d;
    if PlusDigitsLine(s) {
      assert GroupPhones(s) == [s[0]] + GroupPhones(s[1..]);
    }
  }

  // ---------------------------------------------------------------- names

  /** `resolve_author_name`: a non-blank friendly name for the lower-cased
      handle, else the formatted handle; "" without a handle. */
  function ResolveAuthorName(friendly: Option<map<string, string>>, handle: Option<string>): (r: string)
    ensures handle.None? ==> r == []
    ensures handle.Some? ==> var fm, h := OrElse(friendly, map[]), Lower(handle.value);
      (h in fm && !IsBlank(fm[h]) ==> r == fm[h]) && (h !in fm || IsBlank(fm[h]) ==> r == FormatHandle(handle))
  {
    if handle.None? then []
    else
      var fm := OrElse(friendly, map[]);
      var h := Lower(handle.value);
      if h in fm && !IsBlank(fm[h]) then fm[h] else FormatHandle(handle)
  }

  predicate PhoneChar(c: char) { IsDigit(c) || IsSpace(c) || c == '(' || c == ')' || c == '.' || c == '-' }

  /** `/\A\+?[\d\s().-]+\z/` */
  predicate PhoneLikeName(s: string): (r: bool)
    ensures r ==> s != [] && forall i :: 0 <= i < |s| ==> PhoneChar(s[i]) || (i == 0 && s[i] == '+')
    ensures s != [] && AllDigits(s) ==> r
  {
    var t := if s != [] && s[0] == '+' then s[1..] else s;
    t != [] && forall i :: 0 <= i < |t| ==> PhoneChar(t[i])
  }

  /** `cap_handle_name`: email-like names are capped at 20 characters,
      phone-like ones at 16, every other name is kept. */
  function CapHandleName(name: Option<string>): (r: string)
    ensures var s := OrElse(name, []);
      (s == [] || (!Contains(s, "@") && !PhoneLikeName(s)) ==> r == s) &&
      (Contains(s, "@") ==> |r| <= 21 && (|RStrip(s)| <= 20 ==> r == RStrip(s))) &&
      (!Contains(s, "@") && PhoneLikeName(s) ==> |r| <= 17 && (|RStrip(s)| <= 16 ==> r == RStrip(s)))
    ensures var s := OrElse(name, []);
      (Contains(s, "@") ==> r == TruncateTotal(s, 20)) &&
      (Contains(s, "@") && |RStrip(s)| > 20 ==> r == RStrip(RStrip(s)[..20]) + [Ellipsis])
    ensures var s := OrElse(name, []);
      (s != [] && !Contains(s, "@") && PhoneLikeName(s) ==> r == TruncateTotal(s, 16)) &&
      (!Contains(s, "@") && PhoneLikeName(s) && |RStrip(s)| > 16 ==> r == RStrip(RStrip(s)[..16]) + [Ellipsis])
  {
    var s := OrElse(name, []);
    if s == [] then s
    else if Contains(s, "@") then TruncateTotal(s, 20)
    else if PhoneLikeName(s) then TruncateTotal(s, 16)
    else s
  }
}
