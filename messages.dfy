// Text helpers of the message query: cleaning decoded text, the normal form
// used to match a quoted reaction to the message it quotes, the parser for
// legacy reaction texts (`Loved "…"`, `Reacted 👍 to "…"`), the tapback
// emoji table and the Apple-epoch clock conversion.

module MessageText {
  import opened Str
  import MessageDecoder

  // ---------------------------------------------------------------- clean_text

  const ObjectReplacement: char := '￼'

  /** `clean_text`: U+FFFC, attachment placeholders and C0/DEL characters
      removed, then stripped; nil when nothing is left. */
  function CleanText(text: Option<string>): (r: Option<string>)
    ensures text.None? ==> r.None?
    ensures r.Some? ==> r.value != [] && !IsStripChar(r.value[0]) && !IsStripChar(r.value[|r.value| - 1])
    ensures r.Some? ==> forall i :: 0 <= i < |r.value| ==> !MessageDecoder.IsControl(r.value[i])
  {
    match text
    case None => None
    case Some(t) =>
      var e := Strip(CleanedChars(t));
      if e == [] then None else Some(e)
  }

  /** The three deletions of `clean_text`, before the strip. */
  function CleanedChars(t: string): (r: string)
    ensures forall i :: 0 <= i < |r| ==> !MessageDecoder.IsControl(r[i])
  {
    var a := Filter(t, c => c != ObjectReplacement);
    var b := MessageDecoder.RemovePlaceholders(a);
    Filter(b, c => !MessageDecoder.IsControl(c))
  }

  /** What `clean_text` returns holds no object replacement character, and
      every character of it comes from the input. */
  lemma CleanTextChars(t: string)
    ensures CleanText(Some(t)).Some? ==>
      var r := CleanText(Some(t)).value;
      ObjectReplacement !in r && forall c :: c in r ==> c in t
  {
    var a := Filter(t, c => c != ObjectReplacement);
    var b := MessageDecoder.RemovePlaceholders(a);
    MessageDecoder.GsubDeletes(a, 0, MessageDecoder.PlaceholderAt);
    assert a[0..] == a;
    var d := Filter(b, c => !MessageDecoder.IsControl(c));
    assert forall x :: x in d ==> x in a;
    StripChars(d);
  }

  /** Text that is already clean (non-empty, stripped, free of the removed
      characters and of placeholders) comes back unchanged. */
  lemma CleanTextFixed(t: string)
    requires t != [] && !IsStripChar(t[0]) && !IsStripChar(t[|t| - 1])
    requires ObjectReplacement !in t && MessageDecoder.NoPlaceholder(t)
    requires forall i :: 0 <= i < |t| ==> !MessageDecoder.IsControl(t[i])
    ensures CleanText(Some(t)) == Some(t)
  {
    FilterAll(t, c => c != ObjectReplacement);
    MessageDecoder.GsubNoMatch(t, 0, MessageDecoder.PlaceholderAt, "");
    assert t[0..] == t;
    FilterAll(t, c => !MessageDecoder.IsControl(c));
  }

  // ---------------------------------------------------------------- normalize_text

  /** `\p{Pd}` (Unicode 15 dash punctuation), which already holds `-` and
      U+2010..U+2015. */
  predicate IsDash(c: char)
  {
    c == '-' || c == '֊' || c == '־' || c == '᐀' || c == '᠆'
    || ('‐' <= c <= '―') || c == '⸗' || c == '⸚' || c == '⸺'
    || c == '⸻' || c == '⹀' || c == '⹝' || c == '〜' || c == '〰'
    || c == '゠' || c == '︱' || c == '︲' || c == '﹘' || c == '﹣'
    || c == '－' || c == '\U{10EAD}'
  }

  /** U+2018, U+2019, U+201C and U+201D. */
  predicate IsCurlyQuote(c: char) { c == '‘' || c == '’' || c == '“' || c == '”' }

  /** One character through `downcase`, the dash `gsub` and the quote `gsub`. */
  function NormChar(c: char): (d: char)
    ensures IsSpace(c) ==> d == c
    ensures !IsUpper(d) && !IsCurlyQuote(d)
    ensures IsDash(d) ==> d == '-'
  {
    var l := LowerChar(c);
    if IsDash(l) then '-' else if IsCurlyQuote(l) then '"' else l
  }

  function NormChars(s: string): (r: string)
    ensures |r| == |s| && forall i :: 0 <= i < |s| ==> r[i] == NormChar(s[i])
  {
    if s == [] then [] else [NormChar(s[0])] + NormChars(s[1..])
  }

  /** `normalize_text` on a string. */
  function Normalize(s: string): (r: string)
    ensures Collapsed(r)
    ensures r == [] || (!IsStripChar(r[0]) && !IsStripChar(r[|r| - 1]))
  {
    SquishCollapsed(NormChars(s));
    Squish(NormChars(s))
  }

  /** `normalize_text`: nil stays nil. */
  function NormalizeText(text: Option<string>): (r: Option<string>)
    ensures r.None? <==> text.None?
    ensures r.Some? ==> r.value == Normalize(text.value)
  {
    match text
    case None => None
    case Some(t) => Some(Normalize(t))
  }

  lemma NormCharIdempotent(c: char)
    ensures NormChar(NormChar(c)) == NormChar(c)
  {}

  /** Normalising twice gives what normalising once does, so matching a
      quote against the index is insensitive to the quote's own form. */
  lemma NormalizeIdempotent(s: string)
    ensures Normalize(Normalize(s)) == Normalize(s)
  {
    var t := NormChars(s);
    var n := Normalize(s);
    SquishChars(t);
    forall i | 0 <= i < |n| ensures NormChar(n[i]) == n[i] {
      assert n[i] in Squish(t);
      if n[i] != ' ' {
        var k :| 0 <= k < |t| && t[k] == n[i];
        NormCharIdempotent(s[k]);
      }
    }
    assert NormChars(n) == n;
    SquishFixed(n);
  }

  /** Letter case does not matter to the normal form. */
  lemma NormalizeIgnoresCase(s: string)
    ensures Normalize(Lower(s)) == Normalize(s)
  {
    var l := Lower(s);
    forall i | 0 <= i < |s| ensures NormChars(l)[i] == NormChars(s)[i] {
      assert l[i] == LowerChar(s[i]);
      assert LowerChar(l[i]) == LowerChar(s[i]);
    }
    assert NormChars(l) == NormChars(s);
  }

  // ---------------------------------------------------------------- parse_reaction_text

  /** `["“”]`. */
  predicate IsQuoteMark(c: char) { c == '"' || c == '“' || c == '”' }

  /** The end of the whitespace run that starts at `p`. Every `\s+` of the
      two patterns is followed by a non-space, so its greedy run is the
      only one that can match. */
  function SpaceEnd(s: string, p: nat): (e: nat)
    requires p <= |s|
    ensures p <= e <= |s| && (e == |s| || !IsSpace(s[e]))
    decreases |s| - p
  {
    if p < |s| && IsSpace(s[p]) then SpaceEnd(s, p + 1) else p
  }

  /** `\s*$` at `p`: whitespace up to the end of the text or to a newline. */
  predicate LineEndAt(s: string, p: nat)
    requires p <= |s|
    decreases |s| - p
  {
    p == |s| || s[p] == '\n' || (IsSpace(s[p]) && LineEndAt(s, p + 1))
  }

  /** `(.+?)["“”]\s*$` for a group ending at `j` or later: the position of
      the closing quote after the shortest group that holds no newline and
      is followed by a quote mark and the line end. */
  function CloseQuote(s: string, j: nat): (r: Option<nat>)
    requires 0 < j <= |s|
    ensures r.Some? ==> j <= r.value < |s| && IsQuoteMark(s[r.value]) && LineEndAt(s, r.value + 1)
    decreases |s| - j
  {
    if j >= |s| || s[j - 1] == '\n' then None
    else if IsQuoteMark(s[j]) && LineEndAt(s, j + 1) then Some(j)
    else CloseQuote(s, j + 1)
  }

  /** `["“”](.+?)["“”]\s*$` at `w`: the quoted text. */
  function QuotedAt(s: string, w: nat): (r: Option<string>)
    ensures r.Some? ==> r.value != [] && '\n' !in r.value
  {
    if w + 1 < |s| && IsQuoteMark(s[w]) then
      match CloseQuote(s, w + 2)
      case None => None
      case Some(j) =>
        CloseQuoteOneLine(s, w + 2);
        var q := s[w + 1..j];
        assert forall i :: 0 <= i < |q| ==> q[i] == s[w + 1 + i];
        Some(q)
    else None
  }

  /** The group `CloseQuote` closes holds no newline. */
  lemma {:induction false} CloseQuoteOneLine(s: string, j: nat)
    requires 0 < j <= |s| && CloseQuote(s, j).Some?
    ensures forall k :: j - 1 <= k < CloseQuote(s, j).value ==> s[k] != '\n'
    decreases |s| - j
  {
    if !(IsQuoteMark(s[j]) && LineEndAt(s, j + 1)) {
      CloseQuoteOneLine(s, j + 1);
    }
  }

  const Verbs: seq<string> := ["loved", "liked", "disliked", "laughed", "emphasized", "questioned"]

  /** The emoji each verb stands for, in the order of `Verbs`. */
  const VerbEmojis: seq<string> := ["❤️", "\U{1F44D}", "\U{1F44E}", "\U{1F606}", "‼️", "❓"]

  /** The lower-case word `w` occurs at `p`, ignoring case. */
  predicate MatchesCI(s: string, p: nat, w: string)
  {
    p + |w| <= |s| && forall i :: 0 <= i < |w| ==> LowerChar(s[p + i]) == w[i]
  }

  /** The first verb that matches at `p`, ignoring case, as an index into `Verbs`. */
  function VerbAt(s: string, p: nat, k: nat): (r: Option<nat>)
    requires k <= |Verbs|
    ensures r.Some? ==> k <= r.value < |Verbs| && MatchesCI(s, p, Verbs[r.value])
    decreases |Verbs| - k
  {
    if k == |Verbs| then None
    else if MatchesCI(s, p, Verbs[k]) then Some(k)
    else VerbAt(s, p, k + 1)
  }

  /** The first pattern, `^(Loved|…|Questioned)\s+["“”](.+?)["“”]\s*$`, at `p`. */
  function VerbFormAt(s: string, p: nat): (r: Option<(string, string)>)
    ensures r.Some? ==> r.value.0 in VerbEmojis && r.value.1 != [] && '\n' !in r.value.1
  {
    match VerbAt(s, p, 0)
    case None => None
    case Some(k) =>
      var e := p + |Verbs[k]|;
      var w := SpaceEnd(s, e);
      if w == e then None
      else
        match QuotedAt(s, w)
        case None => None
        case Some(q) => Some((VerbEmojis[k], q))
  }

  /** `=~` with the first pattern: the leftmost line start where it matches. */
  function FirstVerbForm(s: string, p: nat): (r: Option<(string, string)>)
    requires p <= |s|
    ensures r.Some? ==> r.value.0 in VerbEmojis && r.value.1 != [] && '\n' !in r.value.1
    decreases |s| - p
  {
    var here := if LineStart(s, p) then VerbFormAt(s, p) else None;
    if here.Some? then here
    else if p == |s| then None
    else FirstVerbForm(s, p + 1)
  }

  /** `to` at `e`, ignoring case. */
  predicate ToAt(s: string, e: nat) { e + 2 <= |s| && LowerChar(s[e]) == 't' && LowerChar(s[e + 1]) == 'o' }

  /** `Reacted` at `p`, ignoring case. */
  predicate ReactedAt(s: string, p: nat)
  {
    p + 7 <= |s| && LowerChar(s[p]) == 'r' && LowerChar(s[p + 1]) == 'e' && LowerChar(s[p + 2]) == 'a' &&
    LowerChar(s[p + 3]) == 'c' && LowerChar(s[p + 4]) == 't' && LowerChar(s[p + 5]) == 'e' && LowerChar(s[p + 6]) == 'd'
  }

  /** `\s+to\s+["“”](.+?)["“”]\s*$` after a first group ending at `j`: the
      quoted text. */
  function ToQuotedAt(s: string, j: nat): (r: Option<string>)
    requires j <= |s|
    ensures r.Some? ==> r.value != [] && '\n' !in r.value
  {
    var e := SpaceEnd(s, j);
    if e == j || !ToAt(s, e) then None
    else
      var w := SpaceEnd(s, e + 2);
      if w == e + 2 then None else QuotedAt(s, w)
  }

  /** `(.+?)` followed by the rest of the second pattern, for a group that
      ends at `j` or later: the end of the shortest group for which the
      rest matches, and the quoted text the rest captures. */
  function ReactedGroup(s: string, j: nat): (r: Option<(nat, string)>)
    requires 0 < j <= |s|
    ensures r.Some? ==> j <= r.value.0 <= |s| && r.value.1 != [] && '\n' !in r.value.1
    decreases |s| - j
  {
    if s[j - 1] == '\n' then None
    else
      match ToQuotedAt(s, j)
      case Some(q) => Some((j, q))
      case None => if j == |s| then None else ReactedGroup(s, j + 1)
  }

  /** The second pattern, `^Reacted\s+(.+?)\s+to\s+["“”](.+?)["“”]\s*$`, at
      `p`: the first group, as matched, and the quoted text. */
  function ReactedFormAt(s: string, p: nat): (r: Option<(string, string)>)
    ensures r.Some? ==> r.value.0 != [] && r.value.1 != [] && '\n' !in r.value.1
  {
    if ReactedAt(s, p) then
      var a := SpaceEnd(s, p + 7);
      if a == p + 7 then None else ReactedFrom(s, p, a)
    else None
  }

  /** The group of the second pattern tried from `a` and then from each
      earlier start down to `p + 8`: the greedy `\s+` after `Reacted` gives
      back one blank at a time, so the group may begin with blanks. */
  function ReactedFrom(s: string, p: nat, a: nat): (r: Option<(string, string)>)
    requires p + 8 <= a <= |s|
    ensures r.Some? ==> r.value.0 != [] && r.value.1 != [] && '\n' !in r.value.1
    decreases a
  {
    var here := if a < |s| then ReactedGroup(s, a + 1) else None;
    if here.Some? then Some((s[a..here.value.0], here.value.1))
    else if a == p + 8 then None
    else ReactedFrom(s, p, a - 1)
  }

  /** `=~` with the second pattern: the leftmost line start where it matches. */
  function FirstReactedForm(s: string, p: nat): (r: Option<(string, string)>)
    requires p <= |s|
    ensures r.Some? ==> r.value.1 != [] && '\n' !in r.value.1
    decreases |s| - p
  {
    var here := if LineStart(s, p) then ReactedFormAt(s, p) else None;
    if here.Some? then here
    else if p == |s| then None
    else FirstReactedForm(s, p + 1)
  }

  /** `parse_reaction_text`: `(emoji, quoted)` for the two reaction forms,
      the verb form first, the emoji of the second form stripped; nil for no
      text and for anything else. */
  function ParseReactionText(text: Option<string>): (r: Option<(string, string)>)
    ensures text.None? ==> r.None?
    ensures r.Some? ==> r.value.1 != [] && '\n' !in r.value.1
  {
    match text
    case None => None
    case Some(s) =>
      var v := FirstVerbForm(s, 0);
      if v.Some? then v
      else
        match FirstReactedForm(s, 0)
        case None => None
        case Some((g, q)) => Some((Strip(g), q))
  }

  /** The closing quote is the first quote mark after the group start,
      when the line ends right after it. */
  lemma {:induction false} CloseQuoteFinds(s: string, j: nat, e: nat)
    requires 0 < j <= e < |s|
    requires forall k :: j - 1 <= k < e ==> s[k] != '\n'
    requires forall k :: j <= k < e ==> !IsQuoteMark(s[k])
    requires IsQuoteMark(s[e]) && LineEndAt(s, e + 1)
    ensures CloseQuote(s, j) == Some(e)
    decreases e - j
  {
    if j < e {
      CloseQuoteFinds(s, j + 1, e);
    }
  }

  /** The first two letters tell the verbs apart, and each is at least five
      letters long. */
  lemma VerbsDistinct(a: nat, b: nat)
    requires a < |Verbs| && b < |Verbs| && a != b
    ensures |Verbs[a]| >= 5 && (Verbs[a][0] != Verbs[b][0] || Verbs[a][1] != Verbs[b][1])
  {
    if a == 0 {} else if a == 1 {} else if a == 2 {} else if a == 3 {} else if a == 4 {} else {}
  }

  /** A verb in any case is recognised as itself. */
  lemma {:induction false} VerbAtFinds(s: string, v: string, k: nat, k0: nat)
    requires k < |Verbs| && Lower(v) == Verbs[k] && k0 <= k
    requires |v| <= |s| && s[..|v|] == v
    ensures VerbAt(s, 0, k0) == Some(k)
    decreases k - k0
  {
    VerbsDistinct(k, if k == 0 then 1 else 0);
    assert s[0] == v[0] && s[1] == v[1];
    assert LowerChar(s[0]) == Lower(v)[0] && LowerChar(s[1]) == Lower(v)[1];
    if k0 < k {
      VerbAtMisses(s, k, k0);
      VerbAtFinds(s, v, k, k0 + 1);
    } else {
      assert forall i :: 0 <= i < |v| ==> s[i] == v[i];
    }
  }

  /** Another verb differs from the one at the start of `s` in one of its
      first two letters. */
  lemma VerbAtMisses(s: string, k: nat, k0: nat)
    requires k < |Verbs| && k0 < |Verbs| && k0 != k && |s| >= 2
    requires LowerChar(s[0]) == Verbs[k][0] && LowerChar(s[1]) == Verbs[k][1]
    ensures !MatchesCI(s, 0, Verbs[k0])
  {
    VerbsDistinct(k0, k);
    if Verbs[k0][0] != Verbs[k][0] {
      MismatchAt(s, 0, Verbs[k0], 0);
    } else {
      MismatchAt(s, 0, Verbs[k0], 1);
    }
  }

  /** One differing letter rules a word out. */
  lemma MismatchAt(s: string, p: nat, w: string, i: nat)
    requires i < |w| && p + i < |s| && LowerChar(s[p + i]) != w[i]
    ensures !MatchesCI(s, p, w)
  {}

  /** A quoted group that runs to the last character, with no quote mark
      or newline inside, is what `QuotedAt` returns. */
  lemma QuotedAtFinds(s: string, w: nat)
    requires w + 2 < |s| && IsQuoteMark(s[w]) && IsQuoteMark(s[|s| - 1])
    requires forall i :: w < i < |s| - 1 ==> s[i] != '\n' && !IsQuoteMark(s[i])
    ensures QuotedAt(s, w) == Some(s[w + 1..|s| - 1])
  {
    assert LineEndAt(s, |s|);
    CloseQuoteFinds(s, w + 2, |s| - 1);
  }

  /** `<Verb> "<q>"` parses as the verb's emoji and `q`, whatever the case
      of the verb, when `q` holds no quote mark and no newline. */
  lemma ParseVerbForm(v: string, k: nat, q: string)
    requires k < |Verbs| && Lower(v) == Verbs[k]
    requires q != [] && forall i :: 0 <= i < |q| ==> q[i] != '\n' && !IsQuoteMark(q[i])
    ensures ParseReactionText(Some(v + " \"" + q + "\"")) == Some((VerbEmojis[k], q))
  {
    var s := v + " \"" + q + "\"";
    VerbFormOf(v, k, q);
    FirstVerbFormHere(s, 0);
    ParseVerbFirst(s);
  }

  /** The first pattern, at the start of `<Verb> "<q>"`, captures the verb
      and `q`. */
  lemma VerbFormOf(v: string, k: nat, q: string)
    requires k < |Verbs| && Lower(v) == Verbs[k]
    requires q != [] && forall i :: 0 <= i < |q| ==> q[i] != '\n' && !IsQuoteMark(q[i])
    ensures VerbFormAt(v + " \"" + q + "\"", 0) == Some((VerbEmojis[k], q))
  {
    VerbFormPieces(v, q);
    VerbFormAtStart(v + " \"" + q + "\"", v, k, q);
  }

  /** The first pattern matches at the start of `s` when `s` starts with a
      verb, one space and a quote mark, and ends with a quote mark, with
      `q` between them. */
  lemma VerbFormAtStart(s: string, v: string, k: nat, q: string)
    requires k < |Verbs| && Lower(v) == Verbs[k]
    requires |v| + 3 <= |s| && s[..|v|] == v && SpaceEnd(s, |v|) == |v| + 1
    requires IsQuoteMark(s[|v| + 1]) && IsQuoteMark(s[|s| - 1]) && s[|v| + 2..|s| - 1] == q && q != []
    requires forall i :: |v| + 1 < i < |s| - 1 ==> s[i] != '\n' && !IsQuoteMark(s[i])
    ensures VerbFormAt(s, 0) == Some((VerbEmojis[k], q))
  {
    VerbAtFinds(s, v, k, 0);
    var w := |v| + 1;
    QuotedAtFinds(s, w);
    VerbFormAtIs(s, 0, k, w);
  }

  /** The pieces of `<Verb> "<q>"` the first pattern looks at. */
  lemma VerbFormPieces(v: string, q: string)
    requires q != [] && forall i :: 0 <= i < |q| ==> q[i] != '\n' && !IsQuoteMark(q[i])
    ensures var s := v + " \"" + q + "\"";
      s[..|v|] == v && SpaceEnd(s, |v|) == |v| + 1 && IsQuoteMark(s[|v| + 1]) && IsQuoteMark(s[|s| - 1]) &&
      (forall i :: |v| + 1 < i < |s| - 1 ==> s[i] != '\n' && !IsQuoteMark(s[i])) &&
      s[|v| + 2..|s| - 1] == q
  {
    var s := v + " \"" + q + "\"";
    assert s[|v|] == ' ' && s[|v| + 1] == '"';
    assert SpaceEnd(s, |v| + 1) == |v| + 1;
    forall i | |v| + 1 < i < |s| - 1 ensures s[i] == q[i - |v| - 2] {}
  }

  // Single unfoldings of the matchers, kept apart so that each proof above
  // looks at one level of the search at a time.

  lemma VerbFormAtIs(s: string, p: nat, k: nat, w: nat)
    requires VerbAt(s, p, 0) == Some(k)
    requires SpaceEnd(s, p + |Verbs[k]|) == w && w > p + |Verbs[k]|
    requires QuotedAt(s, w).Some?
    ensures VerbFormAt(s, p) == Some((VerbEmojis[k], QuotedAt(s, w).value))
  {}

  lemma FirstVerbFormHere(s: string, p: nat)
    requires p <= |s| && LineStart(s, p) && VerbFormAt(s, p).Some?
    ensures FirstVerbForm(s, p) == VerbFormAt(s, p)
  {}

  lemma ParseVerbFirst(s: string)
    requires FirstVerbForm(s, 0).Some?
    ensures ParseReactionText(Some(s)) == FirstVerbForm(s, 0)
  {}

  lemma FirstVerbFormNext(s: string, p: nat)
    requires p < |s| && (!LineStart(s, p) || VerbFormAt(s, p).None?)
    ensures FirstVerbForm(s, p) == FirstVerbForm(s, p + 1)
  {}

  lemma ParseFallsBack(s: string, g: string, q: string)
    requires FirstVerbForm(s, 0).None? && FirstReactedForm(s, 0) == Some((g, q))
    ensures ParseReactionText(Some(s)) == Some((Strip(g), q))
  {}

  lemma FirstReactedFormHere(s: string, p: nat)
    requires p <= |s| && LineStart(s, p) && ReactedFormAt(s, p).Some?
    ensures FirstReactedForm(s, p) == ReactedFormAt(s, p)
  {}

  lemma ReactedFormAtIs(s: string, p: nat, a: nat, j: nat, q: string)
    requires ReactedAt(s, p) && SpaceEnd(s, p + 7) == a && p + 7 < a < |s|
    requires ReactedGroup(s, a + 1) == Some((j, q))
    ensures ReactedFormAt(s, p) == Some((s[a..j], q))
  {}

  /** Without a quote mark no reaction is recognised. */
  lemma {:induction false} NoQuoteNoReaction(s: string)
    requires forall i :: 0 <= i < |s| ==> !IsQuoteMark(s[i])
    ensures ParseReactionText(Some(s)) == None
  {
    NoQuoteNoVerbForm(s, 0);
    NoQuoteNoReactedForm(s, 0);
  }

  lemma {:induction false} NoQuoteNoVerbForm(s: string, p: nat)
    requires p <= |s| && forall i :: 0 <= i < |s| ==> !IsQuoteMark(s[i])
    ensures FirstVerbForm(s, p) == None
    decreases |s| - p
  {
    if p < |s| {
      NoQuoteNoVerbForm(s, p + 1);
    }
  }

  lemma {:induction false} NoQuoteNoReactedForm(s: string, p: nat)
    requires p <= |s| && forall i :: 0 <= i < |s| ==> !IsQuoteMark(s[i])
    ensures FirstReactedForm(s, p) == None
    decreases |s| - p
  {
    if ReactedAt(s, p) {
      var a := SpaceEnd(s, p + 7);
      if a != p + 7 {
        NoQuoteNoReactedFrom(s, p, a);
      }
    }
    if p < |s| {
      NoQuoteNoReactedForm(s, p + 1);
    }
  }

  lemma {:induction false} NoQuoteNoReactedFrom(s: string, p: nat, a: nat)
    requires p + 8 <= a <= |s| && forall i :: 0 <= i < |s| ==> !IsQuoteMark(s[i])
    ensures ReactedFrom(s, p, a) == None
    decreases a
  {
    if a < |s| {
      NoQuoteNoGroup(s, a + 1);
    }
    if a > p + 8 {
      NoQuoteNoReactedFrom(s, p, a - 1);
    }
  }

  lemma {:induction false} NoQuoteNoGroup(s: string, j: nat)
    requires 0 < j <= |s| && forall i :: 0 <= i < |s| ==> !IsQuoteMark(s[i])
    ensures ReactedGroup(s, j) == None
    decreases |s| - j
  {
    if j < |s| {
      NoQuoteNoGroup(s, j + 1);
    }
  }

  /** Past the first position, a text without newlines has no line start. */
  lemma {:induction false} SingleLineNoVerbForm(s: string, p: nat)
    requires 0 < p <= |s| && forall i :: 0 <= i < |s| ==> s[i] != '\n'
    ensures FirstVerbForm(s, p) == None
    decreases |s| - p
  {
    if p < |s| {
      SingleLineNoVerbForm(s, p + 1);
    }
  }

  /** For a group end inside a word, the rest of the second pattern fails,
      so the group grows to the end of the word. */
  lemma {:induction false} ReactedGroupSkips(s: string, a: nat, j: nat, e: nat, q: string)
    requires a < j <= e < |s|
    requires forall k :: a <= k < e ==> !IsStripChar(s[k])
    requires ToQuotedAt(s, e) == Some(q)
    ensures ReactedGroup(s, j) == Some((e, q))
    decreases e - j
  {
    assert s[j - 1] != '\n';
    if j < e {
      assert !IsSpace(s[j]);
      ReactedGroupSkips(s, a, j + 1, e, q);
    }
  }

  /** The pieces of `Reacted <e> to "<q>"` the second pattern looks at. */
  lemma ReactedFormPieces(e: string, q: string)
    requires e != [] && forall i :: 0 <= i < |e| ==> !IsStripChar(e[i])
    requires q != [] && forall i :: 0 <= i < |q| ==> q[i] != '\n' && !IsQuoteMark(q[i])
    ensures var s := "Reacted " + e + " to \"" + q + "\"";
      var n := 8 + |e|;
      (forall i :: 0 <= i < |s| ==> s[i] != '\n') &&
      s[0] == 'R' && ReactedAt(s, 0) && SpaceEnd(s, 7) == 8 && s[8..n] == e &&
      (forall k :: 8 <= k < n ==> !IsStripChar(s[k])) &&
      SpaceEnd(s, n) == n + 1 && ToAt(s, n + 1) && SpaceEnd(s, n + 3) == n + 4 &&
      IsQuoteMark(s[n + 4]) && IsQuoteMark(s[|s| - 1]) &&
      (forall i :: n + 4 < i < |s| - 1 ==> s[i] != '\n' && !IsQuoteMark(s[i])) &&
      s[n + 5..|s| - 1] == q
  {
    var s := "Reacted " + e + " to \"" + q + "\"";
    var n := 8 + |e|;
    forall i | 8 <= i < n ensures s[i] == e[i - 8] {}
    forall i | n + 5 <= i < |s| - 1 ensures s[i] == q[i - n - 5] {}
    assert s[0] == 'R' && s[1] == 'e' && s[2] == 'a' && s[3] == 'c' && s[4] == 't' && s[5] == 'e' && s[6] == 'd';
    assert s[7] == ' ' && s[n] == ' ' && s[n + 1] == 't' && s[n + 2] == 'o' && s[n + 3] == ' ' && s[n + 4] == '"';
    assert SpaceEnd(s, 8) == 8;
    assert SpaceEnd(s, n + 1) == n + 1;
    assert SpaceEnd(s, n + 4) == n + 4;
  }

  /** No verb starts with an `r`, so none matches where one is. */
  lemma {:induction false} VerbAtNone(s: string, p: nat, k0: nat)
    requires p < |s| && k0 <= |Verbs| && LowerChar(s[p]) == 'r'
    ensures VerbAt(s, p, k0) == None
    decreases |Verbs| - k0
  {
    if k0 < |Verbs| {
      assert Verbs[k0][0] != 'r' by {
        if k0 == 0 {} else if k0 == 1 {} else if k0 == 2 {} else if k0 == 3 {} else if k0 == 4 {} else {}
      }
      MismatchAt(s, p, Verbs[k0], 0);
      VerbAtNone(s, p, k0 + 1);
    }
  }

  lemma VerbFormAtNone(s: string, p: nat)
    requires VerbAt(s, p, 0).None?
    ensures VerbFormAt(s, p).None?
  {}

  /** A text that starts with 'R' and has no newline misses the verb form. */
  lemma ReactedMissesVerbForm(s: string)
    requires s != [] && s[0] == 'R' && forall i :: 0 <= i < |s| ==> s[i] != '\n'
    ensures FirstVerbForm(s, 0) == None
  {
    VerbAtNone(s, 0, 0);
    VerbFormAtNone(s, 0);
    SingleLineNoVerbForm(s, 1);
    FirstVerbFormNext(s, 0);
  }

  /** `Reacted <e> to "<q>"` parses as `(e, q)` for a one-word emoji `e` and
      a `q` without quote marks and newlines. */
  lemma ParseReactedForm(e: string, q: string)
    requires e != [] && forall i :: 0 <= i < |e| ==> !IsStripChar(e[i])
    requires q != [] && forall i :: 0 <= i < |q| ==> q[i] != '\n' && !IsQuoteMark(q[i])
    ensures ParseReactionText(Some("Reacted " + e + " to \"" + q + "\"")) == Some((e, q))
  {
    var s := "Reacted " + e + " to \"" + q + "\"";
    ReactedFormPieces(e, q);
    ReactedMissesVerbForm(s);
    ReactedFormOf(e, q);
    FirstReactedFormHere(s, 0);
    StripFixed(e);
    ParseFallsBack(s, e, q);
  }

  /** The second pattern, at the start of `Reacted <e> to "<q>"`, captures
      `e` and `q`. */
  lemma ReactedFormOf(e: string, q: string)
    requires e != [] && forall i :: 0 <= i < |e| ==> !IsStripChar(e[i])
    requires q != [] && forall i :: 0 <= i < |q| ==> q[i] != '\n' && !IsQuoteMark(q[i])
    ensures ReactedFormAt("Reacted " + e + " to \"" + q + "\"", 0) == Some((e, q))
  {
    ReactedFormPieces(e, q);
    ReactedFormAtStart("Reacted " + e + " to \"" + q + "\"", e, q);
  }

  /** The second pattern matches at the start of `s` when `s` is laid out
      as `Reacted <e> to "<q>"`. */
  lemma ReactedFormAtStart(s: string, e: string, q: string)
    requires e != [] && q != []
    requires var n := 8 + |e|;
      n + 6 <= |s| && ReactedAt(s, 0) && SpaceEnd(s, 7) == 8 && s[8..n] == e &&
      (forall k :: 8 <= k < n ==> !IsStripChar(s[k])) &&
      SpaceEnd(s, n) == n + 1 && ToAt(s, n + 1) && SpaceEnd(s, n + 3) == n + 4 &&
      IsQuoteMark(s[n + 4]) && IsQuoteMark(s[|s| - 1]) &&
      (forall i :: n + 4 < i < |s| - 1 ==> s[i] != '\n' && !IsQuoteMark(s[i])) &&
      s[n + 5..|s| - 1] == q
    ensures ReactedFormAt(s, 0) == Some((e, q))
  {
    var n := 8 + |e|;
    QuotedAtFinds(s, n + 4);
    ToQuotedAtIs(s, n, n + 4);
    ReactedGroupSkips(s, 8, 9, n, q);
    ReactedFormAtIs(s, 0, 8, n, q);
  }

  /** Three blanks between `Reacted` and `to`: the greedy `\s+` gives two
      back, one for the group and one for the `\s+` before `to`, and the
      emoji, that one blank, strips to nothing. */
  lemma ReactedGivesBackBlank()
    ensures ParseReactionText(Some("Reacted   to \"x\"")) == Some(("", "x"))
  {
    var s := "Reacted   to \"x\"";
    FormsOfExample(s);
    assert Strip(" ") == "";
    ParseFallsBack(s, " ", "x");
  }

  lemma FormsOfExample(s: string)
    requires s == "Reacted   to \"x\""
    ensures FirstVerbForm(s, 0).None? && FirstReactedForm(s, 0) == Some((" ", "x"))
  {
    assert forall i :: 0 <= i < |s| ==> s[i] != '\n';
    ReactedMissesVerbForm(s);
    ReactedFormOfExample(s);
    FirstReactedFormHere(s, 0);
  }

  lemma ReactedFormOfExample(s: string)
    requires s == "Reacted   to \"x\""
    ensures ReactedFormAt(s, 0) == Some((" ", "x"))
  {
    BlankGroupOfExample(s);
  }

  /** In `Reacted   to "x"` only the group start 8 fits. */
  lemma BlankGroupOfExample(s: string)
    requires s == "Reacted   to \"x\""
    ensures SpaceEnd(s, 7) == 10 && ReactedFrom(s, 0, 10) == Some((" ", "x"))
  {
    NoGroupInExample(s);
    QuotedAtFinds(s, 13);
    ToQuotedAtIs(s, 9, 13);
    assert s[14..15] == "x";
    assert ReactedGroup(s, 9) == Some((9, "x"));
    assert s[8..9] == " ";
    assert ReactedFrom(s, 0, 8) == Some((" ", "x"));
    assert ReactedFrom(s, 0, 9) == Some((" ", "x"));
  }

  /** No `\s+to\s+"` follows positions 10 to 16 of `Reacted   to "x"`, so
      neither group start 10 nor 9 fits. */
  lemma NoGroupInExample(s: string)
    requires s == "Reacted   to \"x\""
    ensures ReactedGroup(s, 10) == None && ReactedGroup(s, 11) == None
  {
    assert ToQuotedAt(s, 16) == None && ToQuotedAt(s, 15) == None;
    assert ToQuotedAt(s, 14) == None && ToQuotedAt(s, 13) == None;
    assert ToQuotedAt(s, 12) == None && ToQuotedAt(s, 11) == None;
    assert ToQuotedAt(s, 10) == None;
    assert ReactedGroup(s, 16) == None && ReactedGroup(s, 15) == None;
    assert ReactedGroup(s, 14) == None && ReactedGroup(s, 13) == None;
    assert ReactedGroup(s, 12) == None;
  }

  lemma ToQuotedAtIs(s: string, j: nat, w: nat)
    requires j < |s| && SpaceEnd(s, j) == j + 1 && ToAt(s, j + 1)
    requires SpaceEnd(s, j + 3) == w && w > j + 3 && QuotedAt(s, w).Some?
    ensures ToQuotedAt(s, j) == QuotedAt(s, w)
  {}

  // ---------------------------------------------------------------- tapback_emoji

  /** The verb of each tapback type from 2000 on: liked, loved, disliked,
      laughed, emphasized, questioned. */
  const TapbackVerb: seq<nat> := [1, 0, 2, 3, 4, 5]

  /** Different tapback types show different emojis. */
  lemma TapbackEmojisDistinct(t: int, u: int)
    requires 2000 <= t <= 2005 && 2000 <= u <= 2005 && t != u
    ensures TapbackEmoji(t) != TapbackEmoji(u)
  {}

  /** `tapback_emoji`: the emoji of the tapback types 2000..2005; nil for
      every other type, 2006 included. */
  function TapbackEmoji(t: int): (r: Option<string>)
    ensures r.Some? <==> 2000 <= t <= 2005
    ensures 2000 <= t <= 2005 ==> r == Some(VerbEmojis[TapbackVerb[t - 2000]])
  {
    if t == 2000 then Some("\U{1F44D}")
    else if t == 2001 then Some("❤️")
    else if t == 2002 then Some("\U{1F44E}")
    else if t == 2003 then Some("\U{1F606}")
    else if t == 2004 then Some("‼️")
    else if t == 2005 then Some("❓")
    else None
  }

  // ---------------------------------------------------------------- convert_apple_time

  const AppleEpochOffset: int := 978_307_200

  /** Values above 10^12 are nanoseconds. */
  function AppleSeconds(t: int): (r: real)
    ensures t <= 1_000_000_000_000 ==> r == t as real
    ensures t > 1_000_000_000_000 ==> r * 1_000_000_000.0 == t as real
  {
    if t > 1_000_000_000_000 then t as real / 1_000_000_000.0 else t as real
  }

  /** Seconds since the Unix epoch of an Apple timestamp: the offset is
      added to seconds, and to nanoseconds scaled up by 10^9. */
  function AppleToUnix(t: int): (r: real)
    ensures t <= 1_000_000_000_000 ==> r == (t + AppleEpochOffset) as real
    ensures t > 1_000_000_000_000 ==> r * 1_000_000_000.0 == (t + AppleEpochOffset * 1_000_000_000) as real
  {
    AppleSeconds(t) + AppleEpochOffset as real
  }

  /** `convert_apple_time`: nil for nil, else the local wall-clock text of
      the whole second. `format` is `Time.at(…).strftime` in the local zone;
      a nanosecond value is shown at the whole second it falls in. */
  function ConvertAppleTime(t: Option<int>, format: int -> string): (r: Option<string>)
    ensures r.None? <==> t.None?
    ensures t.Some? && t.value <= 1_000_000_000_000 ==> r == Some(format(t.value + AppleEpochOffset))
    ensures t.Some? && t.value > 1_000_000_000_000 ==>
      r == Some(format((t.value + AppleEpochOffset * 1_000_000_000) / 1_000_000_000))
  {
    match t
    case None => None
    case Some(v) =>
      if v > 1_000_000_000_000 then
        FloorOfNanos(v + AppleEpochOffset * 1_000_000_000, AppleToUnix(v));
        Some(format(AppleToUnix(v).Floor))
      else Some(format(AppleToUnix(v).Floor))
  }

  /** The whole second of a non-negative nanosecond count. */
  lemma FloorOfNanos(n: int, u: real)
    requires n >= 0 && u * 1_000_000_000.0 == n as real
    ensures u.Floor == n / 1_000_000_000
  {
    var q, m := n / 1_000_000_000, n % 1_000_000_000;
    assert n == q * 1_000_000_000 + m;
    assert u == q as real + m as real / 1_000_000_000.0;
    assert q as real <= u < q as real + 1.0;
  }

  /** The same instant stored in nanoseconds and in seconds shows the same
      text, and so does any nanosecond count within that second. */
  lemma NanosAgreeWithSeconds(secs: int, frac: int, format: int -> string)
    requires 1000 < secs <= 1_000_000_000_000 && 0 <= frac < 1_000_000_000
    ensures ConvertAppleTime(Some(secs * 1_000_000_000 + frac), format) == ConvertAppleTime(Some(secs), format)
  {
    var n := secs * 1_000_000_000 + frac;
    assert n > 1_000_000_000_000;
    assert n + AppleEpochOffset * 1_000_000_000 == (secs + AppleEpochOffset) * 1_000_000_000 + frac;
    assert (n + AppleEpochOffset * 1_000_000_000) / 1_000_000_000 == secs + AppleEpochOffset;
  }

  /** `apple_time_from_iso`: the inverse offset, applied to the parsed Unix
      time (`Time.parse` is a parameter, None when it fails). It takes back
      the conversion of a time in seconds, and gives a time in nanoseconds
      back in seconds. */
  function AppleFromUnix(unix: Option<real>): (r: Option<real>)
    ensures r.None? <==> unix.None?
    ensures forall t: int {:trigger AppleToUnix(t)} :: t <= 1_000_000_000_000 && unix == Some(AppleToUnix(t)) ==>
      r == Some(t as real)
    ensures forall t: int {:trigger AppleToUnix(t)} :: t > 1_000_000_000_000 && unix == Some(AppleToUnix(t)) ==>
      r.value * 1_000_000_000.0 == t as real
  {
    match unix
    case None => None
    case Some(u) => Some(u - AppleEpochOffset as real)
  }

  /** An Apple time in seconds, negative ones included, survives the trip to
      Unix time and back. */
  lemma AppleRoundTrip(t: int)
    requires t <= 1_000_000_000_000
    ensures AppleFromUnix(Some(AppleToUnix(t))) == Some(t as real)
  {}

  /** A Unix time whose Apple time is a whole second survives the trip to
      Apple time and back. */
  lemma UnixRoundTrip(u: real, k: int)
    requires k <= 1_000_000_000_000 && AppleFromUnix(Some(u)) == Some(k as real)
    ensures AppleToUnix(k) == u
  {}
}
