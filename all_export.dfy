// `AllExportGenerator#initials_for`: the one or two letters shown in a
// conversation's avatar on the all-conversations index page, taken from the
// first two whitespace-separated words of the display name.

module AllExport {
  import opened Str

  // ---------------------------------------------------------------- split(/\s+/)

  /** The end of the run of `\s` characters that starts at `p`. */
  function SpaceEnd(s: string, p: nat): (e: nat)
    requires p <= |s|
    ensures p <= e <= |s|
    ensures forall i :: p <= i < e ==> IsSpace(s[i])
    ensures e == |s| || !IsSpace(s[e])
    decreases |s| - p
  {
    if p < |s| && IsSpace(s[p]) then SpaceEnd(s, p + 1) else p
  }

  /** The end of the run of non-`\s` characters that starts at `p`. */
  function WordEnd(s: string, p: nat): (e: nat)
    requires p <= |s|
    ensures p <= e <= |s|
    ensures forall i :: p <= i < e ==> !IsSpace(s[i])
    ensures e == |s| || IsSpace(s[e])
    decreases |s| - p
  {
    if p < |s| && !IsSpace(s[p]) then WordEnd(s, p + 1) else p
  }

  /** The fields of `s[p..]`, each ended by a run of `\s`; a run at `p`
      ends an empty field, and nothing follows the last non-`\s` character. */
  function Fields(s: string, p: nat): (r: seq<string>)
    requires p <= |s|
    decreases |s| - p
  {
    if SpaceEnd(s, p) == |s| then []
    else
      var e := WordEnd(s, p);
      assert e == p ==> IsSpace(s[p]);
      [s[p..e]] + Fields(s, SpaceEnd(s, e))
  }

  /** `s.split(/\s+/)`: a leading run of `\s` gives an empty first field,
      trailing empty fields are dropped. */
  function Split(s: string): seq<string>
  {
    Fields(s, 0)
  }

  /** No field holds a `\s` character, and only the first may be empty. */
  predicate CleanFields(r: seq<string>)
  {
    (forall k, i :: 0 <= k < |r| && 0 <= i < |r[k]| ==> !IsSpace(r[k][i]))
    && (forall k :: 0 < k < |r| ==> r[k] != [])
  }

  lemma {:induction false} FieldsClean(s: string, p: nat)
    requires p <= |s|
    ensures CleanFields(Fields(s, p))
    ensures Fields(s, p) == [] <==> SpaceEnd(s, p) == |s|
    ensures Fields(s, p) != [] ==> (Fields(s, p)[0] == [] <==> IsSpace(s[p]))
    ensures Fields(s, p) != [] && Fields(s, p)[0] != [] ==> Fields(s, p)[0][0] == s[p]
    decreases |s| - p
  {
    if SpaceEnd(s, p) < |s| {
      var e := WordEnd(s, p);
      var q := SpaceEnd(s, e);
      FieldsClean(s, q);
      var rest := Fields(s, q);
      assert rest != [] ==> rest[0] != [] by {
        if rest != [] {
          assert q < |s| && !IsSpace(s[q]);
        }
      }
      assert Fields(s, p) == [s[p..e]] + rest;
    }
  }

  /** Split gives no whitespace in any field and no empty field but a
      first one that stands for leading whitespace; it gives nothing at all
      exactly for an all-whitespace string. */
  lemma SplitClean(s: string)
    ensures CleanFields(Split(s))
    ensures Split(s) == [] <==> forall i :: 0 <= i < |s| ==> IsSpace(s[i])
    ensures Split(s) != [] ==> (Split(s)[0] == [] <==> IsSpace(s[0]))
  {
    FieldsClean(s, 0);
  }

  /** Words joined by single spaces, with none at either end. */
  predicate SingleSpaced(s: string)
  {
    (s != [] ==> !IsSpace(s[0]) && !IsSpace(s[|s| - 1]))
    && forall i :: 0 <= i < |s| && IsSpace(s[i]) ==> s[i] == ' ' && i + 1 < |s| && !IsSpace(s[i + 1])
  }

  lemma {:induction false} FieldsJoin(s: string, p: nat)
    requires SingleSpaced(s) && p <= |s| && (p < |s| ==> !IsSpace(s[p]))
    ensures Join(Fields(s, p), " ") == s[p..]
    decreases |s| - p
  {
    if p < |s| {
      var e := WordEnd(s, p);
      var q := SpaceEnd(s, e);
      if e < |s| {
        SpaceEndOf(s, e, 1);
        FieldsJoin(s, q);
        assert Fields(s, q) != [] by { FieldsClean(s, q); }
        JoinCons(s[p..e], Fields(s, q), " ");
        assert s[p..] == s[p..e] + " " + s[q..];
      } else {
        assert Fields(s, p) == [s[p..e]];
      }
    }
  }

  /** Splitting and joining with a space give back a single-spaced string. */
  lemma SplitJoin(s: string)
    requires SingleSpaced(s)
    ensures Join(Split(s), " ") == s
  {
    FieldsJoin(s, 0);
  }

  // ---------------------------------------------------------------- initials_for

  /** `initials_for(name)`: `"?"` for a blank name, else the first character
      of the first word and, when there is one, of the second, upper-cased. */
  function InitialsFor(name: Option<string>): (r: string)
    ensures IsBlank(OrElse(name, "")) ==> r == "?"
    ensures !IsBlank(OrElse(name, "")) ==> 1 <= |r| <= 2 && r[0] == UpperChar(Strip(OrElse(name, ""))[0])
  {
    var s := Strip(OrElse(name, ""));
    StripEmptyIffBlank(OrElse(name, ""));
    if s == [] then "?"
    else
      FieldsClean(s, 0);
      var parts := Split(s);
      var init := [parts[0][0]] + (if |parts| > 1 then [parts[1][0]] else []);
      Upper(init)
  }

  /** Only the stripped name matters. */
  lemma InitialsIgnoreEdges(name: string)
    ensures InitialsFor(Some(name)) == InitialsFor(Some(Strip(name)))
  {
    var s := Strip(name);
    StripFixed(s);
    assert OrElse(Some(name), "") == name && OrElse(Some(s), "") == s;
    assert Strip(OrElse(Some(s), "")) == Strip(OrElse(Some(name), ""));
  }

  /** `nil` reads as the empty name. */
  lemma InitialsNil()
    ensures InitialsFor(None) == "?"
  {
    assert IsBlank("");
  }

  /** The end of a run of non-`\s` characters. */
  lemma {:induction false} WordEndOf(s: string, p: nat, n: nat)
    requires p + n <= |s|
    requires forall i :: p <= i < p + n ==> !IsSpace(s[i])
    requires p + n == |s| || IsSpace(s[p + n])
    ensures WordEnd(s, p) == p + n
    decreases n
  {
    if n > 0 {
      WordEndOf(s, p + 1, n - 1);
    }
  }

  /** The end of a run of `\s` characters. */
  lemma {:induction false} SpaceEndOf(s: string, p: nat, n: nat)
    requires p + n <= |s|
    requires forall i :: p <= i < p + n ==> IsSpace(s[i])
    requires p + n == |s| || !IsSpace(s[p + n])
    ensures SpaceEnd(s, p) == p + n
    decreases n
  {
    if n > 0 {
      SpaceEndOf(s, p + 1, n - 1);
    }
  }

  /** No `\s` character in `w`. */
  predicate Word(w: string)
  {
    forall i :: 0 <= i < |w| ==> !IsSpace(w[i])
  }

  /** A name of one word has its first letter as initial. */
  lemma OneWord(w: string)
    requires w != [] && Word(w) && !IsStripChar(w[0]) && !IsStripChar(w[|w| - 1])
    ensures InitialsFor(Some(w)) == [UpperChar(w[0])]
  {
    StripFixed(w);
    WordEndOf(w, 0, |w|);
    assert SpaceEnd(w, 0) == 0 && SpaceEnd(w, |w|) == |w|;
    assert Fields(w, |w|) == [];
    assert w[0..|w|] == w;
  }

  /** A name of two or more words has the first letters of the first two
      as initials, whatever the whitespace between them. */
  lemma TwoWords(a: string, gap: string, b: string, rest: string)
    requires a != [] && b != [] && gap != [] && Word(a) && !IsSpace(b[0])
    requires forall i :: 0 <= i < |gap| ==> IsSpace(gap[i])
    requires !IsStripChar(a[0])
    requires var t := a + gap + b + rest; !IsStripChar(t[|t| - 1])
    ensures InitialsFor(Some(a + gap + b + rest)) == [UpperChar(a[0]), UpperChar(b[0])]
  {
    var t := a + gap + b + rest;
    var q := |a| + |gap|;
    assert forall i :: 0 <= i < |a| ==> t[i] == a[i];
    assert forall i :: |a| <= i < q ==> t[i] == gap[i - |a|];
    assert t[q] == b[0];
    TwoWordsAt(t, |a|, q);
  }

  lemma TwoWordsAt(t: string, m: nat, q: nat)
    requires 0 < m < q < |t|
    requires forall i :: 0 <= i < m ==> !IsSpace(t[i])
    requires forall i :: m <= i < q ==> IsSpace(t[i])
    requires !IsSpace(t[q]) && !IsStripChar(t[0]) && !IsStripChar(t[|t| - 1])
    ensures InitialsFor(Some(t)) == [UpperChar(t[0]), UpperChar(t[q])]
  {
    StripFixed(t);
    WordEndOf(t, 0, m);
    SpaceEndOf(t, m, q - m);
    assert SpaceEnd(t, 0) == 0;
    FieldsClean(t, q);
    assert Split(t) == [t[..m]] + Fields(t, q);
  }
}
