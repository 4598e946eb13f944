// The export command's own decisions: which export the identifiers on the
// command line ask for, which flags a multi-conversation export refuses,
// how an export or a thread is named on disk, which messages are worth
// rendering, the preview line of a thread in the library index, which
// one-to-one chats belong to a contact, and where an attachment's file is
// looked for and which extension and kind its copy gets. Databases, files,
// copying, hashing and opening a browser are left to the caller.

module ExportConversation {
  import opened Str
  import opened AttachmentUtil
  import Messages
  import Project
  import Threads
  import Chats
  import TimeUtil

  // ---------------------------------------------------------------- identifiers

  /** `s.split(',')`, keeping every field; empty ones are dropped later. */
  function Fields(s: string): (r: seq<string>)
    ensures r != []
    decreases |s|
  {
    if s == [] then [[]]
    else
      var rest := Fields(s[1..]);
      if s[0] == ',' then [[]] + rest else [[s[0]] + rest[0]] + rest[1..]
  }

  /** Splitting at the commas and joining with commas gives the text back. */
  lemma {:induction false} FieldsJoin(s: string)
    ensures Join(Fields(s), ",") == s
    ensures forall k :: 0 <= k < |Fields(s)| ==> ',' !in Fields(s)[k]
    decreases |s|
  {
    if s != [] {
      FieldsJoin(s[1..]);
      FieldsJoinStep(s);
      FieldsNoCommaStep(s);
    }
  }

  lemma FieldsJoinStep(s: string)
    requires s != [] && Join(Fields(s[1..]), ",") == s[1..]
    ensures Join(Fields(s), ",") == s
  {
    var rest := Fields(s[1..]);
    if s[0] == ',' {
      FieldsJoinComma(s, rest);
    } else {
      FieldsJoinChar(s, rest);
    }
  }

  lemma FieldsJoinComma(s: string, rest: seq<string>)
    requires s != [] && s[0] == ',' && rest == Fields(s[1..]) && Join(rest, ",") == s[1..]
    ensures Join(Fields(s), ",") == s
  {
    assert Fields(s) == [[]] + rest;
    JoinCons([], rest, ",");
    assert s == [s[0]] + s[1..];
  }

  lemma FieldsJoinChar(s: string, rest: seq<string>)
    requires s != [] && s[0] != ',' && rest == Fields(s[1..]) && Join(rest, ",") == s[1..]
    ensures Join(Fields(s), ",") == s
  {
    var f := [[s[0]] + rest[0]] + rest[1..];
    assert Fields(s) == f;
    JoinPrefixFirst([s[0]], rest, ",");
    assert s == [s[0]] + s[1..];
  }

  lemma FieldsNoCommaStep(s: string)
    requires s != [] && forall k :: 0 <= k < |Fields(s[1..])| ==> ',' !in Fields(s[1..])[k]
    ensures forall k :: 0 <= k < |Fields(s)| ==> ',' !in Fields(s)[k]
  {
    var rest := Fields(s[1..]);
    if s[0] != ',' {
      assert forall k :: 1 <= k < |Fields(s)| ==> Fields(s)[k] == rest[k];
      assert ',' !in rest[0];
    }
  }

  /** A comma separates the fields of its two sides. */
  lemma {:induction false} FieldsAppend(a: string, b: string)
    ensures Fields(a + "," + b) == Fields(a) + Fields(b)
    decreases |a|
  {
    if a == [] {
      assert a + "," + b == [','] + b;
      assert ([','] + b)[1..] == b;
    } else {
      assert (a + "," + b)[1..] == a[1..] + "," + b;
      FieldsAppend(a[1..], b);
    }
  }

  /** `.map(&:strip).reject(&:empty?)` */
  function Cleaned(fs: seq<string>): (r: seq<string>)
    ensures |r| <= |fs|
  {
    if fs == [] then [] else Kept(fs[0]) + Cleaned(fs[1..])
  }

  /** One field, stripped, or nothing when that leaves it empty. */
  function Kept(f: string): (r: seq<string>)
    ensures |r| <= 1
  {
    var t := Strip(f);
    if t == [] then [] else [t]
  }

  lemma {:induction false} CleanedAppend(a: seq<string>, b: seq<string>)
    ensures Cleaned(a + b) == Cleaned(a) + Cleaned(b)
    decreases |a|
  {
    if a == [] {
      assert a + b == b;
    } else {
      var h := Kept(a[0]);
      assert Cleaned(a + b) == h + Cleaned(a[1..] + b) by {
        assert (a + b)[0] == a[0] && (a + b)[1..] == a[1..] + b;
      }
      assert Cleaned(a[1..] + b) == Cleaned(a[1..]) + Cleaned(b) by { CleanedAppend(a[1..], b); }
      Assoc(h, Cleaned(a[1..]), Cleaned(b));
    }
  }

  /** The identifiers `export` works with: every comma-separated field of
      every argument, stripped, with the empty ones dropped. */
  function Ids(identifiers: seq<string>): (ids: seq<string>)
  {
    Cleaned(AllFields(identifiers))
  }

  /** `flat_map { |x| x.split(',') }` */
  function AllFields(xs: seq<string>): (fs: seq<string>)
  {
    if xs == [] then [] else Fields(xs[0]) + AllFields(xs[1..])
  }

  lemma {:induction false} AllFieldsAppend(a: seq<string>, b: seq<string>)
    ensures AllFields(a + b) == AllFields(a) + AllFields(b)
    decreases |a|
  {
    if a == [] {
      assert a + b == b;
    } else {
      var h := Fields(a[0]);
      assert AllFields(a + b) == h + AllFields(a[1..] + b) by {
        assert (a + b)[0] == a[0] && (a + b)[1..] == a[1..] + b;
      }
      assert AllFields(a[1..] + b) == AllFields(a[1..]) + AllFields(b) by { AllFieldsAppend(a[1..], b); }
      Assoc(h, AllFields(a[1..]), AllFields(b));
    }
  }

  /** Every identifier is non-empty, has no edge whitespace and no comma. */
  lemma IdsClean(identifiers: seq<string>)
    ensures forall k :: 0 <= k < |Ids(identifiers)| ==>
      var id := Ids(identifiers)[k]; id != [] && Strip(id) == id && ',' !in id
  {
    AllFieldsPlain(identifiers);
    CleanedClean(AllFields(identifiers));
  }

  lemma {:induction false} AllFieldsPlain(xs: seq<string>)
    ensures forall k :: 0 <= k < |AllFields(xs)| ==> ',' !in AllFields(xs)[k]
  {
    if xs != [] {
      FieldsJoin(xs[0]);
      AllFieldsPlain(xs[1..]);
    }
  }

  lemma {:induction false} CleanedClean(fs: seq<string>)
    requires forall k :: 0 <= k < |fs| ==> ',' !in fs[k]
    ensures forall k :: 0 <= k < |Cleaned(fs)| ==>
      var id := Cleaned(fs)[k]; id != [] && Strip(id) == id && ',' !in id
  {
    if fs != [] {
      CleanedClean(fs[1..]);
      var t := Strip(fs[0]);
      StripChars(fs[0]);
      if t != [] { StripFixed(t); }
    }
  }

  /** Two clean identifiers given as `a,b` are the identifiers `a` and `b`. */
  lemma CommaList(a: string, b: string)
    requires a != [] && Strip(a) == a && b != [] && Strip(b) == b && ',' !in a && ',' !in b
    ensures Ids([a + "," + b]) == [a, b]
  {
    var x := a + "," + b;
    assert AllFields([x]) == [a, b] by {
      FieldsTwo(a, b);
      assert AllFields([x]) == Fields(x) + AllFields([]);
    }
    CleanedTwo(a, b);
  }

  lemma FieldsTwo(a: string, b: string)
    requires ',' !in a && ',' !in b
    ensures Fields(a + "," + b) == [a, b]
  {
    FieldsAppend(a, b);
    FieldsOfPlain(a);
    FieldsOfPlain(b);
  }

  lemma CleanedTwo(a: string, b: string)
    requires a != [] && Strip(a) == a && b != [] && Strip(b) == b
    ensures Cleaned([a, b]) == [a, b]
  {
    assert [a, b] == [a] + [b];
    CleanedAppend([a], [b]);
    CleanedOne(a);
    CleanedOne(b);
  }

  lemma CleanedOne(a: string)
    requires a != [] && Strip(a) == a
    ensures Cleaned([a]) == [a]
  {
    assert Cleaned([a]) == Kept(a) + Cleaned([]);
  }

  /** A single clean identifier is taken as it is. */
  lemma IdsOne(h: string)
    requires h != [] && Strip(h) == h && ',' !in h
    ensures Ids([h]) == [h]
  {
    FieldsOfPlain(h);
    assert AllFields([h]) == Fields(h) + AllFields([]);
    CleanedOne(h);
  }

  lemma {:induction false} FieldsOfPlain(s: string)
    requires ',' !in s
    ensures Fields(s) == [s]
    decreases |s|
  {
    if s != [] {
      assert s[0] in s;
      assert forall x :: x in s[1..] ==> x in s;
      FieldsOfPlain(s[1..]);
      assert Fields(s) == [[s[0]] + s[1..]];
      assert [s[0]] + s[1..] == s;
    }
  }

  /** `/^(?:c:|c\d+)/i` at the line start `p`. */
  predicate HandleSelectorAt(id: string, p: nat)
  {
    p + 1 < |id| && (id[p] == 'c' || id[p] == 'C') && (id[p + 1] == ':' || IsDigit(id[p + 1]))
  }

  predicate IsHandleSelector(id: string)
  {
    exists p: nat | p < |id| :: LineStart(id, p) && HandleSelectorAt(id, p)
  }

  /** `/^ab:(?:pk:)?/i` at the line start `p` (the optional group never matters). */
  predicate AbSelectorAt(id: string, p: nat)
  {
    p + 2 < |id| && LowerChar(id[p]) == 'a' && LowerChar(id[p + 1]) == 'b' && id[p + 2] == ':'
  }

  predicate IsAbSelector(id: string)
  {
    exists p: nat | p < |id| :: LineStart(id, p) && AbSelectorAt(id, p)
  }

  predicate AnyHandleSelector(ids: seq<string>) { exists k :: 0 <= k < |ids| && IsHandleSelector(ids[k]) }

  predicate AnyAbSelector(ids: seq<string>) { exists k :: 0 <= k < |ids| && IsAbSelector(ids[k]) }

  /** The four exports `export` can start. */
  datatype Route = ExportAll | HandleSelectors(selectors: seq<string>)
                 | AddressBookSelectors(selectors: seq<string>) | ExportSingle(chat: string)

  /** `export`: the whole library without identifiers; the merged handle and
      chat export as soon as one identifier is a `c:` or `c<digits>`
      selector; else the address-book export as soon as one is an `ab:`
      selector; else the first identifier as a single chat. */
  function Dispatch(identifiers: seq<string>): (r: Route)
    ensures var ids := Ids(identifiers);
      (r.ExportAll? <==> ids == []) &&
      (r.HandleSelectors? <==> AnyHandleSelector(ids)) &&
      (r.AddressBookSelectors? <==> !AnyHandleSelector(ids) && AnyAbSelector(ids)) &&
      (r.HandleSelectors? || r.AddressBookSelectors? ==> r.selectors == ids) &&
      (r.ExportSingle? ==> ids != [] && r.chat == ids[0])
  {
    var ids := Ids(identifiers);
    if ids == [] then ExportAll
    else if AnyHandleSelector(ids) then HandleSelectors(ids)
    else if AnyAbSelector(ids) then AddressBookSelectors(ids)
    else ExportSingle(ids[0])
  }

  /** A chat GUID among address-book selectors does not stop them from
      being exported from the address book, but one handle selector
      anywhere turns the whole request into the merged handle export. */
  lemma HandleSelectorWins(a: string, rest: seq<string>, h: string)
    requires IsAbSelector(a)
    requires h != [] && Strip(h) == h && ',' !in h && h[0] == 'c' && |h| >= 2 && h[1] == ':'
    ensures Dispatch([a] + rest + [h]).HandleSelectors?
  {
    IdsAppend([a] + rest, [h]);
    IdsOne(h);
    assert IsHandleSelector(h) by { assert LineStart(h, 0) && HandleSelectorAt(h, 0); }
    var ids := Ids([a] + rest + [h]);
    assert ids[|ids| - 1] == h;
  }

  lemma IdsAppend(a: seq<string>, b: seq<string>)
    ensures Ids(a + b) == Ids(a) + Ids(b)
  {
    AllFieldsAppend(a, b);
    CleanedAppend(AllFields(a), AllFields(b));
  }

  // ---------------------------------------------------------------- single-only flags

  /** The three refusals of `validate_single_only_flags!`. */
  datatype FlagError = FlipNeedsSingle | NameNeedsSingle | FlipNeedsOneToOne

  function FlagMessage(e: FlagError): string
  {
    match e
    case FlipNeedsSingle => "--flip-perspective only applies when exporting a single conversation."
    case NameNeedsSingle => "--display-name only applies when exporting a single conversation."
    case FlipNeedsOneToOne => "--flip-perspective only applies to one-to-one conversations."
  }

  /** The display-name option is set and not blank. */
  predicate HasDisplayName(name: Option<string>) { name.Some? && Strip(name.value) != [] }

  /** `validate_single_only_flags!`: a request for more than one
      conversation refuses the flip-perspective flag, then a non-blank
      display name; a single group conversation refuses the flip flag. */
  function ValidateSingleOnlyFlags(single: bool, oneToOne: bool, flip: bool, displayName: Option<string>): (err: Option<FlagError>)
    ensures err.None? <==> (if single then oneToOne || !flip else !flip && !HasDisplayName(displayName))
    ensures err == Some(FlipNeedsSingle) <==> !single && flip
    ensures err == Some(NameNeedsSingle) <==> !single && !flip && HasDisplayName(displayName)
    ensures err == Some(FlipNeedsOneToOne) <==> single && !oneToOne && flip
  {
    if !single then
      if flip then Some(FlipNeedsSingle)
      else if HasDisplayName(displayName) then Some(NameNeedsSingle)
      else None
    else if !oneToOne && flip then Some(FlipNeedsOneToOne)
    else None
  }

  // ---------------------------------------------------------------- slugs and directories

  predicate SlugChar(c: char) { IsLower(c) || IsDigit(c) }

  /** Drops a leading run of characters outside `[a-z0-9]`. */
  function SkipNonSlug(s: string): (r: string)
    ensures |r| <= |s| && r == s[|s| - |r|..]
    ensures r == [] || SlugChar(r[0])
  {
    if s != [] && !SlugChar(s[0]) then SkipNonSlug(s[1..]) else s
  }

  /** `gsub(/[^a-z0-9]+/, '_')`: every maximal run outside `[a-z0-9]` becomes one `_`. */
  function Underscored(s: string): (r: string)
    decreases |s|
  {
    if s == [] then []
    else if SlugChar(s[0]) then [s[0]] + Underscored(s[1..])
    else "_" + Underscored(SkipNonSlug(s[1..]))
  }

  /** `gsub(/^_|_$/, '')` on a text without newlines: one `_` off each end. */
  function TrimUnderscores(t: string): (r: string)
  {
    var a := if t != [] && t[0] == '_' then t[1..] else t;
    if a != [] && a[|a| - 1] == '_' then a[..|a| - 1] else a
  }

  /** Lower-case letters, digits and single `_` separators, with no `_` at either end. */
  predicate IsSlug(r: string)
  {
    (forall i :: 0 <= i < |r| ==> SlugChar(r[i]) || r[i] == '_') &&
    (forall i :: 0 <= i < |r| - 1 ==> !(r[i] == '_' && r[i + 1] == '_')) &&
    (r != [] ==> r[0] != '_' && r[|r| - 1] != '_')
  }

  /** The slug both `generate_output_dir` and `add_thread_export` use:
      lower-cased, runs outside `[a-z0-9]` replaced by `_`, edge `_` dropped. */
  function Slug(s: string): (r: string)
  {
    TrimUnderscores(Underscored(Lower(s)))
  }

  /** What `Underscored` makes: slug characters with single underscores,
      starting with `_` only when the text starts outside `[a-z0-9]`. */
  lemma {:induction false} UnderscoredShape(s: string)
    ensures var r := Underscored(s);
      (forall i :: 0 <= i < |r| ==> SlugChar(r[i]) || r[i] == '_') &&
      (forall i :: 0 <= i < |r| - 1 ==> !(r[i] == '_' && r[i + 1] == '_')) &&
      (r != [] && r[0] == '_' ==> !SlugChar(s[0])) &&
      (r == [] <==> s == [])
    decreases |s|
  {
    if s != [] {
      if SlugChar(s[0]) {
        UnderscoredShape(s[1..]);
      } else {
        var t := SkipNonSlug(s[1..]);
        UnderscoredShape(t);
        assert t == [] || SlugChar(t[0]);
      }
    }
  }

  /** Slug characters and single underscores. */
  predicate Shaped(t: string)
  {
    (forall i :: 0 <= i < |t| ==> SlugChar(t[i]) || t[i] == '_') &&
    (forall i :: 0 <= i < |t| - 1 ==> !(t[i] == '_' && t[i + 1] == '_'))
  }

  lemma ShapedSlice(t: string, i: nat, j: nat)
    requires Shaped(t) && i <= j <= |t|
    ensures Shaped(t[i..j])
  {
    var u := t[i..j];
    assert forall k :: 0 <= k < |u| ==> u[k] == t[i + k];
  }

  lemma TrimShaped(u: string)
    requires Shaped(u)
    ensures IsSlug(TrimUnderscores(u))
  {
    var a := if u != [] && u[0] == '_' then u[1..] else u;
    ShapedSlice(u, |u| - |a|, |u|);
    assert a != [] ==> a[0] != '_' by {
      if a != [] && u != [] && u[0] == '_' { assert a[0] == u[1]; }
    }
    var b := if a != [] && a[|a| - 1] == '_' then a[..|a| - 1] else a;
    ShapedSlice(a, 0, |b|);
    assert b == a[..|b|];
    assert b != [] ==> b[|b| - 1] != '_' by {
      if b != [] && a[|a| - 1] == '_' { assert b[|b| - 1] == a[|a| - 2]; }
    }
  }

  lemma SlugIsSlug(s: string)
    ensures IsSlug(Slug(s))
  {
    UnderscoredShape(Lower(s));
    TrimShaped(Underscored(Lower(s)));
  }

  /** A slug is its own slug, so slugging twice changes nothing. */
  lemma SlugIdempotent(s: string)
    ensures Slug(Slug(s)) == Slug(s)
  {
    SlugIsSlug(s);
    SlugFixed(Slug(s));
  }

  lemma SlugFixed(t: string)
    requires IsSlug(t)
    ensures Slug(t) == t
  {
    assert Lower(t) == t;
    UnderscoredFixed(t);
  }

  lemma {:induction false} UnderscoredFixed(t: string)
    requires forall i :: 0 <= i < |t| ==> SlugChar(t[i]) || t[i] == '_'
    requires forall i :: 0 <= i < |t| - 1 ==> !(t[i] == '_' && t[i + 1] == '_')
    ensures Underscored(t) == t
    decreases |t|
  {
    if t != [] {
      var u := t[1..];
      assert forall i :: 0 <= i < |u| ==> u[i] == t[i + 1];
      UnderscoredFixed(u);
      if !SlugChar(t[0]) {
        assert u == [] || SlugChar(u[0]);
      }
    }
  }

  /** Letter case never matters to a slug. */
  lemma SlugIgnoresCase(s: string)
    ensures Slug(Upper(s)) == Slug(s)
  {
    LowerUpper(s);
  }

  const ExportsPrefix := "./exports/"

  /** `generate_output_dir`: the display name, else the GUID, else
      `unknown_chat`, slugged under `./exports/`, with `chat` for an empty slug. */
  function GenerateOutputDir(displayName: Option<string>, guid: Option<string>): (dir: string)
    ensures StartsWith(dir, ExportsPrefix)
    ensures var safe := dir[|ExportsPrefix|..]; safe != [] && IsSlug(safe)
    ensures var name := if displayName.Some? then displayName.value else OrElse(guid, "unknown_chat");
      dir == ExportsPrefix + (if Slug(name) == [] then "chat" else Slug(name))
  {
    var name := if displayName.Some? then displayName.value else OrElse(guid, "unknown_chat");
    var safe := Slug(name);
    SlugIsSlug(name);
    FallbackSlugs();
    var tail := if safe == [] then "chat" else safe;
    var dir := ExportsPrefix + tail;
    assert dir[..|ExportsPrefix|] == ExportsPrefix && dir[|ExportsPrefix|..] == tail;
    dir
  }

  /** The fallback names are slugs themselves. */
  lemma FallbackSlugs()
    ensures IsSlug("chat") && IsSlug("thread")
  {
    var c, t := "chat", "thread";
    assert c == ['c', 'h', 'a', 't'] && t == ['t', 'h', 'r', 'e', 'a', 'd'];
    assert forall i :: 0 <= i < |c| ==> IsLower(c[i]);
    assert forall i :: 0 <= i < |t| ==> IsLower(t[i]);
  }

  /** A name that is already a non-empty slug names its own directory. */
  lemma OutputDirOfSlug(t: string, guid: Option<string>)
    requires IsSlug(t) && t != []
    ensures GenerateOutputDir(Some(t), guid) == ExportsPrefix + t
  {
    SlugFixed(t);
  }

  /** A name without a letter or a digit is exported to `./exports/chat`. */
  lemma OutputDirWithoutAlnum(name: string, guid: Option<string>)
    requires forall i :: 0 <= i < |name| ==> !IsAlnum(name[i])
    ensures GenerateOutputDir(Some(name), guid) == ExportsPrefix + "chat"
  {
    var t := Lower(name);
    assert forall i :: 0 <= i < |t| ==> !SlugChar(t[i]);
    if t != [] {
      SkipAll(t[1..]);
      assert Underscored(t) == "_";
    }
  }

  lemma {:induction false} SkipAll(t: string)
    requires forall i :: 0 <= i < |t| ==> !SlugChar(t[i])
    ensures SkipNonSlug(t) == []
    decreases |t|
  {
    if t != [] {
      assert forall i :: 0 <= i < |t| - 1 ==> t[1..][i] == t[i + 1];
      SkipAll(t[1..]);
    }
  }

  /** A thread's own slug: the slug of its row id, `thread` when that is empty. */
  function ThreadSlug(id: string): (r: string)
    ensures r != [] && IsSlug(r)
  {
    SlugIsSlug(id);
    FallbackSlugs();
    if Slug(id) == [] then "thread" else Slug(id)
  }

  /** The slug `add_thread_export` gives a thread: its own slug, or, when
      an earlier thread already took that, the slug followed by `_` and
      the first six characters of the hex digest of the id. */
  function ChooseSlug(used: set<string>, id: string, digestHex: string): (r: string)
    ensures r == ThreadSlug(id) <==> ThreadSlug(id) !in used
    ensures r in used ==> ThreadSlug(id) in used && ThreadSlug(id) + "_" + digestHex[..Min(6, |digestHex|)] in used
    ensures StartsWith(r, ThreadSlug(id))
    ensures ThreadSlug(id) in used ==> r == ThreadSlug(id) + "_" + digestHex[..Min(6, |digestHex|)]
  {
    var base := ThreadSlug(id);
    if base in used then base + "_" + digestHex[..Min(6, |digestHex|)] else base
  }

  /** With a lower-case hex digest, a disambiguated slug is still a slug:
      the base slug, one `_`, and digest characters. */
  lemma ChooseSlugIsSlug(used: set<string>, id: string, digestHex: string)
    requires digestHex != [] && forall i :: 0 <= i < |digestHex| ==> SlugChar(digestHex[i])
    ensures IsSlug(ChooseSlug(used, id, digestHex))
  {
    var base := ThreadSlug(id);
    if base in used {
      SlugSuffixed(base, digestHex[..Min(6, |digestHex|)]);
    }
  }

  lemma SlugSuffixed(base: string, suffix: string)
    requires base != [] && IsSlug(base)
    requires suffix != [] && forall i :: 0 <= i < |suffix| ==> SlugChar(suffix[i])
    ensures IsSlug(base + "_" + suffix)
  {
    var r := base + "_" + suffix;
    assert forall i :: |base| < i < |r| ==> r[i] == suffix[i - |base| - 1];
    assert forall i :: 0 <= i < |base| ==> r[i] == base[i];
    assert r[|base|] == '_';
    assert forall i :: 0 <= i < |r| ==> SlugChar(r[i]) || r[i] == '_';
    assert forall i :: 0 <= i < |r| - 1 ==> !(r[i] == '_' && r[i + 1] == '_');
  }

  /** The `used_slugs` table the export-all loop threads through its
      calls of `add_thread_export`. */
  class SlugTable {
    var used: set<string>

    constructor()
      ensures used == {}
    {
      used := {};
    }

    /** Picks the slug of the next thread and records it. */
    method Claim(id: string, digestHex: string) returns (slug: string)
      modifies this
      ensures slug == ChooseSlug(old(used), id, digestHex)
      ensures used == old(used) + {slug}
    {
      slug := ChooseSlug(used, id, digestHex);
      used := used + {slug};
    }
  }

  // ---------------------------------------------------------------- renderable messages

  /** A message `renderables_count` counts: the projection's skip rule does
      not apply to it. */
  predicate Renderable(m: Messages.Row, amap: map<int, seq<RawAttachment>>)
  {
    !Project.Invisible(m, Project.Visible(Project.AttachmentsOf(amap, m.messageId)))
  }

  /** The number of renderable messages. */
  function RenderableCount(ms: seq<Messages.Row>, amap: map<int, seq<RawAttachment>>): (n: nat)
    ensures n <= |ms|
  {
    if ms == [] then 0
    else RenderableCount(ms[..|ms| - 1], amap) + (if Renderable(ms[|ms| - 1], amap) then 1 else 0)
  }

  /** `renderables_count`. */
  method CountRenderables(ms: seq<Messages.Row>, amap: map<int, seq<RawAttachment>>) returns (c: nat)
    ensures c == RenderableCount(ms, amap)
  {
    c := 0;
    var i := 0;
    while i < |ms|
      invariant 0 <= i <= |ms|
      invariant c == RenderableCount(ms[..i], amap)
    {
      assert ms[..i + 1][..i] == ms[..i];
      if Renderable(ms[i], amap) {
        c := c + 1;
      }
      i := i + 1;
    }
    assert ms[..|ms|] == ms;
  }

  /** Whether each message is renderable. */
  function RenderFlags(ms: seq<Messages.Row>, amap: map<int, seq<RawAttachment>>): (f: seq<bool>)
    ensures |f| == |ms|
  {
    seq(|ms|, k requires 0 <= k < |ms| => Renderable(ms[k], amap))
  }

  lemma RenderFlagAt(ms: seq<Messages.Row>, amap: map<int, seq<RawAttachment>>, k: nat)
    requires k < |ms|
    ensures RenderFlags(ms, amap)[k] == Renderable(ms[k], amap)
  {
  }

  /** The number of set flags. */
  function CountTrue(flags: seq<bool>): (n: nat)
    ensures n <= |flags|
  {
    if flags == [] then 0 else CountTrue(flags[..|flags| - 1]) + (if flags[|flags| - 1] then 1 else 0)
  }

  lemma {:induction false} CountTrueZeroIff(flags: seq<bool>)
    ensures CountTrue(flags) == 0 <==> forall k :: 0 <= k < |flags| ==> !flags[k]
    decreases |flags|
  {
    if flags != [] {
      var init := flags[..|flags| - 1];
      CountTrueZeroIff(init);
      assert forall k :: 0 <= k < |init| ==> init[k] == flags[k];
    }
  }

  /** The count is the number of renderable flags. */
  lemma {:induction false} CountIsFlagged(ms: seq<Messages.Row>, amap: map<int, seq<RawAttachment>>)
    ensures RenderableCount(ms, amap) == CountTrue(RenderFlags(ms, amap))
    decreases |ms|
  {
    if ms != [] {
      var n := |ms| - 1;
      CountIsFlagged(ms[..n], amap);
      var f := RenderFlags(ms, amap);
      assert f[..n] == RenderFlags(ms[..n], amap) by {
        forall k | 0 <= k < n ensures f[..n][k] == RenderFlags(ms[..n], amap)[k] {
          RenderFlagAt(ms, amap, k);
          RenderFlagAt(ms[..n], amap, k);
        }
      }
      RenderFlagAt(ms, amap, n);
    }
  }

  /** The count is zero exactly when no message is renderable. */
  lemma CountZeroIffNothingRenderable(ms: seq<Messages.Row>, amap: map<int, seq<RawAttachment>>)
    ensures RenderableCount(ms, amap) == 0 <==> forall k :: 0 <= k < |ms| ==> !Renderable(ms[k], amap)
  {
    CountIsFlagged(ms, amap);
    CountTrueZeroIff(RenderFlags(ms, amap));
    forall k | 0 <= k < |ms| ensures RenderFlags(ms, amap)[k] == Renderable(ms[k], amap) {
      RenderFlagAt(ms, amap, k);
    }
  }

  /** So a thread is left out of the library exactly when the projection
      would skip every one of its messages. */
  lemma SkippedThreadRendersNothing(ms: seq<Messages.Row>, amap: map<int, seq<RawAttachment>>, isGroup: bool,
                                    friendly: Option<map<string, string>>, now: real, clock: TimeUtil.Clock)
    ensures RenderableCount(ms, amap) == 0 <==>
      forall k :: 0 <= k < |ms| ==>
        Project.ProjectMessage(Some(ms[k]), Some(Project.AttachmentsOf(amap, ms[k].messageId)), isGroup, friendly, now, clock).Skipped?
  {
    CountZeroIffNothingRenderable(ms, amap);
  }

  /** Counting distributes over the concatenation of message lists. */
  lemma {:induction false} CountAppend(a: seq<Messages.Row>, b: seq<Messages.Row>, amap: map<int, seq<RawAttachment>>)
    ensures RenderableCount(a + b, amap) == RenderableCount(a, amap) + RenderableCount(b, amap)
    decreases |b|
  {
    if b == [] {
      assert a + b == a;
    } else {
      var init := b[..|b| - 1];
      assert (a + b)[..|a + b| - 1] == a + init;
      CountAppend(a, init, amap);
    }
  }

  // ---------------------------------------------------------------- preview

  /** A message whose text can stand as the thread's preview. */
  predicate HasPreviewText(m: Messages.Row)
  {
    !m.skipRender && m.text.Some? && Strip(m.text.value) != []
  }

  /** The position of the last `true`. */
  function LastTrue(flags: seq<bool>): (r: Option<nat>)
    ensures r.Some? ==> r.value < |flags| && flags[r.value]
  {
    if flags == [] then None
    else if flags[|flags| - 1] then Some(|flags| - 1)
    else LastTrue(flags[..|flags| - 1])
  }

  /** Nothing after the last `true` is `true`; without one nothing is. */
  lemma {:induction false} LastTrueIsLast(flags: seq<bool>, j: nat)
    requires j < |flags| && flags[j]
    ensures LastTrue(flags).Some? && j <= LastTrue(flags).value
    decreases |flags|
  {
    if j < |flags| - 1 && !flags[|flags| - 1] {
      var init := flags[..|flags| - 1];
      assert init[j];
      LastTrueIsLast(init, j);
    }
  }

  function PreviewFlags(ms: seq<Messages.Row>): (f: seq<bool>)
    ensures |f| == |ms| && forall k :: 0 <= k < |ms| ==> f[k] == HasPreviewText(ms[k])
  {
    seq(|ms|, k requires 0 <= k < |ms| => HasPreviewText(ms[k]))
  }

  /** `all_messages.reverse.find { ... }`: the position of the last message with preview text. */
  function LastPreviewIndex(ms: seq<Messages.Row>): (r: Option<nat>)
    ensures r.Some? ==> r.value < |ms| && HasPreviewText(ms[r.value])
  {
    LastTrue(PreviewFlags(ms))
  }

  /** It is the last one: a message with preview text sits at or before it. */
  lemma LastPreviewIsLast(ms: seq<Messages.Row>, j: nat)
    requires j < |ms| && HasPreviewText(ms[j])
    ensures LastPreviewIndex(ms).Some? && j <= LastPreviewIndex(ms).value
  {
    LastTrueIsLast(PreviewFlags(ms), j);
  }

  const PreviewLimit := 160
  const MediaPreview := "[Media]"

  /** The preview of a thread: the last shown message with text, stripped,
      whitespace runs turned into single spaces, cut to 160 characters;
      `[Media]` when there is none. */
  function Preview(ms: seq<Messages.Row>): (r: string)
    ensures |r| <= PreviewLimit
    ensures LastPreviewIndex(ms).None? ==> r == MediaPreview
    ensures LastPreviewIndex(ms).Some? ==> var t := Collapse(Strip(ms[LastPreviewIndex(ms).value].text.value));
      |r| == Min(PreviewLimit, |t|) && StartsWith(t, r)
  {
    match LastPreviewIndex(ms)
    case None => MediaPreview
    case Some(k) =>
      var t := Collapse(Strip(ms[k].text.value));
      t[..Min(PreviewLimit, |t|)]
  }

  /** A text preview is never empty, starts with a visible character,
      has no whitespace but single spaces, and is the start of the last
      shown message's text. */
  lemma PreviewShape(ms: seq<Messages.Row>)
    requires LastPreviewIndex(ms).Some?
    ensures var r, k := Preview(ms), LastPreviewIndex(ms).value;
      r != [] && !IsSpace(r[0]) && Collapsed(r) &&
      StartsWith(Collapse(Strip(ms[k].text.value)), r)
  {
    var k := LastPreviewIndex(ms).value;
    var s := Strip(ms[k].text.value);
    var t := Collapse(s);
    CollapseCollapsed(s);
    assert t != [] && t[0] == s[0];
    SubCollapsed(t, 0, Min(PreviewLimit, |t|));
    assert t[0..Min(PreviewLimit, |t|)] == t[..Min(PreviewLimit, |t|)];
  }

  /** A short single-line text without doubled spaces is its own preview. */
  lemma PreviewOfPlainText(ms: seq<Messages.Row>, t: string)
    requires LastPreviewIndex(ms).Some? && ms[LastPreviewIndex(ms).value].text == Some(t)
    requires Strip(t) == t && Collapsed(t) && |t| <= PreviewLimit
    ensures Preview(ms) == t
  {
    CollapseFixed(t);
  }

  // ---------------------------------------------------------------- one-to-one selection

  /** How a selection loop maps a participant to a contact key: through
      `map_handle_to_contact_key` and the library's indexes (lines
      221-226), or by the address-book export's own lookup chain (lines
      435-445). */
  datatype Mapping = ByContactIndexes(ix: Chats.Indexes)
                   | BySelectorIndexes(idIndex: map<string, string>, digitsIndex: map<string, string>)

  /** `id_index[id_lc] || digits_index[digits] || digits_index[uncanon_digits]
      || digits_index[digits[-10..-1]]`. */
  function SelectorKey(hid: string, uncanon: Option<string>, idIndex: map<string, string>,
                       digitsIndex: map<string, string>): (r: Option<string>)
    ensures r.Some? ==> r.value in idIndex.Values || r.value in digitsIndex.Values
    ensures Lower(hid) in idIndex ==> r == Some(idIndex[Lower(hid)])
    ensures r.None? <==>
      Lower(hid) !in idIndex && Digits(hid) !in digitsIndex && Digits(OrElse(uncanon, [])) !in digitsIndex &&
      (Last10(Digits(hid)).None? || Last10(Digits(hid)).value !in digitsIndex)
  {
    var d := Digits(hid);
    var u := Digits(OrElse(uncanon, []));
    if Lower(hid) in idIndex then Some(idIndex[Lower(hid)])
    else if d in digitsIndex then Some(digitsIndex[d])
    else if u in digitsIndex then Some(digitsIndex[u])
    else if Last10(d).Some? && Last10(d).value in digitsIndex then Some(digitsIndex[Last10(d).value])
    else None
  }

  function KeyOf(p: Chats.Participant, mapping: Mapping): Option<string>
  {
    match mapping
    case ByContactIndexes(ix) => Chats.MapHandleToContactKey(p.hid, p.uncanon, ix.idIndex, ix.digitsIndex)
    case BySelectorIndexes(idIndex, digitsIndex) => SelectorKey(p.hid, p.uncanon, idIndex, digitsIndex)
  }

  function KeysOf(hs: seq<Chats.Participant>, mapping: Mapping): (ks: seq<Option<string>>)
    ensures |ks| == |hs| && forall i :: 0 <= i < |hs| ==> ks[i] == KeyOf(hs[i], mapping)
  {
    seq(|hs|, i requires 0 <= i < |hs| => KeyOf(hs[i], mapping))
  }

  /** A chat is wanted when every participant maps, all to the same key,
      and that key is one of `wanted`. */
  predicate Wanted(ch: Threads.ChatHandles, mapping: Mapping, wanted: seq<string>)
  {
    var k := Threads.Sole(KeysOf(ch.handles, mapping));
    k.Some? && k.value in wanted
  }

  /** Whether each chat is wanted, in the order of `handles_by_chat`. */
  function WantedFlags(byChat: seq<Threads.ChatHandles>, mapping: Mapping, wanted: seq<string>): (f: seq<bool>)
    ensures |f| == |byChat|
  {
    seq(|byChat|, j requires 0 <= j < |byChat| => Wanted(byChat[j], mapping, wanted))
  }

  lemma WantedFlagAt(byChat: seq<Threads.ChatHandles>, mapping: Mapping, wanted: seq<string>, j: nat)
    requires j < |byChat|
    ensures WantedFlags(byChat, mapping, wanted)[j] == Wanted(byChat[j], mapping, wanted)
  {
  }

  /** The ids of the chats whose flag is set, in order. */
  function IdsWhere(byChat: seq<Threads.ChatHandles>, flags: seq<bool>): (ids: seq<int>)
    requires |flags| == |byChat|
    ensures |ids| <= |byChat|
  {
    if byChat == [] then []
    else
      var n := |byChat| - 1;
      IdsWhere(byChat[..n], flags[..n]) + (if flags[n] then [byChat[n].chatId] else [])
  }

  /** The chats the loop selects, in the order of `handles_by_chat`. */
  function SelectedChats(byChat: seq<Threads.ChatHandles>, mapping: Mapping, wanted: seq<string>): (ids: seq<int>)
    ensures |ids| <= |byChat|
  {
    if byChat == [] then []
    else
      var last := byChat[|byChat| - 1];
      SelectedChats(byChat[..|byChat| - 1], mapping, wanted) + (if Wanted(last, mapping, wanted) then [last.chatId] else [])
  }

  lemma SelectedSnoc(byChat: seq<Threads.ChatHandles>, mapping: Mapping, wanted: seq<string>, i: nat, keep: bool)
    requires i < |byChat| && keep == Wanted(byChat[i], mapping, wanted)
    ensures SelectedChats(byChat[..i + 1], mapping, wanted) ==
      SelectedChats(byChat[..i], mapping, wanted) + (if keep then [byChat[i].chatId] else [])
  {
    assert byChat[..i + 1][..i] == byChat[..i];
  }

  /** The selection loops of lines 221-226 (one key) and 435-445 (the
      selected keys). */
  method SelectChats(byChat: seq<Threads.ChatHandles>, mapping: Mapping, wanted: seq<string>) returns (selected: seq<int>)
    ensures selected == SelectedChats(byChat, mapping, wanted)
  {
    selected := [];
    var i := 0;
    while i < |byChat|
      invariant 0 <= i <= |byChat|
      invariant selected == SelectedChats(byChat[..i], mapping, wanted)
    {
      var ch := byChat[i];
      var keep := Wanted(ch, mapping, wanted);
      SelectedSnoc(byChat, mapping, wanted, i, keep);
      if keep {
        selected := selected + [ch.chatId];
      }
      i := i + 1;
    }
    assert byChat[..|byChat|] == byChat;
  }

  /** The selection is the ids whose wanted flag is set. */
  lemma {:induction false} SelectedAreFlagged(byChat: seq<Threads.ChatHandles>, mapping: Mapping, wanted: seq<string>)
    ensures SelectedChats(byChat, mapping, wanted) == IdsWhere(byChat, WantedFlags(byChat, mapping, wanted))
    decreases |byChat|
  {
    if byChat != [] {
      var n := |byChat| - 1;
      SelectedAreFlagged(byChat[..n], mapping, wanted);
      var f := WantedFlags(byChat, mapping, wanted);
      assert f[..n] == WantedFlags(byChat[..n], mapping, wanted) by {
        forall j | 0 <= j < n ensures f[..n][j] == WantedFlags(byChat[..n], mapping, wanted)[j] {
          WantedFlagAt(byChat, mapping, wanted, j);
          WantedFlagAt(byChat[..n], mapping, wanted, j);
        }
      }
      WantedFlagAt(byChat, mapping, wanted, n);
    }
  }

  /** A chat has participants, each of which maps to one and the same wanted key. */
  ghost predicate OneWantedKey(ch: Threads.ChatHandles, mapping: Mapping, wanted: seq<string>)
  {
    ch.handles != [] && exists w :: w in wanted && forall i :: 0 <= i < |ch.handles| ==> KeyOf(ch.handles[i], mapping) == Some(w)
  }

  /** An id is listed exactly when some chat of that id has its flag set. */
  lemma {:induction false} IdsWhereIff(byChat: seq<Threads.ChatHandles>, flags: seq<bool>, c: int)
    requires |flags| == |byChat|
    ensures c in IdsWhere(byChat, flags) <==> exists j :: 0 <= j < |byChat| && byChat[j].chatId == c && flags[j]
    decreases |byChat|
  {
    if byChat != [] {
      var n := |byChat| - 1;
      IdsWhereIff(byChat[..n], flags[..n], c);
      assert forall j :: 0 <= j < n ==> byChat[..n][j] == byChat[j] && flags[..n][j] == flags[j];
    }
  }

  /** A chat is selected exactly when it has participants, each of which
      maps to one and the same wanted key. */
  lemma SelectedMembers(byChat: seq<Threads.ChatHandles>, mapping: Mapping, wanted: seq<string>, c: int)
    ensures c in SelectedChats(byChat, mapping, wanted) <==>
      exists j :: 0 <= j < |byChat| && byChat[j].chatId == c && OneWantedKey(byChat[j], mapping, wanted)
  {
    var flags := WantedFlags(byChat, mapping, wanted);
    SelectedAreFlagged(byChat, mapping, wanted);
    IdsWhereIff(byChat, flags, c);
    forall j | 0 <= j < |byChat| ensures flags[j] <==> OneWantedKey(byChat[j], mapping, wanted) {
      WantedFlagAt(byChat, mapping, wanted, j);
      WantedIff(byChat[j], mapping, wanted);
    }
  }

  lemma WantedIff(ch: Threads.ChatHandles, mapping: Mapping, wanted: seq<string>)
    ensures Wanted(ch, mapping, wanted) <==> OneWantedKey(ch, mapping, wanted)
  {
    var ks := KeysOf(ch.handles, mapping);
    SoleWanted(ks, wanted);
    if w :| w in wanted && forall i :: 0 <= i < |ch.handles| ==> KeyOf(ch.handles[i], mapping) == Some(w) {
      assert forall i :: 0 <= i < |ks| ==> ks[i] == Some(w);
    }
  }

  /** The sole key is wanted exactly when every key is the same wanted one. */
  lemma SoleWanted(ks: seq<Option<string>>, wanted: seq<string>)
    ensures (Threads.Sole(ks).Some? && Threads.Sole(ks).value in wanted) <==>
      ks != [] && exists w :: w in wanted && forall i :: 0 <= i < |ks| ==> ks[i] == Some(w)
  {
    if ks != [] {
      if w :| w in wanted && forall i :: 0 <= i < |ks| ==> ks[i] == Some(w) {
        assert ks[0] == Some(w);
      }
    }
  }

  // ---------------------------------------------------------------- attachment paths

  /** `File.join(dir, name)`: the directory without its trailing slashes
      when the name starts with one, else one `/` between the two unless
      the directory already ends in one. */
  function JoinPath(dir: string, name: string): (r: string)
    ensures var t := TrimTrailingSlashes(dir);
      StartsWith(r, t) && EndsWith(r, name) && |t| + |name| <= |r| &&
      (forall i :: |t| <= i < |r| - |name| ==> r[i] == '/') &&
      |t| < |r| && r[|t|] == '/'
  {
    var t := TrimTrailingSlashes(dir);
    if name != [] && name[0] == '/' then t + name
    else if dir != [] && dir[|dir| - 1] == '/' then
      assert dir == t + dir[|t|..];
      dir + name
    else dir + "/" + name
  }

  const FileScheme := "file://"
  const HomeMessages := "~/Library/Messages/"
  const LibraryMessages := "/Library/Messages/"
  const LibrarySms := "/Library/SMS/"

  /** The second pattern of the rewrite: a `/`, a first component that
      is not empty, a `/`, and the Messages library folder somewhere past it. */
  predicate UserLibraryPath(p: string)
  {
    p != [] && p[0] == '/' &&
    match IndexFrom(p, "/", 1)
    case None => false
    case Some(k) => k >= 2 && IndexFrom(p, LibraryMessages, k + 1).Some?
  }

  /** The leftmost match of `%r{/Library/(?:Messages|SMS)/}` from `from`,
      as the position just past it. */
  function LibraryFolderEnd(p: string, from: nat): (e: Option<nat>)
    ensures e.Some? ==> e.value <= |p|
    decreases |p| - from
  {
    if from >= |p| then None
    else if OccursAt(p, LibraryMessages, from) then Some(from + |LibraryMessages|)
    else if OccursAt(p, LibrarySms, from) then Some(from + |LibrarySms|)
    else LibraryFolderEnd(p, from + 1)
  }

  /** Where `copy_attachments` looks for an attachment's file, relative to
      the Messages folder being exported or as an absolute path kept as it is. */
  datatype SourcePath = UnderInput(rel: string) | Absolute(path: string)

  /** The path rewrite of `copy_attachments`: a `file://` prefix is dropped;
      a path under `~/Library/Messages/`, under some user's
      `Library/Messages`, or through any `Library/Messages` or
      `Library/SMS` folder is taken relative to that folder; any other
      relative path is taken relative to the input folder. */
  function Locate(filename: string): (r: SourcePath)
  {
    LocatePath(Unscheme(filename))
  }

  /** The path with a `file://` prefix dropped. */
  function Unscheme(filename: string): (p: string)
    ensures EndsWith(filename, p)
  {
    if StartsWith(filename, FileScheme) then filename[|FileScheme|..] else filename
  }

  function LocatePath(p: string): (r: SourcePath)
  {
    if StartsWith(p, HomeMessages) then UnderInput(p[|HomeMessages|..])
    else if UserLibraryPath(p) then
      var i := IndexOf(p, LibraryMessages).value;
      UnderInput(p[i + |LibraryMessages|..])
    else if LibraryFolderEnd(p, 0).Some? then UnderInput(p[LibraryFolderEnd(p, 0).value..])
    else if !StartsWith(p, "/") then UnderInput(p)
    else Absolute(p)
  }

  /** The source path itself: re-rooted under the input folder, or kept. */
  function SourceFor(filename: Option<string>, inputDir: string): (r: Option<string>)
    ensures r.None? <==> filename.None?
  {
    match filename
    case None => None
    case Some(f) =>
      match Locate(f)
      case UnderInput(rel) => Some(JoinPath(inputDir, rel))
      case Absolute(path) => Some(path)
  }

  /** The leftmost library folder from `from` is found exactly when one occurs there or later. */
  lemma {:induction false} LibraryFolderEndNone(p: string, from: nat)
    ensures LibraryFolderEnd(p, from).None? <==>
      forall i: nat :: from <= i ==> !OccursAt(p, LibraryMessages, i) && !OccursAt(p, LibrarySms, i)
    decreases |p| - from
  {
    if from < |p| {
      LibraryFolderEndNone(p, from + 1);
    }
  }

  /** A path is kept as it is exactly when it is absolute (after the
      `file://` prefix) and names neither the Messages nor the SMS library
      folder; everything else is looked for under the input folder, by a
      tail of the path. */
  lemma LocateKept(filename: string)
    ensures var p := Unscheme(filename);
      (Locate(filename).Absolute? <==>
         StartsWith(p, "/") && !Contains(p, LibraryMessages) && !Contains(p, LibrarySms)) &&
      (Locate(filename).UnderInput? ==> EndsWith(filename, Locate(filename).rel))
  {
    var p := Unscheme(filename);
    LocatePathKept(p);
    LocatePathTail(p);
    if Locate(filename).UnderInput? {
      EndsWithTrans(filename, p, Locate(filename).rel);
    }
  }

  lemma LocatePathKept(p: string)
    ensures LocatePath(p).Absolute? <==>
      StartsWith(p, "/") && !Contains(p, LibraryMessages) && !Contains(p, LibrarySms)
  {
    LibraryFolderEndNone(p, 0);
    if UserLibraryPath(p) {
      var k := IndexFrom(p, "/", 1).value;
      assert OccursAt(p, LibraryMessages, IndexFrom(p, LibraryMessages, k + 1).value);
    }
    if StartsWith(p, "/") {
      assert !StartsWith(p, HomeMessages) by { assert p[0] != HomeMessages[0]; }
    }
  }

  lemma LocatePathTail(p: string)
    ensures LocatePath(p).UnderInput? ==> EndsWith(p, LocatePath(p).rel)
  {
  }

  lemma EndsWithTrans(a: string, b: string, c: string)
    requires EndsWith(a, b) && EndsWith(b, c)
    ensures EndsWith(a, c)
  {
    assert a[|a| - |c|..] == a[|a| - |b|..][|b| - |c|..];
  }

  const UsersDir := "/Users/"

  /** The spellings of one attachment file, under the home folder's `~`,
      under a user's home folder, or as a `file://` URL of either, all name
      the same file relative to the Messages folder. */
  lemma SpellingsAgree(user: string, rel: string)
    requires forall i :: 0 <= i < |user| ==> IsAlnum(user[i])
    ensures Locate(HomeMessages + rel) == UnderInput(rel)
    ensures Locate(FileScheme + (HomeMessages + rel)) == UnderInput(rel)
    ensures Locate(UsersDir + user + LibraryMessages + rel) == UnderInput(rel)
    ensures Locate(FileScheme + (UsersDir + user + LibraryMessages + rel)) == UnderInput(rel)
  {
    HomeFolderFound(rel);
    UserFolderFound(user, rel);
    DropScheme(HomeMessages + rel);
    DropScheme(UsersDir + user + LibraryMessages + rel);
  }

  /** A `file://` URL names what its path names. */
  lemma DropScheme(p: string)
    requires p != [] && p[0] != 'f'
    ensures Locate(FileScheme + p) == Locate(p)
  {
    assert (FileScheme + p)[..|FileScheme|] == FileScheme;
    assert (FileScheme + p)[|FileScheme|..] == p;
    assert !StartsWith(p, FileScheme) by { assert p[0] != FileScheme[0]; }
  }

  lemma HomeFolderFound(rel: string)
    ensures Locate(HomeMessages + rel) == UnderInput(rel)
  {
    var p := HomeMessages + rel;
    assert !StartsWith(p, FileScheme) by { assert p[0] == '~'; }
    assert p[..|HomeMessages|] == HomeMessages;
    assert p[|HomeMessages|..] == rel;
  }

  lemma UserFolderFound(user: string, rel: string)
    requires forall i :: 0 <= i < |user| ==> IsAlnum(user[i])
    ensures Locate(UsersDir + user + LibraryMessages + rel) == UnderInput(rel)
  {
    var q := UsersDir + user;
    var p := q + LibraryMessages + rel;
    assert p == UsersDir + user + LibraryMessages + rel;
    assert !StartsWith(p, FileScheme) by { assert p[0] == '/'; }
    assert !StartsWith(p, HomeMessages) by { assert p[0] == '/'; }
    assert OccursAt(p, LibraryMessages, |q|) by { assert p[|q|..|q| + |LibraryMessages|] == LibraryMessages; }
    assert IndexFrom(p, "/", 1) == Some(6) by {
      assert OccursAt(p, "/", 6) by { assert p[6..7] == [p[6]]; }
      forall j: nat | 1 <= j < 6 ensures !OccursAt(p, "/", j) {
        assert p[j..j + 1] == [p[j]];
      }
    }
    assert UserLibraryPath(p);
    forall j: nat | j < |q| ensures !OccursAt(p, LibraryMessages, j) {
      NoEarlyFolder(user, rel, j);
    }
    assert IndexOf(p, LibraryMessages) == Some(|q|);
    assert p[|q| + |LibraryMessages|..] == rel;
  }

  /** No Messages library folder starts inside `/Users/<user>`. */
  lemma NoEarlyFolder(user: string, rel: string, j: nat)
    requires forall i :: 0 <= i < |user| ==> IsAlnum(user[i])
    requires j < |UsersDir| + |user|
    ensures !OccursAt(UsersDir + user + LibraryMessages + rel, LibraryMessages, j)
  {
    var p := UsersDir + user + LibraryMessages + rel;
    var n := |UsersDir| + |user|;
    assert p[n] == '/';
    if j == 0 {
      Mismatch(p, j, 1);
    } else if j < 6 || j > 6 {
      Mismatch(p, j, 0);
    } else if n < 14 {
      Mismatch(p, j, n - 6);
    } else if n == 14 {
      assert p[15] == 'L';
      Mismatch(p, j, 9);
    } else {
      assert p[14] == user[7];
      Mismatch(p, j, 8);
    }
  }

  lemma Mismatch(p: string, j: nat, k: nat)
    requires k < |LibraryMessages| && (j + k < |p| ==> p[j + k] != LibraryMessages[k])
    ensures !OccursAt(p, LibraryMessages, j)
  {
    if j + |LibraryMessages| <= |p| {
      assert p[j..j + |LibraryMessages|][k] == p[j + k];
    }
  }

  // ---------------------------------------------------------------- extensions and kinds

  /** The end of the run of `.` that starts at `i`. */
  function DotsEnd(c: string, i: nat): (e: nat)
    requires i <= |c|
    ensures i <= e <= |c| && (e == |c| || c[e] != '.')
    ensures forall k :: i <= k < e ==> c[k] == '.'
    decreases |c| - i
  {
    if i < |c| && c[i] == '.' then DotsEnd(c, i + 1) else i
  }

  /** The position of the last `.` at or after `i`. */
  function LastDot(c: string, i: nat): (d: Option<nat>)
    ensures d.Some? ==> i <= d.value < |c| && c[d.value] == '.' && forall k :: d.value < k < |c| ==> c[k] != '.'
    ensures d.None? ==> forall k :: i <= k < |c| ==> c[k] != '.'
    decreases |c|
  {
    if |c| <= i then None
    else if c[|c| - 1] == '.' then Some(|c| - 1)
    else
      var d := LastDot(c[..|c| - 1], i);
      assert forall k :: i <= k < |c| - 1 ==> c[..|c| - 1][k] == c[k];
      d
  }

  /** The extension of one path component: from its last `.` on, where
      leading dots do not count; "" without such a dot, "." when that dot
      ends the name. */
  function ComponentExt(c: string): (e: string)
    ensures e == [] || (e[0] == '.' && EndsWith(c, e) && '.' !in e[1..])
  {
    match LastDot(c, DotsEnd(c, 0))
    case None => []
    case Some(d) => c[d..]
  }

  /** `File.extname`: the extension of the last component of the path. */
  function Extname(path: string): (e: string)
    ensures e == [] || (e[0] == '.' && '.' !in e[1..])
  {
    ComponentExt(Basename(path))
  }

  /** A name with a dot inside its last component has the extension after it. */
  lemma ExtnameOf(dir: string, stem: string, ext: string)
    requires stem != [] && stem[0] != '.' && '/' !in stem && '/' !in ext && '.' !in ext
    ensures Extname(dir + "/" + stem + "." + ext) == "." + ext
  {
    var c := stem + "." + ext;
    assert dir + "/" + stem + "." + ext == dir + "/" + c;
    assert '/' !in c by { SlashFree(stem, "." + ext); }
    ExtnameOfComponent(dir, c);
    ComponentExtOf(stem, ext);
  }

  lemma SlashFree(a: string, b: string)
    requires '/' !in a && '/' !in b
    ensures '/' !in a + b
  {
  }

  lemma ComponentExtOf(stem: string, ext: string)
    requires stem != [] && stem[0] != '.' && '.' !in ext
    ensures ComponentExt(stem + "." + ext) == "." + ext
  {
    var c := stem + "." + ext;
    assert c[0] == stem[0];
    assert DotsEnd(c, 0) == 0;
    var n := |stem|;
    assert c[n] == '.';
    assert forall k :: n < k < |c| ==> c[k] == ext[k - n - 1];
    assert c[n..] == "." + ext;
  }

  /** A name that is only a dot file (one leading run of dots, no later
      dot) has no extension. */
  lemma DotFileHasNoExt(dir: string, dots: nat, name: string)
    requires dots > 0 && name != [] && name[0] != '.' && '.' !in name && '/' !in name
    ensures Extname(dir + "/" + seq(dots, _ => '.') + name) == []
  {
    var lead := seq(dots, _ => '.');
    assert forall k :: 0 <= k < |lead| ==> lead[k] == '.';
    DotLeadHasNoExt(dir, lead, name);
  }

  lemma DotLeadHasNoExt(dir: string, lead: string, name: string)
    requires forall k :: 0 <= k < |lead| ==> lead[k] == '.'
    requires name != [] && name[0] != '.' && '.' !in name && '/' !in name
    ensures Extname(dir + "/" + lead + name) == []
  {
    var c := lead + name;
    assert dir + "/" + lead + name == dir + "/" + c;
    assert '/' !in lead;
    assert '/' !in c by { SlashFree(lead, name); }
    ExtnameOfComponent(dir, c);
    ComponentExtOfDotFile(lead, name);
  }

  /** The extension of `dir/c` is that of its last component `c`. */
  lemma ExtnameOfComponent(dir: string, c: string)
    requires c != [] && '/' !in c
    ensures Extname(dir + "/" + c) == ComponentExt(c)
  {
    BasenameOf(dir, c);
  }

  lemma ComponentExtOfDotFile(lead: string, name: string)
    requires forall k :: 0 <= k < |lead| ==> lead[k] == '.'
    requires name != [] && name[0] != '.' && '.' !in name
    ensures ComponentExt(lead + name) == []
  {
    var c := lead + name;
    assert c[|lead|] == name[0];
    assert DotsEnd(c, 0) == |lead| by { DotsEndAt(c, 0, |lead|); }
    assert c[|lead|..] == name;
    assert forall k :: |lead| <= k < |c| ==> c[k] == name[k - |lead|];
  }

  lemma {:induction false} DotsEndAt(c: string, i: nat, j: nat)
    requires i <= j < |c| && c[j] != '.'
    requires forall k :: i <= k < j ==> c[k] == '.'
    ensures DotsEnd(c, i) == j
    decreases j - i
  {
    if i < j {
      DotsEndAt(c, i + 1, j);
    }
  }

  /** The MIME types `extension_for` knows an extension for. */
  const MimeExtensions: map<string, string> := map[
    "image/jpeg" := ".jpg", "image/jpg" := ".jpg", "image/png" := ".png", "image/gif" := ".gif",
    "image/heic" := ".heic", "image/heif" := ".heic", "image/webp" := ".webp",
    "video/quicktime" := ".mov", "video/mp4" := ".mp4",
    "audio/m4a" := ".m4a", "audio/mp4" := ".m4a", "audio/aac" := ".aac"]

  /** `extension_for`: the extension of the transfer name, else of the
      source path, else the one the lower-cased MIME type is known by,
      else "". */
  function ExtensionFor(transferName: string, sourcePath: string, mimeType: Option<string>): (e: string)
    ensures e == [] || e[0] == '.'
    ensures Extname(transferName) != [] ==> e == Extname(transferName)
    ensures Extname(transferName) == [] && Extname(sourcePath) != [] ==> e == Extname(sourcePath)
    ensures Extname(transferName) == [] && Extname(sourcePath) == [] ==>
      e == (if mimeType.Some? && Lower(mimeType.value) in MimeExtensions then MimeExtensions[Lower(mimeType.value)] else [])
  {
    var named := Extname(transferName);
    if named != [] then named
    else
      var onDisk := Extname(sourcePath);
      if onDisk != [] then onDisk
      else if mimeType.Some? && Lower(mimeType.value) in MimeExtensions then
        MimeExtensionsDotted(Lower(mimeType.value));
        MimeExtensions[Lower(mimeType.value)]
      else []
  }

  lemma MimeExtensionsDotted(m: string)
    requires m in MimeExtensions
    ensures MimeExtensions[m] != [] && MimeExtensions[m][0] == '.'
  {
    var e := MimeExtensions[m];
    assert e in [".jpg", ".png", ".gif", ".heic", ".webp", ".mov", ".mp4", ".m4a", ".aac"];
  }

  /** Every extension the MIME fallback gives is one kind inference
      recognises by name, so a copy named with it keeps its kind. */
  lemma FallbackExtensionsKnown()
    ensures forall m :: m in MimeExtensions ==> MimeExtensions[m] in ImageExts + VideoExts + AudioExts
  {
  }

  /** `/\.(jpe?g|png|gif|heic|heif|webp)\z/`, `/\.(mov|mp4|m4v|webm)\z/`, `/\.(m4a|aac|mp3|wav|aiff?)\z/` */
  predicate ImageName(n: string)
  {
    EndsWith(n, ".jpg") || EndsWith(n, ".jpeg") || EndsWith(n, ".png") || EndsWith(n, ".gif") ||
    EndsWith(n, ".heic") || EndsWith(n, ".heif") || EndsWith(n, ".webp")
  }

  predicate VideoName(n: string)
  {
    EndsWith(n, ".mov") || EndsWith(n, ".mp4") || EndsWith(n, ".m4v") || EndsWith(n, ".webm")
  }

  predicate AudioName(n: string)
  {
    EndsWith(n, ".m4a") || EndsWith(n, ".aac") || EndsWith(n, ".mp3") || EndsWith(n, ".wav") ||
    EndsWith(n, ".aif") || EndsWith(n, ".aiff")
  }

  /** `infer_attachment_kind`: by the lower-cased MIME type's prefix or the
      lower-cased transfer name's (else destination name's) suffix, image
      before video before audio, else `file`. */
  function InferAttachmentKind(mimeType: Option<string>, transferName: Option<string>, destName: Option<string>): (k: string)
    ensures k == "image" || k == "video" || k == "audio" || k == "file"
    ensures mimeType.Some? && StartsWith(Lower(mimeType.value), "image/") ==> k == "image"
  {
    var name := Lower(OrElse(transferName, OrElse(destName, [])));
    var mime := Lower(OrElse(mimeType, []));
    if StartsWith(mime, "image/") || ImageName(name) then "image"
    else if StartsWith(mime, "video/") || VideoName(name) then "video"
    else if StartsWith(mime, "audio/") || AudioName(name) then "audio"
    else "file"
  }

  /** The export's kind inference and the projection's `kind_for` agree
      on every MIME type and name. */
  lemma InferAgreesWithKindFor(mimeType: Option<string>, transferName: Option<string>, destName: Option<string>)
    ensures InferAttachmentKind(mimeType, transferName, destName) ==
      KindFor(mimeType, if transferName.Some? then transferName else destName)
  {
    var name := if transferName.Some? then transferName else destName;
    var n := Lower(OrElse(transferName, OrElse(destName, [])));
    var m := Lower(OrElse(mimeType, []));
    assert n == Lower(OrElse(name, ""));
    var img := StartsWith(m, "image/") || ImageName(n);
    var vid := StartsWith(m, "video/") || VideoName(n);
    var aud := StartsWith(m, "audio/") || AudioName(n);
    assert InferAttachmentKind(mimeType, transferName, destName) ==
      if img then "image" else if vid then "video" else if aud then "audio" else "file";
    ImageNameIff(n);
    VideoNameIff(n);
    AudioNameIff(n);
    assert img == (StartsWith(m, "image/") || EndsWithAny(n, ImageExts));
    assert vid == (StartsWith(m, "video/") || EndsWithAny(n, VideoExts));
    assert aud == (StartsWith(m, "audio/") || EndsWithAny(n, AudioExts));
  }

  lemma ImageNameIff(n: string)
    ensures ImageName(n) <==> EndsWithAny(n, ImageExts)
  {
    if EndsWithAny(n, ImageExts) {
      var i :| 0 <= i < |ImageExts| && EndsWith(n, ImageExts[i]);
      assert i < 7;
    }
    if ImageName(n) {
      if EndsWith(n, ".jpg") { assert EndsWith(n, ImageExts[0]); }
      else if EndsWith(n, ".jpeg") { assert EndsWith(n, ImageExts[1]); }
      else if EndsWith(n, ".png") { assert EndsWith(n, ImageExts[2]); }
      else if EndsWith(n, ".gif") { assert EndsWith(n, ImageExts[3]); }
      else if EndsWith(n, ".heic") { assert EndsWith(n, ImageExts[4]); }
      else if EndsWith(n, ".heif") { assert EndsWith(n, ImageExts[5]); }
      else { assert EndsWith(n, ImageExts[6]); }
    }
  }

  lemma VideoNameIff(n: string)
    ensures VideoName(n) <==> EndsWithAny(n, VideoExts)
  {
    if EndsWithAny(n, VideoExts) {
      var i :| 0 <= i < |VideoExts| && EndsWith(n, VideoExts[i]);
      assert i < 4;
    }
    if VideoName(n) {
      if EndsWith(n, ".mov") { assert EndsWith(n, VideoExts[0]); }
      else if EndsWith(n, ".mp4") { assert EndsWith(n, VideoExts[1]); }
      else if EndsWith(n, ".m4v") { assert EndsWith(n, VideoExts[2]); }
      else { assert EndsWith(n, VideoExts[3]); }
    }
  }

  lemma AudioNameIff(n: string)
    ensures AudioName(n) <==> EndsWithAny(n, AudioExts)
  {
    if EndsWithAny(n, AudioExts) {
      var i :| 0 <= i < |AudioExts| && EndsWith(n, AudioExts[i]);
      assert i < 6;
    }
    if AudioName(n) {
      if EndsWith(n, ".m4a") { assert EndsWith(n, AudioExts[0]); }
      else if EndsWith(n, ".aac") { assert EndsWith(n, AudioExts[1]); }
      else if EndsWith(n, ".mp3") { assert EndsWith(n, AudioExts[2]); }
      else if EndsWith(n, ".wav") { assert EndsWith(n, AudioExts[3]); }
      else if EndsWith(n, ".aif") { assert EndsWith(n, AudioExts[4]); }
      else { assert EndsWith(n, AudioExts[5]); }
    }
  }
}
