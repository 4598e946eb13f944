// The post-query body of `Messages.fetch`: the rows of one chat, in date
// order, are annotated in four passes over the same array. Tapback rows
// become per-target, per-emoji reaction records and are hidden; author
// handles are looked up; text is decoded and cleaned; legacy reaction texts
// (`Loved "…"`) become reactions on the earlier message they quote.

module Messages {
  import opened Str
  import Utf8
  import MessageDecoder
  import MessageText

  datatype Reactor = Me | Them

  /** One badge on a message: an emoji, how often it was given and whether
      anyone but the owner of the database gave it. */
  datatype Reaction = Reaction(emoji: string, count: nat, reactor: Reactor)

  /** One tapback aimed at a message. */
  datatype Tapback = Tapback(emoji: string, fromMe: bool)

  /** A message row as the query returns it, with the keys `fetch` adds:
      `skipRender`, `reactions`, `authorHandle` and `sentAtLocal`. A NULL
      `associated_message_type` is 0, which is what `to_i` makes of it;
      so are a NULL `item_type` and `is_system_message`. `messageId`,
      `itemType`, `isSystemMessage` and `balloonBundleId` pass through
      `fetch` unchanged and are read by the projection. */
  datatype Row = Row(
    messageId: int,
    itemType: int,
    isSystemMessage: int,
    balloonBundleId: Option<string>,
    isFromMe: int,
    handleId: Option<int>,
    dateRaw: Option<int>,
    guid: Option<string>,
    text: Option<string>,
    attributedBody: Option<seq<Utf8.byte>>,
    assocGuid: Option<string>,
    assocType: int,
    assocEmoji: Option<string>,
    skipRender: bool,
    reactions: Option<seq<Reaction>>,
    authorHandle: Option<string>,
    sentAtLocal: Option<string>)

  /** The text functions `fetch` calls, as values, so that the passes can be
      stated once for any of them; `Standard` gives the ones of this model. */
  datatype Helpers = Helpers(
    decode: seq<Utf8.byte> -> Option<string>,
    clean: Option<string> -> Option<string>,
    normalize: Option<string> -> Option<string>,
    parse: Option<string> -> Option<(string, string)>,
    clock: Option<int> -> Option<string>)

  /** `decode_attributed_body`, `clean_text`, `normalize_text`,
      `parse_reaction_text` and `convert_apple_time`; `format` is the local
      clock, `plist` the property-list parser and `punct` the punctuation
      class of the decoder. */
  function Standard(format: int -> string, plist: seq<Utf8.byte> -> Option<MessageDecoder.Plist>,
                    punct: char -> bool): Helpers
  {
    Helpers(
      b => MessageDecoder.DecodeAttributedBody(Some(b), plist, punct),
      MessageText.CleanText,
      MessageText.NormalizeText,
      MessageText.ParseReactionText,
      t => MessageText.ConvertAppleTime(t, format))
  }

  /** `x.to_s.empty?` */
  predicate Blank(x: Option<string>) { x.None? || x.value == [] }

  // ---------------------------------------------------------------- pass 1: tapbacks

  /** A tapback row: a non-empty associated GUID and a non-zero type. */
  predicate IsTapback(r: Row) { !Blank(r.assocGuid) && r.assocType != 0 }

  /** The explicit emoji when there is one, else the emoji of the type. */
  function TapbackEmojiOf(r: Row): (e: Option<string>)
    ensures !Blank(r.assocEmoji) ==> e == r.assocEmoji
    ensures Blank(r.assocEmoji) ==> (e.Some? <==> 2000 <= r.assocType <= 2005)
  {
    if !Blank(r.assocEmoji) then r.assocEmoji else MessageText.TapbackEmoji(r.assocType)
  }

  /** A tapback whose emoji resolves to a non-empty string; the others are
      skipped and stay visible. */
  predicate Recorded(r: Row) { IsTapback(r) && !Blank(TapbackEmojiOf(r)) }

  /** `p:<digit>/` at a line start `i`. */
  predicate PartPrefixAt(g: string, i: nat)
  {
    LineStart(g, i) && i + 4 <= |g| && g[i] == 'p' && g[i + 1] == ':' && IsDigit(g[i + 2]) && g[i + 3] == '/'
  }

  /** The leftmost `PartPrefixAt` from `i` on. */
  function FirstPartPrefix(g: string, i: nat): (r: Option<nat>)
    requires i <= |g|
    ensures r.Some? ==> i <= r.value && PartPrefixAt(g, r.value)
    ensures r.Some? ==> forall k :: i <= k < r.value ==> !PartPrefixAt(g, k)
    ensures r.None? ==> forall k :: i <= k <= |g| ==> !PartPrefixAt(g, k)
    decreases |g| - i
  {
    if PartPrefixAt(g, i) then Some(i)
    else if i == |g| then None
    else FirstPartPrefix(g, i + 1)
  }

  /** `sub(/^p:\d\//, '')`: the first part prefix removed. */
  function TargetGuid(g: string): (t: string)
    ensures |t| == |g| || |t| == |g| - 4
  {
    match FirstPartPrefix(g, 0)
    case None => g
    case Some(i) => g[..i] + g[i + 4..]
  }

  lemma TargetGuidOfPart(d: char, rest: string)
    requires IsDigit(d)
    ensures TargetGuid("p:" + [d] + "/" + rest) == rest
  {
    var g := "p:" + [d] + "/" + rest;
    assert PartPrefixAt(g, 0);
    assert g[4..] == rest;
  }

  lemma TargetGuidPlain(g: string)
    requires forall k :: 0 <= k <= |g| ==> !PartPrefixAt(g, k)
    ensures TargetGuid(g) == g
  {}

  /** The GUID a tapback is aimed at. */
  function Target(r: Row): (t: string)
    requires IsTapback(r)
    ensures |t| == |r.assocGuid.value| || |t| + 4 == |r.assocGuid.value|
  {
    TargetGuid(r.assocGuid.value)
  }

  function EventOf(r: Row): (t: Tapback)
    requires Recorded(r)
    ensures t.emoji != [] && (t.fromMe <==> r.isFromMe == 1)
  {
    Tapback(TapbackEmojiOf(r).value, r.isFromMe == 1)
  }

  function Lookup<V>(m: map<string, seq<V>>, k: string): seq<V>
  {
    if k in m then m[k] else []
  }

  /** `reactions_by_guid` after the rows of `s`, in order. */
  function TapbackMap(s: seq<Row>): (m: map<string, seq<Tapback>>)
    ensures forall k :: k in m ==> m[k] != []
  {
    if s == [] then map[]
    else
      var m := TapbackMap(s[..|s| - 1]);
      var r := s[|s| - 1];
      if Recorded(r) then m[Target(r) := Lookup(m, Target(r)) + [EventOf(r)]] else m
  }

  /** The tapbacks aimed at `g`, in row order. */
  function Events(s: seq<Row>, g: string): seq<Tapback>
  {
    if s == [] then []
    else (if Recorded(s[0]) && Target(s[0]) == g then [EventOf(s[0])] else []) + Events(s[1..], g)
  }

  lemma {:induction false} EventsSnoc(s: seq<Row>, r: Row, g: string)
    ensures Events(s + [r], g) == Events(s, g) + (if Recorded(r) && Target(r) == g then [EventOf(r)] else [])
    decreases |s|
  {
    if s == [] {
      assert [r][1..] == [];
    } else {
      assert (s + [r])[1..] == s[1..] + [r];
      EventsSnoc(s[1..], r, g);
    }
  }

  /** The map holds, for each GUID, exactly the tapbacks aimed at it, in
      row order, and has a key only for GUIDs that were aimed at. */
  lemma {:induction false} TapbackMapIsEvents(s: seq<Row>, g: string)
    ensures Lookup(TapbackMap(s), g) == Events(s, g)
    ensures g in TapbackMap(s) <==> Events(s, g) != []
    decreases |s|
  {
    if s != [] {
      var p := s[..|s| - 1];
      TapbackMapIsEvents(p, g);
      assert s == p + [s[|s| - 1]];
      EventsSnoc(p, s[|s| - 1], g);
    }
  }

  /** What the first pass does to one row: a recorded tapback is hidden. */
  function Mark(r: Row): (m: Row)
    ensures m.skipRender == (r.skipRender || Recorded(r))
    ensures m == r.(skipRender := m.skipRender)
  {
    if Recorded(r) then r.(skipRender := true) else r
  }

  /** The first pass: records every tapback whose emoji resolves and hides
      its row. */
  method CollectTapbacks(rows: array<Row>) returns (byGuid: map<string, seq<Tapback>>)
    modifies rows
    ensures byGuid == TapbackMap(old(rows[..]))
    ensures forall k :: 0 <= k < rows.Length ==> rows[k] == Mark(old(rows[k]))
  {
    ghost var s := rows[..];
    byGuid := map[];
    for i := 0 to rows.Length
      invariant byGuid == TapbackMap(s[..i])
      invariant forall k :: 0 <= k < i ==> rows[k] == Mark(s[k])
      invariant forall k :: i <= k < rows.Length ==> rows[k] == s[k]
    {
      assert s[..i + 1][..i] == s[..i];
      var r := rows[i];
      if IsTapback(r) {
        var g := TargetGuid(r.assocGuid.value);
        var e := TapbackEmojiOf(r);
        if !Blank(e) {
          byGuid := byGuid[g := Lookup(byGuid, g) + [Tapback(e.value, r.isFromMe == 1)]];
          rows[i] := r.(skipRender := true);
        }
      }
    }
    assert s[..rows.Length] == s;
  }

  // ---------------------------------------------------------------- pass 2: reactions, handles, text index

  /** The first reaction with emoji `e`, from position `i` on. */
  function FindEmoji(rs: seq<Reaction>, e: string, i: nat): (r: Option<nat>)
    requires i <= |rs|
    ensures r.Some? ==> i <= r.value < |rs| && rs[r.value].emoji == e
    ensures r.Some? ==> forall k :: i <= k < r.value ==> rs[k].emoji != e
    ensures r.None? ==> forall k :: i <= k < |rs| ==> rs[k].emoji != e
    decreases |rs| - i
  {
    if i == |rs| then None
    else if rs[i].emoji == e then Some(i)
    else FindEmoji(rs, e, i + 1)
  }

  /** The reaction for emoji `e`, if there is one. */
  function EntryOf(rs: seq<Reaction>, e: string): (r: Option<Reaction>)
    ensures r.Some? ==> r.value in rs && r.value.emoji == e
    ensures r.None? <==> forall k :: 0 <= k < |rs| ==> rs[k].emoji != e
  {
    match FindEmoji(rs, e, 0)
    case None => None
    case Some(k) => Some(rs[k])
  }

  predicate DistinctEmojis(rs: seq<Reaction>)
  {
    forall i, j :: 0 <= i < j < |rs| ==> rs[i].emoji != rs[j].emoji
  }

  /** The sum of the counts. */
  function Total(rs: seq<Reaction>): nat
  {
    if rs == [] then 0 else rs[0].count + Total(rs[1..])
  }

  /** One tapback added to the groups built so far: a known emoji is
      counted once more and becomes `Them` when this tapback is not mine; a
      new emoji opens a group of one at the end. */
  function Tally(rs: seq<Reaction>, t: Tapback): (r: seq<Reaction>)
    ensures |r| == |rs| || |r| == |rs| + 1
    ensures forall i :: 0 <= i < |rs| ==> r[i].emoji == rs[i].emoji
    ensures |r| == |rs| + 1 ==> r[|rs|] == Reaction(t.emoji, 1, if t.fromMe then Me else Them)
  {
    match FindEmoji(rs, t.emoji, 0)
    case Some(k) => rs[k := Reaction(t.emoji, rs[k].count + 1, if t.fromMe then rs[k].reactor else Them)]
    case None => rs + [Reaction(t.emoji, 1, if t.fromMe then Me else Them)]
  }

  /** `group_by { emoji }.map { … }` over the tapbacks of one message: one
      reaction per distinct emoji, in order of first appearance. */
  function Group(evs: seq<Tapback>): (r: seq<Reaction>)
    ensures |r| <= |evs|
    ensures evs != [] ==> r != []
  {
    if evs == [] then [] else Tally(Group(evs[..|evs| - 1]), evs[|evs| - 1])
  }

  /** How many tapbacks carry emoji `e`. */
  function Count(evs: seq<Tapback>, e: string): nat
  {
    if evs == [] then 0 else (if evs[0].emoji == e then 1 else 0) + Count(evs[1..], e)
  }

  /** Some tapback with emoji `e` is not mine. */
  predicate AnyThem(evs: seq<Tapback>, e: string)
  {
    exists i :: 0 <= i < |evs| && evs[i].emoji == e && !evs[i].fromMe
  }

  lemma {:induction false} CountSnoc(evs: seq<Tapback>, t: Tapback, e: string)
    ensures Count(evs + [t], e) == Count(evs, e) + (if t.emoji == e then 1 else 0)
    decreases |evs|
  {
    if evs == [] {
      assert [t][1..] == [];
    } else {
      assert (evs + [t])[1..] == evs[1..] + [t];
      CountSnoc(evs[1..], t, e);
    }
  }

  lemma AnyThemSnoc(evs: seq<Tapback>, t: Tapback, e: string)
    ensures AnyThem(evs + [t], e) <==> AnyThem(evs, e) || (t.emoji == e && !t.fromMe)
  {
    var s := evs + [t];
    if AnyThem(s, e) {
      var i :| 0 <= i < |s| && s[i].emoji == e && !s[i].fromMe;
      if i < |evs| { assert evs[i] == s[i]; }
    }
    if AnyThem(evs, e) {
      var i :| 0 <= i < |evs| && evs[i].emoji == e && !evs[i].fromMe;
      assert s[i] == evs[i];
    }
    if t.emoji == e && !t.fromMe {
      assert s[|evs|] == t;
    }
  }

  /** Among distinct emojis, the entry of `e` is the one that carries it. */
  lemma EntryAt(rs: seq<Reaction>, e: string, k: nat)
    requires DistinctEmojis(rs) && k < |rs| && rs[k].emoji == e
    ensures EntryOf(rs, e) == Some(rs[k])
  {}

  /** Tallying keeps the emojis distinct. */
  lemma TallyDistinct(rs: seq<Reaction>, t: Tapback)
    requires DistinctEmojis(rs)
    ensures DistinctEmojis(Tally(rs, t))
  {
    var r := Tally(rs, t);
    match FindEmoji(rs, t.emoji, 0)
    case Some(k) =>
      assert forall j :: 0 <= j < |r| ==> r[j].emoji == rs[j].emoji;
    case None =>
      assert forall j :: 0 <= j < |rs| ==> r[j] == rs[j];
  }

  /** A tapback from someone else with emoji `e` is counted. */
  lemma {:induction false} AnyThemCounted(evs: seq<Tapback>, e: string)
    requires AnyThem(evs, e)
    ensures Count(evs, e) > 0
    decreases |evs|
  {
    if evs[0].emoji != e {
      var i :| 0 <= i < |evs| && evs[i].emoji == e && !evs[i].fromMe;
      assert evs[1..][i - 1] == evs[i];
      AnyThemCounted(evs[1..], e);
    }
  }

  /** How one more tapback changes the entry of each emoji. */
  lemma TallyEntry(rs: seq<Reaction>, t: Tapback, e: string)
    requires DistinctEmojis(rs)
    ensures e != t.emoji ==> EntryOf(Tally(rs, t), e) == EntryOf(rs, e)
    ensures e == t.emoji ==> (EntryOf(Tally(rs, t), e) ==
      match EntryOf(rs, e)
      case None => Some(Reaction(e, 1, if t.fromMe then Me else Them))
      case Some(x) => Some(Reaction(e, x.count + 1, if t.fromMe then x.reactor else Them)))
  {
    var r := Tally(rs, t);
    TallyDistinct(rs, t);
    var k := if FindEmoji(rs, t.emoji, 0).Some? then FindEmoji(rs, t.emoji, 0).value else |rs|;
    assert k < |r| && r[k].emoji == t.emoji;
    assert forall j :: 0 <= j < |rs| && j != k ==> r[j] == rs[j];
    if e == t.emoji {
      EntryAt(r, e, k);
      if k < |rs| {
        EntryAt(rs, e, k);
      }
    } else {
      match FindEmoji(rs, e, 0)
      case None =>
        assert forall j :: 0 <= j < |r| ==> r[j].emoji != e;
      case Some(j) =>
        EntryAt(r, e, j);
    }
  }

  /** Each emoji's group counts exactly its tapbacks and is `Them` exactly
      when one of them is not mine; an emoji without tapbacks has no group;
      no emoji has two groups. */
  lemma {:induction false} GroupEntry(evs: seq<Tapback>, e: string)
    ensures DistinctEmojis(Group(evs))
    ensures EntryOf(Group(evs), e) ==
      if Count(evs, e) == 0 then None else Some(Reaction(e, Count(evs, e), if AnyThem(evs, e) then Them else Me))
    decreases |evs|
  {
    if evs != [] {
      var p := evs[..|evs| - 1];
      var t := evs[|evs| - 1];
      assert evs == p + [t];
      GroupEntry(p, e);
      TallyDistinct(Group(p), t);
      TallyEntry(Group(p), t, e);
      CountSnoc(p, t, e);
      AnyThemSnoc(p, t, e);
      assert Group(evs) == Tally(Group(p), t);
      assert Count(evs, e) == Count(p, e) + (if t.emoji == e then 1 else 0);
      assert AnyThem(evs, e) <==> AnyThem(p, e) || (t.emoji == e && !t.fromMe);
      if e == t.emoji {
        if Count(p, e) == 0 {
          assert EntryOf(Group(p), e) == None;
          if AnyThem(p, e) {
            AnyThemCounted(p, e);
          }
          assert EntryOf(Group(evs), e) == Some(Reaction(e, 1, if t.fromMe then Me else Them));
        } else {
          var x := EntryOf(Group(p), e).value;
          assert x == Reaction(e, Count(p, e), if AnyThem(p, e) then Them else Me);
          assert EntryOf(Group(evs), e) == Some(Reaction(e, x.count + 1, if t.fromMe then x.reactor else Them));
        }
      }
    }
  }

  lemma {:induction false} TotalUpdate(rs: seq<Reaction>, k: nat, x: Reaction)
    requires k < |rs|
    ensures Total(rs[k := x]) + rs[k].count == Total(rs) + x.count
    decreases |rs|
  {
    if k > 0 {
      assert rs[k := x][1..] == rs[1..][k - 1 := x];
      TotalUpdate(rs[1..], k - 1, x);
    } else {
      assert rs[k := x][1..] == rs[1..];
    }
  }

  lemma {:induction false} TotalAppend(rs: seq<Reaction>, x: Reaction)
    ensures Total(rs + [x]) == Total(rs) + x.count
    decreases |rs|
  {
    if rs == [] {
      assert [x][1..] == [];
    } else {
      assert (rs + [x])[1..] == rs[1..] + [x];
      TotalAppend(rs[1..], x);
    }
  }

  /** The counts of the groups add up to the number of tapbacks. */
  lemma {:induction false} GroupTotal(evs: seq<Tapback>)
    ensures Total(Group(evs)) == |evs|
    decreases |evs|
  {
    if evs != [] {
      var p := evs[..|evs| - 1];
      var t := evs[|evs| - 1];
      GroupTotal(p);
      var g := Group(p);
      match FindEmoji(g, t.emoji, 0)
      case Some(k) => TotalUpdate(g, k, Reaction(t.emoji, g[k].count + 1, if t.fromMe then g[k].reactor else Them));
      case None => TotalAppend(g, Reaction(t.emoji, 1, if t.fromMe then Me else Them));
    }
  }

  /** What the second pass does to one row: the author handle when the
      handle table has the row's handle, and the grouped tapbacks when the
      row's GUID was aimed at. Nothing else changes. */
  function Annotate(r: Row, handles: map<int, Option<string>>, byGuid: map<string, seq<Tapback>>): (a: Row)
    ensures a == r.(authorHandle := a.authorHandle, reactions := a.reactions)
    ensures r.handleId.None? || r.handleId.value !in handles ==> a.authorHandle == r.authorHandle
    ensures r.guid.None? || r.guid.value !in byGuid ==> a.reactions == r.reactions
  {
    var r1 := if r.handleId.Some? && r.handleId.value in handles then r.(authorHandle := handles[r.handleId.value]) else r;
    if r.guid.Some? && r.guid.value in byGuid then r1.(reactions := Some(Group(byGuid[r.guid.value]))) else r1
  }

  /** The key a row is indexed under: its normalised raw text, when that
      is not empty. */
  function IndexKey(r: Row, h: Helpers): (k: Option<string>)
    ensures k.Some? ==> k.value != []
  {
    var n := h.normalize(r.text);
    if n.Some? && n.value != [] then n else None
  }

  /** `text_index` after the rows of `s`: row positions by key, in row order. */
  function TextIndex(s: seq<Row>, h: Helpers): (m: map<string, seq<nat>>)
    ensures forall k :: k in m ==> k != [] && m[k] != []
  {
    if s == [] then map[]
    else
      var m := TextIndex(s[..|s| - 1], h);
      var k := IndexKey(s[|s| - 1], h);
      if k.Some? then m[k.value := Lookup(m, k.value) + [|s| - 1]] else m
  }

  /** Every position in the index is a row. */
  predicate IndexBelow(index: map<string, seq<nat>>, n: nat)
  {
    forall k, j :: k in index && 0 <= j < |index[k]| ==> index[k][j] < n
  }

  /** The index lists, for each key, exactly the rows with that key, in
      increasing order, so the first candidate is the earliest row. */
  lemma {:induction false} TextIndexSpec(s: seq<Row>, h: Helpers, key: string)
    ensures IndexBelow(TextIndex(s, h), |s|)
    ensures forall i: nat :: i in Lookup(TextIndex(s, h), key) <==> i < |s| && IndexKey(s[i], h) == Some(key)
    ensures var c := Lookup(TextIndex(s, h), key); forall a, b :: 0 <= a < b < |c| ==> c[a] < c[b]
    ensures key in TextIndex(s, h) ==> TextIndex(s, h)[key] != []
    decreases |s|
  {
    if s != [] {
      var p := s[..|s| - 1];
      TextIndexSpec(p, h, key);
      var k := IndexKey(s[|s| - 1], h);
      if k.Some? {
        TextIndexSpec(p, h, k.value);
      }
      assert forall i :: 0 <= i < |p| ==> s[i] == p[i];
    }
  }

  /** The second pass: author handles, grouped tapbacks and the text index
      of the raw, not yet decoded or cleaned, text. */
  method AnnotateRows(rows: array<Row>, handles: map<int, Option<string>>, byGuid: map<string, seq<Tapback>>, h: Helpers)
    returns (index: map<string, seq<nat>>)
    modifies rows
    ensures index == TextIndex(old(rows[..]), h)
    ensures forall k :: 0 <= k < rows.Length ==> rows[k] == Annotate(old(rows[k]), handles, byGuid)
  {
    ghost var s := rows[..];
    index := map[];
    for i := 0 to rows.Length
      invariant index == TextIndex(s[..i], h)
      invariant forall k :: 0 <= k < i ==> rows[k] == Annotate(s[k], handles, byGuid)
      invariant forall k :: i <= k < rows.Length ==> rows[k] == s[k]
    {
      assert s[..i + 1][..i] == s[..i];
      var msg := rows[i];
      var norm := h.normalize(msg.text);
      if msg.handleId.Some? && msg.handleId.value in handles {
        msg := msg.(authorHandle := handles[msg.handleId.value]);
      }
      if msg.guid.Some? && msg.guid.value in byGuid {
        msg := msg.(reactions := Some(Group(byGuid[msg.guid.value])));
      }
      rows[i] := msg;
      if norm.Some? && norm.value != [] {
        index := index[norm.value := Lookup(index, norm.value) + [i]];
      }
    }
    assert s[..rows.Length] == s;
  }

  // ---------------------------------------------------------------- pass 3: time and text

  /** What the third pass does to one row: the local time, then the
      decoded blob when there is no text, then the cleaned text. */
  function Render(r: Row, h: Helpers): (d: Row)
    ensures d == r.(sentAtLocal := d.sentAtLocal, text := d.text)
    ensures d.sentAtLocal == h.clock(r.dateRaw)
  {
    var t := if r.text.None? && r.attributedBody.Some? then h.decode(r.attributedBody.value) else r.text;
    r.(sentAtLocal := h.clock(r.dateRaw), text := if t.Some? then h.clean(t) else None)
  }

  /** With this model's text functions a rendered text is never empty, has
      no edge whitespace and no control characters, and a row keeps its
      raw text, cleaned, whenever it had one. */
  lemma RenderStandard(r: Row, format: int -> string, plist: seq<Utf8.byte> -> Option<MessageDecoder.Plist>,
                       punct: char -> bool)
    ensures var d := Render(r, Standard(format, plist, punct));
      (r.text.Some? ==> d.text == MessageText.CleanText(r.text)) &&
      (r.text.None? && r.attributedBody.None? ==> d.text.None?) &&
      (d.text.Some? ==> (d.text.value != [] && !IsStripChar(d.text.value[0]) &&
        forall i :: 0 <= i < |d.text.value| ==> !MessageDecoder.IsControl(d.text.value[i])))
  {}

  method RenderRows(rows: array<Row>, h: Helpers)
    modifies rows
    ensures forall k :: 0 <= k < rows.Length ==> rows[k] == Render(old(rows[k]), h)
  {
    for i := 0 to rows.Length
      invariant forall k :: 0 <= k < i ==> rows[k] == Render(old(rows[k]), h)
      invariant forall k :: i <= k < rows.Length ==> rows[k] == old(rows[k])
    {
      var msg := rows[i];
      msg := msg.(sentAtLocal := h.clock(msg.dateRaw));
      if msg.text.None? && msg.attributedBody.Some? {
        msg := msg.(text := h.decode(msg.attributedBody.value));
      }
      if msg.text.Some? {
        msg := msg.(text := h.clean(msg.text));
      }
      rows[i] := msg;
    }
  }

  // ---------------------------------------------------------------- pass 4: reaction texts

  /** `date_raw.to_f`, a missing date counting as 0. */
  function Date(r: Row): int { OrElse(r.dateRaw, 0) }

  predicate Eligible(s: seq<Row>, cands: seq<nat>, d: int, j: nat)
    requires forall c :: 0 <= c < |cands| ==> cands[c] < |s|
    requires j < |cands|
  {
    Date(s[cands[j]]) <= d
  }

  /** `select { date <= d }.max_by { date }`: the position of the first
      candidate with the latest date not after `d`. */
  function LatestNotAfter(s: seq<Row>, cands: seq<nat>, d: int): (m: Option<nat>)
    requires forall c :: 0 <= c < |cands| ==> cands[c] < |s|
    ensures m.Some? ==> m.value < |cands| && Eligible(s, cands, d, m.value)
    ensures m.Some? ==> forall j :: 0 <= j < |cands| && Eligible(s, cands, d, j) ==>
      Date(s[cands[j]]) <= Date(s[cands[m.value]])
    ensures m.Some? ==> forall j :: 0 <= j < m.value && Eligible(s, cands, d, j) ==>
      Date(s[cands[j]]) < Date(s[cands[m.value]])
    ensures m.None? <==> forall j :: 0 <= j < |cands| ==> !Eligible(s, cands, d, j)
  {
    if cands == [] then None
    else
      var n := |cands| - 1;
      var rest := LatestNotAfter(s, cands[..n], d);
      assert forall j :: 0 <= j < n ==> (Eligible(s, cands[..n], d, j) <==> Eligible(s, cands, d, j));
      if Eligible(s, cands, d, n) && (rest.None? || Date(s[cands[n]]) > Date(s[cands[rest.value]])) then Some(n)
      else rest
  }

  /** The target among the candidates: the latest one not after `d`, else
      the first. */
  function PickTarget(s: seq<Row>, cands: seq<nat>, d: int): (t: nat)
    requires cands != [] && forall c :: 0 <= c < |cands| ==> cands[c] < |s|
    ensures t in cands
    ensures (forall j :: 0 <= j < |cands| ==> !Eligible(s, cands, d, j)) ==> t == cands[0]
    ensures (exists j :: 0 <= j < |cands| && Eligible(s, cands, d, j)) ==> Date(s[t]) <= d
  {
    match LatestNotAfter(s, cands, d)
    case Some(m) => cands[m]
    case None => cands[0]
  }

  /** The reaction text at `i` as an emoji and the candidate rows whose
      index key is its normalised quote, when `i` is a reaction text. */
  function Quote(s: seq<Row>, index: map<string, seq<nat>>, h: Helpers, i: nat): (q: Option<(string, seq<nat>)>)
    requires i < |s|
    ensures q.Some? ==> s[i].text.Some? && Blank(s[i].assocGuid) && h.parse(s[i].text).Some?
    ensures q.Some? ==> q.value.0 == h.parse(s[i].text).value.0 && q.value.1 != []
    ensures q.Some? ==> var norm := h.normalize(Some(h.parse(s[i].text).value.1));
      norm.Some? && q.value.1 == Lookup(index, norm.value)
  {
    var m := s[i];
    if m.text.None? || !Blank(m.assocGuid) then None
    else
      match h.parse(m.text)
      case None => None
      case Some(p) =>
        var norm := h.normalize(Some(p.1));
        var cands := if norm.Some? then Lookup(index, norm.value) else [];
        if cands == [] then None else Some((p.0, cands))
  }

  /** The row a reaction text at `i` lands on. */
  function TextualTarget(s: seq<Row>, index: map<string, seq<nat>>, h: Helpers, i: nat): (t: Option<nat>)
    requires i < |s| && IndexBelow(index, |s|)
    ensures t.Some? <==> Quote(s, index, h, i).Some?
    ensures t.Some? ==> t.value < |s| && t.value in Quote(s, index, h, i).value.1
  {
    match Quote(s, index, h, i)
    case None => None
    case Some(q) => Some(PickTarget(s, q.1, Date(s[i])))
  }

  function OrEmpty(rs: Option<seq<Reaction>>): seq<Reaction>
  {
    if rs.Some? then rs.value else []
  }

  /** One textual reaction added to a message's reactions: a known emoji
      counts once more and keeps its reactor; a new one is appended with a
      count of one. */
  function AddTextual(rs: seq<Reaction>, e: string, fromMe: bool): (r: seq<Reaction>)
    ensures |r| == |rs| || |r| == |rs| + 1
    ensures forall i :: 0 <= i < |rs| ==> r[i].emoji == rs[i].emoji && r[i].reactor == rs[i].reactor
    ensures |r| == |rs| + 1 ==> r[|rs|] == Reaction(e, 1, if fromMe then Me else Them)
  {
    match FindEmoji(rs, e, 0)
    case Some(k) => rs[k := rs[k].(count := rs[k].count + 1)]
    case None => rs + [Reaction(e, 1, if fromMe then Me else Them)]
  }

  /** Adding a textual reaction keeps the emojis distinct and adds one to
      the total. */
  lemma AddTextualTotal(rs: seq<Reaction>, e: string, fromMe: bool)
    requires DistinctEmojis(rs)
    ensures DistinctEmojis(AddTextual(rs, e, fromMe))
    ensures Total(AddTextual(rs, e, fromMe)) == Total(rs) + 1
  {
    var r := AddTextual(rs, e, fromMe);
    match FindEmoji(rs, e, 0)
    case Some(k) =>
      TotalUpdate(rs, k, rs[k].(count := rs[k].count + 1));
      assert forall j :: 0 <= j < |r| ==> r[j].emoji == rs[j].emoji;
    case None =>
      TotalAppend(rs, Reaction(e, 1, if fromMe then Me else Them));
      assert forall j :: 0 <= j < |rs| ==> r[j] == rs[j];
  }

  /** What adding a textual reaction does to each emoji's entry: a merge
      keeps the reactor. */
  lemma AddTextualEntry(rs: seq<Reaction>, e: string, fromMe: bool, x: string)
    requires DistinctEmojis(rs)
    ensures x != e ==> EntryOf(AddTextual(rs, e, fromMe), x) == EntryOf(rs, x)
    ensures x == e ==> (EntryOf(AddTextual(rs, e, fromMe), x) ==
      match EntryOf(rs, e)
      case None => Some(Reaction(e, 1, if fromMe then Me else Them))
      case Some(y) => Some(y.(count := y.count + 1)))
  {
    var r := AddTextual(rs, e, fromMe);
    AddTextualTotal(rs, e, fromMe);
    var k := if FindEmoji(rs, e, 0).Some? then FindEmoji(rs, e, 0).value else |rs|;
    assert k < |r| && r[k].emoji == e;
    assert forall j :: 0 <= j < |rs| && j != k ==> r[j] == rs[j];
    if x == e {
      EntryAt(r, e, k);
      if k < |rs| {
        EntryAt(rs, e, k);
      }
    } else {
      match FindEmoji(rs, x, 0)
      case None =>
        assert forall j :: 0 <= j < |r| ==> r[j].emoji != x;
      case Some(j) =>
        EntryAt(r, x, j);
    }
  }

  /** What the fourth pass does at row `i`: a reaction text that quotes an
      indexed text adds its emoji to the target and is hidden. */
  function TextualStep(s: seq<Row>, index: map<string, seq<nat>>, h: Helpers, i: nat): (u: seq<Row>)
    requires i < |s| && IndexBelow(index, |s|)
    ensures |u| == |s|
  {
    match TextualTarget(s, index, h, i)
    case None => s
    case Some(t) =>
      var e := Quote(s, index, h, i).value.0;
      var s1 := s[t := s[t].(reactions := Some(AddTextual(OrEmpty(s[t].reactions), e, s[i].isFromMe == 1)))];
      s1[i := s1[i].(skipRender := true)]
  }

  /** The fourth pass over the first `n` rows. */
  function Textual(s: seq<Row>, index: map<string, seq<nat>>, h: Helpers, n: nat): (u: seq<Row>)
    requires n <= |s| && IndexBelow(index, |s|)
    ensures |u| == |s|
  {
    if n == 0 then s else TextualStep(Textual(s, index, h, n - 1), index, h, n - 1)
  }

  /** The fourth pass: every reaction text becomes a badge on its target. */
  method TextualReactions(rows: array<Row>, index: map<string, seq<nat>>, h: Helpers)
    requires IndexBelow(index, rows.Length)
    modifies rows
    ensures rows[..] == Textual(old(rows[..]), index, h, rows.Length)
  {
    ghost var s := rows[..];
    for i := 0 to rows.Length
      invariant rows[..] == Textual(s, index, h, i)
    {
      ghost var before := rows[..];
      var msg := rows[i];
      if msg.text.Some? && Blank(msg.assocGuid) {
        var parsed := h.parse(msg.text);
        if parsed.Some? {
          var emoji := parsed.value.0;
          var norm := h.normalize(Some(parsed.value.1));
          var cands := if norm.Some? then Lookup(index, norm.value) else [];
          if cands != [] {
            assert forall c :: 0 <= c < |cands| ==> cands[c] < rows.Length;
            var t := PickTarget(rows[..], cands, Date(msg));
            var target := rows[t];
            rows[t] := target.(reactions := Some(AddTextual(OrEmpty(target.reactions), emoji, msg.isFromMe == 1)));
            assert rows[..] == before[t := rows[t]];
            rows[i] := rows[i].(skipRender := true);
          }
        }
      }
    }
  }

  /** A row without the two keys the fourth pass writes. */
  function Fixed(r: Row): Row { r.(reactions := None, skipRender := false) }

  predicate SameFixed(s: seq<Row>, u: seq<Row>)
  {
    |s| == |u| && forall k :: 0 <= k < |s| ==> Fixed(s[k]) == Fixed(u[k])
  }

  lemma {:induction false} LatestStable(s: seq<Row>, u: seq<Row>, cands: seq<nat>, d: int)
    requires SameFixed(s, u) && forall c :: 0 <= c < |cands| ==> cands[c] < |s|
    ensures LatestNotAfter(s, cands, d) == LatestNotAfter(u, cands, d)
    decreases |cands|
  {
    if cands != [] {
      var n := |cands| - 1;
      LatestStable(s, u, cands[..n], d);
      assert forall j :: 0 <= j < |cands| ==> Date(s[cands[j]]) == Date(u[cands[j]]) by {
        forall j | 0 <= j < |cands| ensures Date(s[cands[j]]) == Date(u[cands[j]]) {
          assert Fixed(s[cands[j]]).dateRaw == s[cands[j]].dateRaw;
          assert Fixed(u[cands[j]]).dateRaw == u[cands[j]].dateRaw;
        }
      }
    }
  }

  /** Whether row `i` is a reaction text, and where it lands, does not
      depend on reactions or on which rows are hidden. */
  lemma TargetStable(s: seq<Row>, u: seq<Row>, index: map<string, seq<nat>>, h: Helpers, i: nat)
    requires SameFixed(s, u) && i < |s| && IndexBelow(index, |s|)
    ensures TextualTarget(s, index, h, i) == TextualTarget(u, index, h, i)
  {
    assert Fixed(s[i]) == Fixed(u[i]);
    assert s[i].text == u[i].text && s[i].assocGuid == u[i].assocGuid && s[i].dateRaw == u[i].dateRaw;
    assert Quote(s, index, h, i) == Quote(u, index, h, i);
    match Quote(s, index, h, i)
    case None =>
    case Some(q) => LatestStable(s, u, q.1, Date(s[i]));
  }

  /** One step of the fourth pass changes only reactions and the hidden
      flag; it hides row `i` exactly when `i` has a target, adds exactly one
      count to that target and touches no other row's reactions. */
  lemma TextualStepEffect(s: seq<Row>, index: map<string, seq<nat>>, h: Helpers, i: nat)
    requires i < |s| && IndexBelow(index, |s|)
    ensures SameFixed(s, TextualStep(s, index, h, i))
    ensures var u := TextualStep(s, index, h, i);
      forall k :: 0 <= k < |s| ==> u[k].skipRender == (s[k].skipRender || (k == i && TextualTarget(s, index, h, i).Some?))
    ensures var u := TextualStep(s, index, h, i); var t := TextualTarget(s, index, h, i);
      forall k :: 0 <= k < |s| && (t.None? || k != t.value) ==> u[k].reactions == s[k].reactions
    ensures var u := TextualStep(s, index, h, i); var t := TextualTarget(s, index, h, i);
      t.Some? && DistinctEmojis(OrEmpty(s[t.value].reactions)) ==>
        u[t.value].reactions.Some? && DistinctEmojis(u[t.value].reactions.value) &&
        Total(u[t.value].reactions.value) == Total(OrEmpty(s[t.value].reactions)) + 1
  {
    match TextualTarget(s, index, h, i)
    case None =>
    case Some(t) =>
      var e := Quote(s, index, h, i).value.0;
      if DistinctEmojis(OrEmpty(s[t].reactions)) {
        AddTextualTotal(OrEmpty(s[t].reactions), e, s[i].isFromMe == 1);
      }
  }

  /** The fourth pass changes nothing but reactions and the hidden flag. */
  lemma {:induction false} TextualFixed(s: seq<Row>, index: map<string, seq<nat>>, h: Helpers, n: nat)
    requires n <= |s| && IndexBelow(index, |s|)
    ensures SameFixed(s, Textual(s, index, h, n))
    decreases n
  {
    if n > 0 {
      TextualFixed(s, index, h, n - 1);
      TextualNextFixed(s, index, h, n);
      SameFixedTrans(s, Textual(s, index, h, n - 1), Textual(s, index, h, n));
    }
  }

  lemma TextualNextFixed(s: seq<Row>, index: map<string, seq<nat>>, h: Helpers, n: nat)
    requires 0 < n <= |s| && IndexBelow(index, |s|)
    ensures SameFixed(Textual(s, index, h, n - 1), Textual(s, index, h, n))
  {
    TextualStepFixed(Textual(s, index, h, n - 1), index, h, n - 1);
  }

  /** One step of the fourth pass keeps what `Fixed` reads of every row. */
  lemma TextualStepFixed(s: seq<Row>, index: map<string, seq<nat>>, h: Helpers, i: nat)
    requires i < |s| && IndexBelow(index, |s|)
    ensures SameFixed(s, TextualStep(s, index, h, i))
  {
  }

  lemma SameFixedTrans(a: seq<Row>, b: seq<Row>, c: seq<Row>)
    requires SameFixed(a, b) && SameFixed(b, c)
    ensures SameFixed(a, c)
  {
  }

  /** After the fourth pass over `n` rows, row `k` is hidden exactly when it
      already was or it is one of those rows and found a target. */
  lemma {:induction false} TextualHides(s: seq<Row>, index: map<string, seq<nat>>, h: Helpers, n: nat, k: nat)
    requires n <= |s| && IndexBelow(index, |s|) && k < |s|
    ensures Textual(s, index, h, n)[k].skipRender <==>
      s[k].skipRender || (k < n && TextualTarget(s, index, h, k).Some?)
    decreases n
  {
    if n > 0 {
      var p := Textual(s, index, h, n - 1);
      TextualHides(s, index, h, n - 1, k);
      TextualStepEffect(p, index, h, n - 1);
      if k == n - 1 {
        TextualFixed(s, index, h, n - 1);
        TargetStable(s, p, index, h, n - 1);
      }
    }
  }

  lemma {:induction false} TextIndexSameText(s: seq<Row>, u: seq<Row>, h: Helpers)
    requires |s| == |u| && forall k :: 0 <= k < |s| ==> s[k].text == u[k].text
    ensures TextIndex(s, h) == TextIndex(u, h)
    decreases |s|
  {
    if s != [] {
      TextIndexSameText(s[..|s| - 1], u[..|u| - 1], h);
      assert IndexKey(s[|s| - 1], h) == IndexKey(u[|u| - 1], h);
    }
  }

  // ---------------------------------------------------------------- fetch

  /** The rows after the first three passes. */
  function Rendered(s: seq<Row>, handles: map<int, Option<string>>, h: Helpers): (u: seq<Row>)
    ensures |u| == |s|
  {
    var byGuid := TapbackMap(s);
    seq(|s|, k requires 0 <= k < |s| => Render(Annotate(Mark(s[k]), handles, byGuid), h))
  }

  /** The rows `fetch` returns for the queried rows `s`. */
  function FetchSpec(s: seq<Row>, handles: map<int, Option<string>>, h: Helpers): (u: seq<Row>)
    ensures |u| == |s|
  {
    TextIndexSpec(s, h, []);
    Textual(Rendered(s, handles, h), TextIndex(s, h), h, |s|)
  }

  /** `fetch` after the query: the four passes over the same rows. */
  method Fetch(rows: array<Row>, handles: map<int, Option<string>>, h: Helpers)
    modifies rows
    ensures rows[..] == FetchSpec(old(rows[..]), handles, h)
  {
    ghost var s := rows[..];
    var byGuid := CollectTapbacks(rows);
    ghost var marked := rows[..];
    var index := AnnotateRows(rows, handles, byGuid, h);
    TextIndexSameText(s, marked, h);
    TextIndexSpec(s, h, []);
    RenderRows(rows, h);
    assert rows[..] == Rendered(s, handles, h);
    TextualReactions(rows, index, h);
  }

  /** A row is hidden exactly when it was already, or it is a tapback whose
      emoji resolves, or it is a reaction text that found its target. */
  lemma FetchHides(s: seq<Row>, handles: map<int, Option<string>>, h: Helpers, k: nat)
    requires k < |s|
    ensures IndexBelow(TextIndex(s, h), |s|)
    ensures FetchSpec(s, handles, h)[k].skipRender <==>
      s[k].skipRender || Recorded(s[k]) || TextualTarget(Rendered(s, handles, h), TextIndex(s, h), h, k).Some?
  {
    TextIndexSpec(s, h, []);
    TextualHides(Rendered(s, handles, h), TextIndex(s, h), h, |s|, k);
  }

  /** Before the fourth pass, a message's reactions are the groups of
      exactly the tapbacks aimed at its GUID. */
  lemma RenderedReactions(s: seq<Row>, handles: map<int, Option<string>>, h: Helpers, k: nat)
    requires k < |s| && s[k].guid.Some?
    ensures var g := s[k].guid.value;
      Rendered(s, handles, h)[k].reactions == if Events(s, g) == [] then s[k].reactions else Some(Group(Events(s, g)))
  {
    TapbackMapIsEvents(s, s[k].guid.value);
  }

  /** A reaction text lands on a row whose raw text has the same index key
      as its quote. */
  lemma TargetQuoted(s: seq<Row>, handles: map<int, Option<string>>, h: Helpers, i: nat)
    requires i < |s|
    ensures IndexBelow(TextIndex(s, h), |s|)
    ensures var r := Rendered(s, handles, h); var t := TextualTarget(r, TextIndex(s, h), h, i);
      t.Some? ==> (r[i].text.Some? && Blank(s[i].assocGuid) && h.parse(r[i].text).Some? &&
        IndexKey(s[t.value], h) == h.normalize(Some(h.parse(r[i].text).value.1)))
  {
    TextIndexSpec(s, h, []);
    var r := Rendered(s, handles, h);
    var t := TextualTarget(r, TextIndex(s, h), h, i);
    if t.Some? {
      var norm := h.normalize(Some(h.parse(r[i].text).value.1));
      TextIndexSpec(s, h, norm.value);
    }
  }
}
