// `TextUtil.linkify`: plain message text turned into HTML in which every
// URL-looking run (`http://…`, `https://…` or `www.…`, in any letter case,
// up to the next whitespace or `<`) becomes a safe anchor, trailing
// punctuation stays outside the link, and everything is HTML-escaped.

module TextUtil {
  import opened Str

  // ---------------------------------------------------------------- escaping

  /** The characters `CGI.escapeHTML` replaces. */
  predicate IsSpecial(c: char) { c == '&' || c == '<' || c == '>' || c == '"' || c == '\'' }

  function EscapeChar(c: char): string
  {
    if c == '&' then "&amp;"
    else if c == '<' then "&lt;"
    else if c == '>' then "&gt;"
    else if c == '"' then "&quot;"
    else if c == '\'' then "&#39;"
    else [c]
  }

  /** `CGI.escapeHTML`: no `<`, `>`, `"` or `'` survives, so the result can
      sit inside an element or a double-quoted attribute. */
  function Escape(s: string): string
  {
    if s == [] then [] else EscapeChar(s[0]) + Escape(s[1..])
  }

  /** Characters an attribute or element could be broken by. */
  predicate IsMarkup(c: char) { c == '<' || c == '>' || c == '"' || c == '\'' }

  predicate NoMarkup(r: string) { forall i :: 0 <= i < |r| ==> !IsMarkup(r[i]) }

  /** No `<`, `>`, `"` or `'` survives escaping, so the result can sit
      inside an element or a double-quoted attribute; nothing is shortened. */
  lemma {:induction false} EscapeSafe(s: string)
    ensures NoMarkup(Escape(s)) && |Escape(s)| >= |s|
    decreases |s|
  {
    if s != [] {
      EscapeSafe(s[1..]);
      var e := EscapeChar(s[0]);
      assert NoMarkup(e);
      assert Escape(s) == e + Escape(s[1..]);
    }
  }

  /** Decoding of the five entities `Escape` writes; the reference that
      shows escaping loses nothing. */
  function Unescape(s: string): (r: string)
    decreases |s|
  {
    if s == [] then []
    else match EntityAt(s)
      case Some((c, n)) => [c] + Unescape(s[n..])
      case None => [s[0]] + Unescape(s[1..])
  }

  /** The entity `s` starts with, and its length. */
  function EntityAt(s: string): (r: Option<(char, nat)>)
    ensures r.Some? ==> 0 < r.value.1 <= |s|
  {
    if |s| < 4 || s[0] != '&' then None
    else if |s| >= 5 && s[1] == 'a' && s[2] == 'm' && s[3] == 'p' && s[4] == ';' then Some(('&', 5))
    else if s[1] == 'l' && s[2] == 't' && s[3] == ';' then Some(('<', 4))
    else if s[1] == 'g' && s[2] == 't' && s[3] == ';' then Some(('>', 4))
    else if |s| >= 6 && s[1] == 'q' && s[2] == 'u' && s[3] == 'o' && s[4] == 't' && s[5] == ';' then Some(('"', 6))
    else if |s| >= 5 && s[1] == '#' && s[2] == '3' && s[3] == '9' && s[4] == ';' then Some(('\'', 5))
    else None
  }

  lemma UnescapeChar(c: char, rest: string)
    ensures Unescape(EscapeChar(c) + rest) == [c] + Unescape(rest)
  {
    var e := EscapeChar(c);
    var s := e + rest;
    assert s[|e|..] == rest;
    if IsSpecial(c) {
      assert EntityAt(s) == Some((c, |e|));
    }
  }

  /** Escaping loses nothing: decoding the entities gives the text back. */
  lemma {:induction false} EscapeRoundTrip(s: string)
    ensures Unescape(Escape(s)) == s
    decreases |s|
  {
    if s != [] {
      UnescapeChar(s[0], Escape(s[1..]));
      EscapeRoundTrip(s[1..]);
    }
  }

  /** A text with none of the five characters is left as it is. */
  lemma {:induction false} EscapePlain(s: string)
    requires forall i :: 0 <= i < |s| ==> !IsSpecial(s[i])
    ensures Escape(s) == s
    decreases |s|
  {
    if s != [] {
      EscapePlain(s[1..]);
    }
  }

  lemma {:induction false} EscapeAppend(a: string, b: string)
    ensures Escape(a + b) == Escape(a) + Escape(b)
    decreases |a|
  {
    if a == [] {
      assert a + b == b;
    } else {
      assert (a + b)[1..] == a[1..] + b;
      EscapeAppend(a[1..], b);
    }
  }

  // ---------------------------------------------------------------- matching

  /** A character of the URL body, `[^\s<]`. */
  predicate IsUrlChar(c: char) { !IsSpace(c) && c != '<' }

  /** `http`, in any letter case, at `p`. */
  predicate HttpAt(s: string, p: nat)
  {
    p + 4 <= |s| && LowerChar(s[p]) == 'h' && LowerChar(s[p + 1]) == 't' && LowerChar(s[p + 2]) == 't'
    && LowerChar(s[p + 3]) == 'p'
  }

  /** `://` at `p`. */
  predicate SlashesAt(s: string, p: nat) { p + 3 <= |s| && s[p] == ':' && s[p + 1] == '/' && s[p + 2] == '/' }

  /** `https://`, in any letter case, at `p`. */
  predicate HttpsSchemeAt(s: string, p: nat)
  {
    HttpAt(s, p) && p + 5 <= |s| && LowerChar(s[p + 4]) == 's' && SlashesAt(s, p + 5)
  }

  /** `http://`, in any letter case, at `p`. */
  predicate HttpSchemeAt(s: string, p: nat) { HttpAt(s, p) && SlashesAt(s, p + 4) }

  /** `www.`, in any letter case, at `p`. */
  predicate WwwAt(s: string, p: nat)
  {
    p + 4 <= |s| && LowerChar(s[p]) == 'w' && LowerChar(s[p + 1]) == 'w' && LowerChar(s[p + 2]) == 'w'
    && s[p + 3] == '.'
  }

  /** The length of the alternative of `(?:https?://|www\.)` that matches at
      `p`, tried in that order, when at least one URL character follows it. */
  function SchemeAt(s: string, p: nat): (n: Option<nat>)
    ensures n.Some? ==> p + n.value < |s| && IsUrlChar(s[p + n.value])
  {
    if HttpsSchemeAt(s, p) && p + 8 < |s| && IsUrlChar(s[p + 8]) then Some(8)
    else if HttpSchemeAt(s, p) && p + 7 < |s| && IsUrlChar(s[p + 7]) then Some(7)
    else if WwwAt(s, p) && p + 4 < |s| && IsUrlChar(s[p + 4]) then Some(4)
    else None
  }

  /** The end of the greedy `[^\s<]+` run starting at `p`. */
  function UrlEnd(s: string, p: nat): (e: nat)
    requires p <= |s|
    ensures p <= e <= |s|
    decreases |s| - p
  {
    if p < |s| && IsUrlChar(s[p]) then UrlEnd(s, p + 1) else p
  }

  /** The run holds URL characters only, and is maximal. */
  lemma {:induction false} UrlEndSpec(s: string, p: nat)
    requires p <= |s|
    ensures forall i :: p <= i < UrlEnd(s, p) ==> IsUrlChar(s[i])
    ensures UrlEnd(s, p) == |s| || !IsUrlChar(s[UrlEnd(s, p)])
    decreases |s| - p
  {
    if p < |s| && IsUrlChar(s[p]) {
      UrlEndSpec(s, p + 1);
    }
  }

  /** The next match of the URL pattern at or after `from`: the leftmost
      start, and the end of the greedy `[^\s<]+` run after its scheme. */
  function NextMatch(s: string, from: nat): (m: Option<(nat, nat)>)
    requires from <= |s|
    ensures m.Some? ==> from <= m.value.0 < m.value.1 <= |s|
    decreases |s| - from
  {
    if from == |s| then None
    else match SchemeAt(s, from)
      case Some(n) => Some((from, UrlEnd(s, from + n)))
      case None => NextMatch(s, from + 1)
  }

  /** What the scan finds: a match is a scheme followed by its greedy run
      of URL characters (`NextMatchFound`), it is the leftmost one, and
      there is none exactly when no scheme occurs from `from` on
      (`NextMatchLeftmost`). */
  lemma {:induction false} NextMatchFound(s: string, from: nat)
    requires from <= |s| && NextMatch(s, from).Some?
    ensures var (p, e) := NextMatch(s, from).value;
      SchemeAt(s, p).Some? && e == UrlEnd(s, p + SchemeAt(s, p).value)
    decreases |s| - from
  {
    if SchemeAt(s, from).None? {
      NextMatchFound(s, from + 1);
    }
  }

  lemma {:induction false} NextMatchLeftmost(s: string, from: nat)
    requires from <= |s|
    ensures var m := NextMatch(s, from);
      forall q :: from <= q < (if m.Some? then m.value.0 else |s|) ==> SchemeAt(s, q).None?
    ensures NextMatch(s, from).None? <==> forall q :: from <= q < |s| ==> SchemeAt(s, q).None?
    decreases |s| - from
  {
    if from < |s| && SchemeAt(s, from).None? {
      NextMatchLeftmost(s, from + 1);
    }
  }

  // ---------------------------------------------------------------- one link

  /** The punctuation `[\)\]\.,!?:;]` kept out of a link's end. */
  predicate IsTrailPunct(c: char)
  {
    c == ')' || c == ']' || c == '.' || c == ',' || c == '!' || c == '?' || c == ':' || c == ';'
  }

  /** The length of `raw` once its maximal trailing run of punctuation is cut. */
  function TrimEnd(raw: string): (n: nat)
    ensures n <= |raw|
    ensures forall i :: n <= i < |raw| ==> IsTrailPunct(raw[i])
    ensures n == 0 || !IsTrailPunct(raw[n - 1])
  {
    if raw != [] && IsTrailPunct(raw[|raw| - 1]) then TrimEnd(raw[..|raw| - 1]) else |raw|
  }

  /** The link target: the trimmed text when it starts with `http://` or
      `https://` in any case, else the text behind `https://`. A match has
      no line breaks, so `^` can only hold at its start. */
  function Href(t: string): string
  {
    if HttpsSchemeAt(t, 0) || HttpSchemeAt(t, 0) then t else "https://" + t
  }

  const AnchorOpen := "<a class=\"linkified\" href=\""
  const AnchorMid := "\" target=\"_blank\" rel=\"noopener noreferrer\">"
  const AnchorClose := "</a>"

  function Anchor(href: string, display: string): string
  {
    AnchorOpen + Escape(href) + AnchorMid + Escape(display) + AnchorClose
  }

  /** The fragments one match adds: the anchor, then the escaped trailing
      punctuation when there is any. */
  function LinkHtml(raw: string): seq<string>
  {
    var n := TrimEnd(raw);
    [Anchor(Href(raw[..n]), raw[..n])] + (if n < |raw| then [Escape(raw[n..])] else [])
  }

  // ---------------------------------------------------------------- the text

  /** The text cut into the runs between matches and the matches themselves. */
  datatype Piece = Plain(text: string) | Link(raw: string)

  function PieceHtml(p: Piece): seq<string>
  {
    match p
    case Plain(t) => [Escape(t)]
    case Link(raw) => LinkHtml(raw)
  }

  /** The fragments `out` collects for the pieces, in order. */
  function Render(ps: seq<Piece>): seq<string>
  {
    if ps == [] then [] else PieceHtml(ps[0]) + Render(ps[1..])
  }

  lemma ConcatOne(x: string)
    ensures Concat([x]) == x
  {
    assert [x][1..] == [];
  }

  /** `join` with no separator. */
  function Concat(ss: seq<string>): string
  {
    if ss == [] then [] else ss[0] + Concat(ss[1..])
  }

  function Source(ps: seq<Piece>): string
  {
    if ps == [] then [] else (match ps[0] case Plain(t) => t case Link(raw) => raw) + Source(ps[1..])
  }

  /** The pieces of `s` from `from` on, as the scan visits them. */
  function Pieces(s: string, from: nat): seq<Piece>
    requires from <= |s|
    decreases |s| - from
  {
    match NextMatch(s, from)
    case None => Gap(s, from, |s|)
    case Some((p, e)) => Gap(s, from, p) + [Link(s[p..e])] + Pieces(s, e)
  }

  /** The text between `from` and `p`, as a piece when it is not empty. */
  function Gap(s: string, from: nat, p: nat): (g: seq<Piece>)
    requires from <= p <= |s|
    ensures Source(g) == s[from..p]
    ensures Render(g) == if p > from then [Escape(s[from..p])] else []
  {
    if p > from then [Plain(s[from..p])] else []
  }

  lemma PiecesSome(s: string, from: nat)
    requires from <= |s| && NextMatch(s, from).Some?
    ensures var (p, e) := NextMatch(s, from).value;
      Pieces(s, from) == Gap(s, from, p) + [Link(s[p..e])] + Pieces(s, e)
  {
  }

  /** What `linkify` returns: "" for nil or "", else the rendered pieces. */
  function Linkified(text: Option<string>): string
  {
    if text.None? || text.value == [] then [] else Concat(Render(Pieces(text.value, 0)))
  }

  lemma {:induction false} RenderAppend(a: seq<Piece>, b: seq<Piece>)
    ensures Render(a + b) == Render(a) + Render(b)
    decreases |a|
  {
    if a == [] {
      assert a + b == b;
    } else {
      assert (a + b)[1..] == a[1..] + b;
      RenderAppend(a[1..], b);
    }
  }

  lemma {:induction false} SourceAppend(a: seq<Piece>, b: seq<Piece>)
    ensures Source(a + b) == Source(a) + Source(b)
    decreases |a|
  {
    if a == [] {
      assert a + b == b;
    } else {
      assert (a + b)[1..] == a[1..] + b;
      SourceAppend(a[1..], b);
    }
  }

  lemma AppendAssoc(a: seq<string>, b: seq<string>, c: seq<string>, d: seq<string>)
    ensures a + (b + c + d) == a + b + c + d
  {
  }

  /** One turn of the scan: the gap before the match, then the match. */
  lemma RenderStep(s: string, from: nat)
    requires from <= |s| && NextMatch(s, from).Some?
    ensures var (p, e) := NextMatch(s, from).value;
      Render(Pieces(s, from)) == (if p > from then [Escape(s[from..p])] else []) + LinkHtml(s[p..e]) + Render(Pieces(s, e))
  {
    var (p, e) := NextMatch(s, from).value;
    var before, link := Gap(s, from, p), [Link(s[p..e])];
    PiecesSome(s, from);
    RenderAppend(before + link, Pieces(s, e));
    RenderAppend(before, link);
    assert Render(link) == LinkHtml(s[p..e]);
  }

  /** After the last match, the rest of the text. */
  lemma RenderTail(s: string, from: nat)
    requires from <= |s| && NextMatch(s, from).None?
    ensures Render(Pieces(s, from)) == if from < |s| then [Escape(s[from..])] else []
  {
    assert Pieces(s, from) == Gap(s, from, |s|);
    assert s[from..] == s[from..|s|];
  }

  /** `linkify`, as the scan loop runs: the text before each match, escaped;
      the anchor; the text after the last match, escaped; all joined. */
  method Linkify(text: Option<string>) returns (html: string)
    ensures html == Linkified(text)
  {
    if text.None? || text.value == [] {
      return [];
    }
    var s := text.value;
    var out: seq<string> := [];
    var last := 0;
    var m := NextMatch(s, 0);
    while m.Some?
      invariant last <= |s| && m == NextMatch(s, last)
      invariant out + Render(Pieces(s, last)) == Render(Pieces(s, 0))
      decreases |s| - last
    {
      var start, end := m.value.0, m.value.1;
      ghost var gap: seq<string> := if start > last then [Escape(s[last..start])] else [];
      ghost var out0 := out;
      RenderStep(s, last);
      if start > last {
        out := out + [Escape(s[last..start])];
      }
      assert out == out0 + gap;
      var link := LinkHtml(s[start..end]);
      out := out + link;
      AppendAssoc(out0, gap, link, Render(Pieces(s, end)));
      last := end;
      m := NextMatch(s, last);
    }
    RenderTail(s, last);
    if last < |s| {
      out := out + [Escape(s[last..])];
    }
    assert out == Render(Pieces(s, 0));
    html := Concat(out);
  }

  // ---------------------------------------------------------------- properties

  lemma SlicesJoin(s: string, a: nat, b: nat, c: nat)
    requires a <= b <= c <= |s|
    ensures s[a..b] + s[b..c] + s[c..] == s[a..]
  {
  }

  /** The pieces, read back in order, are the text itself: nothing is
      dropped, duplicated or reordered. */
  lemma {:induction false} PiecesCover(s: string, from: nat)
    requires from <= |s|
    ensures Source(Pieces(s, from)) == s[from..]
    decreases |s| - from
  {
    match NextMatch(s, from)
    case None =>
    case Some((p, e)) =>
      var before, link, rest := Gap(s, from, p), [Link(s[p..e])], Pieces(s, e);
      PiecesSome(s, from);
      PiecesCover(s, e);
      SourceAppend(before + link, rest);
      SourceAppend(before, link);
      assert Source(link) == s[p..e];
      SlicesJoin(s, from, p, e);
  }

  /** Every link piece is a URL: it starts with a scheme or `www.`, in any
      case, and holds no whitespace and no `<`. */
  predicate IsUrl(raw: string)
  {
    SchemeAt(raw, 0).Some? && forall i :: 0 <= i < |raw| ==> IsUrlChar(raw[i])
  }

  predicate LinksAreUrls(ps: seq<Piece>)
  {
    forall k :: 0 <= k < |ps| && ps[k].Link? ==> IsUrl(ps[k].raw)
  }

  lemma SchemeAtPrefix(s: string, p: nat, e: nat)
    requires p < e <= |s| && SchemeAt(s, p).Some? && e > p + SchemeAt(s, p).value
    ensures SchemeAt(s[p..e], 0) == SchemeAt(s, p)
  {
    var r := s[p..e];
    assert forall k :: 0 <= k < |r| ==> r[k] == s[p + k];
  }

  lemma {:induction false} PiecesAreUrls(s: string, from: nat)
    requires from <= |s|
    ensures LinksAreUrls(Pieces(s, from))
    decreases |s| - from
  {
    match NextMatch(s, from)
    case None =>
    case Some((p, e)) =>
      var before, link, rest := Gap(s, from, p), [Link(s[p..e])], Pieces(s, e);
      PiecesSome(s, from);
      MatchIsUrl(s, from);
      PiecesAreUrls(s, e);
      assert Pieces(s, from) == before + link + rest;
      assert LinksAreUrls(before + link);
  }

  /** A match is a URL. */
  lemma MatchIsUrl(s: string, from: nat)
    requires from <= |s| && NextMatch(s, from).Some?
    ensures var (p, e) := NextMatch(s, from).value; IsUrl(s[p..e])
  {
    var (p, e) := NextMatch(s, from).value;
    NextMatchFound(s, from);
    var n := SchemeAt(s, p).value;
    UrlEndSpec(s, p + n);
    SchemeAtPrefix(s, p, e);
    SchemeIsUrlChars(s, p);
    assert forall i :: 0 <= i < e - p ==> s[p..e][i] == s[p + i];
  }

  /** The scheme itself is made of URL characters. */
  lemma SchemeIsUrlChars(s: string, p: nat)
    requires SchemeAt(s, p).Some?
    ensures forall i :: p <= i < p + SchemeAt(s, p).value ==> IsUrlChar(s[i])
  {
    forall i | p <= i < p + SchemeAt(s, p).value
      ensures IsUrlChar(s[i])
    {
      assert IsUrlChar(LowerChar(s[i]));
    }
  }

  /** A text with no URL in it (by `NextMatchLeftmost`, one where no scheme
      occurs) is only escaped. */
  lemma NoUrlOnlyEscaped(s: string)
    requires s != [] && NextMatch(s, 0).None?
    ensures Linkified(Some(s)) == Escape(s)
  {
    assert s[0..|s|] == s;
    assert Pieces(s, 0) == [Plain(s)];
    assert Render([Plain(s)]) == [Escape(s)];
    ConcatOne(Escape(s));
  }

  /** The link target always carries a scheme, and either is the shown text
      or is the shown text behind `https://`. */
  lemma HrefHasScheme(t: string)
    ensures HttpsSchemeAt(Href(t), 0) || HttpSchemeAt(Href(t), 0)
    ensures Href(t) == t || Href(t) == "https://" + t
  {
    if !(HttpsSchemeAt(t, 0) || HttpSchemeAt(t, 0)) {
      var h := "https://" + t;
      assert h[..8] == "https://";
    }
  }

  /** The trailing punctuation cut from a link is shown right after it,
      so the visible text is the match. */
  lemma TrimSplits(raw: string)
    ensures raw[..TrimEnd(raw)] + raw[TrimEnd(raw)..] == raw
    ensures TrimEnd(raw[..TrimEnd(raw)]) == TrimEnd(raw)
  {
    var n := TrimEnd(raw);
    assert raw[..n][..n] == raw[..n];
  }
}
