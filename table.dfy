// `SimpleTable.render`: a plain-text table with `+---+` separators and
// `| cell |` rows, each column as wide as its widest heading or cell, where
// width is measured in terminal columns: colour escapes count nothing, a
// wide grapheme cluster (emoji, flags, CJK) counts two, any other one.
//
// Grapheme segmentation and the `\p{Han}`-style script classes come from
// the Unicode tables; they are the `Unicode` parameter.

module SimpleTable {
  import opened Str

  /** The column alignment: anything other than `:right` pads on the right. */
  datatype Align = Left | Right

  /** What the Unicode tables supply: `grapheme_clusters`, and membership in
      the Han, Katakana, Hiragana, Hangul, CJK Symbols and Punctuation and
      Halfwidth and Fullwidth Forms classes. */
  datatype Unicode = Unicode(segment: string -> seq<string>, wideScript: char -> bool)

  const Esc: char := '\U{001B}'
  const EmojiPresentation: char := '\U{FE0F}'

  function Repeat(c: char, n: nat): (r: string)
    ensures |r| == n && forall i :: 0 <= i < n ==> r[i] == c
  {
    if n == 0 then [] else [c] + Repeat(c, n - 1)
  }


  // ---------------------------------------------------------------- colour escapes

  /** A character of an SGR parameter list (section 8.3.117 of ECMA-48). */
  predicate SgrParam(c: char) { IsDigit(c) || c == ';' }

  /** The end of the run of parameter characters from `i`. */
  function ParamEnd(s: string, i: nat): (e: nat)
    requires i <= |s|
    ensures i <= e <= |s| && (e < |s| ==> !SgrParam(s[e]))
    ensures forall k :: i <= k < e ==> SgrParam(s[k])
    decreases |s| - i
  {
    if i < |s| && SgrParam(s[i]) then ParamEnd(s, i + 1) else i
  }

  /** The length of the `ESC [ [0-9;]* m` sequence `s` starts with, if it
      starts with one. */
  function SgrAt(s: string): (n: Option<nat>)
    ensures n.Some? ==> 3 <= n.value <= |s| && s[0] == Esc && s[1] == '[' && s[n.value - 1] == 'm'
    ensures n.Some? ==> forall k :: 2 <= k < n.value - 1 ==> SgrParam(s[k])
  {
    if |s| >= 2 && s[0] == Esc && s[1] == '[' then
      var e := ParamEnd(s, 2);
      if e < |s| && s[e] == 'm' then Some(e + 1) else None
    else None
  }

  /** `s.gsub(/\e\[[0-9;]*m/, '')`: a left-to-right scan that drops every
      colour escape it meets and keeps every other character. */
  function StripSgr(s: string): (r: string)
    ensures |r| <= |s|
    decreases |s|
  {
    if s == [] then []
    else
      match SgrAt(s)
      case Some(n) => StripSgr(s[n..])
      case None => [s[0]] + StripSgr(s[1..])
  }

  /** A colour escape with the given parameters. */
  function Sgr(params: string): (e: string)
    requires forall k :: 0 <= k < |params| ==> SgrParam(params[k])
  {
    [Esc, '['] + params + ['m']
  }

  /** A colour escape is dropped whole. */
  lemma StripSgrDrops(params: string, s: string)
    requires forall k :: 0 <= k < |params| ==> SgrParam(params[k])
    ensures StripSgr(Sgr(params) + s) == StripSgr(s)
  {
    var t := Sgr(params) + s;
    assert forall k :: 2 <= k < |params| + 2 ==> t[k] == params[k - 2];
    assert ParamEnd(t, 2) == |params| + 2 by { ParamEndAt(t, 2, |params| + 2); }
    assert t[|params| + 3..] == s;
  }

  lemma {:induction false} ParamEndAt(s: string, i: nat, e: nat)
    requires i <= e < |s| && !SgrParam(s[e])
    requires forall k :: i <= k < e ==> SgrParam(s[k])
    ensures ParamEnd(s, i) == e
    decreases e - i
  {
    if i < e {
      ParamEndAt(s, i + 1, e);
    }
  }

  /** Text without an escape character passes through unchanged. */
  lemma {:induction false} StripSgrKeeps(a: string, s: string)
    requires Esc !in a
    ensures StripSgr(a + s) == a + StripSgr(s)
    decreases |a|
  {
    if a != [] {
      var t := a + s;
      assert t[0] == a[0] && t[1..] == a[1..] + s;
      StripSgrKeeps(a[1..], s);
      assert a == [a[0]] + a[1..];
    } else {
      assert a + s == s;
    }
  }

  /** Colouring a plain string leaves only the string. */
  lemma StripSgrColoured(params: string, s: string)
    requires forall k :: 0 <= k < |params| ==> SgrParam(params[k])
    requires Esc !in s
    ensures StripSgr(Sgr(params) + s + Sgr("0")) == s
  {
    assert Sgr(params) + s + Sgr("0") == Sgr(params) + (s + Sgr("0"));
    StripSgrDrops(params, s + Sgr("0"));
    StripSgrKeeps(s, Sgr("0"));
    StripSgrDrops("0", []);
    assert Sgr("0") + [] == Sgr("0");
  }

  // ---------------------------------------------------------------- cluster width

  predicate RegionalIndicator(c: char) { 0x1F1E6 <= c as int <= 0x1F1FF }

  /** The emoji blocks `cluster_wide?` lists. */
  predicate EmojiBlock(c: char)
  {
    0x1F300 <= c as int <= 0x1FAFF || 0x1F900 <= c as int <= 0x1F9FF || 0x2600 <= c as int <= 0x27FF
  }

  /** `cluster_wide?`: a non-empty cluster holding a regional indicator, the
      emoji presentation selector, an emoji-block character or a CJK or
      fullwidth character. */
  predicate ClusterWide(gc: string, u: Unicode)
  {
    gc != []
    && ((exists i :: 0 <= i < |gc| && RegionalIndicator(gc[i]))
        || EmojiPresentation in gc
        || (exists i :: 0 <= i < |gc| && EmojiBlock(gc[i]))
        || (exists i :: 0 <= i < |gc| && u.wideScript(gc[i])))
  }

  /** Flags, and emoji written with the presentation selector, are wide
      whatever the script tables say. */
  lemma FlagsAndEmojiWide(a: char, b: char, base: char, u: Unicode)
    requires RegionalIndicator(a) && RegionalIndicator(b)
    ensures ClusterWide([a, b], u)
    ensures ClusterWide([base, EmojiPresentation], u)
  {
    assert RegionalIndicator([a, b][0]);
    assert [base, EmojiPresentation][1] == EmojiPresentation;
  }

  /** A cluster of characters outside every listed range is narrow; so is
      the empty cluster. */
  lemma NarrowCluster(gc: string, u: Unicode)
    requires forall i :: 0 <= i < |gc| ==>
      !RegionalIndicator(gc[i]) && gc[i] != EmojiPresentation && !EmojiBlock(gc[i]) && !u.wideScript(gc[i])
    ensures !ClusterWide(gc, u)
  {
  }

  function ClusterWidth(gc: string, u: Unicode): (n: nat)
  {
    if ClusterWide(gc, u) then 2 else 1
  }

  /** The `inject` over the clusters: each counts one or two. */
  function ClustersWidth(cs: seq<string>, u: Unicode): (n: nat)
    ensures |cs| <= n <= 2 * |cs|
  {
    if cs == [] then 0 else ClustersWidth(cs[..|cs| - 1], u) + ClusterWidth(cs[|cs| - 1], u)
  }

  /** Two columns per cluster exactly when every cluster is wide, one exactly
      when none is. */
  lemma {:induction false} ClustersWidthExtremes(cs: seq<string>, u: Unicode)
    ensures ClustersWidth(cs, u) == 2 * |cs| <==> forall i :: 0 <= i < |cs| ==> ClusterWide(cs[i], u)
    ensures ClustersWidth(cs, u) == |cs| <==> forall i :: 0 <= i < |cs| ==> !ClusterWide(cs[i], u)
  {
    if cs != [] {
      var init := cs[..|cs| - 1];
      assert forall i :: 0 <= i < |init| ==> init[i] == cs[i];
      ClustersWidthExtremes(init, u);
    }
  }

  /** `str_width`: the width of what is left after the colour escapes go;
      between one and two columns per grapheme cluster of it. */
  function StrWidth(s: string, u: Unicode): (n: nat)
    ensures var cs := u.segment(StripSgr(s)); |cs| <= n <= 2 * |cs|
  {
    ClustersWidth(u.segment(StripSgr(s)), u)
  }

  /** Colour escapes around a plain string do not widen it. */
  lemma ColourIsFree(params: string, s: string, u: Unicode)
    requires forall k :: 0 <= k < |params| ==> SgrParam(params[k])
    requires Esc !in s
    ensures StrWidth(Sgr(params) + s + Sgr("0"), u) == StrWidth(s, u)
  {
    StripSgrColoured(params, s);
    StripSgrKeeps(s, []);
    assert s + [] == s;
  }

  // ---------------------------------------------------------------- column widths

  /** The width of column `i` in `row`; a row without that cell adds nothing. */
  function CellWidth(row: seq<string>, i: nat, u: Unicode): nat
  {
    if i < |row| then StrWidth(row[i], u) else 0
  }

  /** The widest cell of column `i` over the rows. */
  function ColumnMax(data: seq<seq<string>>, i: nat, u: Unicode): (n: nat)
  {
    if data == [] then 0 else Max(ColumnMax(data[..|data| - 1], i, u), CellWidth(data[|data| - 1], i, u))
  }

  /** `widths`: per heading, the widest of the heading and the cells under it. */
  function ColumnWidths(headings: seq<string>, data: seq<seq<string>>, u: Unicode): (w: seq<nat>)
    ensures |w| == |headings|
  {
    seq(|headings|, i requires 0 <= i < |headings| => Max(StrWidth(headings[i], u), ColumnMax(data, i, u)))
  }

  /** A row the width loop accepts: no more cells than headings. */
  predicate Narrow(headings: seq<string>, data: seq<seq<string>>)
  {
    forall k :: 0 <= k < |data| ==> |data[k]| <= |headings|
  }

  /** Column `i`'s maximum bounds every cell in it and is one of them (zero
      when no row has the column). */
  lemma {:induction false} ColumnMaxIsMax(data: seq<seq<string>>, i: nat, u: Unicode)
    ensures forall k :: 0 <= k < |data| && i < |data[k]| ==> StrWidth(data[k][i], u) <= ColumnMax(data, i, u)
    ensures ColumnMax(data, i, u) == 0
      || exists k :: 0 <= k < |data| && i < |data[k]| && StrWidth(data[k][i], u) == ColumnMax(data, i, u)
  {
    if data != [] {
      var init := data[..|data| - 1];
      ColumnMaxIsMax(init, i, u);
      assert forall k :: 0 <= k < |init| ==> init[k] == data[k];
    }
  }

  /** `widths[i]` is the maximum `str_width` over heading `i` and every cell
      in column `i`: it bounds each of them and is attained. */
  lemma WidthIsMax(headings: seq<string>, data: seq<seq<string>>, i: nat, u: Unicode)
    requires i < |headings|
    ensures var w := ColumnWidths(headings, data, u)[i];
      StrWidth(headings[i], u) <= w
      && (forall k :: 0 <= k < |data| && i < |data[k]| ==> StrWidth(data[k][i], u) <= w)
      && (w == StrWidth(headings[i], u)
          || exists k :: 0 <= k < |data| && i < |data[k]| && StrWidth(data[k][i], u) == w)
  {
    ColumnMaxIsMax(data, i, u);
  }

  /** The nested width loops; `None` where a row has more cells than there
      are headings, since `[nil, w].max` raises there. */
  method ComputeWidths(headings: seq<string>, data: seq<seq<string>>, u: Unicode) returns (widths: Option<seq<nat>>)
    ensures widths.None? <==> !Narrow(headings, data)
    ensures widths.Some? ==> widths.value == ColumnWidths(headings, data, u)
  {
    var cols := |headings|;
    var w := new nat[cols](_ => 0);
    var i := 0;
    while i < cols
      invariant 0 <= i <= cols
      invariant forall j :: 0 <= j < cols ==> w[j] == if j < i then StrWidth(headings[j], u) else 0
    {
      w[i] := Max(w[i], StrWidth(headings[i], u));
      i := i + 1;
    }
    var r := 0;
    while r < |data|
      invariant 0 <= r <= |data|
      invariant Narrow(headings, data[..r])
      invariant forall j :: 0 <= j < cols ==> w[j] == Max(StrWidth(headings[j], u), ColumnMax(data[..r], j, u))
    {
      var ok := Widen(w, data[r], u);
      if !ok {
        assert !Narrow(headings, data) by { assert |data[r]| > |headings|; }
        return None;
      }
      assert data[..r + 1][..r] == data[..r] && data[..r + 1][r] == data[r];
      assert Narrow(headings, data[..r + 1]) by {
        assert forall k :: 0 <= k < r ==> data[..r + 1][k] == data[..r][k];
      }
      r := r + 1;
    }
    assert data[..r] == data;
    return Some(w[..]);
  }

  /** The inner loop over one row's cells: each widens its column to fit;
      `false` at a cell past the last column. */
  method Widen(w: array<nat>, row: seq<string>, u: Unicode) returns (ok: bool)
    modifies w
    ensures ok <==> |row| <= w.Length
    ensures ok ==> forall j :: 0 <= j < w.Length ==> w[j] == Max(old(w[j]), CellWidth(row, j, u))
  {
    var c := 0;
    while c < |row|
      invariant 0 <= c <= |row| && c <= w.Length
      invariant forall j :: 0 <= j < w.Length ==> w[j] == Max(old(w[j]), if j < c then StrWidth(row[j], u) else 0)
    {
      if c >= w.Length {
        return false;
      }
      w[c] := Max(w[c], StrWidth(row[c], u));
      c := c + 1;
    }
    return true;
  }

  // ---------------------------------------------------------------- formatting

  /** `align[i] == :right`, with `align` absent past its end. */
  predicate RightAt(al: seq<Align>, i: nat) { i < |al| && al[i] == Right }

  /** The alignment `render` uses: left for every column when none is given. */
  function AlignOf(align: Option<seq<Align>>, cols: nat): (al: seq<Align>)
    ensures align.None? ==> |al| == cols && forall i :: 0 <= i < cols ==> !RightAt(al, i)
  {
    match align
    case Some(a) => a
    case None => seq(cols, _ => Left)
  }

  /** Every cell of `row` fits its column. */
  predicate Fits(widths: seq<nat>, row: seq<string>, u: Unicode)
  {
    |row| <= |widths| && forall i :: 0 <= i < |row| ==> StrWidth(row[i], u) <= widths[i]
  }

  /** One padded cell: a space, the text and the padding up to the column
      width on the side away from the alignment, and a space. */
  function FmtCell(w: nat, right: bool, s: string, u: Unicode): (c: string)
    requires StrWidth(s, u) <= w
  {
    var pad := w - StrWidth(s, u);
    if right then " " + Repeat(' ', pad) + s + " " else " " + s + Repeat(' ', pad) + " "
  }

  function FmtCells(widths: seq<nat>, al: seq<Align>, row: seq<string>, u: Unicode, i: nat): (cs: seq<string>)
    requires i <= |row| && Fits(widths, row, u)
    ensures |cs| == |row| - i
    decreases |row| - i
  {
    if i == |row| then [] else [FmtCell(widths[i], RightAt(al, i), row[i], u)] + FmtCells(widths, al, row, u, i + 1)
  }

  /** `fmt_row`. */
  function FmtRow(widths: seq<nat>, al: seq<Align>, row: seq<string>, u: Unicode): (r: string)
    requires Fits(widths, row, u)
    ensures |r| >= 2 && r[0] == '|' && r[|r| - 1] == '|'
  {
    "|" + Join(FmtCells(widths, al, row, u, 0), "|") + "|"
  }

  function DashRuns(widths: seq<nat>): (rs: seq<string>)
    ensures |rs| == |widths|
  {
    if widths == [] then [] else [Repeat('-', widths[0] + 2)] + DashRuns(widths[1..])
  }

  /** `sep`: a run of `w + 2` dashes per column between `+` signs. */
  function Separator(widths: seq<nat>): (r: string)
    ensures |r| >= 2 && r[0] == '+' && r[|r| - 1] == '+'
  {
    "+" + Join(DashRuns(widths), "+") + "+"
  }

  /** The data rows, formatted. */
  function RowLines(widths: seq<nat>, al: seq<Align>, data: seq<seq<string>>, u: Unicode): (ls: seq<string>)
    requires forall k :: 0 <= k < |data| ==> Fits(widths, data[k], u)
    ensures |ls| == |data|
  {
    if data == [] then [] else RowLines(widths, al, data[..|data| - 1], u) + [FmtRow(widths, al, data[|data| - 1], u)]
  }

  /** Every heading and cell fits the computed widths. */
  lemma AllFit(headings: seq<string>, data: seq<seq<string>>, u: Unicode)
    requires Narrow(headings, data)
    ensures var w := ColumnWidths(headings, data, u);
      Fits(w, headings, u) && forall k :: 0 <= k < |data| ==> Fits(w, data[k], u)
  {
    forall i | 0 <= i < |headings| {
      WidthIsMax(headings, data, i, u);
    }
  }

  /** The lines `render` joins: separator, header, separator, the rows; then
      separator and header again when there are rows and the header is to be
      repeated; and a closing separator. */
  function TableLines(headings: seq<string>, data: seq<seq<string>>, al: seq<Align>, repeatHeader: bool, u: Unicode): (ls: seq<string>)
    requires Narrow(headings, data)
    ensures |ls| == |data| + 4 + (if data != [] && repeatHeader then 2 else 0)
    ensures ls[0] == ls[2] == ls[|ls| - 1]
  {
    AllFit(headings, data, u);
    var w := ColumnWidths(headings, data, u);
    var sep := Separator(w);
    var head := FmtRow(w, al, headings, u);
    [sep, head, sep] + RowLines(w, al, data, u) + (if data != [] && repeatHeader then [sep, head] else []) + [sep]
  }

  function DataOf(rows: Option<seq<seq<string>>>): seq<seq<string>>
  {
    match rows
    case Some(d) => d
    case None => []
  }

  /** `render`: `None` where the width loop raises; otherwise the table's
      lines joined by newlines. */
  method Render(headings: seq<string>, rows: Option<seq<seq<string>>>, align: Option<seq<Align>>, repeatHeaderAtBottom: bool, u: Unicode)
    returns (table: Option<string>)
    ensures table.None? <==> !Narrow(headings, DataOf(rows))
    ensures table.Some? ==> table.value == Join(TableLines(headings, DataOf(rows), AlignOf(align, |headings|), repeatHeaderAtBottom, u), "\n")
  {
    var data := DataOf(rows);
    var al := AlignOf(align, |headings|);
    var widths := ComputeWidths(headings, data, u);
    if widths.None? {
      return None;
    }
    var w := widths.value;
    AllFit(headings, data, u);
    var sep := Separator(w);
    var body := FormatRows(w, al, data, u);
    var out := [sep, FmtRow(w, al, headings, u), sep] + body;
    if |data| > 0 && repeatHeaderAtBottom {
      out := out + [sep, FmtRow(w, al, headings, u)];
    }
    out := out + [sep];
    assert out == TableLines(headings, data, al, repeatHeaderAtBottom, u);
    return Some(Join(out, "\n"));
  }

  /** The `rows.each` loop of `render`: one formatted line per data row. */
  method FormatRows(w: seq<nat>, al: seq<Align>, data: seq<seq<string>>, u: Unicode) returns (lines: seq<string>)
    requires forall k :: 0 <= k < |data| ==> Fits(w, data[k], u)
    ensures lines == RowLines(w, al, data, u)
  {
    lines := [];
    var r := 0;
    while r < |data|
      invariant 0 <= r <= |data|
      invariant lines == RowLines(w, al, data[..r], u)
    {
      assert data[..r + 1][..r] == data[..r];
      lines := lines + [FmtRow(w, al, data[r], u)];
      r := r + 1;
    }
    assert data[..r] == data;
  }

  // ---------------------------------------------------------------- layout

  /** Line order: the first, third and last lines are the separator, the
      second the header, then one line per row, and the header repeated
      before the closing separator exactly when asked for and there are rows. */
  lemma TableShape(headings: seq<string>, data: seq<seq<string>>, al: seq<Align>, repeatHeader: bool, u: Unicode)
    requires Narrow(headings, data)
    ensures var ls := TableLines(headings, data, al, repeatHeader, u);
      var w := ColumnWidths(headings, data, u);
      var extra := if data != [] && repeatHeader then 2 else 0;
      Fits(w, headings, u)
      && |ls| == 4 + |data| + extra
      && ls[0] == ls[2] == ls[|ls| - 1] == Separator(w)
      && ls[1] == FmtRow(w, al, headings, u)
      && (forall k :: 0 <= k < |data| ==> Fits(w, data[k], u) && ls[3 + k] == FmtRow(w, al, data[k], u))
      && (extra == 2 ==> ls[3 + |data|] == Separator(w) && ls[4 + |data|] == FmtRow(w, al, headings, u))
  {
    AllFit(headings, data, u);
    var w := ColumnWidths(headings, data, u);
    RowLinesAt(w, al, data, u);
  }

  lemma {:induction false} RowLinesAt(widths: seq<nat>, al: seq<Align>, data: seq<seq<string>>, u: Unicode)
    requires forall k :: 0 <= k < |data| ==> Fits(widths, data[k], u)
    ensures forall k :: 0 <= k < |data| ==> RowLines(widths, al, data, u)[k] == FmtRow(widths, al, data[k], u)
  {
    if data != [] {
      var init := data[..|data| - 1];
      assert forall k :: 0 <= k < |init| ==> init[k] == data[k];
      RowLinesAt(widths, al, init, u);
    }
  }

  /** Omitting the alignment is the same as asking for left alignment
      everywhere. */
  lemma AlignDefaultsLeft(headings: seq<string>, data: seq<seq<string>>, repeatHeader: bool, u: Unicode)
    requires Narrow(headings, data)
    ensures TableLines(headings, data, AlignOf(None, |headings|), repeatHeader, u)
         == TableLines(headings, data, seq(|headings|, _ => Left), repeatHeader, u)
  {
  }

  /** The table's width in columns: `sum(widths) + 3 * cols + 1`, or 2 for
      the degenerate table without columns. */
  function TableWidth(widths: seq<nat>): nat
  {
    if widths == [] then 2 else Sum(widths) + 3 * |widths| + 1
  }

  function Sum(ws: seq<nat>): nat
  {
    if ws == [] then 0 else ws[0] + Sum(ws[1..])
  }

  /** A padded cell shows as its column width plus the two spaces: the pad
      makes up the difference between the text's width and the column's, on
      the side away from the alignment. */
  lemma CellLayout(w: nat, right: bool, s: string, u: Unicode)
    requires StrWidth(s, u) <= w
    ensures var c := FmtCell(w, right, s, u);
      |c| - |s| + StrWidth(s, u) == w + 2
      && (right ==> c == Repeat(' ', w + 1 - StrWidth(s, u)) + s + " ")
      && (!right ==> c == " " + s + Repeat(' ', w + 1 - StrWidth(s, u)))
  {
    var pad := w - StrWidth(s, u);
    assert " " + Repeat(' ', pad) == Repeat(' ', pad + 1);
    assert Repeat(' ', pad) + " " == Repeat(' ', pad + 1);
  }

  /** How wide a formatted row shows in a terminal: its bars and padding
      count a column each, each cell's text its `str_width`. */
  function RowShown(widths: seq<nat>, al: seq<Align>, row: seq<string>, u: Unicode): nat
    requires Fits(widths, row, u)
  {
    if row == [] then 2 else CellsShown(widths, al, row, u, 0) + |row| + 1
  }

  function CellsShown(widths: seq<nat>, al: seq<Align>, row: seq<string>, u: Unicode, i: nat): (n: nat)
    requires i <= |row| && Fits(widths, row, u)
    ensures |row| == |widths| ==> n == SumFrom(widths, i) + 2 * (|row| - i)
    decreases |row| - i
  {
    if i == |row| then 0 else CellShown(widths[i], RightAt(al, i), row[i], u) + CellsShown(widths, al, row, u, i + 1)
  }

  /** A padded cell's padding characters plus its text's width: the column
      width and the two spaces, whatever the alignment. */
  function CellShown(w: nat, right: bool, s: string, u: Unicode): (n: nat)
    requires StrWidth(s, u) <= w
    ensures n == w + 2
  {
    CellLayout(w, right, s, u);
    |FmtCell(w, right, s, u)| - |s| + StrWidth(s, u)
  }

  function SumFrom(ws: seq<nat>, i: nat): nat
    requires i <= |ws|
    decreases |ws| - i
  {
    if i == |ws| then 0 else ws[i] + SumFrom(ws, i + 1)
  }

  lemma {:induction false} SumFromZero(ws: seq<nat>, i: nat)
    requires i <= |ws|
    ensures SumFrom(ws, i) == Sum(ws[i..])
    decreases |ws| - i
  {
    if i < |ws| {
      SumFromZero(ws, i + 1);
      assert ws[i..][1..] == ws[i + 1..];
    }
  }

  /** A full row shows exactly as wide as the table. */
  lemma RowShownIsTableWidth(widths: seq<nat>, al: seq<Align>, row: seq<string>, u: Unicode)
    requires |row| == |widths| && Fits(widths, row, u)
    ensures RowShown(widths, al, row, u) == TableWidth(widths)
  {
    if row != [] {
      SumFromZero(widths, 0);
      assert widths[0..] == widths;
    }
  }

  /** The separator is made of `+` and `-` only, each a column wide, and is
      exactly as wide as the table. */
  lemma {:induction false} SeparatorWidth(widths: seq<nat>)
    ensures |Separator(widths)| == TableWidth(widths)
    ensures forall k :: 0 <= k < |Separator(widths)| ==> Separator(widths)[k] in {'+', '-'}
  {
    DashRunsJoin(widths);
  }

  lemma {:induction false} DashRunsJoin(widths: seq<nat>)
    ensures var j := Join(DashRuns(widths), "+");
      (widths == [] ==> j == [])
      && (widths != [] ==> |j| == Sum(widths) + 3 * |widths| - 1)
      && forall k :: 0 <= k < |j| ==> j[k] in {'+', '-'}
  {
    if |widths| >= 2 {
      DashRunsJoin(widths[1..]);
      JoinCons(Repeat('-', widths[0] + 2), DashRuns(widths[1..]), "+");
      assert DashRuns(widths) == [Repeat('-', widths[0] + 2)] + DashRuns(widths[1..]);
    } else if |widths| == 1 {
      assert DashRuns(widths) == [Repeat('-', widths[0] + 2)];
      assert widths[1..] == [];
    }
  }

  /** Given rows with one cell per heading, every line of the table shows at
      the same width: the separators by their length, the header and rows
      by `RowShown`. */
  lemma LinesAlign(headings: seq<string>, data: seq<seq<string>>, al: seq<Align>, u: Unicode)
    requires forall k :: 0 <= k < |data| ==> |data[k]| == |headings|
    ensures Narrow(headings, data)
    ensures var w := ColumnWidths(headings, data, u);
      Fits(w, headings, u)
      && |Separator(w)| == TableWidth(w)
      && RowShown(w, al, headings, u) == TableWidth(w)
      && forall k :: 0 <= k < |data| ==> Fits(w, data[k], u) && RowShown(w, al, data[k], u) == TableWidth(w)
  {
    AllFit(headings, data, u);
    var w := ColumnWidths(headings, data, u);
    SeparatorWidth(w);
    RowShownIsTableWidth(w, al, headings, u);
    forall k | 0 <= k < |data|
      ensures RowShown(w, al, data[k], u) == TableWidth(w)
    {
      RowShownIsTableWidth(w, al, data[k], u);
    }
  }
}
