// The paged export of one conversation: the messages the projection shows,
// cut into pages of a fixed size, and the manifest that lists the pages.

module PagedExport {
  import opened Str
  import opened AttachmentUtil
  import Messages
  import Project
  import TimeUtil
  import ExportConversation

  /** The chat record the generator is given. */
  datatype ChatInfo = ChatInfo(displayName: Option<string>, displayNameFull: Option<string>, isGroup: bool,
                               participantHandles: seq<string>)

  /** `[page_size.to_i, 1].max`. */
  function PageSize(requested: int): (p: nat)
    ensures p >= 1 && p >= requested
    ensures requested >= 1 ==> p == requested
  {
    if requested >= 1 then requested else 1
  }

  /** The display name that headers and the manifest use: the stripped full
      name when it is not blank, else the stripped display name, else
      `Messages`. */
  function EffectiveName(chat: ChatInfo): (r: string)
    ensures Strip(r) == r
    ensures chat.displayNameFull.Some? && Strip(chat.displayNameFull.value) != [] ==> r == Strip(chat.displayNameFull.value)
  {
    var full := chat.displayNameFull;
    var r := if full.Some? && Strip(full.value) != [] then Strip(full.value) else Strip(OrElse(chat.displayName, "Messages"));
    StripFixed(r);
    r
  }

  /** Without a usable full name the display name is used; without either,
      `Messages`. */
  lemma EffectiveNameFallback(chat: ChatInfo)
    requires chat.displayNameFull.None? || IsBlank(chat.displayNameFull.value)
    ensures chat.displayName.Some? ==> EffectiveName(chat) == Strip(chat.displayName.value)
    ensures chat.displayName.None? ==> EffectiveName(chat) == "Messages"
  {
    if chat.displayNameFull.Some? {
      StripEmptyIffBlank(chat.displayNameFull.value);
    }
    if chat.displayName.None? {
      StripFixed("Messages");
      assert !IsStripChar('M');
      assert "Messages"[0] == 'M' && "Messages"[7] == 's';
    }
  }

  // ---------------------------------------------------------------- renderables

  /** `Message.project` for the rows of one chat: each row with its own
      attachment records. */
  function Projector(amap: map<int, seq<RawAttachment>>, isGroup: bool, friendly: Option<map<string, string>>,
                     now: real, c: TimeUtil.Clock): Messages.Row -> Project.Projected
  {
    (m: Messages.Row) => Project.ProjectMessage(Some(m), Some(Project.AttachmentsOf(amap, m.messageId)), isGroup, friendly, now, c)
  }

  /** The `filter_map` of `write`: rows marked `skip_render` are passed
      over, the others projected; the shown ones are kept in order, and
      the result is `None` when the projection raises on one of them. */
  function Renderables(ms: seq<Messages.Row>, project: Messages.Row -> Project.Projected): (r: Option<seq<Project.Message>>)
    ensures r.Some? ==> |r.value| <= |ms|
  {
    if ms == [] then Some([])
    else
      var init := Renderables(ms[..|ms| - 1], project);
      var m := ms[|ms| - 1];
      if init.None? || m.skipRender then init
      else match project(m)
        case Skipped => init
        case Unparsable => None
        case Shown(x) => Some(init.value + [x])
  }

  /** A row that ends up on a page. */
  predicate Shown(m: Messages.Row, project: Messages.Row -> Project.Projected)
  {
    !m.skipRender && project(m).Shown?
  }

  /** The ids of the rows that end up on a page, in order. */
  function ShownIds(ms: seq<Messages.Row>, project: Messages.Row -> Project.Projected): (ids: seq<int>)
    ensures |ids| <= |ms|
  {
    if ms == [] then []
    else ShownIds(ms[..|ms| - 1], project) + (if Shown(ms[|ms| - 1], project) then [ms[|ms| - 1].messageId] else [])
  }

  function MessageIds(xs: seq<Project.Message>): (ids: seq<int>)
    ensures |ids| == |xs| && forall k :: 0 <= k < |xs| ==> ids[k] == xs[k].messageId
  {
    if xs == [] then [] else MessageIds(xs[..|xs| - 1]) + [xs[|xs| - 1].messageId]
  }

  /** The projection keeps each row's id. */
  lemma ProjectorKeepsIds(amap: map<int, seq<RawAttachment>>, isGroup: bool, friendly: Option<map<string, string>>,
                          now: real, c: TimeUtil.Clock, m: Messages.Row)
    ensures var p := Projector(amap, isGroup, friendly, now, c)(m); p.Shown? ==> p.message.messageId == m.messageId
  {
  }

  /** The pages hold the projections of exactly the shown rows, in the
      rows' order. */
  lemma {:induction false} RenderablesKeepOrder(ms: seq<Messages.Row>, amap: map<int, seq<RawAttachment>>, isGroup: bool,
                                                friendly: Option<map<string, string>>, now: real, c: TimeUtil.Clock)
    requires Renderables(ms, Projector(amap, isGroup, friendly, now, c)).Some?
    ensures var project := Projector(amap, isGroup, friendly, now, c);
      MessageIds(Renderables(ms, project).value) == ShownIds(ms, project)
    decreases |ms|
  {
    if ms != [] {
      var project := Projector(amap, isGroup, friendly, now, c);
      var init := ms[..|ms| - 1];
      var m := ms[|ms| - 1];
      RenderablesKeepOrder(init, amap, isGroup, friendly, now, c);
      if Shown(m, project) {
        var xs := Renderables(init, project).value;
        var x := project(m).message;
        ProjectorKeepsIds(amap, isGroup, friendly, now, c, m);
        assert MessageIds(xs + [x]) == MessageIds(xs) + [m.messageId] by {
          assert (xs + [x])[..|xs|] == xs;
        }
      }
    }
  }

  /** `write` raises exactly when the projection raises on a row not marked
      `skip_render`. */
  lemma {:induction false} RenderablesFail(ms: seq<Messages.Row>, project: Messages.Row -> Project.Projected)
    ensures Renderables(ms, project).None? <==>
      exists k :: 0 <= k < |ms| && !ms[k].skipRender && project(ms[k]).Unparsable?
    decreases |ms|
  {
    if ms != [] {
      var init := ms[..|ms| - 1];
      RenderablesFail(init, project);
      assert forall k :: 0 <= k < |init| ==> init[k] == ms[k];
    }
  }

  /** How many rows end up on a page. */
  function ShownCount(ms: seq<Messages.Row>, project: Messages.Row -> Project.Projected): (n: nat)
  {
    if ms == [] then 0 else ShownCount(ms[..|ms| - 1], project) + (if Shown(ms[|ms| - 1], project) then 1 else 0)
  }

  lemma {:induction false} RenderablesCount(ms: seq<Messages.Row>, project: Messages.Row -> Project.Projected)
    requires Renderables(ms, project).Some?
    ensures |Renderables(ms, project).value| == ShownCount(ms, project)
    decreases |ms|
  {
    if ms != [] {
      RenderablesCount(ms[..|ms| - 1], project);
    }
  }

  /** Without `skip_render` rows, the pages hold as many messages as the
      library index's `renderables_count` counts for the thread. */
  lemma {:induction false} TotalMatchesIndexCount(ms: seq<Messages.Row>, amap: map<int, seq<RawAttachment>>, isGroup: bool,
                                                  friendly: Option<map<string, string>>, now: real, c: TimeUtil.Clock)
    requires Renderables(ms, Projector(amap, isGroup, friendly, now, c)).Some?
    requires forall k :: 0 <= k < |ms| ==> !ms[k].skipRender
    ensures |Renderables(ms, Projector(amap, isGroup, friendly, now, c)).value| == ExportConversation.RenderableCount(ms, amap)
  {
    var project := Projector(amap, isGroup, friendly, now, c);
    RenderablesCount(ms, project);
    RenderablesFail(ms, project);
    ShownCountIsIndexCount(ms, amap, isGroup, friendly, now, c);
  }

  lemma {:induction false} ShownCountIsIndexCount(ms: seq<Messages.Row>, amap: map<int, seq<RawAttachment>>, isGroup: bool,
                                                  friendly: Option<map<string, string>>, now: real, c: TimeUtil.Clock)
    requires forall k :: 0 <= k < |ms| ==> !ms[k].skipRender && !Projector(amap, isGroup, friendly, now, c)(ms[k]).Unparsable?
    ensures ShownCount(ms, Projector(amap, isGroup, friendly, now, c)) == ExportConversation.RenderableCount(ms, amap)
    decreases |ms|
  {
    if ms != [] {
      var init := ms[..|ms| - 1];
      assert forall k :: 0 <= k < |init| ==> init[k] == ms[k];
      ShownCountIsIndexCount(init, amap, isGroup, friendly, now, c);
    }
  }

  // ---------------------------------------------------------------- pages

  /** One entry of the manifest's `chunks`. */
  datatype Chunk = Chunk(file: string, fileJs: string, index: nat, count: nat,
                         startTs: Option<string>, endTs: Option<string>, startId: int, endId: int)

  /** `page-%04d` followed by `ext`. */
  function PageFile(index: nat, ext: string): string
  {
    "page-" + Pad4(index) + ext
  }

  /** The chunk record of the page `slice`, numbered `index`. */
  function ChunkFor(slice: seq<Project.Message>, index: nat): (k: Chunk)
    requires slice != []
    ensures k.count == |slice| && k.index == index
  {
    Chunk("messages/" + PageFile(index, ".json"), "messages/" + PageFile(index, ".js"), index, |slice|,
          slice[0].sentAtLocal, slice[|slice| - 1].sentAtLocal, slice[0].messageId, slice[|slice| - 1].messageId)
  }

  function Flatten<T>(pages: seq<seq<T>>): (r: seq<T>)
  {
    if pages == [] then [] else Flatten(pages[..|pages| - 1]) + pages[|pages| - 1]
  }

  /** The slices of `each_slice(size)`: none empty, none longer than `size`,
      all but the last exactly `size` long. */
  predicate Sliced<T>(pages: seq<seq<T>>, size: nat)
  {
    forall i :: 0 <= i < |pages| ==> 0 < |pages[i]| <= size && (i < |pages| - 1 ==> |pages[i]| == size)
  }

  /** The chunk loop of `write`: the pages in order, and one chunk record
      for each, numbered from 1. */
  /** `pages` cut `rs` into `each_slice(size)` order, and `chunks`
      describes them, numbered from 1. */
  predicate Paged(rs: seq<Project.Message>, pages: seq<seq<Project.Message>>, chunks: seq<Chunk>, size: nat)
  {
    Flatten(pages) == rs && Sliced(pages, size) && Described(pages, chunks)
  }

  /** `chunks` holds the record of each page, numbered from 1. */
  predicate Described(pages: seq<seq<Project.Message>>, chunks: seq<Chunk>)
  {
    |chunks| == |pages| && forall i :: 0 <= i < |pages| ==> pages[i] != [] && chunks[i] == ChunkFor(pages[i], i + 1)
  }

  lemma DescribedStep(pages: seq<seq<Project.Message>>, chunks: seq<Chunk>, slice: seq<Project.Message>)
    requires Described(pages, chunks) && slice != []
    ensures Described(pages + [slice], chunks + [ChunkFor(slice, |pages| + 1)])
  {
  }

  method WritePages(rs: seq<Project.Message>, size: nat) returns (chunks: seq<Chunk>, pages: seq<seq<Project.Message>>)
    requires size >= 1
    ensures Paged(rs, pages, chunks, size)
  {
    chunks, pages := [], [];
    var start := 0;
    while start < |rs|
      invariant start <= |rs| && Flatten(pages) == rs[..start] && Sliced(pages, size)
      invariant start < |rs| && pages != [] ==> |pages[|pages| - 1]| == size
      invariant Described(pages, chunks)
      decreases |rs| - start
    {
      var end := if start + size <= |rs| then start + size else |rs|;
      var slice := rs[start..end];
      DescribedStep(pages, chunks, slice);
      chunks := chunks + [ChunkFor(slice, |pages| + 1)];
      SliceStep(pages, slice, size);
      assert rs[..start] + rs[start..end] == rs[..end];
      pages := pages + [slice];
      start := end;
    }
    assert rs[..|rs|] == rs;
  }

  lemma SliceStep<T>(pages: seq<seq<T>>, slice: seq<T>, size: nat)
    requires Sliced(pages, size) && (pages != [] ==> |pages[|pages| - 1]| == size) && 0 < |slice| <= size
    ensures Sliced(pages + [slice], size) && Flatten(pages + [slice]) == Flatten(pages) + slice
  {
    assert (pages + [slice])[..|pages|] == pages;
  }

  function Counts(chunks: seq<Chunk>): nat
  {
    if chunks == [] then 0 else Counts(chunks[..|chunks| - 1]) + chunks[|chunks| - 1].count
  }

  /** The chunk counts add up to the manifest's `total_messages`. */
  lemma {:induction false} CountsAddUp(rs: seq<Project.Message>, pages: seq<seq<Project.Message>>, chunks: seq<Chunk>)
    requires Flatten(pages) == rs
    requires |chunks| == |pages| && forall i :: 0 <= i < |pages| ==> pages[i] != [] && chunks[i] == ChunkFor(pages[i], i + 1)
    ensures Counts(chunks) == |rs|
    decreases |pages|
  {
    if pages != [] {
      var n := |pages| - 1;
      var init := Flatten(pages[..n]);
      assert pages[..n][..|pages[..n]|] == pages[..n];
      CountsAddUp(init, pages[..n], chunks[..n]);
    }
  }

  /** `ceil(n / size)`: the number of `size`-message pages that hold `n`
      messages. */
  function PagesNeeded(n: nat, size: nat): nat
    requires size >= 1
  {
    (n + size - 1) / size
  }

  /** There are as many pages as it takes to hold all the messages. */
  lemma PageCount<T>(pages: seq<seq<T>>, size: nat)
    requires size >= 1 && Sliced(pages, size)
    ensures |pages| == PagesNeeded(|Flatten(pages)|, size)
  {
    if pages != [] {
      var n := |pages| - 1;
      assert Sliced(pages[..n], size);
      FullPages(pages[..n], size);
      DivStep(n, size, |pages[n]|);
    } else {
      assert PagesNeeded(0, size) == 0 by { DivOf(0, size - 1, size); }
    }
  }

  /** Pages that are all full hold `size` messages each. */
  lemma {:induction false} FullPages<T>(pages: seq<seq<T>>, size: nat)
    requires forall i :: 0 <= i < |pages| ==> |pages[i]| == size
    ensures |Flatten(pages)| == |pages| * size
    decreases |pages|
  {
    if pages != [] {
      FullPages(pages[..|pages| - 1], size);
    }
  }

  lemma DivStep(n: nat, size: nat, last: nat)
    requires size >= 1 && 0 < last <= size
    ensures PagesNeeded(n * size + last, size) == n + 1
  {
    assert n * size + last + size - 1 == (n + 1) * size + (last - 1);
    DivOf(n + 1, last - 1, size);
  }

  lemma DivOf(q: nat, r: nat, size: nat)
    requires size >= 1 && r < size
    ensures (q * size + r) / size == q
  {
    var x := q * size + r;
    var d, m := x / size, x % size;
    assert x == d * size + m;
    assert (d - q) * size == r - m;
    if d > q {
      MulAtLeast(d - q, size);
    } else if d < q {
      MulAtLeast(q - d, size);
    }
  }

  lemma MulAtLeast(a: int, b: int)
    requires a >= 1 && b >= 0
    ensures a * b >= b
  {
  }

  /** Page numbers are zero-padded and distinct, so no two pages share a
      file name. */
  lemma PageFilesDistinct(i: nat, j: nat, ext: string)
    requires PageFile(i, ext) == PageFile(j, ext)
    ensures i == j
  {
    var a, b := PageFile(i, ext), PageFile(j, ext);
    assert |Pad4(i)| == |a| - 5 - |ext| == |Pad4(j)|;
    assert Pad4(i) == a[5..|a| - |ext|] == Pad4(j);
  }

  /** A page's script wrapper is named by replacing its `.json` ending with
      `.js`. */
  lemma ScriptNameOfPage(index: nat)
    ensures EndsWith(PageFile(index, ".json"), ".json")
    ensures PageFile(index, ".json")[..|PageFile(index, ".json")| - 5] + ".js" == PageFile(index, ".js")
  {
    var base := "page-" + Pad4(index);
    assert PageFile(index, ".json") == base + ".json";
    assert (base + ".json")[..|base|] == base;
  }

  // ---------------------------------------------------------------- generator

  /** `manifest.json`. */
  datatype Manifest = Manifest(displayName: Option<string>, isGroup: bool, participantHandles: seq<string>,
                               displayNameFull: Option<string>, displayNameEffective: string,
                               totalMessages: nat, pageSize: nat, chunks: seq<Chunk>, flip: bool,
                               attachmentsIncluded: bool, friendlyNames: map<string, string>)

  datatype Output = Output(manifest: Manifest, pages: seq<seq<Project.Message>>)

  /** `PagedExportGenerator`: the chat, its rows and their attachment
      records, and the options fixed when it is made. */
  class Generator {
    const chat: ChatInfo
    const messages: seq<Messages.Row>
    const attachments: map<int, seq<RawAttachment>>
    const pageSize: nat
    const flip: bool
    const attachmentsIncluded: bool
    const friendlyNames: map<string, string>

    constructor(chat: ChatInfo, messages: seq<Messages.Row>, attachments: map<int, seq<RawAttachment>>,
                pageSize: int, flip: bool, attachmentsIncluded: bool, friendlyNames: Option<map<string, string>>)
      ensures this.chat == chat && this.messages == messages && this.attachments == attachments
      ensures this.pageSize == PageSize(pageSize) && this.flip == flip && this.attachmentsIncluded == attachmentsIncluded
      ensures this.friendlyNames == OrElse(friendlyNames, map[])
    {
      this.chat := chat;
      this.messages := messages;
      this.attachments := attachments;
      this.pageSize := PageSize(pageSize);
      this.flip := flip;
      this.attachmentsIncluded := attachmentsIncluded;
      this.friendlyNames := OrElse(friendlyNames, map[]);
    }

    /** The projection `write` applies to this chat's rows. */
    function Projection(now: real, clock: TimeUtil.Clock): Messages.Row -> Project.Projected
      reads this
    {
      Projector(attachments, chat.isGroup, Some(friendlyNames), now, clock)
    }

    /** What `write` puts in `messages/` and `manifest.json`, with the
        current time and the local clock as parameters; `None` when the
        projection raises. */
    method Write(now: real, clock: TimeUtil.Clock) returns (out: Option<Output>)
      requires pageSize >= 1
      ensures out.None? <==> Renderables(messages, Projection(now, clock)).None?
      ensures out.Some? ==> var rs := Renderables(messages, Projection(now, clock)).value;
        Paged(rs, out.value.pages, out.value.manifest.chunks, pageSize) &&
        out.value.manifest.totalMessages == |rs| && Counts(out.value.manifest.chunks) == |rs| &&
        |out.value.pages| == PagesNeeded(|rs|, pageSize)
      ensures out.Some? ==> var m := out.value.manifest;
        m.pageSize == pageSize && m.displayNameEffective == EffectiveName(chat) &&
        m.displayName == chat.displayName && m.displayNameFull == chat.displayNameFull &&
        m.isGroup == chat.isGroup && m.participantHandles == chat.participantHandles &&
        m.flip == flip && m.attachmentsIncluded == attachmentsIncluded && m.friendlyNames == friendlyNames
    {
      var rs := Renderables(messages, Projection(now, clock));
      if rs.None? {
        return None;
      }
      var chunks, pages := WritePages(rs.value, pageSize);
      PageCount(pages, pageSize);
      CountsAddUp(rs.value, pages, chunks);
      var m := Manifest(chat.displayName, chat.isGroup, chat.participantHandles, chat.displayNameFull, EffectiveName(chat),
                        |rs.value|, pageSize, chunks, flip, attachmentsIncluded, friendlyNames);
      out := Some(Output(m, pages));
    }
  }
}
