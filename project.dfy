// The projection of one fetched message row, and its attachment records,
// into the render-ready record every exporter shares: hidden attachments
// dropped, placeholder rows skipped, payments detected, the time labels,
// the author label of group chats, and the linkified text.

module Project {
  import opened Str
  import opened AttachmentUtil
  import TextUtil
  import TimeUtil
  import HandleUtil
  import Messages

  // ---------------------------------------------------------------- attachments

  /** A render-ready attachment: the raw columns, a definite kind and a
      strict `missing` flag. */
  datatype Attachment = Attachment(guid: Option<string>, filename: Option<string>, transferName: Option<string>,
                                   mimeType: Option<string>, width: Option<int>, height: Option<int>,
                                   kind: string, missing: bool)

  /** `Attachment.project`: nil stays nil; a kind already set is kept, else
      it is inferred from the MIME type and the transfer name or file name;
      `missing` is true exactly when the raw flag is. */
  function ProjectAttachment(raw: Option<RawAttachment>): (a: Option<Attachment>)
    ensures raw.None? <==> a.None?
    ensures a.Some? ==> var r, x := raw.value, a.value;
      x.guid == r.guid && x.filename == r.filename && x.transferName == r.transferName &&
      x.mimeType == r.mimeType && x.width == r.width && x.height == r.height &&
      (x.missing <==> r.missing == Some(true)) &&
      (r.kind.Some? ==> x.kind == r.kind.value) &&
      (r.kind.None? ==> x.kind == "image" || x.kind == "video" || x.kind == "audio" || x.kind == "file")
  {
    match raw
    case None => None
    case Some(r) =>
      var kind := if r.kind.Some? then r.kind.value
                  else KindFor(r.mimeType, if r.transferName.Some? then r.transferName else r.filename);
      Some(Attachment(r.guid, r.filename, r.transferName, r.mimeType, r.width, r.height, kind,
                      r.missing == Some(true)))
  }

  /** A projected attachment read back as a raw record. */
  function AsRaw(a: Attachment): RawAttachment
  {
    RawAttachment(a.guid, a.filename, a.transferName, a.mimeType, a.width, a.height, Some(a.kind), Some(a.missing))
  }

  /** Projecting is idempotent: a projected record projects to itself. */
  lemma ProjectAttachmentIdempotent(a: Attachment)
    ensures ProjectAttachment(Some(AsRaw(a))) == Some(a)
  {
  }

  /** Without a kind, the kind comes from the transfer name when there is
      one and from the file name otherwise. */
  lemma InferredKind(r: RawAttachment)
    requires r.kind.None?
    ensures r.transferName.Some? ==> ProjectAttachment(Some(r)).value.kind == KindFor(r.mimeType, r.transferName)
    ensures r.transferName.None? ==> ProjectAttachment(Some(r)).value.kind == KindFor(r.mimeType, r.filename)
  {
  }

  /** `visible_atts`: the attachments `hide?` keeps, in their order. */
  function Visible(atts: seq<Option<RawAttachment>>): (v: seq<Option<RawAttachment>>)
    ensures |v| <= |atts|
    ensures forall k :: 0 <= k < |v| ==> !Hide(v[k])
  {
    if atts == [] then [] else (if Hide(atts[0]) then [] else [atts[0]]) + Visible(atts[1..])
  }

  /** An attachment is kept exactly when it is listed and not hidden. */
  lemma {:induction false} VisibleMembers(atts: seq<Option<RawAttachment>>, x: Option<RawAttachment>)
    ensures x in Visible(atts) <==> x in atts && !Hide(x)
    decreases |atts|
  {
    if atts != [] {
      VisibleMembers(atts[1..], x);
      assert atts == [atts[0]] + atts[1..];
    }
  }

  /** Filtering keeps the order: it distributes over concatenation. */
  lemma {:induction false} VisibleAppend(a: seq<Option<RawAttachment>>, b: seq<Option<RawAttachment>>)
    ensures Visible(a + b) == Visible(a) + Visible(b)
    decreases |a|
  {
    if a == [] {
      assert a + b == b;
    } else {
      assert (a + b)[1..] == a[1..] + b;
      VisibleAppend(a[1..], b);
    }
  }

  function ProjectAll(atts: seq<Option<RawAttachment>>): (r: seq<Option<Attachment>>)
    ensures |r| == |atts| && forall k :: 0 <= k < |atts| ==> r[k] == ProjectAttachment(atts[k])
  {
    if atts == [] then [] else [ProjectAttachment(atts[0])] + ProjectAll(atts[1..])
  }

  // ---------------------------------------------------------------- visibility

  /** The skip rule: no text once stripped, no visible attachment, no
      associated message, and either a non-zero item type or a system
      message. */
  predicate Invisible(row: Messages.Row, visible: seq<Option<RawAttachment>>): (r: bool)
    ensures r ==> visible == [] && (row.assocGuid.None? || row.assocGuid.value == [])
    ensures row.text.Some? && row.text.value != [] && !IsStripChar(row.text.value[0]) ==> !r
    ensures row.itemType == 0 && row.isSystemMessage != 1 ==> !r
  {
    Strip(OrElse(row.text, [])) == [] && visible == [] && OrElse(row.assocGuid, []) == [] &&
    (row.itemType != 0 || row.isSystemMessage == 1)
  }

  // ---------------------------------------------------------------- payments

  /** The end of the run of `\s` from `p`. */
  function SpaceEnd(s: string, p: nat): (e: nat)
    requires p <= |s|
    ensures p <= e <= |s| && (e == |s| || !IsSpace(s[e]))
    ensures forall i :: p <= i < e ==> IsSpace(s[i])
    decreases |s| - p
  {
    if p < |s| && IsSpace(s[p]) then SpaceEnd(s, p + 1) else p
  }

  /** The end of the run of `[0-9,]` from `p`. */
  function DigitCommaEnd(s: string, p: nat): (e: nat)
    requires p <= |s|
    ensures p <= e <= |s| && (e == |s| || !(IsDigit(s[e]) || s[e] == ','))
    ensures forall i :: p <= i < e ==> IsDigit(s[i]) || s[i] == ','
    decreases |s| - p
  {
    if p < |s| && (IsDigit(s[p]) || s[p] == ',') then DigitCommaEnd(s, p + 1) else p
  }

  /** `/(applepay|passkit|cash|payment)/i` on the balloon bundle id. */
  predicate BundleIsPayment(bb: string)
  {
    var l := Lower(bb);
    Contains(l, "applepay") || Contains(l, "passkit") || Contains(l, "cash") || Contains(l, "payment")
  }

  /** `/apple\s*cash/i` at `i` of the lower-cased text `l`. */
  predicate AppleCashAt(l: string, i: nat)
  {
    OccursAt(l, "apple", i) && OccursAt(l, "cash", SpaceEnd(l, i + 5))
  }

  predicate MentionsAppleCash(t: string)
  {
    var l := Lower(t);
    exists i: nat | i + 5 <= |l| :: AppleCashAt(l, i)
  }

  /** `is_payment`: the bundle id names a payment extension, or the text
      mentions Apple Cash. */
  predicate IsPayment(row: Messages.Row): (r: bool)
    ensures OrElse(row.balloonBundleId, []) == [] && OrElse(row.text, []) == [] ==> !r
  {
    BundleIsPayment(OrElse(row.balloonBundleId, [])) || MentionsAppleCash(OrElse(row.text, []))
  }

  /** The amount `\$\s*([0-9][0-9,]*(?:\.[0-9]{2})?)` captures at `i`. */
  function AmountAt(t: string, i: nat): (a: Option<string>)
    requires i <= |t|
    ensures a.Some? ==> a.value != [] && IsDigit(a.value[0])
    ensures a.Some? ==> forall k :: 0 <= k < |a.value| ==> IsDigit(a.value[k]) || a.value[k] == ',' || a.value[k] == '.'
  {
    if i < |t| && t[i] == '$' then
      var j := SpaceEnd(t, i + 1);
      if j < |t| && IsDigit(t[j]) then
        var k := DigitCommaEnd(t, j + 1);
        var e := if k + 2 < |t| && t[k] == '.' && IsDigit(t[k + 1]) && IsDigit(t[k + 2]) then k + 3 else k;
        Some(t[j..e])
      else None
    else None
  }

  /** The first match from `i` on. */
  function FirstAmount(t: string, i: nat): (a: Option<string>)
    requires i <= |t|
    ensures a.Some? ==> exists q :: i <= q < |t| && AmountAt(t, q) == a && forall q' :: i <= q' < q ==> AmountAt(t, q').None?
    ensures a.None? <==> forall q :: i <= q <= |t| ==> AmountAt(t, q).None?
  {
    match FirstAmountFrom(t, i)
    case None => None
    case Some(q) => AmountAt(t, q)
  }

  /** Where the first match from `i` on starts. */
  function FirstAmountFrom(t: string, i: nat): (q: Option<nat>)
    requires i <= |t|
    ensures q.Some? ==> i <= q.value < |t| && AmountAt(t, q.value).Some?
    ensures q.Some? ==> forall q' :: i <= q' < q.value ==> AmountAt(t, q').None?
    ensures q.None? ==> forall q' :: i <= q' <= |t| ==> AmountAt(t, q').None?
    decreases |t| - i
  {
    if i == |t| then None
    else if AmountAt(t, i).Some? then Some(i)
    else FirstAmountFrom(t, i + 1)
  }

  /** `payment_amount`: "$" and the first amount written after a dollar
      sign in the raw text; nil without text or without an amount. */
  function PaymentAmount(text: Option<string>): (r: Option<string>)
    ensures r.Some? ==> text.Some? && |r.value| >= 2 && r.value[0] == '$' && IsDigit(r.value[1])
    ensures r.Some? ==> forall k :: 1 <= k < |r.value| ==> IsDigit(r.value[k]) || r.value[k] == ',' || r.value[k] == '.'
    ensures r.Some? ==>
      exists q :: 0 <= q < |text.value| && AmountAt(text.value, q) == Some(r.value[1..]) &&
        forall q' :: 0 <= q' < q ==> AmountAt(text.value, q').None?
    ensures text.Some? ==> (r.None? <==> forall q :: 0 <= q <= |text.value| ==> AmountAt(text.value, q).None?)
  {
    if text.None? then None
    else match FirstAmount(text.value, 0)
      case None => None
      case Some(a) => Some("$" + a)
  }

  /** A dollar sign right before a number of digits and commas is read
      back as that amount. */
  lemma AmountOfNumber(d: string)
    requires d != [] && IsDigit(d[0]) && forall k :: 0 <= k < |d| ==> IsDigit(d[k]) || d[k] == ','
    ensures PaymentAmount(Some("$" + d)) == Some("$" + d)
  {
    var t := "$" + d;
    assert t[1] == d[0];
    assert SpaceEnd(t, 1) == 1;
    DigitCommaRun(t, 2);
    assert t[1..|t|] == d;
  }

  /** A text without a dollar sign has no amount. */
  lemma NoDollarNoAmount(t: string)
    requires '$' !in t
    ensures PaymentAmount(Some(t)) == None
  {
    NoAmountFrom(t, 0);
  }

  lemma {:induction false} NoAmountFrom(t: string, i: nat)
    requires i <= |t| && '$' !in t
    ensures FirstAmount(t, i) == None
    decreases |t| - i
  {
    if i < |t| {
      assert t[i] in t;
      NoAmountFrom(t, i + 1);
    }
  }

  /** Letter case does not matter to the payment test. */
  lemma PaymentIgnoresCase(bb: string, t: string)
    ensures BundleIsPayment(Upper(bb)) == BundleIsPayment(bb)
    ensures MentionsAppleCash(Upper(t)) == MentionsAppleCash(t)
  {
    LowerUpper(bb);
    LowerUpper(t);
  }

  lemma {:induction false} DigitCommaRun(t: string, p: nat)
    requires p <= |t| && forall k :: p <= k < |t| ==> IsDigit(t[k]) || t[k] == ','
    ensures DigitCommaEnd(t, p) == |t|
    decreases |t| - p
  {
    if p < |t| {
      DigitCommaRun(t, p + 1);
    }
  }

  // ---------------------------------------------------------------- labels

  /** `sent_at_label`: the day label and the time, each only when not
      empty, one space between them when both are there. */
  function SentAtLabel(day: string, human: string): (r: string)
    ensures r == day + (if day != [] && human != [] then " " else []) + human
  {
    var parts := (if day != [] then [day] else []) + (if human != [] then [human] else []);
    assert |parts| == 2 ==> parts[1..] == [human];
    Join(parts, " ")
  }

  /** The author shown above a message: only in a group chat and only for
      someone else's message. */
  function AuthorName(isGroup: bool, row: Messages.Row, friendly: Option<map<string, string>>): (r: Option<string>)
    ensures r.Some? <==> isGroup && row.isFromMe != 1
    ensures r.Some? ==> r.value == HandleUtil.ResolveAuthorName(friendly, row.authorHandle)
  {
    if isGroup && row.isFromMe != 1 then Some(HandleUtil.ResolveAuthorName(friendly, row.authorHandle)) else None
  }

  // ---------------------------------------------------------------- messages

  /** The attachment records fetched for a message (`attachments[id] || []`),
      each present. */
  function AttachmentsOf(amap: map<int, seq<RawAttachment>>, id: int): (r: seq<Option<RawAttachment>>)
    ensures id !in amap ==> r == []
    ensures id in amap ==> |r| == |amap[id]| && forall k :: 0 <= k < |r| ==> r[k] == Some(amap[id][k])
  {
    if id in amap then seq(|amap[id]|, k requires 0 <= k < |amap[id]| => Some(amap[id][k])) else []
  }

  /** A render-ready message. */
  datatype Message = Message(
    messageId: int,
    isFromMe: int,
    authorHandle: Option<string>,
    authorName: Option<string>,
    sentAtLocal: Option<string>,
    sentAtIso: string,
    sentAtHuman: string,
    dayLabel: string,
    sentAtLabel: string,
    text: string,
    textHtml: string,
    reactions: seq<Messages.Reaction>,
    attachments: seq<Option<Attachment>>,
    payment: bool,
    paymentAmount: Option<string>)

  /** What `project` does with a row: nil (`Skipped`), a message, or the
      error `Time.parse` raises on a timestamp it cannot read. */
  datatype Projected = Skipped | Unparsable | Shown(message: Message)

  /** `Message.project`, with `now` and the local clock as parameters. */
  function ProjectMessage(row: Option<Messages.Row>, atts: Option<seq<Option<RawAttachment>>>, isGroup: bool,
                          friendly: Option<map<string, string>>, now: real, c: TimeUtil.Clock): (p: Projected)
    ensures row.None? ==> p == Skipped
    ensures row.Some? ==> (p == Skipped <==> Invisible(row.value, Visible(OrElse(atts, []))))
    ensures row.Some? && !Invisible(row.value, Visible(OrElse(atts, []))) ==>
      (p == Unparsable <==> row.value.sentAtLocal.Some? && c.parse(row.value.sentAtLocal.value).None?)
    ensures p.Shown? ==> var r, m := row.value, p.message;
      m.messageId == r.messageId && m.isFromMe == r.isFromMe && m.authorHandle == r.authorHandle &&
      m.sentAtLocal == r.sentAtLocal && m.text == Strip(OrElse(r.text, [])) &&
      m.textHtml == TextUtil.Linkified(Some(m.text)) && m.reactions == OrElse(r.reactions, []) &&
      m.attachments == ProjectAll(Visible(OrElse(atts, []))) &&
      m.payment == IsPayment(r) && m.paymentAmount == PaymentAmount(r.text) &&
      m.authorName == AuthorName(isGroup, r, friendly) &&
      Some(m.dayLabel) == TimeUtil.DayLabel(r.sentAtLocal, now, c) &&
      Some(m.sentAtHuman) == TimeUtil.TimeHuman(r.sentAtLocal, c) &&
      Some(m.sentAtIso) == TimeUtil.Iso(r.sentAtLocal, c) &&
      m.sentAtLabel == SentAtLabel(m.dayLabel, m.sentAtHuman)
  {
    if row.None? then Skipped
    else
      var r := row.value;
      var visible := Visible(OrElse(atts, []));
      var txt := Strip(OrElse(r.text, []));
      if Invisible(r, visible) then Skipped
      else
        var iso := TimeUtil.Iso(r.sentAtLocal, c);
        var human := TimeUtil.TimeHuman(r.sentAtLocal, c);
        var day := TimeUtil.DayLabel(r.sentAtLocal, now, c);
        if iso.None? || human.None? || day.None? then Unparsable
        else
          Shown(Message(r.messageId, r.isFromMe, r.authorHandle, AuthorName(isGroup, r, friendly), r.sentAtLocal,
                        iso.value, human.value, day.value, SentAtLabel(day.value, human.value), txt,
                        TextUtil.Linkified(Some(txt)), OrElse(r.reactions, []), ProjectAll(visible),
                        IsPayment(r), PaymentAmount(r.text)))
  }

  /** A message that is shown has something to show: text, a visible
      attachment, an associated message, or it is a plain (non-system)
      row. */
  lemma ShownHasContent(row: Messages.Row, atts: Option<seq<Option<RawAttachment>>>, isGroup: bool,
                        friendly: Option<map<string, string>>, now: real, c: TimeUtil.Clock)
    requires ProjectMessage(Some(row), atts, isGroup, friendly, now, c).Shown?
    ensures var m := ProjectMessage(Some(row), atts, isGroup, friendly, now, c).message;
      m.text != [] || m.attachments != [] || OrElse(row.assocGuid, []) != [] ||
      (row.itemType == 0 && row.isSystemMessage != 1)
  {
  }

  /** No projected attachment comes from a hidden record, and every record
      that is not hidden is projected. */
  lemma ShownAttachments(row: Messages.Row, atts: seq<Option<RawAttachment>>, isGroup: bool,
                         friendly: Option<map<string, string>>, now: real, c: TimeUtil.Clock, x: Option<RawAttachment>)
    requires ProjectMessage(Some(row), Some(atts), isGroup, friendly, now, c).Shown?
    ensures var m := ProjectMessage(Some(row), Some(atts), isGroup, friendly, now, c).message;
      x in atts && !Hide(x) ==> ProjectAttachment(x) in m.attachments
    ensures var m := ProjectMessage(Some(row), Some(atts), isGroup, friendly, now, c).message;
      forall k :: 0 <= k < |m.attachments| ==> !Hide(Visible(atts)[k])
  {
    VisibleMembers(atts, x);
    if x in atts && !Hide(x) {
      var v := Visible(atts);
      var k :| 0 <= k < |v| && v[k] == x;
      assert ProjectAll(v)[k] == ProjectAttachment(x);
    }
  }
}
