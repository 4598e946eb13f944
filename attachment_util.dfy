// Attachment helpers: which attachment records are hidden from the
// renderers (the plugin payloads iMessage apps leave behind) and the coarse
// kind of an attachment, from its MIME type or else its file name.

module AttachmentUtil {
  import opened Str

  /** An attachment record as fetched: the `attachment` columns, plus the
      `kind` and `missing` flags a later step may already have set. */
  datatype RawAttachment = RawAttachment(guid: Option<string>, filename: Option<string>, transferName: Option<string>,
                                         mimeType: Option<string>, width: Option<int>, height: Option<int>,
                                         kind: Option<string>, missing: Option<bool>)

  function TrimTrailingSlashes(s: string): (r: string)
    ensures StartsWith(s, r) && (r == [] || r[|r| - 1] != '/')
    ensures forall i :: |r| <= i < |s| ==> s[i] == '/'
    decreases |s|
  {
    if s != [] && s[|s| - 1] == '/' then TrimTrailingSlashes(s[..|s| - 1]) else s
  }

  /** The position just after the last `/` of `s`, 0 when there is none. */
  function AfterLastSlash(s: string): (i: nat)
    ensures i <= |s| && (i > 0 ==> s[i - 1] == '/')
    ensures forall k :: i <= k < |s| ==> s[k] != '/'
    decreases |s|
  {
    if s == [] then 0
    else if s[|s| - 1] == '/' then |s|
    else AfterLastSlash(s[..|s| - 1])
  }

  /** `File.basename`: the last component once trailing slashes are
      dropped; `/` for a path of slashes only, "" for "". */
  function Basename(path: string): (r: string)
    ensures path == [] <==> r == []
    ensures r != "/" ==> '/' !in r
    ensures r != "/" ==> EndsWith(TrimTrailingSlashes(path), r)
    ensures r == "/" <==> path != [] && TrimTrailingSlashes(path) == []
    ensures r != "/" ==> var t := TrimTrailingSlashes(path); |r| == |t| || t[|t| - |r| - 1] == '/'
    ensures '/' !in path ==> r == path
  {
    var t := TrimTrailingSlashes(path);
    if path == [] then []
    else if t == [] then "/"
    else
      var r := t[AfterLastSlash(t)..];
      assert r != [] by { assert t[|t| - 1] != '/'; }
      r
  }

  const PluginPayloadSuffix := ".pluginpayloadattachment"

  /** The name `hide?` looks at: the transfer name, else the base name of the file name. */
  function ShownName(att: RawAttachment): (r: Option<string>)
    ensures r.None? <==> att.transferName.None? && att.filename.None?
    ensures att.transferName.Some? ==> r == att.transferName
    ensures att.transferName.None? && att.filename.Some? && '/' !in att.filename.value ==> r == att.filename
  {
    if att.transferName.Some? then att.transferName
    else if att.filename.Some? then Some(Basename(att.filename.value))
    else None
  }

  /** `hide?`: an absent record is shown; a record whose name ends in
      `.pluginpayloadattachment` or whose MIME type mentions
      `pluginpayload`, in any case, is hidden. */
  predicate Hide(att: Option<RawAttachment>): (r: bool)
    ensures att.None? ==> !r
    ensures att.Some? && att.value.transferName.None? && att.value.filename.None? && att.value.mimeType.None? ==> !r
    ensures att.Some? && att.value.mimeType.Some? && Contains(Lower(att.value.mimeType.value), "pluginpayload") ==> r
  {
    att.Some? &&
    ((ShownName(att.value).Some? && EndsWith(Lower(ShownName(att.value).value), PluginPayloadSuffix)) ||
     (att.value.mimeType.Some? && Contains(Lower(att.value.mimeType.value), "pluginpayload")))
  }

  /** The base name of `dir/file` is `file`. */
  lemma BasenameOf(dir: string, file: string)
    requires file != [] && '/' !in file
    ensures Basename(dir + "/" + file) == file
  {
    var f := dir + "/" + file;
    assert f == (dir + "/") + file;
    assert f[|f| - 1] == file[|file| - 1] != '/';
    assert TrimTrailingSlashes(f) == f;
    AfterLastSlashOf(dir + "/", file);
    assert f[|dir| + 1..] == file;
  }

  /** Without a transfer name, a file in any directory is judged by its own
      name alone: it is hidden exactly when that name, in any letter case,
      ends in the payload suffix (or the MIME type says so). */
  lemma HideByName(att: RawAttachment, dir: string, name: string)
    requires att.transferName.None? && name != [] && '/' !in name
    requires att.filename == Some(dir + "/" + name) && att.mimeType.None?
    ensures Hide(Some(att)) <==> EndsWith(Lower(name), PluginPayloadSuffix)
  {
    BasenameOf(dir, name);
  }

  lemma {:induction false} AfterLastSlashOf(a: string, b: string)
    requires a != [] && a[|a| - 1] == '/' && '/' !in b
    ensures AfterLastSlash(a + b) == |a|
    decreases |b|
  {
    if b == [] {
      assert a + b == a;
    } else {
      var p := b[..|b| - 1];
      assert (a + b)[..|a + b| - 1] == a + p;
      assert b[|b| - 1] in b;
      AfterLastSlashOf(a, p);
    }
  }

  lemma LowerAppend(a: string, b: string)
    ensures Lower(a + b) == Lower(a) + Lower(b)
  {
    assert forall i :: 0 <= i < |a + b| ==> Lower(a + b)[i] == (Lower(a) + Lower(b))[i];
  }

  const ImageExts: seq<string> := [".jpg", ".jpeg", ".png", ".gif", ".heic", ".heif", ".webp"]
  const VideoExts: seq<string> := [".mov", ".mp4", ".m4v", ".webm"]
  const AudioExts: seq<string> := [".m4a", ".aac", ".mp3", ".wav", ".aif", ".aiff"]

  predicate EndsWithAny(n: string, exts: seq<string>)
  {
    exists i :: 0 <= i < |exts| && EndsWith(n, exts[i])
  }

  /** `kind_for`: `image`, `video` or `audio` when the lower-cased MIME type
      starts with `image/`, `video/` or `audio/` or the lower-cased name
      ends in one of that kind's extensions, tried in that order; else `file`. */
  function KindFor(mime: Option<string>, name: Option<string>): (k: string)
    ensures k == "image" || k == "video" || k == "audio" || k == "file"
  {
    var n := Lower(OrElse(name, ""));
    var m := Lower(OrElse(mime, ""));
    if StartsWith(m, "image/") || EndsWithAny(n, ImageExts) then "image"
    else if StartsWith(m, "video/") || EndsWithAny(n, VideoExts) then "video"
    else if StartsWith(m, "audio/") || EndsWithAny(n, AudioExts) then "audio"
    else "file"
  }

  /** A name ending in `e` lower-cases to one ending in `Lower(e)`. */
  lemma LowerSuffix(base: string, e: string)
    ensures EndsWith(Lower(base + e), Lower(e))
  {
    LowerAppend(base, e);
    assert (Lower(base) + Lower(e))[|Lower(base)|..] == Lower(e);
  }

  /** A text starting with `p` lower-cases to one starting with `Lower(p)`. */
  lemma LowerPrefix(p: string, rest: string)
    ensures StartsWith(Lower(p + rest), Lower(p))
  {
    LowerAppend(p, rest);
  }

  /** An `image/` MIME type, in any letter case, decides, whatever the name. */
  lemma KindByImageMime(m: string, name: Option<string>)
    requires StartsWith(Lower(m), "image/")
    ensures KindFor(Some(m), name) == "image"
  {
  }

  /** A `video/` or `audio/` MIME type gives a media kind, whatever the name. */
  lemma KindByMediaMime(m: string, name: Option<string>)
    requires StartsWith(Lower(m), "video/") || StartsWith(Lower(m), "audio/")
    ensures KindFor(Some(m), name) != "file"
  {
  }

  /** Letter case never matters: the MIME type and the name may be given
      in capitals. */
  lemma KindIgnoresCase(m: string, n: string)
    ensures KindFor(Some(Upper(m)), Some(Upper(n))) == KindFor(Some(m), Some(n))
  {
    LowerUpper(m);
    LowerUpper(n);
  }

  lemma LowerUpper(s: string)
    ensures Lower(Upper(s)) == Lower(s)
  {
    assert forall i :: 0 <= i < |s| ==> LowerChar(UpperChar(s[i])) == LowerChar(s[i]);
  }

  /** Without a MIME type a photo name is an image. */
  lemma KindByImageName(base: string)
    ensures KindFor(None, Some(base + ".jpg")) == "image"
  {
    assert EndsWithAny(Lower(base + ".jpg"), ImageExts) by {
      LowerSuffix(base, ".jpg");
      assert Lower(".jpg") == ImageExts[0];
    }
  }

  /** Without a MIME type a movie name is a video. */
  lemma KindByVideoName(base: string)
    ensures KindFor(None, Some(base + ".mov")) == "video"
  {
    var n := Lower(base + ".mov");
    LowerSuffix(base, ".mov");
    assert Lower(".mov") == ".mov" == VideoExts[0];
    assert n[|n| - 1] == 'v';
    forall i | 0 <= i < |ImageExts| ensures !EndsWith(n, ImageExts[i]) {
      var e := ImageExts[i];
      assert e[|e| - 1] != 'v' by {
        if i == 0 {} else if i == 1 {} else if i == 2 {} else if i == 3 {} else if i == 4 {} else if i == 5 {} else {}
      }
      LastCharDiffers(n, e);
    }
  }

  /** A text does not end in a suffix with another last character. */
  lemma LastCharDiffers(n: string, e: string)
    requires n != [] && e != [] && n[|n| - 1] != e[|e| - 1]
    ensures !EndsWith(n, e)
  {
    if |e| <= |n| {
      assert n[|n| - |e|..][|e| - 1] == n[|n| - 1];
    }
  }

  /** Any other name, without a MIME type, is a file. */
  lemma KindOtherName(base: string)
    ensures KindFor(None, Some(base + ".pdf")) == "file"
  {
    var n := Lower(base + ".pdf");
    assert |n| >= 2 && n[|n| - 1] == 'f' && n[|n| - 2] == 'd' by {
      LowerSuffix(base, ".pdf");
      assert Lower(".pdf") == ".pdf";
      assert n[|n| - 4..] == ".pdf";
    }
    assert !EndsWithAny(n, ImageExts) by { NotEndsWithDf(n, ImageExts); }
    assert !EndsWithAny(n, VideoExts) by { NotEndsWithDf(n, VideoExts); }
    assert !EndsWithAny(n, AudioExts) by { NotEndsWithDf(n, AudioExts); }
    assert Lower("") == "";
  }

  lemma NotEndsWithDf(n: string, exts: seq<string>)
    requires |n| >= 2 && n[|n| - 2] == 'd' && n[|n| - 1] == 'f'
    requires forall i :: 0 <= i < |exts| ==> |exts[i]| >= 2 && (exts[i][|exts[i]| - 2] != 'd' || exts[i][|exts[i]| - 1] != 'f')
    ensures !EndsWithAny(n, exts)
  {
  }
}
