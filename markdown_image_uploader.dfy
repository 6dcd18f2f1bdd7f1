/** The editor's image button: it derives alt text from the file name,
    builds the markdown image line and splices it into the content textarea
    at the selection. */
module MarkdownImageUploader {
  import opened Wrappers
  import opened JsText
  import opened AdminForms
  import opened PostImages

  const DefaultAlt := "文章圖片"

  /** The position of the last `c` in `s`, if any. */
  function LastIndexOf(s: string, c: char): (r: Option<nat>)
    ensures r.Some? ==> r.value < |s| && s[r.value] == c && c !in s[r.value + 1..]
    ensures r.None? ==> c !in s
  {
    if |s| == 0 then None
    else if s[|s| - 1] == c then Some(|s| - 1)
    else
      var r := LastIndexOf(s[..|s| - 1], c);
      assert r.Some? ==> s[r.value + 1..] == s[..|s| - 1][r.value + 1..] + [s[|s| - 1]];
      assert r.None? ==> s == s[..|s| - 1] + [s[|s| - 1]];
      r
  }

  /** `.replace(/\.[^.]+$/, "")`: a final `.` followed by at least one
      character, none of them a dot, is cut off together with what follows. */
  function StripExtension(name: string): (r: string)
    ensures |r| <= |name| && r == name[..|r|]
    ensures r != name <==>
      (exists k :: 0 <= k < |name| - 1 && name[k] == '.' && '.' !in name[k + 1..])
    ensures r != name ==> name[|r|] == '.' && '.' !in name[|r| + 1..] && |r| + 1 < |name|
  {
    match LastIndexOf(name, '.')
    case None => name
    case Some(k) =>
      if k == |name| - 1 then
        assert forall j :: 0 <= j < |name| - 1 && name[j] == '.' ==> name[|name| - 1] in name[j + 1..];
        name
      else
        assert forall j :: 0 <= j < k && name[j] == '.' ==> '.' in name[j + 1..] by {
          forall j | 0 <= j < k && name[j] == '.' ensures '.' in name[j + 1..] {
            assert name[j + 1..][k - j - 1] == '.';
          }
        }
        assert forall j :: k < j < |name| ==> name[j] != '.' by {
          forall j | k < j < |name| ensures name[j] != '.' {
            assert name[j] == name[k + 1..][j - k - 1];
          }
        }
        name[..k]
  }

  predicate IsDashOrUnderscore(c: char) {
    c == '-' || c == '_'
  }

  /** `toAltText`: the file name without its extension and trimmed, a
      default when nothing is left, and each run of `-` or `_` as one space. */
  function ToAltText(fileName: string): (r: string)
    ensures r != []
    ensures forall i :: 0 <= i < |r| ==> !IsDashOrUnderscore(r[i])
    ensures Trim(StripExtension(fileName)) == [] ==> r == DefaultAlt
    ensures Trim(StripExtension(fileName)) != [] ==>
      r == ReplaceRuns(Trim(StripExtension(fileName)), IsDashOrUnderscore, ' ', false)
  {
    var stem := Trim(StripExtension(fileName));
    if stem == [] then DefaultAlt
    else ReplaceRuns(stem, IsDashOrUnderscore, ' ', false)
  }

  /** One run between two stretches that hold none: the run becomes exactly
      one space and the rest is kept. */
  lemma {:induction false} RunBecomesOneSpace(pre: string, run: string, post: string)
    requires forall i :: 0 <= i < |pre| ==> !IsDashOrUnderscore(pre[i])
    requires run != [] && forall i :: 0 <= i < |run| ==> IsDashOrUnderscore(run[i])
    requires forall i :: 0 <= i < |post| ==> !IsDashOrUnderscore(post[i])
    ensures ReplaceRuns(pre + run + post, IsDashOrUnderscore, ' ', false) == pre + " " + post
  {
    if pre == [] {
      assert pre + run + post == run + post;
      RunThenPlain(run, post);
    } else {
      RunBecomesOneSpace(pre[1..], run, post);
      assert (pre + run + post)[1..] == pre[1..] + run + post;
      assert pre + " " + post == [pre[0]] + (pre[1..] + " " + post);
    }
  }

  lemma {:induction false} RunThenPlain(run: string, post: string)
    requires run != [] && forall i :: 0 <= i < |run| ==> IsDashOrUnderscore(run[i])
    requires forall i :: 0 <= i < |post| ==> !IsDashOrUnderscore(post[i])
    ensures ReplaceRuns(run + post, IsDashOrUnderscore, ' ', false) == " " + post
  {
    assert (run + post)[1..] == run[1..] + post;
    SkipRun(run[1..], post);
    ReplaceRunsNoRun(post, IsDashOrUnderscore, ' ');
  }

  lemma {:induction false} SkipRun(run: string, post: string)
    requires forall i :: 0 <= i < |run| ==> IsDashOrUnderscore(run[i])
    requires forall i :: 0 <= i < |post| ==> !IsDashOrUnderscore(post[i])
    ensures ReplaceRuns(run + post, IsDashOrUnderscore, ' ', true) ==
      ReplaceRuns(post, IsDashOrUnderscore, ' ', false)
  {
    if run == [] {
      assert run + post == post;
      if post != [] {
        assert ReplaceRuns(post, IsDashOrUnderscore, ' ', true) ==
          [post[0]] + ReplaceRuns(post[1..], IsDashOrUnderscore, ' ', false);
      }
    } else {
      assert (run + post)[1..] == run[1..] + post;
      SkipRun(run[1..], post);
    }
  }

  /** `String.prototype.slice` from `from` to the end, clamped to the length. */
  function SliceFrom(s: string, from: nat): (r: string)
    ensures from <= |s| ==> r == s[from..]
    ensures from > |s| ==> r == []
  {
    if from <= |s| then s[from..] else []
  }

  /** `String.prototype.slice(0, to)`, clamped to the length. */
  function SliceTo(s: string, to: nat): (r: string)
    ensures to <= |s| ==> r == s[..to]
    ensures to > |s| ==> r == s
  {
    if to <= |s| then s[..to] else s
  }

  /** The text after splicing `markdown` over the selection, and the caret
      position; an absent end of the selection counts as the end of the text. */
  function Splice(value: string, start: Option<nat>, end: Option<nat>, markdown: string): (r: (string, nat))
    ensures start.None? && end.None? ==> r.0 == value + markdown
    ensures (var s := start.GetOr(|value|);
             var e := end.GetOr(|value|);
             s <= e <= |value| ==>
               |r.0| == |value| - (e - s) + |markdown| &&
               r.0[..s] == value[..s] && r.0[s..s + |markdown|] == markdown &&
               r.0[s + |markdown|..] == value[e..])
    ensures r.1 == start.GetOr(|value|) + |markdown|
  {
    var s := start.GetOr(|value|);
    var e := end.GetOr(|value|);
    (SliceTo(value, s) + markdown + SliceFrom(value, e), s + |markdown|)
  }

  /** The content textarea: its text and its selection. */
  class Textarea {
    var value: string
    var selectionStart: Option<nat>
    var selectionEnd: Option<nat>

    constructor (text: string)
      ensures value == text && selectionStart == None && selectionEnd == None
    {
      value := text;
      selectionStart := None;
      selectionEnd := None;
    }

    /** `insertImageMarkdown`: replace the selection by `markdown` and put
        the caret, collapsed, right after it. */
    method InsertImageMarkdown(markdown: string)
      modifies this
      ensures value == Splice(old(value), old(selectionStart), old(selectionEnd), markdown).0
      ensures selectionStart == selectionEnd ==
        Some(Splice(old(value), old(selectionStart), old(selectionEnd), markdown).1)
    {
      var start := if selectionStart.Some? then selectionStart.value else |value|;
      var end := if selectionEnd.Some? then selectionEnd.value else |value|;
      var previous := value;
      value := SliceTo(previous, start) + markdown + SliceFrom(previous, end);
      var caret := start + |markdown|;
      selectionStart := Some(caret);
      selectionEnd := Some(caret);
    }
  }

  /** The markdown inserted for an uploaded image: a line of its own that
      holds the image with alt text `alt` and source `url`. */
  function ImageMarkdown(alt: string, url: string): (r: string)
    ensures |r| == 7 + |alt| + |url|
    ensures r[..3] == "\n![" && r[3..3 + |alt|] == alt && r[3 + |alt|..5 + |alt|] == "]("
    ensures r[5 + |alt|..|r| - 2] == url && r[|r| - 2..] == ")\n"
  {
    var r := "\n![" + alt + "](" + url + ")\n";
    assert r[3..3 + |alt|] == alt;
    assert r[5 + |alt|..|r| - 2] == url;
    r
  }

  /** The parsed reply of the upload request, as the component sees it:
      the fields stay absent when the reply was not JSON. */
  datatype Reply = Reply(ok: bool, status: int, url: Option<string>, message: Option<string>)

  const TooLargeNotice := "圖片太大，請改用較小檔案後再試。"
  const FailedNotice := "圖片上傳失敗，請稍後再試。"
  const NoTextareaNotice := "找不到文章內容欄位，請重新整理後再試。"
  const InsertedNotice := "圖片已插入內容，可直接預覽與儲存。"

  /** Whether the reply leads to an insertion. */
  predicate Inserts(reply: Reply) {
    reply.ok && reply.url.Some?
  }

  /** The status line shown when the reply does not lead to an insertion. */
  function FailureNotice(reply: Reply): (r: string)
    ensures reply.message.Some? && reply.message.value != [] ==> r == reply.message.value
    ensures (reply.message.None? || reply.message.value == []) && reply.status == 413 ==>
      r == TooLargeNotice
    ensures (reply.message.None? || reply.message.value == []) && reply.status != 413 ==>
      r == FailedNotice
  {
    if reply.message.Some? && reply.message.value != [] then reply.message.value
    else if reply.status == 413 then TooLargeNotice
    else FailedNotice
  }

  /** What the button does with the reply for `fileName`: insert the image
      markdown when the reply is ok and carries a url, and report a status
      line. */
  method HandleReply(textarea: Textarea?, fileName: string, reply: Reply) returns (notice: string)
    modifies textarea
    ensures !Inserts(reply) ==> notice == FailureNotice(reply)
    ensures Inserts(reply) && textarea == null ==> notice == NoTextareaNotice
    ensures !(Inserts(reply) && textarea != null) ==>
      textarea == null || (textarea.value == old(textarea.value) &&
                           textarea.selectionStart == old(textarea.selectionStart) &&
                           textarea.selectionEnd == old(textarea.selectionEnd))
    ensures Inserts(reply) && textarea != null ==>
      textarea.value == Splice(old(textarea.value), old(textarea.selectionStart),
                               old(textarea.selectionEnd), ImageMarkdown(ToAltText(fileName), reply.url.value)).0 &&
      textarea.selectionStart == textarea.selectionEnd ==
        Some(Splice(old(textarea.value), old(textarea.selectionStart),
                    old(textarea.selectionEnd), ImageMarkdown(ToAltText(fileName), reply.url.value)).1) &&
      notice == reply.message.GetOr(InsertedNotice)
  {
    if !reply.ok || reply.url.None? {
      notice := FailureNotice(reply);
      return;
    }
    if textarea == null {
      notice := NoTextareaNotice;
      return;
    }
    var markdown := ImageMarkdown(ToAltText(fileName), reply.url.value);
    textarea.InsertImageMarkdown(markdown);
    notice := reply.message.GetOr(InsertedNotice);
  }

  const NoFileNotice := "請先選擇圖片後再上傳。"

  /** The upload button: with no file chosen it only asks for one; when the
      request or the reading of its reply throws (`reply` is `None`) it
      reports the generic failure; otherwise it handles the reply. The
      textarea is touched only when an image is inserted. */
  method OnUploadClick(textarea: Textarea?, fileName: Option<string>, reply: Option<Reply>)
    returns (notice: string)
    modifies textarea
    ensures fileName.None? ==> notice == NoFileNotice
    ensures fileName.Some? && reply.None? ==> notice == FailedNotice
    ensures fileName.Some? && reply.Some? && !Inserts(reply.value) ==> notice == FailureNotice(reply.value)
    ensures !(fileName.Some? && reply.Some? && Inserts(reply.value) && textarea != null) ==>
      textarea == null || (textarea.value == old(textarea.value) &&
                           textarea.selectionStart == old(textarea.selectionStart) &&
                           textarea.selectionEnd == old(textarea.selectionEnd))
    ensures fileName.Some? && reply.Some? && Inserts(reply.value) && textarea != null ==>
      && textarea.value == Splice(old(textarea.value), old(textarea.selectionStart), old(textarea.selectionEnd),
                                  ImageMarkdown(ToAltText(fileName.value), reply.value.url.value)).0
      && textarea.selectionStart == textarea.selectionEnd ==
           Some(Splice(old(textarea.value), old(textarea.selectionStart), old(textarea.selectionEnd),
                       ImageMarkdown(ToAltText(fileName.value), reply.value.url.value)).1)
  {
    if fileName.None? {
      return NoFileNotice;
    }
    if reply.None? {
      return FailedNotice;
    }
    notice := HandleReply(textarea, fileName.value, reply.value);
  }

  /** The reply the component receives from the upload endpoint. */
  function ReplyOf(r: Response): (reply: Reply)
    ensures r.Uploaded? <==> Inserts(reply)
  {
    match r
    case Failure(status, message) => Reply(false, status, None, Some(message))
    case Uploaded(url, _, _) => Reply(true, 200, Some(url), None)
  }

  /** A refused upload shows the endpoint's own message, and a successful one
      inserts an image whose url is the data URL of the file's bytes. */
  lemma UploadReachesEditor(hasSession: bool, f: File, readFails: bool)
    ensures var r := HandleUpload(hasSession, Upload(f), readFails);
      && (r.Failure? ==> FailureNotice(ReplyOf(r)) == r.message)
      && (r.Uploaded? ==> ReplyOf(r).url == Some(DataUrl(f.mimeType, f.bytes)))
  {
    var r := HandleUpload(hasSession, Upload(f), readFails);
    if r.Uploaded? {
      assert MimeLookup(f.mimeType) == Some(f.mimeType);
    }
  }
}
