/** The image upload endpoint of the admin editor. The response is worked
    out by a cascade of early returns: session, then presence, then size,
    then type. A successful upload answers with a data URL, as section 3
    of RFC 2397 defines it, that carries the bytes in Base64. */
module PostImages {
  import opened Wrappers
  import opened Base64

  /** The largest accepted file, in bytes (8 MiB). */
  const MaxFileSize: nat := 8 * 1024 * 1024

  const UnauthorizedMessage := "請先登入後台再上傳圖片。"
  const MissingFileMessage := "請選擇要上傳的圖片檔案。"
  const TooLargeMessage := "檔案太大，請上傳 8MB 以下圖片。"
  const BadTypeMessage := "僅支援 JPG、PNG、WebP、GIF 格式。"
  const ProcessingMessage := "圖片處理失敗，請稍後再試。"

  /** An uploaded file: its name, its declared MIME type and its bytes. */
  datatype File = File(name: string, mimeType: string, bytes: seq<byte>)

  /** What the `image` field of the request body holds. */
  datatype Entry = Missing | Text(text: string) | Upload(file: File)

  datatype Response =
    | Failure(status: int, message: string)
    | Uploaded(url: string, fileName: string, mimeType: string)

  /** The four accepted types, each mapped to itself. */
  predicate AcceptedType(t: string) {
    t == "image/jpeg" || t == "image/png" || t == "image/webp" || t == "image/gif"
  }

  /** The members every JavaScript object inherits from `Object.prototype`
      whose names are all lower case: a `File`'s type is lower-cased by the
      File API, so these are the only ones it can name. */
  predicate InheritedName(t: string) {
    t == "constructor" || t == "__proto__"
  }

  /** The type check as written: indexing a plain object finds its own four
      keys and also every inherited member, all of which are truthy. */
  predicate MimeCheckPassesAsWritten(t: string) {
    AcceptedType(t) || InheritedName(t)
  }

  /** A client that declares the type `constructor` gets past the check as
      written, though it names none of the four image types. */
  lemma InheritedNamePasses()
    ensures MimeCheckPassesAsWritten("constructor")
    ensures !AcceptedType("constructor")
  {
  }

  /** The lookup as intended: only the map's own keys are found, and each
      maps to itself. */
  function MimeLookup(t: string): (r: Option<string>)
    ensures r.Some? <==> AcceptedType(t)
    ensures r.Some? ==> r.value == t
    ensures InheritedName(t) ==> r.None?
  {
    match t
    case "image/jpeg" => Some("image/jpeg")
    case "image/png" => Some("image/png")
    case "image/webp" => Some("image/webp")
    case "image/gif" => Some("image/gif")
    case _ => None
  }

  /** `data:<mime>;base64,<text>` */
  function DataUrl(mime: string, bytes: seq<byte>): (u: string)
    ensures |u| == 5 + |mime| + 8 + 4 * ((|bytes| + 2) / 3)
  {
    "data:" + mime + ";base64," + Encode(bytes)
  }

  function FirstIndexOf(s: string, c: char): (r: Option<nat>)
    ensures r.Some? ==> r.value < |s| && s[r.value] == c && c !in s[..r.value]
    ensures r.None? ==> c !in s
  {
    if |s| == 0 then None
    else if s[0] == c then Some(0)
    else match FirstIndexOf(s[1..], c)
      case None => None
      case Some(k) => assert s[..k + 1] == [s[0]] + s[1..][..k]; Some(k + 1)
  }

  /** Reads a Base64 data URL back into its media type and bytes. */
  function ParseDataUrl(u: string): (r: Option<(string, seq<byte>)>)
  {
    if |u| < 5 || u[..5] != "data:" then None
    else
      var rest := u[5..];
      match FirstIndexOf(rest, ';')
      case None => None
      case Some(k) =>
        var tail := rest[k..];
        if |tail| < 8 || tail[..8] != ";base64," then None
        else match Decode(tail[8..])
          case None => None
          case Some(bs) => Some((rest[..k], bs))
  }

  /** A data URL reads back as the media type and bytes it was built from,
      as long as the media type has no `;` of its own. */
  lemma ParseDataUrlOfDataUrl(mime: string, bytes: seq<byte>)
    requires ';' !in mime
    ensures ParseDataUrl(DataUrl(mime, bytes)) == Some((mime, bytes))
  {
    var u := DataUrl(mime, bytes);
    var rest := u[5..];
    assert u[..5] == "data:";
    assert rest == mime + ";base64," + Encode(bytes);
    FirstIndexAfter(mime, ";base64," + Encode(bytes), ';');
    assert rest[..|mime|] == mime;
    assert rest[|mime|..][..8] == ";base64,";
    assert rest[|mime|..][8..] == Encode(bytes);
    DecodeEncode(bytes);
  }

  lemma {:induction false} FirstIndexAfter(pre: string, post: string, c: char)
    requires c !in pre && |post| > 0 && post[0] == c
    ensures FirstIndexOf(pre + post, c) == Some(|pre|)
  {
    if |pre| > 0 {
      FirstIndexAfter(pre[1..], post, c);
      assert (pre + post)[1..] == pre[1..] + post;
    }
  }

  /** The request handler. `readFails` stands for reading the file's bytes
      throwing, which the handler turns into a 500. */
  function HandleUpload(hasSession: bool, image: Entry, readFails: bool): (r: Response)
    ensures !hasSession <==> r == Failure(401, UnauthorizedMessage)
    ensures hasSession && (!image.Upload? || |image.file.bytes| == 0) ==>
      r == Failure(400, MissingFileMessage)
    ensures hasSession && image.Upload? && |image.file.bytes| > MaxFileSize ==>
      r == Failure(400, TooLargeMessage)
    ensures (hasSession && image.Upload? && 0 < |image.file.bytes| <= MaxFileSize &&
             !AcceptedType(image.file.mimeType)) ==>
      r == Failure(400, BadTypeMessage)
    ensures (hasSession && image.Upload? && 0 < |image.file.bytes| <= MaxFileSize &&
             AcceptedType(image.file.mimeType) && readFails) ==>
      r == Failure(500, ProcessingMessage)
    ensures r.Uploaded? <==>
      hasSession && image.Upload? && 0 < |image.file.bytes| <= MaxFileSize &&
      AcceptedType(image.file.mimeType) && !readFails
    ensures r.Uploaded? ==>
      r.mimeType == image.file.mimeType && r.fileName == image.file.name &&
      ParseDataUrl(r.url) == Some((image.file.mimeType, image.file.bytes))
    ensures r.Failure? ==> r.status in {400, 401, 500}
  {
    if !hasSession then Failure(401, UnauthorizedMessage)
    else if !image.Upload? || |image.file.bytes| == 0 then Failure(400, MissingFileMessage)
    else if |image.file.bytes| > MaxFileSize then Failure(400, TooLargeMessage)
    else match MimeLookup(image.file.mimeType)
      case None => Failure(400, BadTypeMessage)
      case Some(mime) =>
        if readFails then Failure(500, ProcessingMessage)
        else
          ParseDataUrlOfDataUrl(mime, image.file.bytes);
          Uploaded(DataUrl(mime, image.file.bytes), image.file.name, mime)
  }

  /** A file of exactly the limit passes the size check. */
  lemma LimitIsInclusive(f: File, hasSession: bool)
    requires hasSession && |f.bytes| == MaxFileSize && AcceptedType(f.mimeType)
    ensures HandleUpload(hasSession, Upload(f), false).Uploaded?
    ensures HandleUpload(hasSession, Upload(f), false).url == DataUrl(f.mimeType, f.bytes)
  {
  }

  /** Without a session the answer is 401, whatever the body holds. */
  lemma SessionComesFirst(image1: Entry, image2: Entry, readFails1: bool, readFails2: bool)
    ensures HandleUpload(false, image1, readFails1) == HandleUpload(false, image2, readFails2)
  {
  }
}
