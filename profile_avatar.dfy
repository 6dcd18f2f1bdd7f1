/** The profile avatar: a local image, a remote image set as a CSS
    background, or the initial of the name, in one of three sizes. */
module ProfileAvatar {
  import opened Wrappers
  import opened JsText
  import opened BlogPage
  import opened Collections

  const UnknownInitial: char := 'U'

  /** `getInitial`: the upper-cased first character of the trimmed name, or
      `U` for a blank name. */
  function Initial(name: string): (r: string)
    ensures Trim(name) == [] ==> r == [UnknownInitial]
    ensures Trim(name) != [] ==> r == [UpperAscii(Trim(name)[0])]
    ensures |r| == 1 && !IsSpace(r[0]) && !('a' <= r[0] <= 'z')
  {
    var trimmed := Trim(name);
    InitialShape(trimmed);
    if trimmed == [] then [UnknownInitial] else [UpperAscii(trimmed[0])]
  }

  /** The upper-cased first character of a trimmed, non-empty name is
      neither blank nor lower case. */
  lemma InitialShape(t: string)
    requires NoEdgeSpace(t)
    ensures t != [] ==> !IsSpace(UpperAscii(t[0])) && !('a' <= UpperAscii(t[0]) <= 'z')
  {
  }

  datatype Size = Small | Medium | Large

  /** The size classes; an absent size is `md`. */
  function SizeClass(size: Option<Size>): string {
    match size
    case Some(Small) => "h-16 w-16 rounded-xl"
    case Some(Large) => "h-32 w-32 rounded-2xl md:h-40 md:w-40 md:rounded-3xl"
    case _ => "h-20 w-20 rounded-2xl"
  }

  /** The three sizes look different, and no size means `md`. */
  lemma SizeClassesDistinct(a: Size, b: Size)
    ensures a != b ==> SizeClass(Some(a)) != SizeClass(Some(b))
    ensures SizeClass(None) == SizeClass(Some(Medium))
  {
    assert |SizeClass(Some(Small))| == 20;
    assert |SizeClass(Some(Medium))| == 21;
    assert |SizeClass(Some(Large))| == 52;
  }

  /** `url.replace(/"/g, "%22")`, as written: only the double quote is
      percent-encoded. */
  function QuoteEncodedAsWritten(url: string): (r: string)
    ensures '"' !in r
    ensures |r| >= |url|
    ensures '"' !in url ==> r == url
  {
    if url == [] then []
    else (if url[0] == '"' then "%22" else [url[0]]) + QuoteEncodedAsWritten(url[1..])
  }

  /** One character at a time: a `"` becomes `%22`, any other character stays. */
  lemma QuoteEncodedOne(c: char)
    ensures QuoteEncodedAsWritten([c]) == if c == '"' then "%22" else [c]
  {
    assert [c][1..] == [];
  }

  /** The encoding works piece by piece, so every `"` of the url becomes
      `%22` in place and every other character is kept, in order. */
  lemma {:induction false} QuoteEncodedAppend(a: string, b: string)
    ensures QuoteEncodedAsWritten(a + b) == QuoteEncodedAsWritten(a) + QuoteEncodedAsWritten(b)
  {
    if a != [] {
      assert (a + b)[0] == a[0] && (a + b)[1..] == a[1..] + b;
      QuoteEncodedAppend(a[1..], b);
      var h := if a[0] == '"' then "%22" else [a[0]];
      AppendAssoc(h, QuoteEncodedAsWritten(a[1..]), QuoteEncodedAsWritten(b));
    } else {
      assert a + b == b;
    }
  }

  /** A url ending in a backslash escapes the closing quote of the CSS
      string, so the declaration never reads back as the url. */
  lemma TrailingBackslashBreaksString()
    ensures QuoteEncodedAsWritten("a\\") == "a\\"
    ensures ReadCssString(QuoteEncodedAsWritten("a\\") + "\")") == None
  {
    var t := "a\\\")";
    assert QuoteEncodedAsWritten("a\\") + "\")" == t;
    assert t[1..][2..] == ")";
    assert ReadCssString(")") == ReadCssString([]);
    assert ReadCssString(t[1..]) == None;
  }

  /** What the component renders. */
  datatype Avatar =
    | LocalImage(src: string, alt: string)
    | RemoteBackground(backgroundImage: string, ariaLabel: string)
    | InitialBadge(initial: string)

  /** The branch taken for an avatar url: a url starting with `/` is a local
      image, any other non-empty url a background, and otherwise the initial.
      The background url is escaped as the blog list escapes it, so that the
      CSS string reads back as the url itself. */
  function AvatarOf(name: string, avatarUrl: Option<string>): (r: Avatar)
    ensures r.LocalImage? <==> avatarUrl.Some? && StartsWith(avatarUrl.value, "/")
    ensures r.LocalImage? ==> r.src == avatarUrl.value
    ensures r.RemoteBackground? <==>
      avatarUrl.Some? && avatarUrl.value != [] && !StartsWith(avatarUrl.value, "/")
    ensures r.RemoteBackground? ==>
      |r.backgroundImage| >= 5 && r.backgroundImage[..5] == "url(\"" &&
      ReadCssString(r.backgroundImage[5..]) == Some((avatarUrl.value, ")"))
    ensures r.InitialBadge? <==> avatarUrl.None? || avatarUrl.value == []
    ensures r.InitialBadge? ==> r.initial == Initial(name)
  {
    if avatarUrl.Some? && StartsWith(avatarUrl.value, "/") then
      LocalImage(avatarUrl.value, name + " avatar")
    else if avatarUrl.Some? && avatarUrl.value != [] then
      RemoteBackground(BackgroundImage(avatarUrl.value), name + " avatar")
    else InitialBadge(Initial(name))
  }
}
