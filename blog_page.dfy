/** The blog list: each published post as a card whose optional preview
    image is set as a CSS background, with the url escaped into a CSS
    string. */
module BlogPage {
  import opened Wrappers
  import opened Json
  import opened ProfileTypes
  import opened PostContent
  import opened Store

  predicate NeedsEscape(c: char) {
    c == '"' || c == '\\'
  }

  /** How many characters of `s` need a backslash. */
  function EscapeCount(s: string): nat {
    if s == [] then 0 else (if NeedsEscape(s[0]) then 1 else 0) + EscapeCount(s[1..])
  }

  /** `url.replace(/["\\]/g, "\\$&")`: a backslash in front of every `"` and
      every `\`, everything else as it is. */
  function EscapeCssString(s: string): (r: string)
    ensures |r| == |s| + EscapeCount(s)
    ensures (forall i :: 0 <= i < |s| ==> !NeedsEscape(s[i])) ==> r == s
  {
    if s == [] then []
    else if NeedsEscape(s[0]) then ['\\', s[0]] + EscapeCssString(s[1..])
    else [s[0]] + EscapeCssString(s[1..])
  }

  /** How a CSS parser reads a double-quoted string body: a backslash takes
      the next character literally, an unescaped `"` ends the string. The
      result is the string's value and the text after the closing quote. */
  function ReadCssString(t: string): (r: Option<(string, string)>)
    ensures r.Some? ==> |r.value.1| < |t|
  {
    if t == [] then None
    else if t[0] == '"' then Some(([], t[1..]))
    else if t[0] == '\\' then
      if |t| < 2 then None
      else match ReadCssString(t[2..])
        case None => None
        case Some((v, rest)) => Some(([t[1]] + v, rest))
    else match ReadCssString(t[1..])
      case None => None
      case Some((v, rest)) => Some(([t[0]] + v, rest))
  }

  /** The escaped url cannot end the CSS string early: reading the string
      gives back exactly the url, and the text after the quote is untouched. */
  lemma {:induction false} ReadEscaped(s: string, rest: string)
    ensures ReadCssString(EscapeCssString(s) + "\"" + rest) == Some((s, rest))
  {
    if s == [] {
      assert EscapeCssString(s) + "\"" + rest == "\"" + rest;
    } else {
      var tail := EscapeCssString(s[1..]) + "\"" + rest;
      ReadEscaped(s[1..], rest);
      var head := if NeedsEscape(s[0]) then ['\\', s[0]] else [s[0]];
      assert EscapeCssString(s) == head + EscapeCssString(s[1..]);
      Regroup(head, EscapeCssString(s[1..]), "\"", rest);
      ReadCharStep(s[0], tail, s[1..], rest);
      assert [s[0]] + s[1..] == s;
    }
  }

  lemma Regroup(a: string, b: string, c: string, d: string)
    ensures a + b + c + d == a + (b + c + d)
  {
  }

  /** One character, escaped when it needs it, in front of a string body. */
  lemma ReadCharStep(c: char, tail: string, v: string, rest: string)
    requires ReadCssString(tail) == Some((v, rest))
    ensures NeedsEscape(c) ==> ReadCssString(['\\', c] + tail) == Some(([c] + v, rest))
    ensures !NeedsEscape(c) ==> ReadCssString([c] + tail) == Some(([c] + v, rest))
  {
    if NeedsEscape(c) {
      assert (['\\', c] + tail)[2..] == tail;
    } else {
      assert ([c] + tail)[1..] == tail;
    }
  }

  /** `toBackgroundImage`: the `background-image` value for a url. */
  function BackgroundImage(url: string): (r: string)
    ensures |r| == 7 + |url| + EscapeCount(url)
    ensures r[..5] == "url(\"" && r[|r| - 2..] == "\")"
    ensures ReadCssString(r[5..]) == Some((url, ")"))
  {
    var r := "url(\"" + EscapeCssString(url) + "\")";
    assert r[5..] == EscapeCssString(url) + "\"" + ")";
    ReadEscaped(url, ")");
    r
  }

  /** What a card of the list shows for a post. */
  datatype Card = Card(href: string, title: string, excerpt: string,
                       background: Option<string>, tags: seq<string>)

  /** The card of a post: a preview block only when the post has a preview
      image, whose url the background reads back to. */
  function CardOf(post: Post): (r: Card)
    ensures r.background.Some? <==> GetPostPreviewImage(post.content, post.coverImage).Some?
    ensures r.background.Some? ==>
      |r.background.value| >= 5 &&
      ReadCssString(r.background.value[5..]) ==
        Some((GetPostPreviewImage(post.content, post.coverImage).value, ")"))
    ensures r.href == "/blog/go/" + post.slug
    ensures r.tags == AsStringArray(post.tags)
  {
    var preview := GetPostPreviewImage(post.content, post.coverImage);
    var background := if preview.Some? && preview.value != [] then Some(BackgroundImage(preview.value)) else None;
    Card("/blog/go/" + post.slug, post.title, post.excerpt, background, AsStringArray(post.tags))
  }
}
