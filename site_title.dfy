/** `readSiteTitle` of src/lib/site-title.ts: the page title read straight
    from the stored text bag. */
module SiteTitle {
  import opened Wrappers
  import opened JsText
  import opened Json
  import opened ProfileTypes

  const DefaultSiteTitle := DefaultHomePageTexts.siteTitle

  /** `readSiteTitle` */
  function ReadSiteTitle(value: Json): (r: string)
    ensures !value.JObj? ==> r == "Nebula Notes"
    ensures value.JObj? && !(Get(value, "siteTitle").Some? && Get(value, "siteTitle").value.JStr?)
            ==> r == "Nebula Notes"
    ensures Displayable(r)
  {
    DefaultTextsWellFormed();
    if !Truthy(value) || !IsObjectType(value) || value.JArr? then DefaultSiteTitle
    else
      var title := Get(value, "siteTitle");
      if title.None? || !title.value.JStr? then DefaultSiteTitle
      else
        var trimmed := Trim(title.value.s);
        TrimEmptyIff(title.value.s);
        if trimmed != [] then trimmed else DefaultSiteTitle
  }

  /** A stored title that is blank after trimming gives the default; any other
      string gives its trim. */
  lemma ReadSiteTitleOfString(fields: map<string, Json>, title: string)
    requires "siteTitle" in fields && fields["siteTitle"] == JStr(title)
    ensures AllSpace(title) ==> ReadSiteTitle(JObj(fields)) == DefaultSiteTitle
    ensures !AllSpace(title) ==> ReadSiteTitle(JObj(fields)) == Trim(title)
  {
    ReadSiteTitleOfField(JObj(fields), title);
    TrimEmptyIff(title);
  }

  lemma ReadSiteTitleOfField(value: Json, title: string)
    requires value.JObj? && Get(value, "siteTitle") == Some(JStr(title))
    ensures ReadSiteTitle(value) == if Trim(title) != [] then Trim(title) else DefaultSiteTitle
  {
  }

  /** The shortcut agrees with the full decoder: for every stored value, the
      title is the `siteTitle` field of `asHomePageTexts`. */
  lemma ReadSiteTitleAgrees(value: Json)
    ensures ReadSiteTitle(value) == AsHomePageTexts(value).siteTitle
  {
    if value.JObj? {
      assert Field(value.fields, "siteTitle") == Get(value, "siteTitle");
    }
  }
}
