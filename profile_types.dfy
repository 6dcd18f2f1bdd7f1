/** The defensive read path of src/lib/types.ts: the stored profile row holds
    loosely typed JSON in `skills`, `projects` and `homepageTexts`, and
    `toProfileView` turns it into a fully defaulted view that never fails. */
module ProfileTypes {
  import opened Wrappers
  import opened JsText
  import opened Json
  import opened Collections

  datatype ProjectItem = ProjectItem(name: string, description: string, url: Option<string>)

  /** The nine display strings of the home page. */
  datatype HomePageTexts = HomePageTexts(
    siteTitle: string,
    heroBadge: string,
    primaryCtaLabel: string,
    secondaryCtaLabel: string,
    skillsTitle: string,
    skillsHint: string,
    projectsTitle: string,
    postsTitle: string,
    viewAllPostsLabel: string)

  const DefaultHomePageTexts := HomePageTexts(
    "Nebula Notes",
    "MODERN DARK BLOG SYSTEM",
    "閱讀最新文章",
    "進入後台管理",
    "技能",
    "可於後台隨時更新",
    "精選專案",
    "最新文章",
    "查看全部")

  /** The profile row as stored. `homepageTexts` is `JNull` when the column is absent. */
  datatype ProfileRecord = ProfileRecord(
    id: string,
    name: string,
    role: string,
    bio: string,
    school: Option<string>,
    location: Option<string>,
    email: Option<string>,
    avatarUrl: Option<string>,
    githubUrl: Option<string>,
    linkedinUrl: Option<string>,
    skills: Json,
    projects: Json,
    homepageTexts: Json)

  datatype ProfileView = ProfileView(
    id: string,
    name: string,
    role: string,
    bio: string,
    school: Option<string>,
    location: Option<string>,
    email: Option<string>,
    avatarUrl: Option<string>,
    githubUrl: Option<string>,
    linkedinUrl: Option<string>,
    skills: seq<string>,
    projects: seq<ProjectItem>,
    homepageTexts: HomePageTexts)

  /** A non-empty string with no whitespace at either end: what `asString` yields. */
  predicate Displayable(s: string) {
    s != [] && NoEdgeSpace(s)
  }

  predicate WellFormedTexts(t: HomePageTexts) {
    && Displayable(t.siteTitle) && Displayable(t.heroBadge)
    && Displayable(t.primaryCtaLabel) && Displayable(t.secondaryCtaLabel)
    && Displayable(t.skillsTitle) && Displayable(t.skillsHint)
    && Displayable(t.projectsTitle) && Displayable(t.postsTitle)
    && Displayable(t.viewAllPostsLabel)
  }

  /** `asRecord`: a truthy, non-array object, or null. */
  function AsRecord(v: Json): (r: Option<map<string, Json>>)
    ensures r.Some? <==> v.JObj?
    ensures r.Some? ==> r.value == v.fields
  {
    if !Truthy(v) || !IsObjectType(v) || v.JArr? then None else Some(v.fields)
  }

  /** `record[key]` on a record. */
  function Field(m: map<string, Json>, key: string): Option<Json> {
    if key in m then Some(m[key]) else None
  }

  /** `asString`: the trimmed string when it is a non-blank string, else the fallback. */
  function AsString(v: Option<Json>, fallback: string): (r: string)
    ensures Displayable(fallback) ==> Displayable(r)
  {
    if v.None? || !v.value.JStr? then fallback
    else
      var trimmed := Trim(v.value.s);
      if trimmed != [] then trimmed else fallback
  }

  /** A non-string gives the fallback, a blank string gives the fallback,
      any other string gives its trimmed form. */
  lemma AsStringMeaning(v: Option<Json>, fallback: string)
    ensures !(v.Some? && v.value.JStr?) ==> AsString(v, fallback) == fallback
    ensures v.Some? && v.value.JStr? && AllSpace(v.value.s) ==> AsString(v, fallback) == fallback
    ensures v.Some? && v.value.JStr? && !AllSpace(v.value.s) ==> AsString(v, fallback) == Trim(v.value.s)
  {
    if v.Some? && v.value.JStr? {
      TrimEmptyIff(v.value.s);
    }
  }

  /** `asStringArray`: a non-array gives []; otherwise exactly the string elements, in order. */
  function AsStringArray(v: Json): (r: seq<string>)
    ensures !v.JArr? ==> r == []
    ensures v.JArr? ==> r == StringItems(v.items)
  {
    if !v.JArr? then [] else StringItems(v.items)
  }

  /** One turn of the loop in `asProjectArray`: the item it pushes, if any. */
  function ProjectFrom(item: Json): (r: Option<ProjectItem>)
    ensures r.Some? ==> item.JObj?
    ensures r.Some? <==> Get(item, "name").Some? && Get(item, "name").value.JStr?
                         && Get(item, "description").Some? && Get(item, "description").value.JStr?
    ensures r.Some? ==> JStr(r.value.name) == Get(item, "name").value
                        && JStr(r.value.description) == Get(item, "description").value
  {
    if !Truthy(item) || !IsObjectType(item) then None
    else
      var name := Get(item, "name");
      var description := Get(item, "description");
      if name.None? || !name.value.JStr? || description.None? || !description.value.JStr? then None
      else
        var url := Get(item, "url");
        Some(ProjectItem(name.value.s, description.value.s,
                         if url.Some? && url.value.JStr? then Some(url.value.s) else None))
  }

  /** Whether `url` survived: it is kept exactly when the stored value is a string. */
  lemma ProjectUrlKept(item: Json)
    requires ProjectFrom(item).Some?
    ensures ProjectFrom(item).value.url.Some? <==> Get(item, "url").Some? && Get(item, "url").value.JStr?
    ensures ProjectFrom(item).value.url.Some? ==> JStr(ProjectFrom(item).value.url.value) == Get(item, "url").value
  {
  }

  /** The projects pushed by the loop over `items`. */
  function ProjectItems(items: seq<Json>): (r: seq<ProjectItem>)
    ensures |r| <= |items|
  {
    if items == [] then []
    else
      var p := ProjectFrom(items[0]);
      (if p.Some? then [p.value] else []) + ProjectItems(items[1..])
  }

  /** The filter distributes over concatenation: order is preserved. */
  lemma {:induction false} ProjectItemsAppend(a: seq<Json>, b: seq<Json>)
    ensures ProjectItems(a + b) == ProjectItems(a) + ProjectItems(b)
  {
    if a == [] {
      assert a + b == b;
    } else {
      var p := ProjectFrom(a[0]);
      var h := if p.Some? then [p.value] else [];
      assert ProjectItems(a) == h + ProjectItems(a[1..]);
      assert (a + b)[0] == a[0] && (a + b)[1..] == a[1..] + b;
      assert ProjectItems(a + b) == h + ProjectItems(a[1..] + b);
      ProjectItemsAppend(a[1..], b);
      AppendAssoc(h, ProjectItems(a[1..]), ProjectItems(b));
    }
  }

  /** The value `asProjectArray` returns. */
  function ProjectArray(v: Json): seq<ProjectItem> {
    if v.JArr? then ProjectItems(v.items) else []
  }

  /** `asProjectArray`, which builds its result with a loop and `push`. */
  method AsProjectArray(value: Json) returns (projects: seq<ProjectItem>)
    ensures projects == ProjectArray(value)
    ensures |projects| <= (if value.JArr? then |value.items| else 0)
  {
    if !value.JArr? {
      return [];
    }
    var items := value.items;
    projects := [];
    for i := 0 to |items|
      invariant projects == ProjectItems(items[..i])
    {
      var item := items[i];
      assert items[..i + 1] == items[..i] + [item];
      ProjectItemsAppend(items[..i], [item]);
      if !Truthy(item) || !IsObjectType(item) {
        continue;
      }
      var name := Get(item, "name");
      var description := Get(item, "description");
      if name.None? || !name.value.JStr? || description.None? || !description.value.JStr? {
        continue;
      }
      var url := Get(item, "url");
      projects := projects + [ProjectItem(name.value.s, description.value.s,
                                          if url.Some? && url.value.JStr? then Some(url.value.s) else None)];
    }
    assert items[..|items|] == items;
  }

  lemma DefaultTextsWellFormed()
    ensures WellFormedTexts(DefaultHomePageTexts)
  {
    var d := DefaultHomePageTexts;
    assert Displayable(d.siteTitle) && Displayable(d.heroBadge);
    assert Displayable(d.primaryCtaLabel) && Displayable(d.secondaryCtaLabel);
    assert Displayable(d.skillsTitle) && Displayable(d.skillsHint);
    assert Displayable(d.projectsTitle) && Displayable(d.postsTitle);
    assert Displayable(d.viewAllPostsLabel);
  }

  /** `asHomePageTexts`: each of the nine keys falls back to its default on its own. */
  function AsHomePageTexts(v: Json): (r: HomePageTexts)
    ensures WellFormedTexts(r)
    ensures !v.JObj? ==> r == DefaultHomePageTexts
    ensures v.JObj? ==> r.siteTitle == AsString(Get(v, "siteTitle"), DefaultHomePageTexts.siteTitle)
    ensures v.JObj? ==> r.heroBadge == AsString(Get(v, "heroBadge"), DefaultHomePageTexts.heroBadge)
    ensures v.JObj? ==> r.primaryCtaLabel == AsString(Get(v, "primaryCtaLabel"), DefaultHomePageTexts.primaryCtaLabel)
    ensures v.JObj? ==> r.secondaryCtaLabel == AsString(Get(v, "secondaryCtaLabel"), DefaultHomePageTexts.secondaryCtaLabel)
    ensures v.JObj? ==> r.skillsTitle == AsString(Get(v, "skillsTitle"), DefaultHomePageTexts.skillsTitle)
    ensures v.JObj? ==> r.skillsHint == AsString(Get(v, "skillsHint"), DefaultHomePageTexts.skillsHint)
    ensures v.JObj? ==> r.projectsTitle == AsString(Get(v, "projectsTitle"), DefaultHomePageTexts.projectsTitle)
    ensures v.JObj? ==> r.postsTitle == AsString(Get(v, "postsTitle"), DefaultHomePageTexts.postsTitle)
    ensures v.JObj? ==> r.viewAllPostsLabel == AsString(Get(v, "viewAllPostsLabel"), DefaultHomePageTexts.viewAllPostsLabel)
  {
    DefaultTextsWellFormed();
    var record := AsRecord(v);
    if record.None? then DefaultHomePageTexts
    else
      var m := record.value;
      var d := DefaultHomePageTexts;
      var siteTitle := AsString(Field(m, "siteTitle"), d.siteTitle);
      var heroBadge := AsString(Field(m, "heroBadge"), d.heroBadge);
      var primaryCtaLabel := AsString(Field(m, "primaryCtaLabel"), d.primaryCtaLabel);
      var secondaryCtaLabel := AsString(Field(m, "secondaryCtaLabel"), d.secondaryCtaLabel);
      var skillsTitle := AsString(Field(m, "skillsTitle"), d.skillsTitle);
      var skillsHint := AsString(Field(m, "skillsHint"), d.skillsHint);
      var projectsTitle := AsString(Field(m, "projectsTitle"), d.projectsTitle);
      var postsTitle := AsString(Field(m, "postsTitle"), d.postsTitle);
      var viewAllPostsLabel := AsString(Field(m, "viewAllPostsLabel"), d.viewAllPostsLabel);
      HomePageTexts(siteTitle, heroBadge, primaryCtaLabel, secondaryCtaLabel,
                    skillsTitle, skillsHint, projectsTitle, postsTitle, viewAllPostsLabel)
  }

  /** A stored text that is missing, not a string or blank falls back to
      its default alone: the other eight texts are read as before. */
  lemma BadTextFallsBackAlone(m: map<string, Json>, junk: Json)
    requires !junk.JStr? || AllSpace(junk.s)
    ensures AsHomePageTexts(JObj(m["siteTitle" := junk])) ==
            AsHomePageTexts(JObj(m)).(siteTitle := DefaultHomePageTexts.siteTitle)
  {
    AsStringMeaning(Some(junk), DefaultHomePageTexts.siteTitle);
  }

  /** The view of a missing row. */
  function DefaultView(): ProfileView {
    ProfileView("main", "Your Name", "Developer", "Write your profile in the admin panel.",
                None, None, None, None, None, None, [], [], DefaultHomePageTexts)
  }

  /** `toProfileView` */
  function ToProfileView(profile: Option<ProfileRecord>): (r: ProfileView)
    ensures profile.None? ==> r == DefaultView()
    ensures WellFormedTexts(r.homepageTexts)
    ensures profile.Some? ==>
      && r.id == profile.value.id && r.name == profile.value.name
      && r.role == profile.value.role && r.bio == profile.value.bio
      && r.school == profile.value.school && r.location == profile.value.location
      && r.email == profile.value.email && r.avatarUrl == profile.value.avatarUrl
      && r.githubUrl == profile.value.githubUrl && r.linkedinUrl == profile.value.linkedinUrl
    ensures profile.Some? ==>
      && r.skills == AsStringArray(profile.value.skills)
      && r.projects == ProjectArray(profile.value.projects)
      && r.homepageTexts == AsHomePageTexts(profile.value.homepageTexts)
  {
    match profile
    case None => DefaultTextsWellFormed(); DefaultView()
    case Some(p) =>
      ProfileView(p.id, p.name, p.role, p.bio, p.school, p.location, p.email,
                  p.avatarUrl, p.githubUrl, p.linkedinUrl,
                  AsStringArray(p.skills), ProjectArray(p.projects), AsHomePageTexts(p.homepageTexts))
  }

  // ---- How a view's structured fields are written back as JSON ----

  /** A project item serialised: `url: undefined` is dropped by JSON serialisation. */
  function ProjectToJson(p: ProjectItem): Json {
    var base := map["name" := JStr(p.name), "description" := JStr(p.description)];
    JObj(if p.url.Some? then base["url" := JStr(p.url.value)] else base)
  }

  function ProjectsToJson(ps: seq<ProjectItem>): (r: seq<Json>)
    ensures |r| == |ps|
    ensures forall k :: 0 <= k < |ps| ==> r[k] == ProjectToJson(ps[k])
  {
    seq(|ps|, k requires 0 <= k < |ps| => ProjectToJson(ps[k]))
  }

  function TextsToJson(t: HomePageTexts): Json {
    JObj(map[
      "siteTitle" := JStr(t.siteTitle),
      "heroBadge" := JStr(t.heroBadge),
      "primaryCtaLabel" := JStr(t.primaryCtaLabel),
      "secondaryCtaLabel" := JStr(t.secondaryCtaLabel),
      "skillsTitle" := JStr(t.skillsTitle),
      "skillsHint" := JStr(t.skillsHint),
      "projectsTitle" := JStr(t.projectsTitle),
      "postsTitle" := JStr(t.postsTitle),
      "viewAllPostsLabel" := JStr(t.viewAllPostsLabel)])
  }

  /** Reading back a stored project list gives the same projects. */
  lemma {:induction false} ProjectArrayOfJson(ps: seq<ProjectItem>)
    ensures ProjectArray(JArr(ProjectsToJson(ps))) == ps
  {
    ProjectItemsOfJson(ps);
  }

  lemma {:induction false} ProjectItemsOfJson(ps: seq<ProjectItem>)
    ensures ProjectItems(ProjectsToJson(ps)) == ps
  {
    if ps != [] {
      assert ProjectsToJson(ps)[1..] == ProjectsToJson(ps[1..]);
      ProjectItemsOfJson(ps[1..]);
      assert ProjectFrom(ProjectToJson(ps[0])) == Some(ps[0]);
    }
  }

  /** A string already in `asString`'s output form reads back as itself. */
  lemma AsStringOfDisplayable(s: string, fallback: string)
    requires Displayable(s)
    ensures AsString(Some(JStr(s)), fallback) == s
  {
    TrimNoEdgeSpace(s);
  }

  /** Reading back a stored text bag gives the same texts, provided every
      field is already in the trimmed, non-blank form `asString` produces. */
  lemma TextsOfJson(t: HomePageTexts)
    requires WellFormedTexts(t)
    ensures AsHomePageTexts(TextsToJson(t)) == t
  {
    var m := TextsToJson(t).fields;
    var d := DefaultHomePageTexts;
    assert Field(m, "siteTitle") == Some(JStr(t.siteTitle));
    assert Field(m, "heroBadge") == Some(JStr(t.heroBadge));
    assert Field(m, "primaryCtaLabel") == Some(JStr(t.primaryCtaLabel));
    assert Field(m, "secondaryCtaLabel") == Some(JStr(t.secondaryCtaLabel));
    assert Field(m, "skillsTitle") == Some(JStr(t.skillsTitle));
    assert Field(m, "skillsHint") == Some(JStr(t.skillsHint));
    assert Field(m, "projectsTitle") == Some(JStr(t.projectsTitle));
    assert Field(m, "postsTitle") == Some(JStr(t.postsTitle));
    assert Field(m, "viewAllPostsLabel") == Some(JStr(t.viewAllPostsLabel));
    AsStringOfDisplayable(t.siteTitle, d.siteTitle);
    AsStringOfDisplayable(t.heroBadge, d.heroBadge);
    AsStringOfDisplayable(t.primaryCtaLabel, d.primaryCtaLabel);
    AsStringOfDisplayable(t.secondaryCtaLabel, d.secondaryCtaLabel);
    AsStringOfDisplayable(t.skillsTitle, d.skillsTitle);
    AsStringOfDisplayable(t.skillsHint, d.skillsHint);
    AsStringOfDisplayable(t.projectsTitle, d.projectsTitle);
    AsStringOfDisplayable(t.postsTitle, d.postsTitle);
    AsStringOfDisplayable(t.viewAllPostsLabel, d.viewAllPostsLabel);
  }

  /** Spec example: a well-formed project next to a malformed one reads as the
      well-formed one alone. */
  lemma MalformedProjectDropped(name: string, description: string, junk: Json)
    requires !junk.JObj?
    ensures ProjectArray(JArr([ProjectToJson(ProjectItem(name, description, None)), junk]))
            == [ProjectItem(name, description, None)]
  {
    var items := [ProjectToJson(ProjectItem(name, description, None)), junk];
    assert items[1..] == [junk];
    assert [junk][1..] == [];
    assert ProjectFrom(junk) == None;
    assert ProjectItems([junk]) == [];
    assert ProjectFrom(items[0]) == Some(ProjectItem(name, description, None));
  }
}
