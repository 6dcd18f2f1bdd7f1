/** The profile server actions of src/app/admin/actions.ts. Every action
    reads the profile through `toProfileView`, edits some fields, and
    upserts the singleton row: an update that writes only the edited
    columns when the row exists, a create from the whole view otherwise.
    The point of the design is that either way the stored row reads back as
    the edited view (`ApplyCommutes`). */
module AdminProfile {
  import opened Wrappers
  import opened JsText
  import opened Json
  import opened Collections
  import opened ProfileTypes
  import opened AdminForms
  import opened Store

  const ValidationError := "/admin?error=validation"

  /** The columns one action writes. */
  datatype ProfileEdit =
    | SetHero(name: string, role: string, bio: string, siteTitle: string,
              heroBadge: string, primaryCtaLabel: string, secondaryCtaLabel: string)
    | SetMeta(school: Option<string>, location: Option<string>, email: Option<string>)
    | SetSkillsTitle(skillsTitle: string)
    | SetProjectsTitle(projectsTitle: string)
    | SetPostsTexts(postsTitle: string, viewAllPostsLabel: string)
    | SetSkills(skills: seq<string>)
    | SetProjects(projects: seq<ProjectItem>)

  /** The text values an edit writes are in the form `asString` reads back
      unchanged; the schemas guarantee it (trimmed, at least 2 characters). */
  predicate WellFormedEdit(e: ProfileEdit) {
    match e
    case SetHero(_, _, _, siteTitle, heroBadge, primary, secondary) =>
      Displayable(siteTitle) && Displayable(heroBadge) && Displayable(primary) && Displayable(secondary)
    case SetSkillsTitle(t) => Displayable(t)
    case SetProjectsTitle(t) => Displayable(t)
    case SetPostsTexts(title, viewAll) => Displayable(title) && Displayable(viewAll)
    case _ => true
  }

  /** `{ ...texts, key: value, ... }` for the text keys an edit sets. */
  function TextsWith(t: HomePageTexts, e: ProfileEdit): (r: HomePageTexts)
    ensures WellFormedTexts(t) && WellFormedEdit(e) ==> WellFormedTexts(r)
    ensures r.skillsHint == t.skillsHint
    ensures !e.SetHero? ==> r.siteTitle == t.siteTitle && r.heroBadge == t.heroBadge
                            && r.primaryCtaLabel == t.primaryCtaLabel && r.secondaryCtaLabel == t.secondaryCtaLabel
    ensures !e.SetSkillsTitle? ==> r.skillsTitle == t.skillsTitle
    ensures !e.SetProjectsTitle? ==> r.projectsTitle == t.projectsTitle
    ensures !e.SetPostsTexts? ==> r.postsTitle == t.postsTitle && r.viewAllPostsLabel == t.viewAllPostsLabel
    ensures e.SetHero? ==> r.siteTitle == e.siteTitle && r.heroBadge == e.heroBadge
                           && r.primaryCtaLabel == e.primaryCtaLabel && r.secondaryCtaLabel == e.secondaryCtaLabel
    ensures e.SetSkillsTitle? ==> r.skillsTitle == e.skillsTitle
    ensures e.SetProjectsTitle? ==> r.projectsTitle == e.projectsTitle
    ensures e.SetPostsTexts? ==> r.postsTitle == e.postsTitle && r.viewAllPostsLabel == e.viewAllPostsLabel
  {
    match e
    case SetHero(_, _, _, siteTitle, heroBadge, primary, secondary) =>
      t.(siteTitle := siteTitle, heroBadge := heroBadge,
         primaryCtaLabel := primary, secondaryCtaLabel := secondary)
    case SetSkillsTitle(title) => t.(skillsTitle := title)
    case SetProjectsTitle(title) => t.(projectsTitle := title)
    case SetPostsTexts(title, viewAll) => t.(postsTitle := title, viewAllPostsLabel := viewAll)
    case _ => t
  }

  /** What an edit means for the profile as the pages see it. */
  function ApplyToView(v: ProfileView, e: ProfileEdit): ProfileView {
    match e
    case SetHero(name, role, bio, _, _, _, _) =>
      v.(name := name, role := role, bio := bio, homepageTexts := TextsWith(v.homepageTexts, e))
    case SetMeta(school, location, email) => v.(school := school, location := location, email := email)
    case SetSkills(skills) => v.(skills := skills)
    case SetProjects(projects) => v.(projects := projects)
    case _ => v.(homepageTexts := TextsWith(v.homepageTexts, e))
  }

  /** `{ id: "main", ...getProfilePayload(view) }`: the whole view written as
      a row, lists and texts as JSON. */
  function GetProfilePayload(v: ProfileView): (r: ProfileRecord)
    ensures r.id == "main"
  {
    ProfileRecord("main", v.name, v.role, v.bio, v.school, v.location, v.email,
                  v.avatarUrl, v.githubUrl, v.linkedinUrl,
                  JArr(StringsToJson(v.skills)), JArr(ProjectsToJson(v.projects)),
                  TextsToJson(v.homepageTexts))
  }

  /** A view with id "main" and well-formed texts survives being written as
      a row and read back. */
  lemma PayloadRoundTrip(v: ProfileView)
    requires v.id == "main" && WellFormedTexts(v.homepageTexts)
    ensures ToProfileView(Some(GetProfilePayload(v))) == v
  {
    StringItemsOfStrings(v.skills);
    ProjectArrayOfJson(v.projects);
    TextsOfJson(v.homepageTexts);
  }

  /** The row after `prisma.profile.upsert` with the action's `update` and
      `create` payloads. The update writes only the edited columns; the
      hero create starts its texts from the defaults rather than the view. */
  function ApplyToRow(cur: Option<ProfileRecord>, e: ProfileEdit): (r: ProfileRecord)
    ensures cur.None? ==> r.id == "main"
    ensures cur.Some? ==> r.id == cur.value.id
    ensures cur.Some? && !e.SetSkills? ==> r.skills == cur.value.skills
    ensures cur.Some? && !e.SetProjects? ==> r.projects == cur.value.projects
    ensures cur.Some? && (e.SetMeta? || e.SetSkills? || e.SetProjects?) ==> r.homepageTexts == cur.value.homepageTexts
  {
    var view := ToProfileView(cur);
    match cur
    case Some(row) =>
      (match e
       case SetHero(name, role, bio, _, _, _, _) =>
         row.(name := name, role := role, bio := bio,
              homepageTexts := TextsToJson(TextsWith(view.homepageTexts, e)))
       case SetMeta(school, location, email) => row.(school := school, location := location, email := email)
       case SetSkills(skills) => row.(skills := JArr(StringsToJson(skills)))
       case SetProjects(projects) => row.(projects := JArr(ProjectsToJson(projects)))
       case _ => row.(homepageTexts := TextsToJson(TextsWith(view.homepageTexts, e))))
    case None =>
      var base := GetProfilePayload(view);
      (match e
       case SetHero(name, role, bio, _, _, _, _) =>
         base.(name := name, role := role, bio := bio,
               homepageTexts := TextsToJson(TextsWith(DefaultHomePageTexts, e)))
       case SetMeta(school, location, email) => base.(school := school, location := location, email := email)
       case SetSkills(skills) => base.(skills := JArr(StringsToJson(skills)))
       case SetProjects(projects) => base.(projects := JArr(ProjectsToJson(projects)))
       case _ => base.(homepageTexts := TextsToJson(TextsWith(view.homepageTexts, e))))
  }

  /** Whether the row existed or not, the stored row reads back as the
      edited view. */
  lemma ApplyCommutes(cur: Option<ProfileRecord>, e: ProfileEdit)
    requires WellFormedEdit(e)
    ensures ToProfileView(Some(ApplyToRow(cur, e))) == ApplyToView(ToProfileView(cur), e)
  {
    match cur {
      case Some(row) => ApplyCommutesUpdate(row, e);
      case None => ApplyCommutesCreate(e);
    }
  }

  /** The update branch of the upsert: only the edited columns change. */
  lemma ApplyCommutesUpdate(row: ProfileRecord, e: ProfileEdit)
    requires WellFormedEdit(e)
    ensures ToProfileView(Some(ApplyToRow(Some(row), e))) == ApplyToView(ToProfileView(Some(row)), e)
  {
    var view := ToProfileView(Some(row));
    match e {
      case SetSkills(skills) => StringItemsOfStrings(skills);
      case SetProjects(projects) => ProjectArrayOfJson(projects);
      case SetMeta(_, _, _) =>
      case _ => TextsOfJson(TextsWith(view.homepageTexts, e));
    }
  }

  /** The create branch of the upsert: the whole edited view is written. */
  lemma ApplyCommutesCreate(e: ProfileEdit)
    requires WellFormedEdit(e)
    ensures ToProfileView(Some(ApplyToRow(None, e))) == ApplyToView(ToProfileView(None), e)
  {
    var view := ToProfileView(None);
    StringItemsOfStrings(view.skills);
    ProjectArrayOfJson(view.projects);
    TextsOfJson(view.homepageTexts);
    match e {
      case SetSkills(skills) => StringItemsOfStrings(skills);
      case SetProjects(projects) => ProjectArrayOfJson(projects);
      case SetMeta(_, _, _) =>
      case SetHero(_, _, _, _, _, _, _) => TextsOfJson(TextsWith(DefaultHomePageTexts, e));
      case _ => TextsOfJson(TextsWith(view.homepageTexts, e));
    }
  }

  // ---------------------------------------------------------------------
  // The list edits

  /** `Array.from(new Set([...skills, skill]))` */
  function AddSkill(skills: seq<string>, skill: string): (r: seq<string>)
    ensures skill in r && NoDup(r)
    ensures forall k :: 0 <= k < |skills| ==> skills[k] in r
    ensures forall k :: 0 <= k < |r| ==> r[k] in skills || r[k] == skill
  {
    Dedupe(skills + [skill])
  }

  /** On a list without repeats, adding a skill already there changes
      nothing, and adding a new one appends it. */
  lemma AddSkillOnSet(skills: seq<string>, skill: string)
    requires NoDup(skills)
    ensures skill in skills ==> AddSkill(skills, skill) == skills
    ensures skill !in skills ==> AddSkill(skills, skill) == skills + [skill]
  {
    DedupeSnoc(skills, skill);
    DedupeNoDup(skills);
  }

  /** `xs.filter((_, i) => i !== index)` */
  function RemoveAt<T>(xs: seq<T>, index: int): (r: seq<T>)
    ensures |r| <= |xs|
  {
    if xs == [] then []
    else (if index == 0 then [] else [xs[0]]) + RemoveAt(xs[1..], index - 1)
  }

  /** Removing by index drops exactly that element when the index is in
      range, and nothing otherwise. */
  lemma {:induction false} RemoveAtSpec<T>(xs: seq<T>, index: int)
    ensures 0 <= index < |xs| ==> RemoveAt(xs, index) == xs[..index] + xs[index + 1..]
    ensures !(0 <= index < |xs|) ==> RemoveAt(xs, index) == xs
  {
    if xs != [] {
      RemoveAtSpec(xs[1..], index - 1);
      if index == 0 {
        assert xs[..0] + xs[1..] == xs[1..];
      } else if 0 < index < |xs| {
        assert xs[..index] == [xs[0]] + xs[1..][..index - 1];
        assert xs[index + 1..] == xs[1..][index..];
      } else {
        assert [xs[0]] + xs[1..] == xs;
      }
    }
  }

  /** `xs.map((p, i) => i !== index ? p : item)` */
  function ReplaceAt<T>(xs: seq<T>, index: int, item: T): (r: seq<T>)
    ensures |r| == |xs|
  {
    seq(|xs|, k requires 0 <= k < |xs| => if k == index then item else xs[k])
  }

  lemma ReplaceAtSpec<T>(xs: seq<T>, index: int, item: T)
    ensures 0 <= index < |xs| ==> ReplaceAt(xs, index, item) == xs[index := item]
    ensures !(0 <= index < |xs|) ==> ReplaceAt(xs, index, item) == xs
  {
  }

  // ---------------------------------------------------------------------
  // What each action decides, from its form and the current view

  /** An action either redirects without writing, or commits an edit and
      then redirects. */
  datatype Decision = Reject(location: string) | Commit(edit: ProfileEdit, location: string)

  function HeroDecision(form: Form): (d: Decision)
    ensures d.Commit? <==> ParseHeroForm(form).Some?
    ensures d.Reject? ==> d.location == ValidationError
    ensures d.Commit? ==> d.location == "/admin?saved=hero" && d.edit.SetHero? && WellFormedEdit(d.edit)
    ensures d.Commit? ==> d.edit == SetHero(
      Trim(form["name"]), Trim(form["role"]), Trim(form["bio"]),
      Trim(ReadString(form, "siteTitle")), Trim(ReadString(form, "homepageBadge")),
      Trim(ReadString(form, "primaryCtaLabel")), Trim(ReadString(form, "secondaryCtaLabel")))
  {
    match ParseHeroForm(form)
    case None => Reject(ValidationError)
    case Some(h) =>
      Commit(SetHero(h.name, h.role, h.bio, h.siteTitle, h.homepageBadge, h.primaryCtaLabel, h.secondaryCtaLabel),
             "/admin?saved=hero")
  }

  /** `school || null` and so on: an empty value clears the column. */
  function MetaDecision(form: Form, isEmail: string -> bool): (d: Decision)
    ensures d.Commit? <==> ParseMetaForm(form, isEmail).Some?
    ensures d.Reject? ==> d.location == ValidationError
    ensures d.Commit? ==> d.location == "/admin?saved=meta" && d.edit.SetMeta?
    ensures d.Commit? ==> (d.edit.school.None? <==> AllSpace(form["school"]))
    ensures d.Commit? ==> (d.edit.location.None? <==> AllSpace(form["location"]))
    ensures d.Commit? ==> (d.edit.email.None? <==> form["email"] == "")
    ensures d.Commit? ==>
      d.edit == SetMeta(NonEmptyOr(Trim(form["school"])), NonEmptyOr(Trim(form["location"])), NonEmptyOr(form["email"]))
  {
    match ParseMetaForm(form, isEmail)
    case None => Reject(ValidationError)
    case Some(m) =>
      TrimEmptyIff(form["school"]);
      TrimEmptyIff(form["location"]);
      Commit(SetMeta(NonEmptyOr(m.school), NonEmptyOr(m.location), NonEmptyOr(m.email)), "/admin?saved=meta")
  }

  function SkillsTitleDecision(form: Form): (d: Decision)
    ensures d.Commit? <==> ParseTitleField(form, "skillsTitle").Some?
    ensures d.Reject? ==> d.location == ValidationError
    ensures d.Commit? ==> d.location == "/admin?saved=skills_text" && WellFormedEdit(d.edit)
    ensures d.Commit? ==> d.edit == SetSkillsTitle(Trim(ReadString(form, "skillsTitle")))
  {
    var t := ParseTitleField(form, "skillsTitle");
    if t.None? then Reject(ValidationError)
    else Commit(SetSkillsTitle(t.value), "/admin?saved=skills_text")
  }

  function ProjectsTitleDecision(form: Form): (d: Decision)
    ensures d.Commit? <==> ParseTitleField(form, "projectsTitle").Some?
    ensures d.Reject? ==> d.location == ValidationError
    ensures d.Commit? ==> d.location == "/admin?saved=projects_text" && WellFormedEdit(d.edit)
    ensures d.Commit? ==> d.edit == SetProjectsTitle(Trim(ReadString(form, "projectsTitle")))
  {
    var t := ParseTitleField(form, "projectsTitle");
    if t.None? then Reject(ValidationError)
    else Commit(SetProjectsTitle(t.value), "/admin?saved=projects_text")
  }

  function PostsTextsDecision(form: Form): (d: Decision)
    ensures d.Commit? <==> ParseTitleField(form, "postsTitle").Some? && ParseTitleField(form, "viewAllPostsLabel").Some?
    ensures d.Reject? ==> d.location == ValidationError
    ensures d.Commit? ==> d.location == "/admin?saved=posts_text" && WellFormedEdit(d.edit)
    ensures d.Commit? ==> d.edit == SetPostsTexts(Trim(ReadString(form, "postsTitle")), Trim(ReadString(form, "viewAllPostsLabel")))
  {
    var title := ParseTitleField(form, "postsTitle");
    var viewAll := ParseTitleField(form, "viewAllPostsLabel");
    if title.None? || viewAll.None? then Reject(ValidationError)
    else Commit(SetPostsTexts(title.value, viewAll.value), "/admin?saved=posts_text")
  }

  function AddSkillDecision(form: Form, view: ProfileView): (d: Decision)
    ensures d.Commit? <==> ParseSkillForm(form).Some?
    ensures d.Reject? ==> d.location == ValidationError
    ensures d.Commit? ==> d.location == "/admin?saved=skill" && d.edit.SetSkills?
    ensures d.Commit? ==> Trim(form["skill"]) in d.edit.skills && NoDup(d.edit.skills)
    ensures d.Commit? ==> d.edit == SetSkills(AddSkill(view.skills, Trim(form["skill"])))
  {
    match ParseSkillForm(form)
    case None => Reject(ValidationError)
    case Some(skill) => Commit(SetSkills(AddSkill(view.skills, skill)), "/admin?saved=skill")
  }

  /** A non-integer index is rejected; any integer is accepted, and one out
      of range removes nothing. */
  function DeleteSkillDecision(form: Form, view: ProfileView): (d: Decision)
    ensures d.Commit? <==> ParseInt(ReadString(form, "index")).Some?
    ensures d.Reject? ==> d.location == ValidationError
    ensures d.Commit? ==> d.location == "/admin?deleted=skill"
    ensures d.Commit? ==> d.edit == SetSkills(RemoveAt(view.skills, ParseInt(ReadString(form, "index")).value))
  {
    match ParseInt(ReadString(form, "index"))
    case None => Reject(ValidationError)
    case Some(index) => Commit(SetSkills(RemoveAt(view.skills, index)), "/admin?deleted=skill")
  }

  /** `{ name, description, url: url || undefined }` */
  function ProjectOf(p: ProjectInput): (r: ProjectItem)
    ensures r.name == p.name && r.description == p.description
    ensures r.url.None? <==> p.url == ""
    ensures r.url.Some? ==> r.url.value == p.url
  {
    ProjectItem(p.name, p.description, NonEmptyOr(p.url))
  }

  function AddProjectDecision(form: Form, view: ProfileView, isUrl: string -> bool): (d: Decision)
    ensures d.Commit? <==> ParseProjectForm(form, isUrl).Some?
    ensures d.Reject? ==> d.location == ValidationError
    ensures d.Commit? ==> d.location == "/admin?saved=project"
    ensures d.Commit? ==> d.edit == SetProjects(view.projects + [ProjectOf(ParseProjectForm(form, isUrl).value)])
  {
    match ParseProjectForm(form, isUrl)
    case None => Reject(ValidationError)
    case Some(p) => Commit(SetProjects(view.projects + [ProjectOf(p)]), "/admin?saved=project")
  }

  /** Both the form and the index must be valid, and the index must name an
      existing project. */
  function UpdateProjectDecision(form: Form, view: ProfileView, isUrl: string -> bool): (d: Decision)
    ensures d.Commit? <==> ParseProjectForm(form, isUrl).Some? && ParseInt(ReadString(form, "index")).Some?
                           && 0 <= ParseInt(ReadString(form, "index")).value < |view.projects|
    ensures d.Reject? ==> d.location == ValidationError
    ensures d.Commit? ==> d.location == "/admin?updated=project" && d.edit.SetProjects?
    ensures d.Commit? ==>
      d.edit.projects == view.projects[ParseInt(ReadString(form, "index")).value := ProjectOf(ParseProjectForm(form, isUrl).value)]
  {
    var parsed := ParseProjectForm(form, isUrl);
    var index := ParseInt(ReadString(form, "index"));
    if parsed.None? || index.None? then Reject(ValidationError)
    else if index.value < 0 || index.value >= |view.projects| then Reject(ValidationError)
    else
      ReplaceAtSpec(view.projects, index.value, ProjectOf(parsed.value));
      Commit(SetProjects(ReplaceAt(view.projects, index.value, ProjectOf(parsed.value))), "/admin?updated=project")
  }

  function DeleteProjectDecision(form: Form, view: ProfileView): (d: Decision)
    ensures d.Commit? <==> ParseInt(ReadString(form, "index")).Some?
    ensures d.Reject? ==> d.location == ValidationError
    ensures d.Commit? ==> d.location == "/admin?deleted=project"
    ensures d.Commit? ==> d.edit == SetProjects(RemoveAt(view.projects, ParseInt(ReadString(form, "index")).value))
  {
    match ParseInt(ReadString(form, "index"))
    case None => Reject(ValidationError)
    case Some(index) => Commit(SetProjects(RemoveAt(view.projects, index)), "/admin?deleted=project")
  }

  /** The outcome and the new row of an action that decided `d`. */
  predicate Effect(hasSession: bool, d: Decision, before: Option<ProfileRecord>,
                   outcome: Outcome, after: Option<ProfileRecord>)
  {
    if !hasSession then outcome == Redirect(LoginPath) && after == before
    else match d
      case Reject(location) => outcome == Redirect(location) && after == before
      case Commit(e, location) => outcome == Redirect(location) && after == Some(ApplyToRow(before, e))
  }

  /** The common body of the profile actions: require a session, then either
      redirect with the rejection or upsert the row and redirect. */
  method RunDecision(db: Database, hasSession: bool, d: Decision) returns (outcome: Outcome)
    requires db.Valid()
    modifies db
    ensures db.Valid() && db.posts == old(db.posts)
    ensures Effect(hasSession, d, old(db.profile), outcome, db.profile)
  {
    if !hasSession {
      return Redirect(LoginPath);
    }
    match d {
      case Reject(location) =>
        outcome := Redirect(location);
      case Commit(e, location) =>
        db.profile := Some(ApplyToRow(db.profile, e));
        outcome := Redirect(location);
    }
  }

  method UpdateHeroSectionAction(db: Database, hasSession: bool, form: Form) returns (outcome: Outcome)
    requires db.Valid()
    modifies db
    ensures db.Valid() && db.posts == old(db.posts)
    ensures Effect(hasSession, HeroDecision(form), old(db.profile), outcome, db.profile)
  {
    outcome := RunDecision(db, hasSession, HeroDecision(form));
  }

  method UpdateMetaSectionAction(db: Database, hasSession: bool, form: Form, isEmail: string -> bool)
    returns (outcome: Outcome)
    requires db.Valid()
    modifies db
    ensures db.Valid() && db.posts == old(db.posts)
    ensures Effect(hasSession, MetaDecision(form, isEmail), old(db.profile), outcome, db.profile)
  {
    outcome := RunDecision(db, hasSession, MetaDecision(form, isEmail));
  }

  method UpdateSkillsSectionTextAction(db: Database, hasSession: bool, form: Form) returns (outcome: Outcome)
    requires db.Valid()
    modifies db
    ensures db.Valid() && db.posts == old(db.posts)
    ensures Effect(hasSession, SkillsTitleDecision(form), old(db.profile), outcome, db.profile)
  {
    outcome := RunDecision(db, hasSession, SkillsTitleDecision(form));
  }

  method UpdateProjectsSectionTextAction(db: Database, hasSession: bool, form: Form) returns (outcome: Outcome)
    requires db.Valid()
    modifies db
    ensures db.Valid() && db.posts == old(db.posts)
    ensures Effect(hasSession, ProjectsTitleDecision(form), old(db.profile), outcome, db.profile)
  {
    outcome := RunDecision(db, hasSession, ProjectsTitleDecision(form));
  }

  method UpdatePostsSectionTextAction(db: Database, hasSession: bool, form: Form) returns (outcome: Outcome)
    requires db.Valid()
    modifies db
    ensures db.Valid() && db.posts == old(db.posts)
    ensures Effect(hasSession, PostsTextsDecision(form), old(db.profile), outcome, db.profile)
  {
    outcome := RunDecision(db, hasSession, PostsTextsDecision(form));
  }

  method AddSkillAction(db: Database, hasSession: bool, form: Form) returns (outcome: Outcome)
    requires db.Valid()
    modifies db
    ensures db.Valid() && db.posts == old(db.posts)
    ensures Effect(hasSession, AddSkillDecision(form, ToProfileView(old(db.profile))), old(db.profile), outcome, db.profile)
  {
    outcome := RunDecision(db, hasSession, AddSkillDecision(form, ToProfileView(db.profile)));
  }

  method DeleteSkillAction(db: Database, hasSession: bool, form: Form) returns (outcome: Outcome)
    requires db.Valid()
    modifies db
    ensures db.Valid() && db.posts == old(db.posts)
    ensures Effect(hasSession, DeleteSkillDecision(form, ToProfileView(old(db.profile))), old(db.profile), outcome, db.profile)
  {
    outcome := RunDecision(db, hasSession, DeleteSkillDecision(form, ToProfileView(db.profile)));
  }

  method AddProjectAction(db: Database, hasSession: bool, form: Form, isUrl: string -> bool) returns (outcome: Outcome)
    requires db.Valid()
    modifies db
    ensures db.Valid() && db.posts == old(db.posts)
    ensures Effect(hasSession, AddProjectDecision(form, ToProfileView(old(db.profile)), isUrl), old(db.profile), outcome, db.profile)
  {
    outcome := RunDecision(db, hasSession, AddProjectDecision(form, ToProfileView(db.profile), isUrl));
  }

  method UpdateProjectAction(db: Database, hasSession: bool, form: Form, isUrl: string -> bool) returns (outcome: Outcome)
    requires db.Valid()
    modifies db
    ensures db.Valid() && db.posts == old(db.posts)
    ensures Effect(hasSession, UpdateProjectDecision(form, ToProfileView(old(db.profile)), isUrl), old(db.profile), outcome, db.profile)
  {
    outcome := RunDecision(db, hasSession, UpdateProjectDecision(form, ToProfileView(db.profile), isUrl));
  }

  method DeleteProjectAction(db: Database, hasSession: bool, form: Form) returns (outcome: Outcome)
    requires db.Valid()
    modifies db
    ensures db.Valid() && db.posts == old(db.posts)
    ensures Effect(hasSession, DeleteProjectDecision(form, ToProfileView(old(db.profile))), old(db.profile), outcome, db.profile)
  {
    outcome := RunDecision(db, hasSession, DeleteProjectDecision(form, ToProfileView(db.profile)));
  }

  /** `logoutAction`: the session cookie is cleared, then the login page. */
  method LogoutAction(jar: SessionJar) returns (outcome: Outcome)
    modifies jar
    ensures jar.session == None
    ensures outcome == Redirect(LoginPath)
  {
    jar.session := None;
    outcome := Redirect(LoginPath);
  }

  // ---------------------------------------------------------------------
  // What the pages see after an action

  /** After a committed skill addition the profile shows the skill once. */
  lemma AddSkillShows(cur: Option<ProfileRecord>, form: Form)
    requires ParseSkillForm(form).Some?
    ensures var v := ToProfileView(Some(ApplyToRow(cur, AddSkillDecision(form, ToProfileView(cur)).edit)));
            Trim(form["skill"]) in v.skills && NoDup(v.skills)
            && forall k :: 0 <= k < |ToProfileView(cur).skills| ==> ToProfileView(cur).skills[k] in v.skills
  {
    var e := SetSkills(AddSkill(ToProfileView(cur).skills, ParseSkillForm(form).value));
    assert AddSkillDecision(form, ToProfileView(cur)).edit == e;
    ApplyCommutes(cur, e);
  }

  /** After a committed skill deletion the profile shows the skills without
      the one at the index, or all of them if the index is out of range. */
  lemma DeleteSkillShows(cur: Option<ProfileRecord>, index: int)
    ensures var before := ToProfileView(cur).skills;
            var v := ToProfileView(Some(ApplyToRow(cur, SetSkills(RemoveAt(before, index)))));
            (0 <= index < |before| ==> v.skills == before[..index] + before[index + 1..])
            && (!(0 <= index < |before|) ==> v.skills == before)
  {
    ApplyCommutes(cur, SetSkills(RemoveAt(ToProfileView(cur).skills, index)));
    RemoveAtSpec(ToProfileView(cur).skills, index);
  }

  /** After a committed project deletion the profile shows the projects
      without the one at the index, or all of them if it is out of range. */
  lemma DeleteProjectShows(cur: Option<ProfileRecord>, index: int)
    ensures var before := ToProfileView(cur).projects;
            var v := ToProfileView(Some(ApplyToRow(cur, SetProjects(RemoveAt(before, index)))));
            (0 <= index < |before| ==> v.projects == before[..index] + before[index + 1..])
            && (!(0 <= index < |before|) ==> v.projects == before)
  {
    ApplyCommutes(cur, SetProjects(RemoveAt(ToProfileView(cur).projects, index)));
    RemoveAtSpec(ToProfileView(cur).projects, index);
  }

  /** A committed hero edit changes exactly the name, role, bio and the four
      hero texts of the view; the other five texts keep their values, even
      when the row did not exist before. */
  lemma HeroShows(cur: Option<ProfileRecord>, form: Form)
    requires ParseHeroForm(form).Some?
    ensures var before := ToProfileView(cur);
            var v := ToProfileView(Some(ApplyToRow(cur, HeroDecision(form).edit)));
            && v.name == Trim(form["name"]) && v.role == Trim(form["role"]) && v.bio == Trim(form["bio"])
            && v.homepageTexts.siteTitle == Trim(ReadString(form, "siteTitle"))
            && v.homepageTexts.skillsTitle == before.homepageTexts.skillsTitle
            && v.homepageTexts.projectsTitle == before.homepageTexts.projectsTitle
            && v.homepageTexts.postsTitle == before.homepageTexts.postsTitle
            && v.skills == before.skills && v.projects == before.projects
  {
    ApplyCommutes(cur, HeroDecision(form).edit);
  }
}
