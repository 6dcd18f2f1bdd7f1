/** The post server actions of src/app/admin/actions.ts: create, update and
    delete a post, with the slug derived from the form and kept unique. */
module AdminPosts {
  import opened Wrappers
  import opened JsText
  import opened Json
  import opened AdminForms
  import opened Store

  /** `findUnique({ where: { id } })`: the position of the post with this id. */
  function IndexOfId(posts: seq<Post>, id: string): (r: Option<nat>)
    ensures r.Some? <==> HasId(posts, id)
    ensures r.Some? ==> r.value < |posts| && posts[r.value].id == id
  {
    if posts == [] then None
    else if posts[0].id == id then Some(0)
    else
      var rest := IndexOfId(posts[1..], id);
      if rest.None? then
        assert forall i :: 1 <= i < |posts| ==> posts[i] == posts[1..][i - 1];
        None
      else Some(rest.value + 1)
  }

  /** In a table with unique ids, the post found by id is the only one. */
  lemma IndexOfIdUnique(posts: seq<Post>, id: string, i: nat)
    requires UniqueKeys(posts) && i < |posts| && posts[i].id == id
    ensures IndexOfId(posts, id) == Some(i)
  {
  }

  /** `findFirst({ where: { slug, id: { not: id } } })` finds a post. */
  predicate SlugTakenByOther(posts: seq<Post>, slug: string, id: Option<string>) {
    exists i :: 0 <= i < |posts| && posts[i].slug == slug && (id.None? || posts[i].id != id.value)
  }

  /** What the validation steps of the create and update actions decide. */
  datatype PostPlan = RejectPost(query: string) | WritePost(input: PostInput, slug: string)

  /** Parse the form, derive the slug from the slug field or, when that is
      blank, from the title, and refuse an empty slug or one another post
      already has. `self` is the id of the post being updated. */
  function PlanPost(form: Form, isUrl: string -> bool, posts: seq<Post>, self: Option<string>): (p: PostPlan)
    ensures ParsePostForm(form, isUrl).None? <==> p == RejectPost("error=validation")
    ensures p.WritePost? ==> p.input == ParsePostForm(form, isUrl).value
    ensures p.WritePost? ==> p.slug != [] && IsSlug(p.slug) && !SlugTakenByOther(posts, p.slug, self)
    ensures p.WritePost? ==> p.slug == Slugify(if p.input.slug != "" then p.input.slug else p.input.title)
    ensures ParsePostForm(form, isUrl).Some? ==>
      var input := ParsePostForm(form, isUrl).value;
      var slug := Slugify(if input.slug != "" then input.slug else input.title);
      && (p == RejectPost("error=slug") <==> slug == [])
      && (p == RejectPost("error=slug_exists") <==> slug != [] && SlugTakenByOther(posts, slug, self))
      && (p.WritePost? <==> slug != [] && !SlugTakenByOther(posts, slug, self))
  {
    match ParsePostForm(form, isUrl)
    case None => RejectPost("error=validation")
    case Some(input) =>
      var slug := Slugify(if input.slug != "" then input.slug else input.title);
      if slug == "" then RejectPost("error=slug")
      else if SlugTakenByOther(posts, slug, self) then RejectPost("error=slug_exists")
      else WritePost(input, slug)
  }

  /** The columns the create and update actions write. */
  function WrittenPost(prev: Post, input: PostInput, slug: string): (r: Post)
    ensures r.id == prev.id && r.slug == slug && r.published
    ensures r.title == input.title && r.excerpt == input.excerpt && r.content == input.content
    ensures r.coverImage.None? <==> input.coverImage == ""
    ensures r.coverImage.Some? ==> r.coverImage.value == input.coverImage
    ensures r.tags == JArr(StringsToJson(ParseList(Some(input.tags))))
    ensures r.impressionCount == prev.impressionCount && r.clickCount == prev.clickCount
            && r.viewCount == prev.viewCount
  {
    prev.(title := input.title, slug := slug, excerpt := input.excerpt, content := input.content,
         coverImage := NonEmptyOr(input.coverImage), tags := JArr(StringsToJson(ParseList(Some(input.tags)))),
         published := true)
  }

  /** A fresh row: the counters start at zero. */
  function NewPost(id: string, input: PostInput, slug: string): (r: Post)
    ensures r.id == id && r.slug == slug && r.published
    ensures r.title == input.title && r.excerpt == input.excerpt && r.content == input.content
    ensures r.coverImage == NonEmptyOr(input.coverImage)
    ensures r.tags == JArr(StringsToJson(ParseList(Some(input.tags))))
    ensures r.impressionCount == 0 && r.clickCount == 0 && r.viewCount == 0
  {
    WrittenPost(Post(id, "", "", "", "", None, JArr([]), false, 0, 0, 0), input, slug)
  }

  lemma AppendKeepsUnique(posts: seq<Post>, p: Post)
    requires !HasId(posts, p.id) && !HasSlug(posts, p.slug)
    ensures UniqueKeys(posts) ==> UniqueKeys(posts + [p])
  {
  }

  lemma ReplaceKeepsUnique(posts: seq<Post>, i: nat, p: Post)
    requires i < |posts| && p.id == posts[i].id
    requires !SlugTakenByOther(posts, p.slug, Some(p.id))
    ensures UniqueKeys(posts) ==> UniqueKeys(posts[i := p])
  {
    if !UniqueKeys(posts) { return; }
    var q := posts[i := p];
    forall a, b | 0 <= a < b < |q| ensures q[a].id != q[b].id && q[a].slug != q[b].slug {
      if a == i {
        assert posts[b].id != p.id;
      } else if b == i {
        assert posts[a].id != p.id;
      }
    }
  }

  lemma RemoveKeepsUnique(posts: seq<Post>, i: nat)
    requires i < |posts|
    ensures UniqueKeys(posts) ==> UniqueKeys(posts[..i] + posts[i + 1..])
    ensures |posts[..i] + posts[i + 1..]| == |posts| - 1
    ensures multiset(posts[..i] + posts[i + 1..]) + multiset{posts[i]} == multiset(posts)
  {
    assert posts == posts[..i] + [posts[i]] + posts[i + 1..];
    if !UniqueKeys(posts) { return; }
    var q := posts[..i] + posts[i + 1..];
    forall a, b | 0 <= a < b < |q| ensures q[a].id != q[b].id && q[a].slug != q[b].slug {
      var a' := if a < i then a else a + 1;
      var b' := if b < i then b else b + 1;
      assert q[a] == posts[a'] && q[b] == posts[b'];
    }
  }

  /** The outcome of a post action and the post table after it. */
  datatype Step = Step(outcome: Outcome, posts: seq<Post>)

  /** `createPostAction`. The database's id generator is the parameter
      `newId`; a clash with an existing id is a unique violation, which
      throws. A new post is appended, published, with zeroed counters. */
  function CreatePost(posts: seq<Post>, hasSession: bool, form: Form, isUrl: string -> bool, newId: string): (r: Step)
    ensures UniqueKeys(posts) ==> UniqueKeys(r.posts)
    ensures !hasSession ==> r == Step(Redirect(LoginPath), posts)
    ensures r.posts == posts || r.outcome == Redirect(WithQuery(ResolveReturnTo(form, "/admin"), "saved=post"))
    ensures r.posts != posts ==>
      && |r.posts| == |posts| + 1 && r.posts[..|posts|] == posts
      && r.posts[|posts|].id == newId && !HasId(posts, newId)
      && r.posts[|posts|].slug != [] && IsSlug(r.posts[|posts|].slug) && !HasSlug(posts, r.posts[|posts|].slug)
      && r.posts[|posts|].published && r.posts[|posts|].viewCount == 0
    ensures hasSession && ParsePostForm(form, isUrl).None? ==>
      r == Step(Redirect(WithQuery(ResolveReturnTo(form, "/admin"), "error=validation")), posts)
    ensures hasSession && PlanPost(form, isUrl, posts, None).RejectPost? ==>
      r == Step(Redirect(WithQuery(ResolveReturnTo(form, "/admin"), PlanPost(form, isUrl, posts, None).query)), posts)
    ensures hasSession && PlanPost(form, isUrl, posts, None).WritePost? && HasId(posts, newId) ==>
      r == Step(Thrown, posts)
    ensures hasSession && PlanPost(form, isUrl, posts, None).WritePost? && !HasId(posts, newId) ==>
      var plan := PlanPost(form, isUrl, posts, None);
      r == Step(Redirect(WithQuery(ResolveReturnTo(form, "/admin"), "saved=post")),
                posts + [NewPost(newId, plan.input, plan.slug)])
  {
    if !hasSession then Step(Redirect(LoginPath), posts)
    else
      var returnTo := ResolveReturnTo(form, "/admin");
      match PlanPost(form, isUrl, posts, None)
      case RejectPost(query) => Step(Redirect(WithQuery(returnTo, query)), posts)
      case WritePost(input, slug) =>
        if HasId(posts, newId) then Step(Thrown, posts)
        else
          var post := NewPost(newId, input, slug);
          AppendKeepsUnique(posts, post);
          assert (posts + [post])[..|posts|] == posts;
          Step(Redirect(WithQuery(returnTo, "saved=post")), posts + [post])
  }

  /** `after` is `posts` with the post whose id is `id` rewritten: same
      ids, positions and counters, a valid slug, every other post as it was. */
  predicate RewritesOne(posts: seq<Post>, after: seq<Post>, id: string) {
    && |after| == |posts|
    && (forall k :: 0 <= k < |posts| && posts[k].id != id ==> after[k] == posts[k])
    && (forall k :: 0 <= k < |posts| ==>
          && after[k].id == posts[k].id && after[k].viewCount == posts[k].viewCount
          && after[k].clickCount == posts[k].clickCount && after[k].impressionCount == posts[k].impressionCount)
    && (forall k :: 0 <= k < |posts| && posts[k].id == id ==> after[k].slug != [] && IsSlug(after[k].slug) && after[k].published)
  }

  lemma WriteRewritesOne(posts: seq<Post>, i: nat, p: Post)
    requires i < |posts| && p.id == posts[i].id && p.slug != [] && IsSlug(p.slug) && p.published
    requires p.viewCount == posts[i].viewCount && p.clickCount == posts[i].clickCount
    requires p.impressionCount == posts[i].impressionCount
    ensures UniqueKeys(posts) ==> RewritesOne(posts, posts[i := p], p.id)
  {
  }

  /** `updatePostAction`: a missing `id` entry is refused before
      validation; an id no post has makes the update throw. The post keeps
      its id, position and counters. */
  function UpdatePost(posts: seq<Post>, hasSession: bool, form: Form, isUrl: string -> bool): (r: Step)
    ensures UniqueKeys(posts) ==> UniqueKeys(r.posts)
    ensures !hasSession ==> r == Step(Redirect(LoginPath), posts)
    ensures hasSession && "id" !in form ==>
      r == Step(Redirect(WithQuery(ResolveReturnTo(form, "/admin"), "error=missing_post")), posts)
    ensures r.posts == posts || r.outcome == Redirect(WithQuery(ResolveReturnTo(form, "/admin"), "updated=post"))
    ensures |r.posts| == |posts|
    ensures r.posts != posts ==> "id" in form && HasId(posts, form["id"])
    ensures r.posts != posts && UniqueKeys(posts) ==> RewritesOne(posts, r.posts, form["id"])
    ensures hasSession && "id" in form ==>
      r == ApplyUpdatePlan(posts, form["id"], PlanPost(form, isUrl, posts, Some(form["id"])),
                           ResolveReturnTo(form, "/admin"))
  {
    if !hasSession then Step(Redirect(LoginPath), posts)
    else
      var returnTo := ResolveReturnTo(form, "/admin");
      if "id" !in form then Step(Redirect(WithQuery(returnTo, "error=missing_post")), posts)
      else
        var id := form["id"];
        ApplyUpdatePlan(posts, id, PlanPost(form, isUrl, posts, Some(id)), returnTo)
  }

  /** The part of `updatePostAction` after validation: reject, or rewrite
      the post with this id, or throw when there is none. */
  function ApplyUpdatePlan(posts: seq<Post>, id: string, plan: PostPlan, returnTo: string): (r: Step)
    requires plan.WritePost? ==> plan.slug != [] && IsSlug(plan.slug) && !SlugTakenByOther(posts, plan.slug, Some(id))
    ensures UniqueKeys(posts) ==> UniqueKeys(r.posts)
    ensures r.posts == posts || r.outcome == Redirect(WithQuery(returnTo, "updated=post"))
    ensures |r.posts| == |posts|
    ensures r.posts != posts ==> HasId(posts, id)
    ensures r.posts != posts && UniqueKeys(posts) ==> RewritesOne(posts, r.posts, id)
    ensures plan.RejectPost? ==> r == Step(Redirect(WithQuery(returnTo, plan.query)), posts)
    ensures plan.WritePost? && !HasId(posts, id) ==> r == Step(Thrown, posts)
    ensures plan.WritePost? && HasId(posts, id) ==>
      var i := IndexOfId(posts, id).value;
      r == Step(Redirect(WithQuery(returnTo, "updated=post")),
                posts[i := WrittenPost(posts[i], plan.input, plan.slug)])
  {
    match plan
    case RejectPost(query) => Step(Redirect(WithQuery(returnTo, query)), posts)
    case WritePost(input, slug) =>
      match IndexOfId(posts, id)
      case None => Step(Thrown, posts)
      case Some(i) =>
        var post := WrittenPost(posts[i], input, slug);
        ReplaceKeepsUnique(posts, i, post);
        WriteRewritesOne(posts, i, post);
        Step(Redirect(WithQuery(returnTo, "updated=post")), posts[i := post])
  }

  /** `deletePostAction`: deleting an id no post has throws. The other
      posts keep their order. */
  function DeletePost(posts: seq<Post>, hasSession: bool, form: Form): (r: Step)
    ensures UniqueKeys(posts) ==> UniqueKeys(r.posts)
    ensures !hasSession ==> r == Step(Redirect(LoginPath), posts)
    ensures hasSession && "id" !in form ==>
      r == Step(Redirect(WithQuery(ResolveReturnTo(form, "/admin"), "error=missing_post")), posts)
    ensures hasSession && "id" in form && !HasId(posts, form["id"]) ==> r == Step(Thrown, posts)
    ensures hasSession && "id" in form && HasId(posts, form["id"]) ==>
      && r.outcome == Redirect(WithQuery(ResolveReturnTo(form, "/admin"), "deleted=post"))
      && |r.posts| == |posts| - 1
      && multiset(r.posts) + multiset{posts[IndexOfId(posts, form["id"]).value]} == multiset(posts)
  {
    if !hasSession then Step(Redirect(LoginPath), posts)
    else
      var returnTo := ResolveReturnTo(form, "/admin");
      if "id" !in form then Step(Redirect(WithQuery(returnTo, "error=missing_post")), posts)
      else
        match IndexOfId(posts, form["id"])
        case None => Step(Thrown, posts)
        case Some(i) =>
          RemoveKeepsUnique(posts, i);
          Step(Redirect(WithQuery(returnTo, "deleted=post")), posts[..i] + posts[i + 1..])
  }

  /** A post holds what the form submitted: the trimmed title, excerpt and
      content, the cover image or none when it was empty, the parsed tag
      list, the slug derived from the slug field or the title, published. */
  predicate HoldsForm(p: Post, form: Form) {
    && "title" in form && "slug" in form && "excerpt" in form && "content" in form
    && "coverImage" in form && "tags" in form
    && p.title == Trim(form["title"]) && p.excerpt == Trim(form["excerpt"])
    && p.content == Trim(form["content"]) && p.coverImage == NonEmptyOr(form["coverImage"])
    && p.tags == JArr(StringsToJson(ParseList(Some(Trim(form["tags"])))))
    && p.slug == Slugify(if Trim(form["slug"]) != "" then Trim(form["slug"]) else Trim(form["title"]))
    && p.published
  }

  lemma QueriesDiffer(returnTo: string, q1: string, q2: string)
    requires q1 != q2
    ensures WithQuery(returnTo, q1) != WithQuery(returnTo, q2)
  {
    assert WithQuery(returnTo, q1)[|returnTo| + 1..] == q1;
  }

  /** Whenever the create action reports `saved=post`, the table gained
      exactly one post at its end, with the generated id, zeroed counters
      and the form's values. */
  lemma CreatedPostHoldsForm(posts: seq<Post>, hasSession: bool, form: Form, isUrl: string -> bool, newId: string)
    requires CreatePost(posts, hasSession, form, isUrl, newId).outcome
             == Redirect(WithQuery(ResolveReturnTo(form, "/admin"), "saved=post"))
    ensures var r := CreatePost(posts, hasSession, form, isUrl, newId);
      && hasSession && |r.posts| == |posts| + 1 && r.posts[..|posts|] == posts
      && r.posts[|posts|].id == newId && HoldsForm(r.posts[|posts|], form)
      && r.posts[|posts|].impressionCount == 0 && r.posts[|posts|].clickCount == 0
      && r.posts[|posts|].viewCount == 0
  {
  }

  /** Whenever the update action reports `updated=post`, the post with the
      submitted id holds the form's values and keeps its id and counters;
      every other post is as it was. */
  lemma UpdatedPostHoldsForm(posts: seq<Post>, hasSession: bool, form: Form, isUrl: string -> bool)
    requires UpdatePost(posts, hasSession, form, isUrl).outcome
             == Redirect(WithQuery(ResolveReturnTo(form, "/admin"), "updated=post"))
    ensures hasSession && "id" in form && HasId(posts, form["id"])
    ensures var r := UpdatePost(posts, hasSession, form, isUrl);
      && |r.posts| == |posts|
      && var i := IndexOfId(posts, form["id"]).value;
      && HoldsForm(r.posts[i], form) && r.posts[i].id == form["id"]
      && r.posts[i].impressionCount == posts[i].impressionCount
      && r.posts[i].clickCount == posts[i].clickCount && r.posts[i].viewCount == posts[i].viewCount
      && r.posts == posts[i := r.posts[i]]
  {
    UpdateReportsWrite(posts, hasSession, form, isUrl);
    var id := form["id"];
    var plan := PlanPost(form, isUrl, posts, Some(id));
    var i := IndexOfId(posts, id).value;
    var p := WrittenPost(posts[i], plan.input, plan.slug);
    WrittenHoldsForm(posts[i], form, isUrl, posts, Some(id));
    var r := UpdatePost(posts, hasSession, form, isUrl);
    assert r.posts == posts[i := p] by {
      assert r == ApplyUpdatePlan(posts, id, plan, ResolveReturnTo(form, "/admin"));
    }
  }

  lemma UpdateReportsWrite(posts: seq<Post>, hasSession: bool, form: Form, isUrl: string -> bool)
    requires UpdatePost(posts, hasSession, form, isUrl).outcome
             == Redirect(WithQuery(ResolveReturnTo(form, "/admin"), "updated=post"))
    ensures hasSession && "id" in form && HasId(posts, form["id"])
    ensures PlanPost(form, isUrl, posts, Some(form["id"])).WritePost?
  {
    var returnTo := ResolveReturnTo(form, "/admin");
    if hasSession && "id" !in form {
      QueriesDiffer(returnTo, "error=missing_post", "updated=post");
    }
    UpdateSucceeded(form, isUrl, posts, form["id"], returnTo);
  }

  /** The update reports `updated=post` only after writing the post with
      the id. */
  lemma UpdateSucceeded(form: Form, isUrl: string -> bool, posts: seq<Post>, id: string, returnTo: string)
    requires ApplyUpdatePlan(posts, id, PlanPost(form, isUrl, posts, Some(id)), returnTo).outcome
             == Redirect(WithQuery(returnTo, "updated=post"))
    ensures PlanPost(form, isUrl, posts, Some(id)).WritePost? && HasId(posts, id)
  {
  }

  /** A post written from a plan holds the form the plan was made from. */
  lemma WrittenHoldsForm(prev: Post, form: Form, isUrl: string -> bool, posts: seq<Post>, self: Option<string>)
    requires PlanPost(form, isUrl, posts, self).WritePost?
    ensures var plan := PlanPost(form, isUrl, posts, self);
      HoldsForm(WrittenPost(prev, plan.input, plan.slug), form)
  {
  }

  method CreatePostAction(db: Database, hasSession: bool, form: Form, isUrl: string -> bool, newId: string)
    returns (outcome: Outcome)
    requires db.Valid()
    modifies db
    ensures db.Valid() && db.profile == old(db.profile)
    ensures Step(outcome, db.posts) == CreatePost(old(db.posts), hasSession, form, isUrl, newId)
  {
    var step := CreatePost(db.posts, hasSession, form, isUrl, newId);
    db.posts := step.posts;
    outcome := step.outcome;
  }

  method UpdatePostAction(db: Database, hasSession: bool, form: Form, isUrl: string -> bool)
    returns (outcome: Outcome)
    requires db.Valid()
    modifies db
    ensures db.Valid() && db.profile == old(db.profile)
    ensures Step(outcome, db.posts) == UpdatePost(old(db.posts), hasSession, form, isUrl)
  {
    var step := UpdatePost(db.posts, hasSession, form, isUrl);
    db.posts := step.posts;
    outcome := step.outcome;
  }

  method DeletePostAction(db: Database, hasSession: bool, form: Form) returns (outcome: Outcome)
    requires db.Valid()
    modifies db
    ensures db.Valid() && db.profile == old(db.profile)
    ensures Step(outcome, db.posts) == DeletePost(old(db.posts), hasSession, form)
  {
    var step := DeletePost(db.posts, hasSession, form);
    db.posts := step.posts;
    outcome := step.outcome;
  }

  /** After a delete no post has the id, and deleting it again throws. */
  lemma DeleteRemovesId(posts: seq<Post>, i: nat)
    requires UniqueKeys(posts) && i < |posts|
    ensures !HasId(posts[..i] + posts[i + 1..], posts[i].id)
    ensures IndexOfId(posts[..i] + posts[i + 1..], posts[i].id).None?
  {
    var q := posts[..i] + posts[i + 1..];
    forall k | 0 <= k < |q| ensures q[k].id != posts[i].id {
      if k < i { assert q[k] == posts[k]; } else { assert q[k] == posts[k + 1]; }
    }
  }

  /** The collision check leaves out the post being updated, so keeping its
      own slug is never a collision. */
  lemma OwnSlugIsFree(posts: seq<Post>, i: nat)
    requires UniqueKeys(posts) && i < |posts|
    ensures !SlugTakenByOther(posts, posts[i].slug, Some(posts[i].id))
  {
  }

  /** A blank slug field falls back to the title's slug. */
  lemma BlankSlugUsesTitle(form: Form, isUrl: string -> bool, posts: seq<Post>, self: Option<string>)
    requires ParsePostForm(form, isUrl).Some? && AllSpace(form["slug"])
    requires PlanPost(form, isUrl, posts, self).WritePost?
    ensures PlanPost(form, isUrl, posts, self).slug == Slugify(Trim(form["title"]))
  {
    TrimEmptyIff(form["slug"]);
  }

  /** A post written from a form whose tag list was already clean keeps
      exactly those tags. */
  lemma TagsRoundTrip(tags: seq<string>)
    requires forall k :: 0 <= k < |tags| ==> tags[k] != [] && NoEdgeSpace(tags[k]) && ',' !in tags[k]
    ensures StringItems(StringsToJson(ParseList(Some(Join(tags, ','))))) == tags
  {
    ParseListOfJoin(tags);
    StringItemsOfStrings(tags);
  }
}
