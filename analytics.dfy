/** The post counters of src/lib/analytics.ts: `updateMany` increments of
    the impression, click and view counters, over the published posts that
    match a list of ids or a slug. */
module Analytics {
  import opened JsText
  import opened Collections
  import opened Store

  /** `Array.from(new Set(items.filter(Boolean)))` */
  function UniqueNonEmpty(items: seq<string>): (r: seq<string>)
    ensures NoDup(r)
    ensures forall k :: 0 <= k < |r| ==> r[k] != []
    ensures forall s :: s in r <==> s != [] && s in items
    ensures |r| <= |items|
  {
    var kept := NonEmpty(items);
    var r := Dedupe(kept);
    assert forall s :: s in r ==> s in kept;
    assert forall s :: s != [] && s in items ==> s in kept;
    r
  }

  /** The ids come out in the order of their first occurrence. */
  lemma UniqueNonEmptyOrder(items: seq<string>, i: nat, j: nat)
    requires i < j < |UniqueNonEmpty(items)|
    ensures FirstIndex(NonEmpty(items), UniqueNonEmpty(items)[i])
            < FirstIndex(NonEmpty(items), UniqueNonEmpty(items)[j])
  {
    DedupeOrder(NonEmpty(items), i, j);
  }

  datatype Counter = Impressions | Clicks | Views

  /** `{ increment: 1 }` on one counter column. */
  function Bump(p: Post, c: Counter): (r: Post)
    ensures r.id == p.id && r.slug == p.slug && r.published == p.published
    ensures r.impressionCount == p.impressionCount + (if c == Impressions then 1 else 0)
    ensures r.clickCount == p.clickCount + (if c == Clicks then 1 else 0)
    ensures r.viewCount == p.viewCount + (if c == Views then 1 else 0)
    ensures r.(impressionCount := p.impressionCount, clickCount := p.clickCount, viewCount := p.viewCount) == p
  {
    match c
    case Impressions => p.(impressionCount := p.impressionCount + 1)
    case Clicks => p.(clickCount := p.clickCount + 1)
    case Views => p.(viewCount := p.viewCount + 1)
  }

  /** The `where` clause of an `updateMany`: published, and the id among
      `ids` or the slug equal to `slug`. */
  datatype Target = ByIds(ids: seq<string>) | BySlug(slug: string)

  predicate Hits(p: Post, t: Target) {
    p.published && match t
      case ByIds(ids) => p.id in ids
      case BySlug(slug) => p.slug == slug
  }

  /** The table after the `updateMany`, row by row. */
  function Recorded(posts: seq<Post>, t: Target, c: Counter): (r: seq<Post>)
    ensures |r| == |posts|
  {
    if posts == [] then []
    else [if Hits(posts[0], t) then Bump(posts[0], c) else posts[0]] + Recorded(posts[1..], t, c)
  }

  /** Each matching row gets its counter bumped once; every other row is
      left as it was. */
  lemma {:induction false} RecordedAt(posts: seq<Post>, t: Target, c: Counter, k: nat)
    requires k < |posts|
    ensures Recorded(posts, t, c)[k] == if Hits(posts[k], t) then Bump(posts[k], c) else posts[k]
  {
    if k > 0 {
      RecordedAt(posts[1..], t, c, k - 1);
    }
  }

  /** The counters never touch ids or slugs, so the table's keys stay unique. */
  lemma RecordedKeepsKeys(posts: seq<Post>, t: Target, c: Counter)
    ensures UniqueKeys(posts) ==> UniqueKeys(Recorded(posts, t, c))
  {
    var r := Recorded(posts, t, c);
    forall k | 0 <= k < |posts| ensures r[k].id == posts[k].id && r[k].slug == posts[k].slug {
      RecordedAt(posts, t, c, k);
    }
  }

  /** A target nothing matches changes nothing. */
  lemma {:induction false} RecordedNoHit(posts: seq<Post>, t: Target, c: Counter)
    requires forall k :: 0 <= k < |posts| ==> !Hits(posts[k], t)
    ensures Recorded(posts, t, c) == posts
  {
    if posts != [] {
      RecordedNoHit(posts[1..], t, c);
      assert [posts[0]] + posts[1..] == posts;
    }
  }

  /** The increment loop shared by the three counters. */
  method Increment(db: Database, t: Target, c: Counter)
    requires db.Valid()
    modifies db
    ensures db.Valid() && db.profile == old(db.profile)
    ensures db.posts == Recorded(old(db.posts), t, c)
  {
    var i := 0;
    while i < |db.posts|
      invariant 0 <= i <= |db.posts| == |old(db.posts)|
      invariant db.profile == old(db.profile)
      invariant forall k :: 0 <= k < i ==>
        db.posts[k] == if Hits(old(db.posts)[k], t) then Bump(old(db.posts)[k], c) else old(db.posts)[k]
      invariant forall k :: i <= k < |db.posts| ==> db.posts[k] == old(db.posts)[k]
    {
      if Hits(db.posts[i], t) {
        db.posts := db.posts[i := Bump(db.posts[i], c)];
      }
      i := i + 1;
    }
    forall k | 0 <= k < |db.posts| ensures db.posts[k] == Recorded(old(db.posts), t, c)[k] {
      RecordedAt(old(db.posts), t, c, k);
    }
    RecordedKeepsKeys(old(db.posts), t, c);
  }

  /** `recordPostImpressions`: nothing happens for a list without a
      non-empty id; otherwise every published post whose id is listed gets
      one impression, however often the id is repeated. */
  method RecordPostImpressions(db: Database, postIds: seq<string>)
    requires db.Valid()
    modifies db
    ensures db.Valid() && db.profile == old(db.profile)
    ensures db.posts == Recorded(old(db.posts), ByIds(UniqueNonEmpty(postIds)), Impressions)
  {
    var ids := UniqueNonEmpty(postIds);
    if |ids| == 0 {
      RecordedNoHit(db.posts, ByIds(ids), Impressions);
      return;
    }
    Increment(db, ByIds(ids), Impressions);
  }

  /** `recordPostClickBySlug` */
  method RecordPostClickBySlug(db: Database, slug: string)
    requires db.Valid()
    modifies db
    ensures db.Valid() && db.profile == old(db.profile)
    ensures db.posts == Recorded(old(db.posts), BySlug(slug), Clicks)
  {
    Increment(db, BySlug(slug), Clicks);
  }

  /** `recordPostViewBySlug` */
  method RecordPostViewBySlug(db: Database, slug: string)
    requires db.Valid()
    modifies db
    ensures db.Valid() && db.profile == old(db.profile)
    ensures db.posts == Recorded(old(db.posts), BySlug(slug), Views)
  {
    Increment(db, BySlug(slug), Views);
  }

  /** What an impression batch does to one row: a published post with a
      listed, non-empty id gains exactly one impression and nothing else;
      any other row is unchanged. */
  lemma ImpressionsAt(posts: seq<Post>, postIds: seq<string>, k: nat)
    requires k < |posts|
    ensures var after := Recorded(posts, ByIds(UniqueNonEmpty(postIds)), Impressions)[k];
            && after.clickCount == posts[k].clickCount && after.viewCount == posts[k].viewCount
            && (posts[k].published && posts[k].id != [] && posts[k].id in postIds ==>
                  after.impressionCount == posts[k].impressionCount + 1)
            && (!(posts[k].published && posts[k].id != [] && posts[k].id in postIds) ==> after == posts[k])
  {
    RecordedAt(posts, ByIds(UniqueNonEmpty(postIds)), Impressions, k);
  }

  /** What a click or a view does to one row: a published post with that
      slug gains exactly one on that counter; any other row is unchanged. */
  lemma SlugCounterAt(posts: seq<Post>, slug: string, c: Counter, k: nat)
    requires k < |posts| && c != Impressions
    ensures var after := Recorded(posts, BySlug(slug), c)[k];
            && after.impressionCount == posts[k].impressionCount
            && (posts[k].published && posts[k].slug == slug && c == Clicks ==>
                  after.clickCount == posts[k].clickCount + 1 && after.viewCount == posts[k].viewCount)
            && (posts[k].published && posts[k].slug == slug && c == Views ==>
                  after.viewCount == posts[k].viewCount + 1 && after.clickCount == posts[k].clickCount)
            && (!(posts[k].published && posts[k].slug == slug) ==> after == posts[k])
  {
    RecordedAt(posts, BySlug(slug), c, k);
  }

  /** In a table with unique slugs, a click or view bumps at most one row. */
  lemma SlugCounterAtMostOne(posts: seq<Post>, slug: string, c: Counter, i: nat, j: nat)
    requires UniqueKeys(posts) && i < j < |posts|
    requires Recorded(posts, BySlug(slug), c)[i] != posts[i]
    ensures Recorded(posts, BySlug(slug), c)[j] == posts[j]
  {
    RecordedAt(posts, BySlug(slug), c, i);
    RecordedAt(posts, BySlug(slug), c, j);
  }
}
