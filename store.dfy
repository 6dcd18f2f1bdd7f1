/** The database rows the admin actions and counters work on, held in
    memory: the singleton profile row (id "main") and the post table. Prisma
    queries become reads and assignments of these fields. */
module Store {
  import opened Wrappers
  import opened Json
  import opened ProfileTypes

  /** A row of the post table. */
  datatype Post = Post(
    id: string,
    title: string,
    slug: string,
    excerpt: string,
    content: string,
    coverImage: Option<string>,
    tags: Json,
    published: bool,
    impressionCount: nat,
    clickCount: nat,
    viewCount: nat)

  /** The table's unique columns: no two rows share an id or a slug. */
  predicate UniqueKeys(posts: seq<Post>) {
    forall i, j :: 0 <= i < j < |posts| ==> posts[i].id != posts[j].id && posts[i].slug != posts[j].slug
  }

  predicate HasId(posts: seq<Post>, id: string) {
    exists i :: 0 <= i < |posts| && posts[i].id == id
  }

  predicate HasSlug(posts: seq<Post>, slug: string) {
    exists i :: 0 <= i < |posts| && posts[i].slug == slug
  }

  class Database {
    var profile: Option<ProfileRecord>
    var posts: seq<Post>

    /** The constraints the schema enforces. */
    ghost predicate Valid()
      reads this
    {
      && (profile.Some? ==> profile.value.id == "main")
      && UniqueKeys(posts)
    }

    constructor ()
      ensures profile == None && posts == []
      ensures Valid()
    {
      profile := None;
      posts := [];
    }
  }

  /** The admin session cookie: the e-mail it was issued for, if any. */
  class SessionJar {
    var session: Option<string>

    constructor ()
      ensures session == None
    {
      session := None;
    }
  }
}
