# WebBlog core, modelled in Dafny

WebBlog is a personal blog and portfolio site built on Next.js. It has a public
home page, a blog list, an admin panel guarded by a session cookie, and an image
upload endpoint. This project models the logic underneath those pages. Each
source file is one module.

- **Post content** (`PostContent`): the markdown repair that `normalizePostContent`
  runs. It has three regex replacements: CRLF unification, removal of a stray quote
  before `![`, and rejoining of `![alt]` with a `(url)` that was split from it. Each
  replacement is written as a hand-written recogniser with its own function.
  After them come the line pass, which wraps a bare image-URL line into
  `![文章圖片](url)`, and the final trim. On top of that sit the image-URL extraction
  (first-seen order, no duplicates) and the preview-image choice.
- **Profile decoding** (`ProfileTypes`, `SiteTitle`, over the `Json` value type):
  `asRecord`, `asString`, `asStringArray`, `asProjectArray` (a loop with `push`,
  kept as a method), `asHomePageTexts` and `toProfileView`. These turn the stored,
  untyped profile row into a fully defaulted view. `readSiteTitle` reads the site
  title alone.
- **Admin actions** (`AdminForms`, `AdminPosts`, `AdminProfile`, over the `Store`
  classes):
  - The form schemas and the helpers `slugify`, `parseList`, `resolveReturnTo` and
    `withQuery`.
  - Post create, update and delete, with slug derivation and collision checks.
  - The singleton profile upserts: hero, meta and the section texts.
  - The index-addressed skill and project edits, and logout.
  - Each action is a method on a `Database` object. A `redirect` is a returned
    outcome that persists nothing. A Prisma `update` or `delete` of a missing id
    is the outcome `Thrown`.
- **Counters** (`Analytics`): `uniqueNonEmpty` and the three `updateMany`
  increments, done in place on the post table.
- **Login** (`AdminLogin`): the `loginAction` cascade, in the order
  configuration, admin count, input, credentials.
- **Image upload** (`PostImages`, `Base64`):
  - The `POST` cascade, in the order session, presence, size, type.
  - The `data:` URL of section 3 of RFC 2397, carrying the Base64 of section 4 of
    RFC 4648.
- **UI helpers** (`MarkdownImageUploader`, `HomePage`, `BlogPage`, `ProfileAvatar`):
  - `toAltText`, and `insertImageMarkdown` on a `Textarea` object.
  - The school list, and the featured/more split.
  - The CSS `url("…")` escaping of the blog list.
  - The avatar's initial, size class and kind.
  - `getTags` in `src/app/page.tsx:13-16` and `src/app/blog/page.tsx:11-14` is the
    same filter as `asStringArray`. It is modelled by `ProfileTypes.AsStringArray`.

Helper modules:
- `JsText`: ECMAScript `trim`, `\s`, single-character `split`, and ASCII case
  mapping.
- `Collections`: the insertion-ordered `Set` dedupe.
- `Wrappers`: `Option`.

Calls into code outside the model become parameters:
- The session check becomes `hasSession`.
- The bcrypt comparison becomes `compare`.
- `z.url()` and `z.email()` become `isUrl` and `isEmail`.
- A failure of `File.arrayBuffer` becomes `readFails`.
- The database's id generator becomes `newId`.

A form is a `map<string, string>`. A key that is missing stands for
`formData.get` returning `null`. zod's `.optional()` accepts `undefined` but not
`null`, so a missing optional field fails validation, as the code does.

## Model

| member | source | states |
|---|---|---|
| `PostContent.UnifyCrlfRemovesOnlyCr` | src/lib/post-content.ts:5 | The CRLF replacement deletes carriage returns and nothing else: erasing `\r` from input and output gives the same text, and it adds no character |
| `PostContent.UnifyCrlfNoCr` | src/lib/post-content.ts:5 | When every `\r` of the input starts a `\r\n`, the output has no `\r` at all |
| `PostContent.StripStrayQuotes` | src/lib/post-content.ts:6 | The stray-quote replacement never lengthens the text, and text without `'` or `’` passes unchanged |
| `PostContent.StripFromDeletesOnly` | src/lib/post-content.ts:6 | The stray-quote replacement deletes only whitespace and quotes: erasing those from input and output gives the same text |
| `PostContent.StripFromAddsNothing` | src/lib/post-content.ts:6 | The stray-quote replacement adds no character (the output's multiset is within the input's) |
| `PostContent.StripsLeadingQuote` | src/lib/post-content.ts:6 | Whitespace, a quote and whitespace at the start of the text, before `![alt]`, a whitespace gap and `(`, are removed |
| `PostContent.SplitTagShape` | src/lib/post-content.ts:7-8 | A match of the split-tag pattern is `![alt]` with no `]` in alt, a whitespace gap (holding a newline for the first pattern, non-empty for the second), `(`, a URL with an `http://`, `https://` or `/` prefix and no whitespace or `)`, then `)` |
| `PostContent.SplitTagFound` | src/lib/post-content.ts:7-8 | Conversely, every text of that shape is matched, at exactly the positions of its parts |
| `PostContent.RejoinAcrossNewlines` | src/lib/post-content.ts:7 | The newline rejoin never lengthens the text, and text without `(` passes unchanged |
| `PostContent.RejoinAcrossSpaces` | src/lib/post-content.ts:8 | The space rejoin never lengthens the text, and text without `(` passes unchanged |
| `PostContent.RejoinDeletesOnlySpace` | src/lib/post-content.ts:7-8 | Both rejoins delete only whitespace: erasing whitespace from input and output gives the same text |
| `PostContent.RejoinAddsNothing` | src/lib/post-content.ts:7-8 | Both rejoins add no character |
| `PostContent.RejoinsAcrossNewline` | src/lib/post-content.ts:7 | `![alt]`, a whitespace gap containing a newline and `(url)` become `![alt](url)`, and the rest of the text is processed after it |
| `PostContent.RejoinsAcrossSpaces` | src/lib/post-content.ts:8 | `![alt]`, a non-empty whitespace gap and `(url)` become `![alt](url)`, and the rest of the text is processed after it |
| `PostContent.DotExtensionFromIff` | src/lib/post-content.ts:1 | The scan for the extension succeeds from index i exactly when some `.` at or after i is followed by png, jpg, jpeg, webp, gif, avif or svg (any case) and then the end or `?` |
| `PostContent.UrlLinePrefixUnique` | src/lib/post-content.ts:1 | Whichever of `http://`, `https://` and `/` starts the line (ignoring case), the recogniser measures that prefix |
| `PostContent.IsImageUrlLineIff` | src/lib/post-content.ts:1 | The hand-written line recogniser accepts a line exactly when the declarative pattern does: no whitespace, a prefix, at least one more character, `.ext`, then the end or a query |
| `PostContent.RecognisesImageUrl` | src/lib/post-content.ts:1 | Every line built from a prefix, a non-empty body without whitespace, `.ext` and an optional `?query` is recognised |
| `PostContent.SplitLines` | src/lib/post-content.ts:11 | Splitting on `\r?\n` gives as many lines as splitting on `\n`, and no line contains `\n` |
| `PostContent.SplitLinesWithoutCr` | src/lib/post-content.ts:11 | On text without `\r`, splitting on `\r?\n` is splitting on `\n` |
| `PostContent.TransformLineMeaning` | src/lib/post-content.ts:12-23 | A line whose trimmed text is non-empty, does not start with `![` and matches the URL-line pattern becomes `![文章圖片](trimmed)`; every other line is kept as it is |
| `PostContent.TransformLines` | src/lib/post-content.ts:12-23 | The line pass is a map: as many lines out as in, line k transformed from line k |
| `PostContent.LinePassLines` | src/lib/post-content.ts:10-24 | Splitting the joined output on `\n` gives back exactly the transformed lines, so the line count is preserved |
| `PostContent.LinePassNoCr` | src/lib/post-content.ts:11-24 | Text without `\r` keeps no `\r` through the line pass |
| `PostContent.NormalizePostContent` | src/lib/post-content.ts:3-26 | The normalised content neither starts nor ends with whitespace |
| `PostContent.NormalizeRemovesCrlf` | src/lib/post-content.ts:3-26 | When every `\r` of the input starts a `\r\n`, the normalised content has no `\r`, and so no `\r\n` |
| `PostContent.LoneCrCanSurvive` | src/lib/post-content.ts:5-11 | `"a\r\r\r\nb"` normalises to `"a\r\nb"`: a CRLF can survive when lone carriage returns precede one |
| `PostContent.ImageRefAt` | src/lib/post-content.ts:30 | A match of the image-reference pattern captures a URL that is non-empty and has no whitespace or `)` |
| `PostContent.Captures` | src/lib/post-content.ts:30 | Every captured URL is non-empty and has no whitespace or `)` |
| `PostContent.CapturesImageTag` | src/lib/post-content.ts:30 | A text starting with `![alt](url)` captures `url` first, then the captures of the rest |
| `PostContent.ExtractMarkdownImageUrls` | src/lib/post-content.ts:28-32 | The URLs have no duplicates, are non-empty and free of whitespace, and are exactly the URLs captured from the normalised content |
| `PostContent.ExtractFirstSeenOrder` | src/lib/post-content.ts:31 | The URLs keep the order of their first occurrence in the captures |
| `PostContent.GetPostPreviewImage` | src/lib/post-content.ts:34-41 | The result is the trimmed cover when that is non-blank; otherwise the first extracted URL, or none when there is none. It is never empty and never has edge whitespace |
| `ProfileTypes.AsRecord` | src/lib/types.ts:63-69 | Only a JSON object is a record, and then its fields are returned |
| `ProfileTypes.AsString` | src/lib/types.ts:71-78 | With a non-empty, trimmed fallback, the result is non-empty and trimmed |
| `ProfileTypes.AsStringMeaning` | src/lib/types.ts:71-78 | A value that is not a string, or is a blank string, gives the fallback; any other string gives its trim |
| `ProfileTypes.AsStringArray` | src/lib/types.ts:80-86 | A non-array gives `[]`; an array gives exactly its string elements, in order |
| `ProfileTypes.ProjectFrom` | src/lib/types.ts:96-109 | An item becomes a project exactly when it is an object with string `name` and `description`, and the project's name and description are those stored strings |
| `ProfileTypes.ProjectUrlKept` | src/lib/types.ts:108 | The project's `url` is present exactly when the stored `url` is a string, and then it is that string |
| `ProfileTypes.ProjectItemsAppend` | src/lib/types.ts:95-110 | Decoding is item by item: the projects of `a + b` are those of `a` followed by those of `b` |
| `ProfileTypes.AsProjectArray` | src/lib/types.ts:88-113 | The loop with `push` returns the projects of the array's items in order (none for a non-array), no more than there are items |
| `ProfileTypes.MalformedProjectDropped` | src/lib/types.ts:96-98 | A non-object item next to a valid project is dropped and the valid project kept |
| `ProfileTypes.ProjectArrayOfJson` | src/lib/types.ts:88-113 | A stored project list decodes back to the same projects |
| `ProfileTypes.DefaultTextsWellFormed` | src/lib/types.ts:35-45 | Each of the nine default texts is non-empty and trimmed |
| `ProfileTypes.AsHomePageTexts` | src/lib/types.ts:115-133 | A non-object gives the nine defaults; for an object, each of the nine texts is read on its own with its own default as fallback; every field is non-empty and trimmed |
| `ProfileTypes.BadTextFallsBackAlone` | src/lib/types.ts:120-132 | A stored site title that is missing, not a string or blank falls back to its default, and the other eight texts are read as before |
| `ProfileTypes.TextsOfJson` | src/lib/types.ts:115-133 | Stored texts that are non-empty and trimmed decode back to themselves |
| `ProfileTypes.ToProfileView` | src/lib/types.ts:135-163 | No row gives the placeholder view with id `main` and the default texts; a row's id, name, role, bio and nullable fields pass through unchanged, and its skills, projects and texts are the decoded stored values; the texts are always well formed |
| `Json.Get` | src/lib/types.ts:100-101 | A property read finds an object's own field, and nothing on any other value |
| `Json.StringItems` | src/lib/types.ts:85 | The string filter keeps no more items than it is given, each one a string element of the input |
| `Json.StringItemsAppend` | src/lib/types.ts:85 | The filter distributes over concatenation, so order is kept |
| `Json.StringItemsOfStrings` | src/lib/types.ts:85 | An array of strings filters to itself |
| `SiteTitle.ReadSiteTitle` | src/lib/site-title.ts:5-17 | A non-object, or a missing or non-string `siteTitle`, gives `Nebula Notes`; the result is always non-empty and trimmed |
| `SiteTitle.ReadSiteTitleOfString` | src/lib/site-title.ts:10-16 | A blank title gives the default; any other title gives its trim |
| `SiteTitle.ReadSiteTitleAgrees` | src/lib/site-title.ts:5-17 | For every stored value, the title equals the `siteTitle` that `asHomePageTexts` decodes |
| `AdminForms.ReplaceRuns` | src/app/admin/actions.ts:64-65 | A run-replacing `replace` leaves no two adjacent run characters; every run character left is the replacement; the output is empty exactly when the input is (at the start of a text) |
| `AdminForms.ReplaceRunsSplit` | src/app/admin/actions.ts:64-65 | A maximal run of run characters becomes exactly one replacement character, and the text on either side of it is replaced on its own |
| `AdminForms.ReplaceRunsErase` | src/app/admin/actions.ts:64-65 | Every character outside the runs is kept, in order: erasing the run characters and the replacement from output and input gives the same text |
| `AdminForms.HyphenateSpaces` | src/app/admin/actions.ts:64 | No whitespace remains, slug characters stay slug characters, and the output is empty exactly when the input is |
| `AdminForms.SquashHyphens` | src/app/admin/actions.ts:65 | No `--` remains, slug characters stay slug characters, and the output is empty exactly when the input is |
| `AdminForms.Slugify` | src/app/admin/actions.ts:59-66 | The slug has only `[a-z0-9-]` and never `--` |
| `AdminForms.SlugifyFixesSlugs` | src/app/admin/actions.ts:59-66 | A string that already is a slug is its own slug |
| `AdminForms.SlugifyIdempotent` | src/app/admin/actions.ts:59-66 | Slugifying twice is slugifying once |
| `AdminForms.SlugifyEmptyIff` | src/app/admin/actions.ts:59-66 | The slug is empty exactly when no character lower-cases into `[a-z0-9-]` |
| `AdminForms.SlugifyBlank` | src/app/admin/actions.ts:59-66 | An all-whitespace input gives the empty slug |
| `AdminForms.SlugifyKeepsAlnum` | src/app/admin/actions.ts:59-66 | The slug holds every letter and digit of the lower-cased input, in order, and nothing else besides hyphens |
| `AdminForms.SlugifyJoinsWords` | src/app/admin/actions.ts:59-66 | Two words of lower-case letters and digits separated by any non-empty whitespace become the two words joined by one `-` |
| `AdminForms.ParseList` | src/app/admin/actions.ts:68-74 | Absent or `""` gives `[]`; a present text gives its comma-split items, each trimmed, with the empty ones dropped, in order; every item is non-empty, trimmed and comma-free |
| `AdminForms.ParseListCons` | src/app/admin/actions.ts:68-74 | The text before the first comma gives the first item, trimmed, unless it is blank; the rest is the list of the text after the comma |
| `AdminForms.ParseListOne` | src/app/admin/actions.ts:68-74 | Text without a comma gives its trim as the one item, or nothing when it is blank |
| `AdminForms.ParseListOfJoin` | src/app/admin/actions.ts:68-74 | Clean items joined with commas parse back to the same items, in order |
| `AdminForms.ResolveReturnTo` | src/app/admin/actions.ts:103-111 | The trimmed `returnTo` when it starts with `/admin`, otherwise the fallback |
| `AdminForms.WithQuery` | src/app/admin/actions.ts:113-115 | The path, a separator, then the query; the separator is `&` exactly when the path already has `?` |
| `AdminForms.ParseIntOfIndexText` | src/app/admin/actions.ts:481 | `parseInt` reads back every integer written in decimal |
| `AdminForms.ParseIntNoDigits` | src/app/admin/actions.ts:481-484 | Text with no digit is not an integer |
| `AdminForms.TrimmedMin` | src/app/admin/actions.ts:12 | `z.string().trim().min(n)` accepts a present value whose trim has at least n characters, and yields that trim |
| `AdminForms.FormatOrEmpty` | src/app/admin/actions.ts:16 | The URL or e-mail union accepts a present value that is empty or passes the format check, and yields it unchanged |
| `AdminForms.NonEmptyOr` | src/app/admin/actions.ts:155 | `value \|\| null` keeps a non-empty string and drops the empty one |
| `AdminForms.ParsePostForm` | src/app/admin/actions.ts:10-18 | The post form passes exactly when title, excerpt and content trim to at least 3, 10 and 20 characters, the cover is empty or a URL, and every field is present; the fields are trimmed, except the cover |
| `AdminForms.ParseHeroForm` | src/app/admin/actions.ts:20-28 | The hero form passes exactly when each field trims to its minimum length (bio 16, the others 2); the result holds the trims |
| `AdminForms.ParseMetaForm` | src/app/admin/actions.ts:30-34 | The meta form passes exactly when the three fields are present and the e-mail is empty or valid; school and location are trimmed |
| `AdminForms.ParseSkillForm` | src/app/admin/actions.ts:36-38 | The skill form passes exactly when the skill trims to something non-empty, which it yields |
| `AdminForms.ParseProjectForm` | src/app/admin/actions.ts:40-44 | The project form passes exactly when name and description trim to at least 2 and 8 characters and the URL is empty or valid |
| `AdminForms.ParseTitleField` | src/app/admin/actions.ts:46-57 | A section-text field passes exactly when it trims to at least 2 characters |
| `AdminPosts.IndexOfId` | src/app/admin/actions.ts:207-208 | The post with the id is found exactly when one exists, at a position holding that id |
| `AdminPosts.IndexOfIdUnique` | src/app/admin/actions.ts:207-208 | With unique ids, the position found is the only one with that id |
| `AdminPosts.PlanPost` | src/app/admin/actions.ts:135-147 | A schema failure gives `error=validation`; otherwise, with the slug taken from the slug field or else the title, an empty slug gives `error=slug`, a slug another post has gives `error=slug_exists`, and only a free, non-empty slug gives a write of the parsed input |
| `AdminPosts.BlankSlugUsesTitle` | src/app/admin/actions.ts:139 | A blank slug field makes the slug from the trimmed title |
| `AdminPosts.OwnSlugIsFree` | src/app/admin/actions.ts:196-201 | The collision check excludes the post's own id, so a post may keep its own slug |
| `AdminPosts.NewPost` | src/app/admin/actions.ts:149-159 | A created post has the given id and slug, is published, takes the title, excerpt and content, has no cover for `""`, stores the parsed tag list, and has zero counters |
| `AdminPosts.WrittenPost` | src/app/admin/actions.ts:207-218 | An updated post keeps its id and counters, takes the form's fields, is published, has no cover for `""`, and stores the parsed tag list |
| `AdminPosts.TagsRoundTrip` | src/app/admin/actions.ts:156 | Clean tags joined with commas are stored and read back unchanged |
| `AdminPosts.AppendKeepsUnique` | src/app/admin/actions.ts:144-159 | Adding a post with a new id and a new slug keeps ids and slugs unique |
| `AdminPosts.ReplaceKeepsUnique` | src/app/admin/actions.ts:196-218 | Rewriting a post under its own id with a slug no other post has keeps ids and slugs unique |
| `AdminPosts.RemoveKeepsUnique` | src/app/admin/actions.ts:237 | Removing a post keeps ids and slugs unique |
| `AdminPosts.WriteRewritesOne` | src/app/admin/actions.ts:207-218 | Writing one position changes only the post with that id and keeps every id and counter |
| `AdminPosts.CreatePost` | src/app/admin/actions.ts:122-166 | No session redirects to login; a schema failure or a slug rejection redirects with its marker and writes nothing; an id clash throws; otherwise exactly `NewPost` of the plan is appended and the redirect carries `saved=post`; uniqueness is kept |
| `AdminPosts.CreatedPostHoldsForm` | src/app/admin/actions.ts:135-165 | Whenever the create action reports `saved=post`, one post was appended with the generated id, zero counters and the values the form submitted (trimmed title, excerpt and content, cover or none, parsed tags, derived slug, published) |
| `AdminPosts.ApplyUpdatePlan` | src/app/admin/actions.ts:187-218 | A rejection redirects with its marker and writes nothing; a write to a missing id throws; otherwise the post at the id becomes `WrittenPost` of the plan, every other post is kept, and the redirect carries `updated=post` |
| `AdminPosts.UpdatePost` | src/app/admin/actions.ts:168-226 | No session, or a missing `id`, changes nothing; with both, the result is the update plan for that id applied to the table; any change keeps the length, needs an existing id, rewrites only that post and keeps uniqueness |
| `AdminPosts.UpdatedPostHoldsForm` | src/app/admin/actions.ts:187-225 | Whenever the update action reports `updated=post`, the post with the submitted id holds the form's values and keeps its id and counters, and every other post is unchanged |
| `AdminPosts.DeletePost` | src/app/admin/actions.ts:228-244 | A missing `id` field redirects with `error=missing_post`; an unknown id throws; otherwise exactly that post is removed and the redirect carries `deleted=post` |
| `AdminPosts.DeleteRemovesId` | src/app/admin/actions.ts:237 | After the deletion no post has the deleted id |
| `AdminPosts.CreatePostAction` | src/app/admin/actions.ts:122-166 | The create action leaves the table and outcome that `CreatePost` describes, and the profile untouched |
| `AdminPosts.UpdatePostAction` | src/app/admin/actions.ts:168-226 | The update action leaves the table and outcome that `UpdatePost` describes, and the profile untouched |
| `AdminPosts.DeletePostAction` | src/app/admin/actions.ts:228-244 | The delete action leaves the table and outcome that `DeletePost` describes, and the profile untouched |
| `AdminProfile.TextsWith` | src/app/admin/actions.ts:271-277 | A text merge sets exactly the texts its edit names to the edit's values, keeps every other text, never changes the skills hint, and keeps the texts well formed |
| `AdminProfile.GetProfilePayload` | src/app/admin/actions.ts:81-96 | The payload is written under id `main` |
| `AdminProfile.PayloadRoundTrip` | src/app/admin/actions.ts:81-96 | Reading back the payload of a well-formed view gives the same view |
| `AdminProfile.ApplyToRow` | src/app/admin/actions.ts:265-293 | The upsert creates a row with id `main` when none exists, keeps the id of an existing row, and leaves the skills, the projects and the texts alone unless the edit names them |
| `AdminProfile.ApplyCommutes` | src/app/admin/actions.ts:265-293 | Reading the upserted row gives the previous view with the edit applied, whether the row was created or updated |
| `AdminProfile.ApplyCommutesUpdate` | src/app/admin/actions.ts:267-278 | The update branch: reading the updated row is editing the view of the old row |
| `AdminProfile.ApplyCommutesCreate` | src/app/admin/actions.ts:279-292 | The create branch: reading the created row is editing the default view |
| `AdminProfile.AddSkill` | src/app/admin/actions.ts:459 | `Set([...skills, s])` contains `s` and every old skill, nothing else, and no duplicate |
| `AdminProfile.AddSkillOnSet` | src/app/admin/actions.ts:459 | On a duplicate-free list, an existing skill leaves it unchanged and a new one is appended |
| `AdminProfile.RemoveAtSpec` | src/app/admin/actions.ts:487 | The index filter removes exactly the element at an index in range, and changes nothing for any other index |
| `AdminProfile.ReplaceAtSpec` | src/app/admin/actions.ts:565-575 | The index map replaces exactly the element at an index in range, and changes nothing for any other index |
| `AdminProfile.ProjectOf` | src/app/admin/actions.ts:522-526 | A project has the form's name and description; its `url` is absent exactly when the form's URL is empty, and otherwise is that URL |
| `AdminProfile.HeroDecision` | src/app/admin/actions.ts:246-297 | The hero action commits exactly when its form parses, with `saved=hero` and the trimmed name, role, bio, site title, badge and both button labels; otherwise `error=validation` |
| `AdminProfile.MetaDecision` | src/app/admin/actions.ts:300-334 | The meta action commits exactly when its form parses; it writes the trimmed school and location and the e-mail, each absent exactly when it is blank (the e-mail when empty) |
| `AdminProfile.SkillsTitleDecision` | src/app/admin/actions.ts:336-370 | The skills-title action commits exactly when the title parses, setting it to the trim |
| `AdminProfile.ProjectsTitleDecision` | src/app/admin/actions.ts:372-406 | The projects-title action commits exactly when the title parses, setting it to the trim |
| `AdminProfile.PostsTextsDecision` | src/app/admin/actions.ts:408-445 | The posts-texts action commits exactly when both texts parse, setting them to their trims |
| `AdminProfile.AddSkillDecision` | src/app/admin/actions.ts:447-476 | The add-skill action commits exactly when the skill parses; the new list is the `Set` of the current skills plus the trimmed skill, which holds it once and has no duplicates |
| `AdminProfile.DeleteSkillDecision` | src/app/admin/actions.ts:478-504 | The delete-skill action commits exactly when the index parses, and removes that index from the current skills |
| `AdminProfile.AddProjectDecision` | src/app/admin/actions.ts:506-544 | The add-project action commits exactly when the form parses, and appends the project |
| `AdminProfile.UpdateProjectDecision` | src/app/admin/actions.ts:546-592 | The update-project action commits exactly when the form parses and the index is in range, and replaces that position only |
| `AdminProfile.DeleteProjectDecision` | src/app/admin/actions.ts:594-620 | The delete-project action commits exactly when the index parses, and removes that index from the current projects |
| `AdminProfile.RunDecision` | src/app/admin/actions.ts:258-297 | Without a session the action redirects to the login page and writes nothing; a rejection redirects and writes nothing; a commit upserts the row and redirects; posts are untouched |
| `AdminProfile.UpdateHeroSectionAction` | src/app/admin/actions.ts:246-298 | Runs the hero decision on the stored row |
| `AdminProfile.UpdateMetaSectionAction` | src/app/admin/actions.ts:300-334 | Runs the meta decision on the stored row |
| `AdminProfile.UpdateSkillsSectionTextAction` | src/app/admin/actions.ts:336-370 | Runs the skills-title decision on the stored row |
| `AdminProfile.UpdateProjectsSectionTextAction` | src/app/admin/actions.ts:372-406 | Runs the projects-title decision on the stored row |
| `AdminProfile.UpdatePostsSectionTextAction` | src/app/admin/actions.ts:408-445 | Runs the posts-texts decision on the stored row |
| `AdminProfile.AddSkillAction` | src/app/admin/actions.ts:447-476 | Runs the add-skill decision against the view of the stored row |
| `AdminProfile.DeleteSkillAction` | src/app/admin/actions.ts:478-504 | Runs the delete-skill decision against the view of the stored row |
| `AdminProfile.AddProjectAction` | src/app/admin/actions.ts:506-544 | Runs the add-project decision against the view of the stored row |
| `AdminProfile.UpdateProjectAction` | src/app/admin/actions.ts:546-592 | Runs the update-project decision against the view of the stored row |
| `AdminProfile.DeleteProjectAction` | src/app/admin/actions.ts:594-620 | Runs the delete-project decision against the view of the stored row |
| `AdminProfile.LogoutAction` | src/app/admin/actions.ts:117-120 | Clears the session and redirects to the login page |
| `AdminProfile.AddSkillShows` | src/app/admin/actions.ts:459-475 | After adding, the page shows the new skill and every old one, with no duplicate |
| `AdminProfile.DeleteSkillShows` | src/app/admin/actions.ts:481-503 | After deleting, the page shows the old skills without the one at an in-range index, in order, and all of them for any other index |
| `AdminProfile.DeleteProjectShows` | src/app/admin/actions.ts:597-619 | After deleting, the page shows the old projects without the one at an in-range index, in order, and all of them for any other index |
| `AdminProfile.HeroShows` | src/app/admin/actions.ts:265-293 | After the hero edit, the page shows the new name, role, bio and site title, while the section titles, skills and projects stay as they were |
| `Analytics.UniqueNonEmpty` | src/lib/analytics.ts:3-5 | The ids have no duplicates, none is empty, and they are exactly the non-empty input ids |
| `Analytics.UniqueNonEmptyOrder` | src/lib/analytics.ts:4 | The ids keep the order of their first occurrence |
| `Analytics.Bump` | src/lib/analytics.ts:19 | An increment adds one to the chosen counter and changes no other field |
| `Analytics.RecordedAt` | src/lib/analytics.ts:13-21 | `updateMany` bumps each published row that the filter selects and leaves every other row as it was |
| `Analytics.RecordedKeepsKeys` | src/lib/analytics.ts:13-21 | The increments keep ids and slugs unique |
| `Analytics.RecordedNoHit` | src/lib/analytics.ts:9-11 | When no row is selected, the table is unchanged |
| `Analytics.Increment` | src/lib/analytics.ts:13-21 | The in-place loop leaves the table that `updateMany` describes, and the profile untouched |
| `Analytics.RecordPostImpressions` | src/lib/analytics.ts:7-22 | Impressions are counted for the unique non-empty ids |
| `Analytics.RecordPostClickBySlug` | src/lib/analytics.ts:24-34 | Clicks are counted for the slug |
| `Analytics.RecordPostViewBySlug` | src/lib/analytics.ts:36-46 | Views are counted for the slug |
| `Analytics.ImpressionsAt` | src/lib/analytics.ts:8-21 | A published post whose id is listed, even several times, gains exactly one impression; every other post is unchanged; clicks and views are untouched |
| `Analytics.SlugCounterAt` | src/lib/analytics.ts:24-46 | A published post with the slug gains exactly one click (views unchanged) or one view (clicks unchanged); every other post is unchanged; impressions are untouched |
| `Analytics.SlugCounterAtMostOne` | src/lib/analytics.ts:25-29 | With unique slugs, at most one row changes |
| `AdminLogin.ParseLoginForm` | src/app/admin/login/actions.ts:9-12 | The input passes exactly when the e-mail is not blank and the password is not empty; the e-mail is trimmed and the password is not |
| `AdminLogin.NormalizeEmail` | src/app/admin/login/actions.ts:33 | The lookup key is no longer than the e-mail |
| `AdminLogin.LoginDecision` | src/app/admin/login/actions.ts:14-47 | `error=config` first, then `error=no_admin`, then `error=invalid`; then sign-in happens exactly when the normalised e-mail names an admin and the password compares, and every other parsed input is refused with `error=credentials` |
| `AdminLogin.UnknownEmailLikeWrongPassword` | src/app/admin/login/actions.ts:33-43 | An unknown e-mail and a wrong password for a known one both give `error=credentials` |
| `AdminLogin.LoginIgnoresEmailSpelling` | src/app/admin/login/actions.ts:33-36 | Two e-mails with the same normalised form get the same decision |
| `AdminLogin.LoginAction` | src/app/admin/login/actions.ts:14-47 | A refusal redirects and leaves the session; a sign-in sets the session to the normalised e-mail and redirects to `/admin` |
| `PostImages.MimeLookup` | src/app/api/admin/post-images/route.ts:7-12 | The type map answers exactly for the four image types, mapping each to itself, and never for inherited names |
| `PostImages.InheritedNamePasses` | src/app/api/admin/post-images/route.ts:35-38 | The check as written lets the type `constructor` through, though it is none of the four image types |
| `PostImages.DataUrl` | src/app/api/admin/post-images/route.ts:42 | The data URL's length is the prefix, the type, `;base64,` and four characters per started group of three bytes |
| `PostImages.ParseDataUrlOfDataUrl` | src/app/api/admin/post-images/route.ts:42 | The data URL decodes back to its type and bytes |
| `PostImages.HandleUpload` | src/app/api/admin/post-images/route.ts:18-52 | 401 without a session; then 400 for a missing or empty file, for more than 8 MiB and for another type; 500 when reading fails; otherwise an upload whose URL decodes to the file's type and bytes |
| `PostImages.LimitIsInclusive` | src/app/api/admin/post-images/route.ts:31 | A file of exactly 8,388,608 bytes is accepted |
| `PostImages.SessionComesFirst` | src/app/api/admin/post-images/route.ts:19-22 | Without a session the answer does not depend on the body |
| `Base64.Encode` | src/app/api/admin/post-images/route.ts:42 | Four alphabet or padding characters per started group of three bytes |
| `Base64.DecodeEncode` | src/app/api/admin/post-images/route.ts:42 | Decoding the encoding gives back the bytes |
| `Base64.EncodeInjective` | src/app/api/admin/post-images/route.ts:42 | Different bytes have different encodings |
| `MarkdownImageUploader.StripExtension` | src/components/markdown-image-uploader.tsx:16 | A prefix of the name; it differs from the name exactly when a `.` is followed by at least one character and no further `.`, and then it ends just before the last `.` |
| `MarkdownImageUploader.LastIndexOf` | src/components/markdown-image-uploader.tsx:15 | The position of the last occurrence of the character, with no occurrence after it; none exactly when the character does not occur |
| `MarkdownImageUploader.ToAltText` | src/components/markdown-image-uploader.tsx:15-22 | Never empty and free of `-` and `_`; the default text when nothing is left after stripping and trimming; otherwise each run of `-` or `_` becomes one space |
| `MarkdownImageUploader.RunBecomesOneSpace` | src/components/markdown-image-uploader.tsx:21 | A run of `-` and `_` between plain text becomes exactly one space |
| `MarkdownImageUploader.Splice` | src/components/markdown-image-uploader.tsx:25-28 | Text before the selection start and after its end is kept, the markdown sits between them, and with no selection it is appended |
| `MarkdownImageUploader.SliceTo` | src/components/markdown-image-uploader.tsx:27 | `slice(0, to)`: the first `to` characters, or the whole text when `to` is past its end |
| `MarkdownImageUploader.SliceFrom` | src/components/markdown-image-uploader.tsx:27 | `slice(from)`: the text from `from` on, or empty when `from` is past its end |
| `MarkdownImageUploader.Textarea.InsertImageMarkdown` | src/components/markdown-image-uploader.tsx:24-36 | The value becomes the splice, and the selection collapses at the start plus the markdown's length |
| `MarkdownImageUploader.ImageMarkdown` | src/components/markdown-image-uploader.tsx:92 | The inserted text is a newline, `![`, the alt, `](`, the URL, `)` and a newline |
| `MarkdownImageUploader.FailureNotice` | src/components/markdown-image-uploader.tsx:70-82 | The server's message when it has one, else the too-large notice for 413, else the generic failure notice |
| `MarkdownImageUploader.HandleReply` | src/components/markdown-image-uploader.tsx:70-98 | The text is inserted only for an ok reply with a URL and a textarea present, and then the selection collapses at the start plus the markdown's length; otherwise the textarea is unchanged; the notice follows the reply |
| `MarkdownImageUploader.ReplyOf` | src/components/markdown-image-uploader.tsx:64-70 | A reply leads to an insertion exactly when the upload succeeded |
| `MarkdownImageUploader.UploadReachesEditor` | src/components/markdown-image-uploader.tsx:70-93 | An upload failure shows the endpoint's message, and a success inserts the data URL of the file |
| `MarkdownImageUploader.OnUploadClick` | src/components/markdown-image-uploader.tsx:43-103 | No file selected shows the choose-a-file notice; a request that throws shows the generic failure notice; otherwise the reply is handled, and the textarea changes only when an image is inserted, taking the splice and a collapsed selection after the markdown |
| `HomePage.SchoolPieces` | src/app/page.tsx:21 | Splitting on `\r?\n\|,` gives at least one piece, none holding `,` or `\n` |
| `HomePage.SchoolPiecesSeparator` | src/app/page.tsx:21 | A `\r\n`, `\n` or `,` ends the first piece |
| `HomePage.SchoolList` | src/app/page.tsx:18-24 | Absent or `""` gives `[]`; a present text gives its pieces split at `\r\n`, `\n` and `,`, each trimmed, with the empty ones dropped, in order; every item is non-empty and trimmed, with no `,` or `\n` |
| `HomePage.SchoolListCons` | src/app/page.tsx:18-24 | The text before the first `\r\n`, `\n` or `,` gives the first entry, trimmed, unless it is blank; the rest is the list of the text after the separator |
| `HomePage.SchoolListCommaOnly` | src/app/page.tsx:20-23 | On text without newlines the school list is the comma list of the admin forms |
| `HomePage.SchoolListOfJoin` | src/app/page.tsx:18-24 | Clean items joined with commas give back the same items, in order |
| `HomePage.Featured` | src/app/page.tsx:31-33 | The first four items, or all when there are fewer |
| `HomePage.More` | src/app/page.tsx:32-34 | The featured items followed by these are the whole list, and it is empty exactly when there are at most four |
| `BlogPage.EscapeCssString` | src/app/blog/page.tsx:17 | The length grows by the number of `"` and `\`, and text without them is unchanged |
| `BlogPage.ReadEscaped` | src/app/blog/page.tsx:17 | Reading a CSS string back from the escaped URL and a closing `"` recovers the URL and the rest |
| `BlogPage.BackgroundImage` | src/app/blog/page.tsx:16-19 | `url("` + escaped + `")`, whose CSS string reads back as the URL |
| `BlogPage.CardOf` | src/app/blog/page.tsx:36-59 | The preview block is present exactly when there is a preview image, and its CSS string reads back as that image; the link is `/blog/go/` + slug; the tags are the string tags |
| `ProfileAvatar.Initial` | src/components/profile-avatar.tsx:10-13 | `U` for a blank name, else the upper-cased first character of the trimmed name |
| `ProfileAvatar.SizeClassesDistinct` | src/components/profile-avatar.tsx:15-21 | The three sizes have different classes, and no size means `md` |
| `ProfileAvatar.QuoteEncodedAsWritten` | src/components/profile-avatar.tsx:35 | The escaping as written leaves no `"`, never shortens the URL, and leaves a URL without `"` unchanged |
| `ProfileAvatar.QuoteEncodedOne` | src/components/profile-avatar.tsx:35 | A single `"` becomes `%22`, and any other single character stays as it is |
| `ProfileAvatar.QuoteEncodedAppend` | src/components/profile-avatar.tsx:35 | The escaping works piece by piece, so each `"` becomes `%22` in place and every other character is kept, in order |
| `ProfileAvatar.TrailingBackslashBreaksString` | src/components/profile-avatar.tsx:35 | A URL ending in `\` escapes the closing quote, so the CSS string does not end where intended |
| `ProfileAvatar.AvatarOf` | src/components/profile-avatar.tsx:25-45 | A URL starting with `/` is the local image; another non-empty URL is a background `url("…")` whose CSS string reads back as exactly that URL; no URL, or an empty one, is the initial badge |
| `Collections.Dedupe` | src/lib/post-content.ts:31 | A `Set` round trip has no duplicates and the same elements |
| `Collections.DedupeOrder` | src/lib/analytics.ts:4 | A `Set` round trip keeps first-occurrence order |
| `Collections.DedupeNoDup` | src/app/admin/actions.ts:459 | A list without duplicates passes through a `Set` unchanged |
| `JsText.Trim` | src/lib/types.ts:76 | `trim` gives a slice of the text with no edge whitespace |
| `JsText.TrimEmptyIff` | src/lib/types.ts:77 | The trim is empty exactly when the text is all whitespace |
| `JsText.SplitJoin` | src/app/admin/actions.ts:71 | Pieces free of the separator, joined, split back into themselves |

## Left out

- Case mapping is ASCII only. `toLowerCase` and `toUpperCase` leave every non-ASCII character as it is, in `slugify`, the login e-mail key, the URL-line pattern's `i` flag and the avatar initial.
- Strings are sequences of characters. UTF-16 surrogate pairs are not modelled, so `charAt(0)` on an astral character is not modelled either.
- `Number.parseInt` is modelled as optional leading whitespace, an optional sign, and a run of decimal digits. Its precision limit on very long numbers is left out.
- Session cookies and JWT signing, bcrypt, and the `z.url()` and `z.email()` format checks are outside the model. They appear as the parameters `hasSession`, `compare`, `isUrl` and `isEmail`. The database id generator is the parameter `newId`.
- `createdAt` and `updatedAt` are not modelled, and neither are `revalidatePath`, `NextResponse` headers, or the `getEditableProfile` read beyond reading the row.
- Concurrency: each action is one atomic method. The race between the slug check and the insert in two concurrent creates is not modelled.
- `File.arrayBuffer` failing is the parameter `readFails`. `file.name` and `file.type` are taken as given.
- In the uploader:
  - The `content-type` check on the reply is folded into the reply's fields.
  - The file input is not cleared in the model.
  - The `input` event, `focus`, and the browser's clamping of the selection are left out.
- `PostContent.NormalizePostContent` is not idempotent, and the model states no idempotence. Take a line `'` followed by an image-URL line. One pass wraps the URL. A second pass then deletes the quote line, because the `\s*` of the stray-quote pattern spans the newline.
- `PostContent.NormalizeRemovesCrlf` requires that every `\r` of the input start a `\r\n`. Without that, a `\r\n` can survive normalisation (`PostContent.LoneCrCanSurvive`).
- `AdminPosts.DeletePost`: deleting an id that does not exist throws from `prisma.post.delete`. It is not a no-op, so the delete action is not idempotent. The model follows the code.
- `AdminForms.ReadString` has no contract of its own. It is `formData.get` read as a string, or `""`.
- `PostContent.TransformLine` has no `ensures` of its own. Its meaning is in `PostContent.TransformLineMeaning`.
- `ProfileAvatar.SizeClass` has no `ensures` of its own. Its meaning is in `ProfileAvatar.SizeClassesDistinct`.
- `AdminForms.ParseInt` has no `ensures` of its own. Its meaning is in `AdminForms.ParseIntOfIndexText` and `AdminForms.ParseIntNoDigits`.
- `ProfileTypes.AsString` states only that a displayable fallback gives a displayable result. The full case split is in `ProfileTypes.AsStringMeaning`.
- `AdminLogin.NormalizeEmail` states only a length bound. The case mapping is ASCII, as above, and the lemma `AdminLogin.LoginIgnoresEmailSpelling` carries what the key is used for.
- `PostImages.HandleUpload` uses the corrected type lookup, which answers only for the four image types. The handler as written also accepts the types `constructor` and `__proto__` with a 200 (see Findings); the model answers 400 for them.
- `ProfileAvatar.AvatarOf` uses the corrected escaping of the blog list, which puts a backslash before `"` and `\`. The component as written only replaces `"` with `%22`, so for a URL such as `a\b` the model's CSS text differs from the source's (see Findings).
- `BlogPage.ReadCssString` reads a CSS string with backslash escapes of single characters only. CSS hex escapes, escaped newlines and the bad-string rule for a raw newline are not modelled.
- `PostContent.UnifyCrlf`, `PostContent.StripFrom` and `PostContent.Rejoin` state only that they never lengthen the text. Their meaning is in `PostContent.UnifyCrlfRemovesOnlyCr`, `PostContent.UnifyCrlfNoCr`, `PostContent.StripFromDeletesOnly`, `PostContent.StripsLeadingQuote`, `PostContent.RejoinDeletesOnlySpace` and `PostContent.RejoinsAcrossNewline`.
- `PostContent.LinePass` has no `ensures` of its own. Its meaning is in `PostContent.LinePassLines`, `PostContent.TransformLines` and `PostContent.LinePassNoCr`.
- `Analytics.Recorded` states only that the table keeps its length. Its meaning is in `Analytics.RecordedAt` and `Analytics.Bump`.
- `AdminProfile.RemoveAt` and `AdminProfile.ReplaceAt` have no `ensures` of their own. Their meaning is in `AdminProfile.RemoveAtSpec` and `AdminProfile.ReplaceAtSpec`.
- `AdminProfile.ApplyToView` has no `ensures` of its own. It is the view after an edit; `AdminProfile.ApplyCommutes` ties it to the upserted row and `AdminProfile.HeroShows` spells out the hero case.
- `ProfileTypes.ProjectItems` states only a length bound, and `ProfileTypes.ProjectArray` has no `ensures`. Their meaning is in `ProfileTypes.ProjectFrom`, `ProfileTypes.ProjectItemsAppend`, `ProfileTypes.AsProjectArray` and `ProfileTypes.ProjectArrayOfJson`.
- `ProfileTypes.DefaultView` has no `ensures` of its own. It is the placeholder view of `toProfileView(null)` (src/lib/types.ts:136-146), and `ProfileTypes.ToProfileView` returns it for no row.
- Stored JSON numbers are integers (`JNum` of the `Json` datatype). A number with a fraction, such as `1.5`, is not representable. A number is never a string, array or record to the profile decoders, so none of their results depends on its value.
- `src/lib/auth.ts`, `src/lib/site-data.ts` and the React rendering of the pages are not part of this model.

## Findings

| source | as written | input that shows it | evidently intended | confidence | as-written member | corrected member |
|---|---|---|---|---|---|---|
| src/app/api/admin/post-images/route.ts:35 | `POST_IMAGE_MIME_MAP[file.type]` indexes a plain object, so every name inherited from `Object.prototype` finds a truthy value and passes the type check | a file whose declared type is `constructor` | only the four image types pass | not executed; follows from JavaScript property lookup | `PostImages.InheritedNamePasses` | `PostImages.MimeLookup` |
| src/components/profile-avatar.tsx:35 | only `"` is encoded before the URL goes into `url("…")`, so a backslash in the URL escapes the character after it | `avatarUrl` = `a\` makes the CSS `url("a\")`, whose string does not close | the URL reads back intact as a CSS string | not executed; follows from CSS string escaping | `ProfileAvatar.TrailingBackslashBreaksString` | `ProfileAvatar.AvatarOf` |
