/**
 * The pure half of backend/src/routes/admin.js: `normalizePostInput`, the object spread the
 * update handler feeds it, and `mapPost`.
 *
 * A request body is a JSON object whose keys may be missing. A text field is `None` when its
 * key is absent and `Some(s)` when present; JavaScript's `body.x || fallback` treats an empty
 * string like a missing key, so `Some("")` is "present but falsy". A publish flag is
 * `Some(b)` with `b` its truthiness. Both the snake_case and the camelCase spellings the
 * handler reads are kept as separate fields, because they do not behave alike on update.
 */
module AdminInput {
  import opened Wrappers
  import opened Text
  import opened Schema

  /** `body.tags`: either a JSON array (joined with commas) or anything else (coerced to text). */
  datatype TagsValue = TagArray(items: seq<string>) | TagText(text: string)

  datatype PostBody = PostBody(
    title: Option<string>,
    slug: Option<string>,
    excerpt: Option<string>,
    content_html: Option<string>,
    contentHtml: Option<string>,
    featured_image_url: Option<string>,
    featuredImageUrl: Option<string>,
    author_name: Option<string>,
    authorName: Option<string>,
    category: Option<string>,
    tags: Option<TagsValue>,
    is_published: Option<bool>,
    isPublished: Option<bool>,
    /** Only whether a usable timestamp was sent matters: `None` is absent or falsy. */
    published_at: Option<Time>,
    publishedAt: Option<Time>)

  /** What `normalizePostInput` returns; `isPublished` is the 0/1 written to the column. */
  datatype NormalizedPost = NormalizedPost(
    title: string,
    slug: string,
    excerpt: string,
    contentHtml: string,
    featuredImageUrl: string,
    authorName: string,
    category: string,
    tags: string,
    isPublished: int)

  /** The three errors `normalizePostInput` throws, in the order it checks them. */
  datatype InputError = TitleRequired | SlugRequired | ContentRequired {
    function Message(): string {
      match this
      case TitleRequired => "Title is required"
      case SlugRequired => "Slug is required"
      case ContentRequired => "content_html is required"
    }
  }

  /** A row as `mapPost` returns it: tags parsed into a list, the flag as a boolean. */
  datatype Post = Post(
    id: int,
    title: string,
    slug: string,
    excerpt: string,
    contentHtml: string,
    featuredImageUrl: string,
    authorName: string,
    category: string,
    tags: seq<string>,
    isPublished: bool,
    publishedAt: Option<Time>,
    createdAt: Time,
    updatedAt: Time)

  predicate Truthy(v: Option<string>) {
    v.Some? && v.value != []
  }

  /** `String(v || '')` */
  function Str(v: Option<string>): string {
    if Truthy(v) then v.value else []
  }

  /** `String(a || b || fallback)` */
  function FirstOf(a: Option<string>, b: Option<string>, fallback: string): string {
    if Truthy(a) then a.value else if Truthy(b) then b.value else fallback
  }

  /** `Array.isArray(body.tags) ? body.tags.join(',') : String(body.tags || '').trim()` */
  function StoredTags(tags: Option<TagsValue>): (stored: string)
    ensures tags.None? ==> stored == []
    ensures tags.Some? && tags.value.TagText? ==> Trimmed(stored) && stored == Trim(tags.value.text)
    ensures tags.Some? && tags.value.TagArray? && |tags.value.items| == 1 ==> stored == tags.value.items[0]
  {
    match tags
    case Some(TagArray(items)) => Join(items, ',')
    case Some(TagText(text)) => Trim(text)
    case None => []
  }

  /** `body.is_published || body.isPublished ? 1 : 0` */
  function PublishFlag(body: PostBody): (flag: int)
    ensures flag == 0 || flag == 1
    ensures flag == 1 <==> body.is_published == Some(true) || body.isPublished == Some(true)
  {
    if body.is_published == Some(true) || body.isPublished == Some(true) then 1 else 0
  }

  function TitleOf(body: PostBody): string {
    Trim(Str(body.title))
  }

  /** The text handed to slugify: the trimmed explicit slug when non-empty, else the trimmed title. */
  function SlugSource(body: PostBody): string {
    var explicit := Trim(Str(body.slug));
    if explicit != [] then explicit else TitleOf(body)
  }

  function ContentOf(body: PostBody): string {
    Trim(FirstOf(body.content_html, body.contentHtml, []))
  }

  /**
   * `normalizePostInput`. `slugify` is the slugify library call with `{lower, strict}`; its
   * behaviour is not part of this model. Exactly one error is reported, the first failing
   * check in the order title, slug, content.
   */
  function Normalize(body: PostBody, slugify: string -> string): (r: Result<NormalizedPost, InputError>)
    ensures r == Err(TitleRequired) <==> TitleOf(body) == []
    ensures r == Err(SlugRequired) <==> TitleOf(body) != [] && slugify(SlugSource(body)) == []
    ensures r == Err(ContentRequired) <==>
      TitleOf(body) != [] && slugify(SlugSource(body)) != [] && ContentOf(body) == []
    ensures r.Ok? ==>
      && r.value.title != [] && r.value.slug != [] && r.value.contentHtml != []
      && Trimmed(r.value.title) && Trimmed(r.value.excerpt) && Trimmed(r.value.contentHtml)
      && Trimmed(r.value.featuredImageUrl) && Trimmed(r.value.authorName) && Trimmed(r.value.category)
      && (r.value.isPublished == 0 || r.value.isPublished == 1)
    ensures r.Ok? ==>
      && r.value.title == Trim(Str(body.title))
      && r.value.slug == slugify(SlugSource(body))
      && r.value.excerpt == Trim(Str(body.excerpt))
      && r.value.contentHtml == Trim(FirstOf(body.content_html, body.contentHtml, []))
      && r.value.featuredImageUrl == Trim(FirstOf(body.featured_image_url, body.featuredImageUrl, []))
      && r.value.authorName == Trim(FirstOf(body.author_name, body.authorName, DefaultAuthor))
      && r.value.category == Trim(Str(body.category))
      && r.value.tags == StoredTags(body.tags)
      && r.value.isPublished == PublishFlag(body)
  {
    var title := TitleOf(body);
    var slug := slugify(SlugSource(body));
    var contentHtml := ContentOf(body);
    if title == [] then Err(TitleRequired)
    else if slug == [] then Err(SlugRequired)
    else if contentHtml == [] then Err(ContentRequired)
    else
      Ok(NormalizedPost(
        title,
        slug,
        Trim(Str(body.excerpt)),
        contentHtml,
        Trim(FirstOf(body.featured_image_url, body.featuredImageUrl, [])),
        Trim(FirstOf(body.author_name, body.authorName, DefaultAuthor)),
        Trim(Str(body.category)),
        StoredTags(body.tags),
        PublishFlag(body)))
  }

  /** With no usable explicit slug the slug is derived from the trimmed title. */
  lemma SlugFromTitle(body: PostBody, slugify: string -> string)
    requires Trim(Str(body.slug)) == []
    requires Normalize(body, slugify).Ok?
    ensures Normalize(body, slugify).value.slug == slugify(Trim(Str(body.title)))
  {
  }

  /** A non-blank explicit slug wins over the title. */
  lemma SlugFromExplicit(body: PostBody, slugify: string -> string)
    requires body.slug.Some? && Trim(body.slug.value) != []
    requires Normalize(body, slugify).Ok?
    ensures Normalize(body, slugify).value.slug == slugify(Trim(body.slug.value))
  {
  }

  /** With neither author spelling usable the author is "Coach Angelo". */
  lemma AuthorDefaults(body: PostBody, slugify: string -> string)
    requires !Truthy(body.author_name) && !Truthy(body.authorName)
    requires Normalize(body, slugify).Ok?
    ensures Normalize(body, slugify).value.authorName == DefaultAuthor
  {
    assert FirstOf(body.author_name, body.authorName, DefaultAuthor) == DefaultAuthor;
    assert Trimmed(DefaultAuthor) by {
      assert DefaultAuthor[0] == 'C' && DefaultAuthor[|DefaultAuthor| - 1] == 'o';
    }
    TrimOfTrimmed(DefaultAuthor);
  }

  /** The post is published exactly when one of the two flag spellings is truthy. */
  lemma PublishedIffFlag(body: PostBody, slugify: string -> string)
    requires Normalize(body, slugify).Ok?
    ensures Normalize(body, slugify).value.isPublished == 1 <==>
      body.is_published == Some(true) || body.isPublished == Some(true)
  {
  }

  /** A tag list of clean tags is stored so that `mapPost` gives the same list back. */
  lemma TagListRoundTrip(body: PostBody, slugify: string -> string)
    requires body.tags.Some? && body.tags.value.TagArray?
    requires forall t :: t in body.tags.value.items ==> CleanTag(t)
    requires Normalize(body, slugify).Ok?
    ensures ParseTags(Normalize(body, slugify).value.tags) == body.tags.value.items
  {
    TagsRoundTrip(body.tags.value.items);
  }

  /**
   * `{ ...existing, ...req.body }`: every key the body carries overrides the stored column of the
   * same name. Stored rows have only snake_case keys, so a camelCase key in the body never
   * overrides a stored value; it is read only when the stored snake_case value is falsy.
   */
  function Merge(existing: PostRow, body: PostBody): (m: PostBody)
    // camelCase keys come from the body alone
    ensures m.contentHtml == body.contentHtml && m.featuredImageUrl == body.featuredImageUrl
    ensures m.authorName == body.authorName && m.isPublished == body.isPublished
    ensures m.publishedAt == body.publishedAt
    // a snake_case key the body carries wins ...
    ensures body.title.Some? ==> m.title == body.title
    ensures body.slug.Some? ==> m.slug == body.slug
    ensures body.excerpt.Some? ==> m.excerpt == body.excerpt
    ensures body.content_html.Some? ==> m.content_html == body.content_html
    ensures body.featured_image_url.Some? ==> m.featured_image_url == body.featured_image_url
    ensures body.author_name.Some? ==> m.author_name == body.author_name
    ensures body.category.Some? ==> m.category == body.category
    ensures body.tags.Some? ==> m.tags == body.tags
    ensures body.is_published.Some? ==> m.is_published == body.is_published
    ensures body.published_at.Some? ==> m.published_at == body.published_at
    // ... and one it leaves out is the stored column
    ensures body.title.None? ==> m.title == Some(existing.title)
    ensures body.slug.None? ==> m.slug == Some(existing.slug)
    ensures body.excerpt.None? ==> m.excerpt == Some(existing.excerpt)
    ensures body.content_html.None? ==> m.content_html == Some(existing.contentHtml)
    ensures body.featured_image_url.None? ==> m.featured_image_url == Some(existing.featuredImageUrl)
    ensures body.author_name.None? ==> m.author_name == Some(existing.authorName)
    ensures body.category.None? ==> m.category == Some(existing.category)
    ensures body.tags.None? ==> m.tags == Some(TagText(existing.tags))
    ensures body.is_published.None? ==> m.is_published == Some(existing.isPublished != 0)
    ensures body.published_at.None? ==> m.published_at == existing.publishedAt
  {
    PostBody(
      Override(body.title, existing.title),
      Override(body.slug, existing.slug),
      Override(body.excerpt, existing.excerpt),
      Override(body.content_html, existing.contentHtml),
      body.contentHtml,
      Override(body.featured_image_url, existing.featuredImageUrl),
      body.featuredImageUrl,
      Override(body.author_name, existing.authorName),
      body.authorName,
      Override(body.category, existing.category),
      if body.tags.Some? then body.tags else Some(TagText(existing.tags)),
      if body.is_published.Some? then body.is_published else Some(existing.isPublished != 0),
      body.isPublished,
      // normalizePostInput never reads the timestamps; the spread value is recorded anyway
      if body.published_at.Some? then body.published_at else existing.publishedAt,
      body.publishedAt)
  }

  function Override(v: Option<string>, stored: string): Option<string> {
    if v.Some? then v else Some(stored)
  }

  /** Fields the update body leaves out keep their stored (already trimmed) values. */
  lemma MergeKeepsOmitted(existing: PostRow, body: PostBody, slugify: string -> string)
    requires Trimmed(existing.title) && Trimmed(existing.excerpt) && Trimmed(existing.category)
    requires Normalize(Merge(existing, body), slugify).Ok?
    ensures body.tags.None? && Trimmed(existing.tags) ==>
      Normalize(Merge(existing, body), slugify).value.tags == existing.tags
    ensures body.title.None? ==> Normalize(Merge(existing, body), slugify).value.title == existing.title
    ensures body.excerpt.None? ==> Normalize(Merge(existing, body), slugify).value.excerpt == existing.excerpt
    ensures body.category.None? ==> Normalize(Merge(existing, body), slugify).value.category == existing.category
  {
    var m := Merge(existing, body);
    if body.title.None? {
      assert Str(m.title) == existing.title;
      TrimOfTrimmed(existing.title);
    }
    if body.excerpt.None? {
      assert Str(m.excerpt) == existing.excerpt;
      TrimOfTrimmed(existing.excerpt);
    }
    if body.category.None? {
      assert Str(m.category) == existing.category;
      TrimOfTrimmed(existing.category);
    }
    if body.tags.None? && Trimmed(existing.tags) {
      assert StoredTags(m.tags) == Trim(existing.tags);
      TrimOfTrimmed(existing.tags);
    }
  }

  /**
   * On update `isPublished: false` cannot unpublish a published post: the stored
   * `is_published` (any non-zero value) is spread in and is truthy, so the camelCase flag is
   * never consulted.
   */
  lemma CamelCaseFlagCannotUnpublish(existing: PostRow, body: PostBody, slugify: string -> string)
    requires existing.isPublished != 0 && body.is_published.None?
    requires Normalize(Merge(existing, body), slugify).Ok?
    ensures Normalize(Merge(existing, body), slugify).value.isPublished == 1
  {
  }

  /** `is_published: false` (with no truthy camelCase flag) does unpublish. */
  lemma SnakeCaseFlagUnpublishes(existing: PostRow, body: PostBody, slugify: string -> string)
    requires body.is_published == Some(false) && body.isPublished != Some(true)
    requires Normalize(Merge(existing, body), slugify).Ok?
    ensures Normalize(Merge(existing, body), slugify).value.isPublished == 0
  {
  }

  /**
   * On update a `contentHtml` in the body is ignored whenever the stored `content_html` is
   * non-empty (as every stored post's is): the stored value is spread in and wins.
   */
  lemma CamelCaseContentIgnored(existing: PostRow, body: PostBody, slugify: string -> string)
    requires existing.contentHtml != [] && Trimmed(existing.contentHtml) && body.content_html.None?
    requires Normalize(Merge(existing, body), slugify).Ok?
    ensures Normalize(Merge(existing, body), slugify).value.contentHtml == existing.contentHtml
  {
    TrimOfTrimmed(existing.contentHtml);
  }

  /** `mapPost`: the stored row with its tag column parsed and its flag made boolean. */
  function MapPost(row: PostRow): (p: Post)
    ensures forall t :: t in p.tags ==> CleanTag(t)
    ensures p.tags == ParseTags(row.tags)
    ensures p.isPublished <==> row.isPublished != 0
    ensures p.id == row.id && p.slug == row.slug && p.publishedAt == row.publishedAt
    ensures p.createdAt == row.createdAt && p.updatedAt == row.updatedAt
    ensures p.title == row.title && p.excerpt == row.excerpt && p.contentHtml == row.contentHtml
    ensures p.featuredImageUrl == row.featuredImageUrl && p.authorName == row.authorName
    ensures p.category == row.category
  {
    Post(row.id, row.title, row.slug, row.excerpt, row.contentHtml, row.featuredImageUrl,
      row.authorName, row.category, ParseTags(row.tags), row.isPublished != 0,
      row.publishedAt, row.createdAt, row.updatedAt)
  }
}
