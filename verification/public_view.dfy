/**
 * The public, unauthenticated routes of backend/src/routes/public.js: the list of published
 * posts (newest first, at most `limit`) and the detail of one published post by slug.
 *
 * The table is given as a sequence of rows, the order in which SQLite happens to scan it.
 * The `ORDER BY … DESC` is a stable sort on the recency key, so rows with equal keys keep
 * their scan order; SQLite promises no particular order among ties, and this is one of
 * the orders it may produce.
 */
module PublicView {
  import opened Wrappers
  import opened Text
  import opened Schema
  import AdminInput
  import Sorting

  const DefaultLimit: int := 20
  const MaxLimit: int := 100
  const PostNotFoundMessage := "Post not found"

  /**
   * `Math.min(Number(req.query.limit) || 20, 100)`. The query is `None` when `Number(...)`
   * gives NaN (the parameter is missing or is not a number) and `Some(n)` otherwise.
   * NaN and 0 are falsy and fall back to 20; anything above 100 is capped; a negative
   * number passes through unchanged (SQLite then reads it as "no limit").
   */
  function EffectiveLimit(query: Option<int>): (limit: int)
    ensures limit <= MaxLimit && limit != 0
    ensures query.None? || query.value == 0 ==> limit == DefaultLimit
    ensures query.Some? && 0 < query.value <= MaxLimit ==> limit == query.value
    ensures query.Some? && MaxLimit < query.value ==> limit == MaxLimit
    ensures limit < 0 <==> query.Some? && query.value < 0
    ensures limit < 0 ==> limit == query.value
  {
    var n := if query.Some? && query.value != 0 then query.value else DefaultLimit;
    if n < MaxLimit then n else MaxLimit
  }

  /** SQLite's `LIMIT n`: the first `n` rows, or all of them when `n` is negative. */
  function Take<T>(s: seq<T>, n: int): (r: seq<T>)
    ensures n < 0 ==> r == s
    ensures 0 <= n ==> |r| == if n < |s| then n else |s|
    ensures r <= s
    ensures multiset(r) <= multiset(s)
  {
    if n < 0 || |s| <= n then s
    else
      PrefixIncluded(s, n);
      s[..n]
  }

  /** A prefix holds no element more often than the whole sequence. */
  lemma PrefixIncluded<T>(s: seq<T>, n: nat)
    requires n <= |s|
    ensures multiset(s[..n]) <= multiset(s)
  {
    assert s == s[..n] + s[n..];
  }

  /** `COALESCE(published_at, created_at)`, the key the public list sorts on. */
  function Recency(publishedAt: Option<Time>, createdAt: Time): Time {
    publishedAt.GetOr(createdAt)
  }

  /** The recency of a stored row. */
  function RecencyKey(row: PostRow): Time {
    Recency(row.publishedAt, row.createdAt)
  }

  /** `WHERE is_published = 1`, keeping the scan order. */
  function Published(table: seq<PostRow>): (rows: seq<PostRow>)
    ensures forall r :: r in rows <==> r in table && r.isPublished == 1
  {
    if table == [] then []
    else
      var rest := Published(table[1..]);
      assert table == [table[0]] + table[1..];
      if table[0].isPublished == 1 then [table[0]] + rest else rest
  }

  /** The filter keeps every published row as often as the scan yields it, and no draft. */
  lemma {:induction false} PublishedCounts(table: seq<PostRow>, r: PostRow)
    ensures multiset(Published(table))[r] == if r.isPublished == 1 then multiset(table)[r] else 0
  {
    if table != [] {
      PublishedCounts(table[1..], r);
      assert table == [table[0]] + table[1..];
    }
  }

  /** The rows `GET /posts` selects: published, newest first, cut to `limit`. */
  function SelectPublished(table: seq<PostRow>, limit: int): (rows: seq<PostRow>)
    ensures forall r :: r in rows ==> r in table && r.isPublished == 1
    ensures Sorting.SortedDesc(rows, RecencyKey)
    ensures multiset(rows) <= multiset(Published(table))
    ensures limit < 0 ==> multiset(rows) == multiset(Published(table))
    ensures 0 <= limit ==> |rows| == if limit < |Published(table)| then limit else |Published(table)|
  {
    var sorted := Sorting.SortDesc(Published(table), RecencyKey);
    var rows := Take(sorted, limit);
    DrawnFromPublished(table, rows);
    rows
  }

  /** Rows drawn from the published ones, no more often than they occur, are published rows of the table. */
  lemma DrawnFromPublished(table: seq<PostRow>, rows: seq<PostRow>)
    requires multiset(rows) <= multiset(Published(table))
    ensures forall r :: r in rows ==> r in table && r.isPublished == 1
  {
    forall r | r in rows
      ensures r in table && r.isPublished == 1
    {
      assert r in multiset(rows);
      assert r in Published(table);
    }
  }

  /** One entry of the public list: every column but `content_html` and `is_published`. */
  datatype Summary = Summary(
    id: int,
    title: string,
    slug: string,
    excerpt: string,
    featuredImageUrl: string,
    authorName: string,
    category: string,
    tags: seq<string>,
    publishedAt: Option<Time>,
    createdAt: Time,
    updatedAt: Time)

  /** The public detail of a post: the summary fields plus `content_html`. */
  datatype Full = Full(
    id: int,
    title: string,
    slug: string,
    excerpt: string,
    featuredImageUrl: string,
    authorName: string,
    category: string,
    tags: seq<string>,
    publishedAt: Option<Time>,
    createdAt: Time,
    updatedAt: Time,
    contentHtml: string)
  {
    function AsSummary(): Summary {
      Summary.Summary(id, title, slug, excerpt, featuredImageUrl, authorName, category, tags,
        publishedAt, createdAt, updatedAt)
    }
  }

  /** `mapSummary`: the stored comma-separated tags become a list of clean tags. */
  function MapSummary(row: PostRow): (s: Summary)
    ensures forall t :: t in s.tags ==> CleanTag(t)
    ensures row.tags == [] ==> s.tags == []
    ensures s.tags == ParseTags(row.tags)
    ensures s.id == row.id && s.title == row.title && s.slug == row.slug && s.excerpt == row.excerpt
    ensures s.featuredImageUrl == row.featuredImageUrl && s.authorName == row.authorName
    ensures s.category == row.category && s.publishedAt == row.publishedAt
    ensures s.createdAt == row.createdAt && s.updatedAt == row.updatedAt
  {
    Summary(row.id, row.title, row.slug, row.excerpt, row.featuredImageUrl, row.authorName,
      row.category, ParseTags(row.tags), row.publishedAt, row.createdAt, row.updatedAt)
  }

  /** `mapFull`: the summary spread out, with `content_html` added. */
  function MapFull(row: PostRow): (f: Full)
    ensures f.AsSummary() == MapSummary(row)
    ensures f.contentHtml == row.contentHtml
  {
    var s := MapSummary(row);
    Full(s.id, s.title, s.slug, s.excerpt, s.featuredImageUrl, s.authorName, s.category, s.tags,
      s.publishedAt, s.createdAt, s.updatedAt, row.contentHtml)
  }

  /**
   * The public detail shows a row exactly as the admin `mapPost` does, less the
   * `is_published` flag: the two mappers agree on every field they share.
   */
  lemma PublicMatchesAdmin(row: PostRow)
    ensures var f, p := MapFull(row), AdminInput.MapPost(row);
      f.id == p.id && f.title == p.title && f.slug == p.slug && f.excerpt == p.excerpt &&
      f.contentHtml == p.contentHtml && f.featuredImageUrl == p.featuredImageUrl &&
      f.authorName == p.authorName && f.category == p.category && f.tags == p.tags &&
      f.publishedAt == p.publishedAt && f.createdAt == p.createdAt && f.updatedAt == p.updatedAt
  {
  }

  /** `posts.map(mapSummary)` */
  function MapSummaries(rows: seq<PostRow>): (posts: seq<Summary>)
    ensures |posts| == |rows|
    ensures forall i :: 0 <= i < |rows| ==> posts[i] == MapSummary(rows[i])
  {
    if rows == [] then [] else [MapSummary(rows[0])] + MapSummaries(rows[1..])
  }

  /** Mapping published rows, newest first, gives summaries of published rows, newest first. */
  lemma SummariesOfSelection(table: seq<PostRow>, rows: seq<PostRow>)
    requires forall r :: r in rows ==> r in table && r.isPublished == 1
    requires Sorting.SortedDesc(rows, RecencyKey)
    ensures var posts := MapSummaries(rows);
      && (forall p :: p in posts ==> exists r :: r in table && r.isPublished == 1 && p == MapSummary(r))
      && Sorting.SortedDesc(posts, SummaryKey)
  {
    var posts := MapSummaries(rows);
    forall p | p in posts
      ensures exists r :: r in table && r.isPublished == 1 && p == MapSummary(r)
    {
      var i :| 0 <= i < |posts| && posts[i] == p;
      assert rows[i] in rows;
    }
    forall i, j | 0 <= i < j < |posts|
      ensures SummaryKey(posts[j]) <= SummaryKey(posts[i])
    {
      SummaryKeyOfRow(rows[i]);
      SummaryKeyOfRow(rows[j]);
    }
  }

  /** `GET /posts` (public). */
  function ListPublished(table: seq<PostRow>, query: Option<int>): (posts: seq<Summary>)
    ensures forall p :: p in posts ==> exists r :: r in table && r.isPublished == 1 && p == MapSummary(r)
    ensures Sorting.SortedDesc(posts, SummaryKey)
    ensures query.None? ==> |posts| <= DefaultLimit
    ensures |posts| <= MaxLimit || (query.Some? && query.value < 0)
    ensures 0 <= EffectiveLimit(query) ==>
      |posts| == if EffectiveLimit(query) < |Published(table)| then EffectiveLimit(query) else |Published(table)|
    ensures EffectiveLimit(query) < 0 ==> |posts| == |Published(table)|
  {
    var limit := EffectiveLimit(query);
    var rows := SelectPublished(table, limit);
    assert 0 <= limit ==> |rows| <= limit;
    assert limit < 0 ==> |rows| == |multiset(rows)| == |multiset(Published(table))|;
    SummariesOfSelection(table, rows);
    MapSummaries(rows)
  }

  /** The order key read back from a listed summary. */
  function SummaryKey(s: Summary): Time {
    Recency(s.publishedAt, s.createdAt)
  }

  /** A summary carries its row's recency: the listing's order is the query's order. */
  lemma SummaryKeyOfRow(row: PostRow)
    ensures SummaryKey(MapSummary(row)) == RecencyKey(row)
  {
  }

  /**
   * The limit keeps the newest posts: a published row left out of the selection is
   * no newer than any row that made it in.
   */
  lemma {:induction false} SelectionIsNewest(table: seq<PostRow>, limit: int, r: PostRow, kept: PostRow)
    requires r in table && r.isPublished == 1 && r !in SelectPublished(table, limit)
    requires kept in SelectPublished(table, limit)
    ensures RecencyKey(r) <= RecencyKey(kept)
  {
    var sorted := Sorting.SortDesc(Published(table), RecencyKey);
    var rows := SelectPublished(table, limit);
    assert r in multiset(sorted) by {
      assert r in Published(table);
    }
    var j :| 0 <= j < |sorted| && sorted[j] == r;
    var i :| 0 <= i < |rows| && rows[i] == kept;
    assert rows == sorted[..|rows|];
    assert sorted[i] == kept;
  }

  /**
   * With no effective cap (a negative limit, or fewer published rows than the limit)
   * every published row is listed.
   */
  lemma {:induction false} ListsEveryPublishedRow(table: seq<PostRow>, query: Option<int>, r: PostRow)
    requires r in table && r.isPublished == 1
    requires EffectiveLimit(query) < 0 || |Published(table)| <= EffectiveLimit(query)
    ensures MapSummary(r) in ListPublished(table, query)
  {
    var limit := EffectiveLimit(query);
    var sorted := Sorting.SortDesc(Published(table), RecencyKey);
    var rows := SelectPublished(table, limit);
    assert rows == sorted;
    assert r in Published(table);
    assert r in multiset(sorted);
    var i :| 0 <= i < |rows| && rows[i] == r;
    assert ListPublished(table, query) == MapSummaries(rows);
    assert MapSummaries(rows)[i] == MapSummary(r);
  }

  /**
   * `SELECT * FROM posts WHERE slug = ? AND is_published = 1 LIMIT 1`: the first such row in
   * scan order (the slug is unique, so there is at most one).
   */
  function FindPublishedBySlug(table: seq<PostRow>, slug: string): (found: Option<PostRow>)
    ensures found.Some? ==> found.value in table && found.value.slug == slug && found.value.isPublished == 1
    ensures found.None? <==> forall r :: r in table ==> r.slug != slug || r.isPublished != 1
  {
    if table == [] then None
    else if table[0].slug == slug && table[0].isPublished == 1 then Some(table[0])
    else FindPublishedBySlug(table[1..], slug)
  }

  /** The response of `GET /posts/:slug`: the full post, or 404 with "Post not found". */
  datatype DetailResponse = Found(post: Full) | PostNotFound
  {
    function Status(): int {
      if Found? then 200 else 404
    }
  }

  /** `GET /posts/:slug` (public). */
  function PostDetail(table: seq<PostRow>, slug: string): (response: DetailResponse)
    ensures response.Found? ==> exists r :: r in table && r.slug == slug && r.isPublished == 1 && response.post == MapFull(r)
    ensures response.PostNotFound? <==> forall r :: r in table ==> r.slug != slug || r.isPublished != 1
  {
    match FindPublishedBySlug(table, slug)
    case Some(row) => Found(MapFull(row))
    case None => PostNotFound
  }

  /** Slugs are unique across the scanned table (the `UNIQUE` constraint on `slug`). */
  ghost predicate UniqueSlugs(table: seq<PostRow>) {
    forall i, j :: 0 <= i < j < |table| ==> table[i].slug != table[j].slug
  }

  /** Under the unique-slug constraint the published row with a given slug is the one shown. */
  lemma {:induction false} DetailShowsTheRow(table: seq<PostRow>, r: PostRow)
    requires UniqueSlugs(table)
    requires r in table && r.isPublished == 1
    ensures PostDetail(table, r.slug) == Found(MapFull(r))
  {
    FindTheRow(table, r);
  }

  lemma {:induction false} FindTheRow(table: seq<PostRow>, r: PostRow)
    requires UniqueSlugs(table)
    requires r in table && r.isPublished == 1
    ensures FindPublishedBySlug(table, r.slug) == Some(r)
  {
    if table[0] != r {
      var j :| 0 <= j < |table| && table[j] == r;
      assert table[0].slug != r.slug by {
        assert 0 < j;
      }
      assert r in table[1..] by {
        assert table[1..][j - 1] == r;
      }
      FindTheRow(table[1..], r);
    }
  }
}
