/**
 * The post handlers of backend/src/routes/admin.js (create, update, delete and the admin
 * listing) as functions from a snapshot of the `posts` table to a response and the next
 * snapshot. The store class in post_store.dfy runs the same handlers in place and is proved
 * to agree with these functions.
 */
module AdminPosts {
  import opened Wrappers
  import opened Text
  import opened Schema
  import opened AdminInput
  import Sorting

  /** The `posts` table: rows by id, and the next AUTOINCREMENT id (ids are never reused). */
  datatype Table = Table(rows: map<int, PostRow>, nextId: int)

  datatype PostResponse =
    | Created(post: Post)        // 201 { post }
    | Saved(post: Post)          // 200 { post }
    | Deleted                    // 204, empty body
    | BadRequest(error: string)  // 400 { error }
    | NotFound                   // 404 'Post not found'
    | Conflict                   // 409 'Slug already exists'
  {
    function Status(): int {
      match this
      case Created(_) => 201
      case Saved(_) => 200
      case Deleted => 204
      case BadRequest(_) => 400
      case NotFound => 404
      case Conflict => 409
    }
  }

  const InvalidId: string := "Invalid id"

  datatype Step = Step(response: PostResponse, table: Table)

  /** `slug TEXT NOT NULL UNIQUE` */
  ghost predicate SlugsUnique(rows: map<int, PostRow>) {
    forall i, j :: i in rows && j in rows && rows[i].slug == rows[j].slug ==> i == j
  }

  /** What every row written by these handlers satisfies. */
  ghost predicate WellFormedRow(id: int, r: PostRow) {
    && r.id == id && id > 0
    && r.title != [] && r.slug != [] && r.contentHtml != []
    && Trimmed(r.title) && Trimmed(r.excerpt) && Trimmed(r.contentHtml)
    && Trimmed(r.featuredImageUrl) && Trimmed(r.authorName) && Trimmed(r.category)
    && (r.isPublished == 0 || r.isPublished == 1)
    && (r.publishedAt.Some? <==> r.isPublished == 1)
  }

  ghost predicate Valid(t: Table) {
    && t.nextId > 0
    && (forall id :: id in t.rows ==> id < t.nextId && WellFormedRow(id, t.rows[id]))
    && SlugsUnique(t.rows)
  }

  predicate SlugInUse(rows: map<int, PostRow>, slug: string) {
    exists k :: k in rows && rows[k].slug == slug
  }

  predicate SlugInUseByOther(rows: map<int, PostRow>, slug: string, id: int) {
    exists k :: k in rows && k != id && rows[k].slug == slug
  }

  /** The content columns of `row` are those of the normalized input `n`. */
  predicate Stores(row: PostRow, n: NormalizedPost) {
    && row.title == n.title && row.slug == n.slug && row.excerpt == n.excerpt
    && row.contentHtml == n.contentHtml && row.featuredImageUrl == n.featuredImageUrl
    && row.authorName == n.authorName && row.category == n.category && row.tags == n.tags
    && row.isPublished == n.isPublished
  }

  /** `input.isPublished ? (req.body.published_at || req.body.publishedAt || now) : null` */
  function CreatedPublishedAt(n: NormalizedPost, body: PostBody, now: Time): (at: Option<Time>)
    ensures at.Some? <==> n.isPublished == 1
    ensures at.Some? && body.published_at.Some? ==> at == body.published_at
    ensures at.Some? && body.published_at.None? && body.publishedAt.Some? ==> at == body.publishedAt
    ensures at.Some? && body.published_at.None? && body.publishedAt.None? ==> at == Some(now)
  {
    if n.isPublished == 1 then Some(body.published_at.GetOr(body.publishedAt.GetOr(now))) else None
  }

  /**
   * `input.isPublished ? (req.body.published_at || req.body.publishedAt || existing.published_at || now) : null`
   * — read from the request body, not from the merged record.
   */
  function UpdatedPublishedAt(n: NormalizedPost, body: PostBody, existing: PostRow, now: Time): (at: Option<Time>)
    ensures at.Some? <==> n.isPublished == 1
    ensures at.Some? && body.published_at.Some? ==> at == body.published_at
    ensures at.Some? && body.published_at.None? && body.publishedAt.Some? ==> at == body.publishedAt
    ensures at.Some? && body.published_at.None? && body.publishedAt.None? && existing.publishedAt.Some? ==>
      at == existing.publishedAt
    ensures at.Some? && body.published_at.None? && body.publishedAt.None? && existing.publishedAt.None? ==>
      at == Some(now)
  {
    if n.isPublished == 1 then
      Some(body.published_at.GetOr(body.publishedAt.GetOr(existing.publishedAt.GetOr(now))))
    else None
  }

  /** The INSERT: every column from the normalized input, both timestamps `now`. */
  function NewRow(id: int, n: NormalizedPost, publishedAt: Option<Time>, now: Time): (row: PostRow)
    ensures Stores(row, n)
    ensures row.id == id && row.publishedAt == publishedAt && row.createdAt == now && row.updatedAt == now
  {
    PostRow(id, n.title, n.slug, n.excerpt, n.contentHtml, n.featuredImageUrl, n.authorName,
      n.category, n.tags, n.isPublished, publishedAt, now, now)
  }

  /** The UPDATE: every column but `id` and `created_at` rewritten, `updated_at` set to `now`. */
  function RewrittenRow(existing: PostRow, n: NormalizedPost, publishedAt: Option<Time>, now: Time): (row: PostRow)
    ensures Stores(row, n)
    ensures row.id == existing.id && row.createdAt == existing.createdAt
    ensures row.publishedAt == publishedAt && row.updatedAt == now
  {
    PostRow(existing.id, n.title, n.slug, n.excerpt, n.contentHtml, n.featuredImageUrl, n.authorName,
      n.category, n.tags, n.isPublished, publishedAt, existing.createdAt, now)
  }

  lemma NewRowWellFormed(id: int, n: NormalizedPost, body: PostBody, slugify: string -> string, now: Time)
    requires id > 0 && Normalize(body, slugify) == Ok(n)
    ensures WellFormedRow(id, NewRow(id, n, CreatedPublishedAt(n, body, now), now))
  {
  }

  /** `POST /posts`: 400 on invalid input, 409 when the slug is taken, otherwise 201 with the new row. */
  function CreatePost(t: Table, body: PostBody, now: Time, slugify: string -> string): (s: Step)
    ensures s.response.Created? || s.response.BadRequest? || s.response.Conflict?
    ensures s.response.BadRequest? <==> Normalize(body, slugify).Err?
    ensures s.response.Conflict? <==>
      Normalize(body, slugify).Ok? && SlugInUse(t.rows, Normalize(body, slugify).value.slug)
    ensures s.response.BadRequest? ==> s.response.error == Normalize(body, slugify).error.Message()
    ensures !s.response.Created? ==> s.table == t
  {
    var r := Normalize(body, slugify);
    if r.Err? then Step(BadRequest(r.error.Message()), t)
    else if SlugInUse(t.rows, r.value.slug) then Step(Conflict, t)
    else
      var row := NewRow(t.nextId, r.value, CreatedPublishedAt(r.value, body, now), now);
      Step(Created(MapPost(row)), Table(t.rows[t.nextId := row], t.nextId + 1))
  }

  /** Create keeps the table invariant: slugs stay unique and every row stays well formed. */
  lemma CreateKeepsValid(t: Table, body: PostBody, now: Time, slugify: string -> string)
    requires Valid(t)
    ensures Valid(CreatePost(t, body, now, slugify).table)
  {
    var r := Normalize(body, slugify);
    if r.Ok? && !SlugInUse(t.rows, r.value.slug) {
      var row := NewRow(t.nextId, r.value, CreatedPublishedAt(r.value, body, now), now);
      NewRowWellFormed(t.nextId, r.value, body, slugify, now);
      var rows' := t.rows[t.nextId := row];
      assert CreatePost(t, body, now, slugify).table == Table(rows', t.nextId + 1);
      assert forall k :: k in t.rows ==> t.rows[k].slug != row.slug;
      forall i, j | i in rows' && j in rows' && rows'[i].slug == rows'[j].slug
        ensures i == j
      {
        if i != t.nextId && j != t.nextId {
          assert t.rows[i].slug == t.rows[j].slug;
        }
      }
    }
  }

  /**
   * A successful create adds exactly one row, under the next id, holding the normalized
   * input, stamped `now` twice, and answers with that row read back; every other row is
   * untouched.
   */
  lemma CreateAddsOneRow(t: Table, body: PostBody, now: Time, slugify: string -> string)
    requires Valid(t)
    requires CreatePost(t, body, now, slugify).response.Created?
    ensures var s := CreatePost(t, body, now, slugify);
      && t.nextId !in t.rows
      && s.table.rows.Keys == t.rows.Keys + {t.nextId}
      && (forall k :: k in t.rows ==> s.table.rows[k] == t.rows[k])
      && s.response.post == MapPost(s.table.rows[t.nextId])
      && s.response.post.id == t.nextId
      && s.response.post.createdAt == now && s.response.post.updatedAt == now
      && Stores(s.table.rows[t.nextId], Normalize(body, slugify).value)
      && s.table.rows[t.nextId].publishedAt == CreatedPublishedAt(Normalize(body, slugify).value, body, now)
  {
  }

  /**
   * On create `published_at` is null for a draft; for a published post it is the body's
   * `published_at`, else its `publishedAt`, else `now`.
   */
  lemma CreatePublishedAtRule(t: Table, body: PostBody, now: Time, slugify: string -> string)
    requires CreatePost(t, body, now, slugify).response.Created?
    ensures var p := CreatePost(t, body, now, slugify).response.post;
      && (!p.isPublished ==> p.publishedAt.None?)
      && (p.isPublished && body.published_at.Some? ==> p.publishedAt == body.published_at)
      && (p.isPublished && body.published_at.None? && body.publishedAt.Some? ==> p.publishedAt == body.publishedAt)
      && (p.isPublished && body.published_at.None? && body.publishedAt.None? ==> p.publishedAt == Some(now))
  {
  }

  /**
   * `PUT /posts/:id`: 400 for a non-integer id, 404 for an unknown one (before the body is
   * looked at), then whatever rewriting the found row gives.
   */
  function UpdatePost(t: Table, id: Option<int>, body: PostBody, now: Time, slugify: string -> string): (s: Step)
    ensures s.response.Saved? || s.response.BadRequest? || s.response.NotFound? || s.response.Conflict?
    ensures id.None? ==> s.response == BadRequest(InvalidId)
    ensures s.response.NotFound? <==> id.Some? && id.value !in t.rows
    ensures !s.response.Saved? ==> s.table == t
  {
    if id.None? then Step(BadRequest(InvalidId), t)
    else if id.value !in t.rows then Step(NotFound, t)
    else Rewrite(t, id.value, t.rows[id.value], body, now, slugify)
  }

  /**
   * The update handler once row `id` was found as `existing`: normalize the body spread over
   * the row (400 on failure), refuse a slug held by another row (409), else UPDATE and answer
   * 200 with the row read back.
   */
  function Rewrite(t: Table, id: int, existing: PostRow, body: PostBody, now: Time, slugify: string -> string): (s: Step)
    ensures s.response.Saved? || s.response.BadRequest? || s.response.Conflict?
    ensures s.response.BadRequest? <==> Normalize(Merge(existing, body), slugify).Err?
    ensures s.response.BadRequest? ==> s.response.error == Normalize(Merge(existing, body), slugify).error.Message()
    ensures s.response.Conflict? <==>
      var r := Normalize(Merge(existing, body), slugify);
      r.Ok? && SlugInUseByOther(t.rows, r.value.slug, id)
    ensures !s.response.Saved? ==> s.table == t
  {
    var r := Normalize(Merge(existing, body), slugify);
    if r.Err? then Step(BadRequest(r.error.Message()), t)
    else if SlugInUseByOther(t.rows, r.value.slug, id) then Step(Conflict, t)
    else
      var row := RewrittenRow(existing, r.value, UpdatedPublishedAt(r.value, body, existing, now), now);
      Step(Saved(MapPost(row)), Table(t.rows[id := row], t.nextId))
  }

  lemma RewriteKeepsValid(t: Table, id: int, existing: PostRow, body: PostBody, now: Time, slugify: string -> string)
    requires Valid(t) && id in t.rows && t.rows[id] == existing
    ensures Valid(Rewrite(t, id, existing, body, now, slugify).table)
  {
    var r := Normalize(Merge(existing, body), slugify);
    if r.Ok? && !SlugInUseByOther(t.rows, r.value.slug, id) {
      var row := RewrittenRow(existing, r.value, UpdatedPublishedAt(r.value, body, existing, now), now);
      var rows' := t.rows[id := row];
      assert Rewrite(t, id, existing, body, now, slugify).table == Table(rows', t.nextId);
      assert WellFormedRow(id, row);
    }
  }

  /** Update keeps the table invariant: slugs stay unique and every row stays well formed. */
  lemma UpdateKeepsValid(t: Table, id: Option<int>, body: PostBody, now: Time, slugify: string -> string)
    requires Valid(t)
    ensures Valid(UpdatePost(t, id, body, now, slugify).table)
  {
    if id.Some? && id.value in t.rows {
      RewriteKeepsValid(t, id.value, t.rows[id.value], body, now, slugify);
    }
  }

  lemma RewriteOneRow(t: Table, id: int, existing: PostRow, body: PostBody, now: Time, slugify: string -> string)
    requires Rewrite(t, id, existing, body, now, slugify).response.Saved?
    ensures var s := Rewrite(t, id, existing, body, now, slugify);
      && s.table.rows.Keys == t.rows.Keys + {id} && s.table.nextId == t.nextId
      && (forall k :: k in t.rows && k != id ==> s.table.rows[k] == t.rows[k])
      && s.table.rows[id].id == existing.id
      && s.table.rows[id].createdAt == existing.createdAt
      && s.table.rows[id].updatedAt == now
      && s.response.post == MapPost(s.table.rows[id])
      && Stores(s.table.rows[id], Normalize(Merge(existing, body), slugify).value)
      && s.table.rows[id].publishedAt ==
           UpdatedPublishedAt(Normalize(Merge(existing, body), slugify).value, body, existing, now)
  {
  }

  /**
   * A successful update rewrites only the row with that id with the body spread over it and
   * normalized, keeps its `id` and `created_at`, sets `updated_at` to `now`, and answers with
   * the row read back.
   */
  lemma UpdateRewritesOneRow(t: Table, id: int, body: PostBody, now: Time, slugify: string -> string)
    requires Valid(t)
    requires UpdatePost(t, Some(id), body, now, slugify).response.Saved?
    ensures var s := UpdatePost(t, Some(id), body, now, slugify);
      && id in t.rows
      && s.table.rows.Keys == t.rows.Keys && s.table.nextId == t.nextId
      && (forall k :: k in t.rows && k != id ==> s.table.rows[k] == t.rows[k])
      && s.table.rows[id].id == id
      && s.table.rows[id].createdAt == t.rows[id].createdAt
      && s.table.rows[id].updatedAt == now
      && s.response.post == MapPost(s.table.rows[id])
      && Stores(s.table.rows[id], Normalize(Merge(t.rows[id], body), slugify).value)
  {
    RewriteOneRow(t, id, t.rows[id], body, now, slugify);
  }

  lemma RewritePublishedAt(t: Table, id: int, existing: PostRow, body: PostBody, now: Time, slugify: string -> string)
    requires Rewrite(t, id, existing, body, now, slugify).response.Saved?
    ensures var p := Rewrite(t, id, existing, body, now, slugify).response.post;
      && (!p.isPublished ==> p.publishedAt.None?)
      && (p.isPublished ==>
            p.publishedAt == Some(body.published_at.GetOr(body.publishedAt.GetOr(existing.publishedAt.GetOr(now)))))
  {
  }

  /**
   * On update `published_at` is null when the merged record is unpublished; otherwise it is
   * the first present of the body's `published_at`, the body's `publishedAt`, the stored value,
   * and `now`.
   */
  lemma UpdatePublishedAtRule(t: Table, id: int, body: PostBody, now: Time, slugify: string -> string)
    requires UpdatePost(t, Some(id), body, now, slugify).response.Saved?
    ensures id in t.rows
    ensures var p := UpdatePost(t, Some(id), body, now, slugify).response.post;
      var stored := t.rows[id].publishedAt;
      && (!p.isPublished ==> p.publishedAt.None?)
      && (p.isPublished && body.published_at.Some? ==> p.publishedAt == body.published_at)
      && (p.isPublished && body.published_at.None? && body.publishedAt.Some? ==> p.publishedAt == body.publishedAt)
      && (p.isPublished && body.published_at.None? && body.publishedAt.None? && stored.Some? ==>
            p.publishedAt == stored)
      && (p.isPublished && body.published_at.None? && body.publishedAt.None? && stored.None? ==>
            p.publishedAt == Some(now))
  {
    RewritePublishedAt(t, id, t.rows[id], body, now, slugify);
  }

  /** Saving a post while keeping its own slug is never a conflict. */
  lemma UpdateOwnSlugNoConflict(t: Table, id: int, body: PostBody, now: Time, slugify: string -> string)
    requires Valid(t) && id in t.rows
    requires var r := Normalize(Merge(t.rows[id], body), slugify); r.Ok? && r.value.slug == t.rows[id].slug
    ensures UpdatePost(t, Some(id), body, now, slugify).response.Saved?
  {
    var existing := t.rows[id];
    assert !SlugInUseByOther(t.rows, existing.slug, id);
    assert UpdatePost(t, Some(id), body, now, slugify) == Rewrite(t, id, existing, body, now, slugify);
  }

  /** Publishing a draft without a timestamp in the body stamps it `now`. */
  lemma PublishDraftStampsNow(t: Table, id: int, body: PostBody, now: Time, slugify: string -> string)
    requires Valid(t) && id in t.rows && t.rows[id].isPublished == 0
    requires body.is_published == Some(true) && body.published_at.None? && body.publishedAt.None?
    requires UpdatePost(t, Some(id), body, now, slugify).response.Saved?
    ensures UpdatePost(t, Some(id), body, now, slugify).response.post.publishedAt == Some(now)
  {
  }

  /** Editing a published post without sending a timestamp keeps its original `published_at`. */
  lemma EditKeepsPublishedAt(t: Table, id: int, body: PostBody, now: Time, slugify: string -> string)
    requires Valid(t) && id in t.rows && t.rows[id].isPublished == 1
    requires body.is_published.None? && body.published_at.None? && body.publishedAt.None?
    requires UpdatePost(t, Some(id), body, now, slugify).response.Saved?
    ensures UpdatePost(t, Some(id), body, now, slugify).response.post.publishedAt == t.rows[id].publishedAt
    ensures UpdatePost(t, Some(id), body, now, slugify).response.post.isPublished
  {
  }

  /** `DELETE /posts/:id`: 400 for a non-integer id, 404 when no row was removed, else 204. */
  function DeletePost(t: Table, id: Option<int>): (s: Step)
    ensures s.response.Deleted? || s.response.BadRequest? || s.response.NotFound?
    ensures id.None? ==> s.response == BadRequest(InvalidId)
    ensures s.response.NotFound? <==> id.Some? && id.value !in t.rows
    ensures s.response.Deleted? <==> id.Some? && id.value in t.rows
    ensures s.response.Deleted? ==> s.table.rows.Keys == t.rows.Keys - {id.value}
    ensures s.response.Deleted? ==> forall k :: k in s.table.rows ==> s.table.rows[k] == t.rows[k]
    ensures !s.response.Deleted? ==> s.table == t
    ensures s.table.nextId == t.nextId
    ensures Valid(t) ==> Valid(s.table)
  {
    if id.None? then Step(BadRequest(InvalidId), t)
    else if id.value in t.rows then Step(Deleted, Table(t.rows - {id.value}, t.nextId))
    else Step(NotFound, t)
  }

  /**
   * Creating two posts whose input normalizes to the same slug: the second is refused with
   * 409 and the table keeps only the first.
   */
  lemma {:induction false} SecondCreateSameSlugConflicts(
    t: Table, first: PostBody, second: PostBody, now: Time, later: Time, slugify: string -> string)
    requires CreatePost(t, first, now, slugify).response.Created?
    requires Normalize(second, slugify).Ok?
    requires Normalize(second, slugify).value.slug == Normalize(first, slugify).value.slug
    ensures var t1 := CreatePost(t, first, now, slugify).table;
      CreatePost(t1, second, later, slugify) == Step(Conflict, t1)
  {
    var t1 := CreatePost(t, first, now, slugify).table;
    assert t1.rows[t.nextId].slug == Normalize(first, slugify).value.slug;
    assert SlugInUse(t1.rows, Normalize(second, slugify).value.slug);
  }

  function CreatedKey(r: PostRow): int {
    r.createdAt
  }

  /** `posts.map(mapPost)` */
  function MapPosts(rows: seq<PostRow>): (posts: seq<Post>)
    ensures |posts| == |rows|
    ensures forall i :: 0 <= i < |rows| ==> posts[i] == MapPost(rows[i])
  {
    if rows == [] then [] else [MapPost(rows[0])] + MapPosts(rows[1..])
  }

  /** `GET /posts` (admin): every row, newest `created_at` first, through `mapPost`. */
  function ListAll(rows: seq<PostRow>): (posts: seq<Post>)
    ensures |posts| == |rows|
    ensures forall i, j :: 0 <= i < j < |posts| ==> posts[j].createdAt <= posts[i].createdAt
    ensures forall p :: p in posts ==> exists r :: r in rows && p == MapPost(r)
  {
    var sorted := Sorting.SortDesc(rows, CreatedKey);
    PostsOfSorted(rows, sorted);
    MapPosts(sorted)
  }

  /** Mapping a sorted rearrangement of the rows gives posts of those rows, in the same order. */
  lemma PostsOfSorted(rows: seq<PostRow>, sorted: seq<PostRow>)
    requires multiset(sorted) == multiset(rows) && Sorting.SortedDesc(sorted, CreatedKey)
    ensures forall i, j :: 0 <= i < j < |MapPosts(sorted)| ==> MapPosts(sorted)[j].createdAt <= MapPosts(sorted)[i].createdAt
    ensures forall p :: p in MapPosts(sorted) ==> exists r :: r in rows && p == MapPost(r)
  {
    var posts := MapPosts(sorted);
    forall p | p in posts
      ensures exists r :: r in rows && p == MapPost(r)
    {
      var i :| 0 <= i < |posts| && posts[i] == p;
      assert sorted[i] in multiset(sorted);
      assert sorted[i] in rows;
    }
    forall i, j | 0 <= i < j < |posts|
      ensures posts[j].createdAt <= posts[i].createdAt
    {
      assert CreatedKey(sorted[j]) <= CreatedKey(sorted[i]);
    }
  }

  /** No scanned row is lost from the admin listing. */
  lemma ListAllCovers(rows: seq<PostRow>, i: int)
    requires 0 <= i < |rows|
    ensures MapPost(rows[i]) in ListAll(rows)
  {
    var sorted := Sorting.SortDesc(rows, CreatedKey);
    assert rows[i] in multiset(sorted);
    var j :| 0 <= j < |sorted| && sorted[j] == rows[i];
    assert ListAll(rows) == MapPosts(sorted);
    assert ListAll(rows)[j] == MapPost(rows[i]);
  }
}
