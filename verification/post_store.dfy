/**
 * The `posts` table as the admin handlers of backend/src/routes/admin.js change it in place:
 * INSERT, UPDATE and DELETE on a map from id to row, with the AUTOINCREMENT counter beside
 * it. Each handler is proved to do exactly what the matching function of AdminPosts says.
 */
module Store {
  import opened Wrappers
  import opened Schema
  import opened AdminInput
  import opened AdminPosts

  class PostStore {
    var rows: map<int, PostRow>
    var nextId: int

    function Snapshot(): Table
      reads this
    {
      Table(rows, nextId)
    }

    ghost predicate Valid()
      reads this
    {
      AdminPosts.Valid(Snapshot())
    }

    /** A fresh, empty table; the first row will get id 1. */
    constructor ()
      ensures Valid() && rows == map[] && nextId == 1
    {
      rows := map[];
      nextId := 1;
    }

    /** `POST /posts` */
    method Create(body: PostBody, now: Time, slugify: string -> string) returns (response: PostResponse)
      requires Valid()
      modifies this
      ensures Valid()
      ensures Step(response, Snapshot()) == CreatePost(old(Snapshot()), body, now, slugify)
    {
      CreateKeepsValid(Snapshot(), body, now, slugify);
      var input := Normalize(body, slugify);
      if input.Err? {
        return BadRequest(input.error.Message());
      }
      var n := input.value;
      var publishedAt := CreatedPublishedAt(n, body, now);
      if SlugInUse(rows, n.slug) {
        // the INSERT violates the UNIQUE index on slug and writes nothing
        return Conflict;
      }
      var id := nextId;
      rows := rows[id := NewRow(id, n, publishedAt, now)];
      nextId := nextId + 1;
      var stored := rows[id];
      response := Created(MapPost(stored));
    }

    /** `PUT /posts/:id`; `id` is `None` when the path segment is not an integer. */
    method Update(id: Option<int>, body: PostBody, now: Time, slugify: string -> string) returns (response: PostResponse)
      requires Valid()
      modifies this
      ensures Valid()
      ensures Step(response, Snapshot()) == UpdatePost(old(Snapshot()), id, body, now, slugify)
    {
      UpdateKeepsValid(Snapshot(), id, body, now, slugify);
      if id.None? {
        return BadRequest(InvalidId);
      }
      var key := id.value;
      if key !in rows {
        return NotFound;
      }
      var existing := rows[key];
      var input := Normalize(Merge(existing, body), slugify);
      if input.Err? {
        return BadRequest(input.error.Message());
      }
      var n := input.value;
      var publishedAt := UpdatedPublishedAt(n, body, existing, now);
      if SlugInUseByOther(rows, n.slug, key) {
        return Conflict;
      }
      rows := rows[key := RewrittenRow(existing, n, publishedAt, now)];
      var stored := rows[key];
      response := Saved(MapPost(stored));
    }

    /** `DELETE /posts/:id` */
    method Delete(id: Option<int>) returns (response: PostResponse)
      requires Valid()
      modifies this
      ensures Valid()
      ensures Step(response, Snapshot()) == DeletePost(old(Snapshot()), id)
    {
      if id.None? {
        return BadRequest(InvalidId);
      }
      var changes := if id.value in rows then 1 else 0;
      rows := rows - {id.value};
      if changes == 0 {
        return NotFound;
      }
      response := Deleted;
    }

    /**
     * `GET /posts` (admin): scans the table in some order, then sorts by `created_at`,
     * newest first. Every stored row appears exactly once.
     */
    method All() returns (posts: seq<Post>)
      requires Valid()
      ensures |posts| == |rows|
      ensures forall i, j :: 0 <= i < j < |posts| ==> posts[j].createdAt <= posts[i].createdAt
      ensures forall p :: p in posts ==> exists k :: k in rows && p == MapPost(rows[k])
      ensures forall k :: k in rows ==> MapPost(rows[k]) in posts
    {
      var scan := Scan(rows);
      posts := ListAll(scan);
      forall k | k in rows
        ensures MapPost(rows[k]) in posts
      {
        var i :| 0 <= i < |scan| && scan[i] == rows[k];
        ListAllCovers(scan, i);
      }
    }
  }

}
