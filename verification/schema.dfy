/**
 * The two tables of the SQLite database (backend/src/db.js), as values.
 * Timestamps are whole numbers here; the ISO-8601 text the database stores is not modelled.
 */
module Schema {
  import opened Wrappers

  type Time = int

  /** Column default of `posts.author_name`, also the fallback of the post form. */
  const DefaultAuthor: string := "Coach Angelo"

  /** Column default of `admins.role`, and the role the provisioning script writes. */
  const EditorRole: string := "editor"

  /** One row of `posts`. `isPublished` is the INTEGER column (0 or 1). */
  datatype PostRow = PostRow(
    id: int,
    title: string,
    slug: string,
    excerpt: string,
    contentHtml: string,
    featuredImageUrl: string,
    authorName: string,
    category: string,
    tags: string,
    isPublished: int,
    publishedAt: Option<Time>,
    createdAt: Time,
    updatedAt: Time)

  /** One row of `admins`. */
  datatype AdminRow = AdminRow(id: int, email: string, passwordHash: string, role: string, createdAt: Time)

  /** `email TEXT NOT NULL UNIQUE`: no two admins share an email. */
  ghost predicate EmailsUnique(admins: seq<AdminRow>) {
    forall i, j :: 0 <= i < j < |admins| ==> admins[i].email != admins[j].email
  }

  /** `SELECT * FROM admins WHERE email = ?`: the first row, in table order, with that exact email. */
  function FindAdmin(admins: seq<AdminRow>, email: string): (r: Option<AdminRow>)
    ensures r.Some? ==> r.value in admins && r.value.email == email
    ensures r.None? <==> forall a :: a in admins ==> a.email != email
  {
    if admins == [] then None
    else if admins[0].email == email then Some(admins[0])
    else FindAdmin(admins[1..], email)
  }

  /** A row appended after the existing ones is found only when no earlier row has its email. */
  lemma {:induction false} FindAdminAppend(admins: seq<AdminRow>, a: AdminRow, email: string)
    ensures FindAdmin(admins + [a], email) ==
      if FindAdmin(admins, email).Some? then FindAdmin(admins, email)
      else if a.email == email then Some(a)
      else None
  {
    if admins != [] {
      assert (admins + [a])[1..] == admins[1..] + [a];
      FindAdminAppend(admins[1..], a, email);
    }
  }

  /** A non-empty set of keys has a member to pick. */
  lemma HasElement(s: set<int>)
    requires s != {}
    ensures exists x :: x in s
  {
    if forall x :: x !in s {
      assert false;
    }
  }

  /** `scan` is one full scan of the table: each stored row exactly once. */
  ghost predicate Enumerates(scan: seq<PostRow>, rows: map<int, PostRow>) {
    && (forall i :: 0 <= i < |scan| ==> scan[i].id in rows && rows[scan[i].id] == scan[i])
    && (forall i, j :: 0 <= i < j < |scan| ==> scan[i].id != scan[j].id)
    && (forall k :: k in rows ==> rows[k] in scan)
  }

  /** A full table scan: every row once, in an order the model leaves open. */
  method Scan(table: map<int, PostRow>) returns (scan: seq<PostRow>)
    requires forall k :: k in table ==> table[k].id == k
    ensures |scan| == |table|
    ensures Enumerates(scan, table)
  {
    scan := [];
    var pending := table.Keys;
    while pending != {}
      invariant pending <= table.Keys
      invariant |scan| + |pending| == |table.Keys|
      invariant forall i :: 0 <= i < |scan| ==>
        scan[i].id in table && scan[i].id !in pending && table[scan[i].id] == scan[i]
      invariant forall i, j :: 0 <= i < j < |scan| ==> scan[i].id != scan[j].id
      invariant forall k :: k in table && k !in pending ==> table[k] in scan
      decreases |pending|
    {
      HasElement(pending);
      var k :| k in pending;
      scan := scan + [table[k]];
      pending := pending - {k};
    }
  }
}
