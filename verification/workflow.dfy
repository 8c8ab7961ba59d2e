/**
 * Properties that run across the parts of the system: the admin handlers write the `posts`
 * table that the public routes read, and the provisioning script writes the `admins` table
 * that `/login` reads.
 */
module Workflow {
  import opened Wrappers
  import opened Text
  import opened Schema
  import opened AdminInput
  import opened AdminPosts
  import opened PublicView
  import opened AdminLogin
  import opened CreateAdmin

  /** In a valid table every scan sees each slug at most once. */
  lemma ScanSlugsUnique(t: Table, scan: seq<PostRow>)
    requires AdminPosts.Valid(t) && Enumerates(scan, t.rows)
    ensures UniqueSlugs(scan)
  {
    forall i, j | 0 <= i < j < |scan|
      ensures scan[i].slug != scan[j].slug
    {
      assert t.rows[scan[i].id] == scan[i] && t.rows[scan[j].id] == scan[j];
    }
  }

  /**
   * Deleting a post takes it off the public site: afterwards its slug finds nothing,
   * whatever order the table is scanned in.
   */
  lemma DeleteThenDetailNotFound(t: Table, id: int, scan: seq<PostRow>)
    requires AdminPosts.Valid(t) && id in t.rows
    requires Enumerates(scan, DeletePost(t, Some(id)).table.rows)
    ensures PostDetail(scan, t.rows[id].slug) == PostNotFound
  {
    var after := DeletePost(t, Some(id)).table.rows;
    forall r | r in scan
      ensures r.slug != t.rows[id].slug
    {
      var i :| 0 <= i < |scan| && scan[i] == r;
      assert r.id in after && r.id != id && t.rows[r.id] == r;
    }
  }

  /**
   * Creating a published post puts it on the public site: its slug now leads to the new row,
   * shown as `mapFull` shows it.
   */
  lemma CreatePublishedThenDetail(t: Table, body: PostBody, now: Time, slugify: string -> string,
                                  scan: seq<PostRow>)
    requires AdminPosts.Valid(t)
    requires CreatePost(t, body, now, slugify).response.Created?
    requires Normalize(body, slugify).value.isPublished == 1
    requires Enumerates(scan, CreatePost(t, body, now, slugify).table.rows)
    ensures var row := CreatePost(t, body, now, slugify).table.rows[t.nextId];
      PostDetail(scan, row.slug) == Found(MapFull(row))
  {
    var s := CreatePost(t, body, now, slugify);
    CreateKeepsValid(t, body, now, slugify);
    CreateAddsOneRow(t, body, now, slugify);
    var row := s.table.rows[t.nextId];
    ScanSlugsUnique(s.table, scan);
    DetailShowsTheRow(scan, row);
  }

  /**
   * Tags given as a list of clean tags come back unchanged from the 201 response of
   * create, after the round trip through the comma-separated column.
   */
  lemma CreateTagsRoundTrip(t: Table, body: PostBody, now: Time, slugify: string -> string)
    requires CreatePost(t, body, now, slugify).response.Created?
    requires body.tags.Some? && body.tags.value.TagArray?
    requires forall tag :: tag in body.tags.value.items ==> CleanTag(tag)
    ensures CreatePost(t, body, now, slugify).response.post.tags == body.tags.value.items
  {
    TagListRoundTrip(body, slugify);
  }

  /**
   * An admin created from the command line can log in with the same email and password
   * (given that the email carries no surrounding white space and the password matches its
   * hash), and is shown as an editor.
   */
  lemma {:induction false} ProvisionThenLogin(admins: seq<AdminRow>, nextId: int, email: string, password: string,
                                              answer: string, chunks: seq<string>, hash: string -> string,
                                              now: Time, matches: (string, string) -> bool, sign: Claims -> string)
    requires ValidAdmins(admins, nextId)
    requires email != [] && Trimmed(email) && password != []
    requires matches(password, hash(password))
    requires Provision(admins, nextId, Args(Some(email), Some(password)), answer, chunks, hash, now).outcome.Added?
    ensures var r := Provision(admins, nextId, Args(Some(email), Some(password)), answer, chunks, hash, now);
      Login(r.admins, LoginBody(Some(email), Some(password)), matches, sign) ==
        LoggedIn(sign(Claims(nextId, Lower(email), EditorRole)), Profile(nextId, Lower(email), EditorRole))
  {
    var r := Provision(admins, nextId, Args(Some(email), Some(password)), answer, chunks, hash, now);
    var admin := r.outcome.admin;
    TrimOfTrimmed(email);
    assert LoginEmail(LoginBody(Some(email), Some(password))) == Lower(email);
    FindAdminAppend(admins, admin, Lower(email));
  }

  /**
   * The script lowercases a command-line email but does not trim it, while `/login` trims
   * what it is given: an admin stored with white space at either end of its email can
   * never log in.
   */
  lemma PaddedEmailNeverLogsIn(admins: seq<AdminRow>, admin: AdminRow, body: LoginBody,
                               matches: (string, string) -> bool, sign: Claims -> string)
    requires admin in admins && !Trimmed(admin.email)
    ensures var r := Login(admins, body, matches, sign);
      r.LoggedIn? ==> r.admin.email != admin.email
  {
    var t := Trim(Str(body.email));
    assert Trimmed(t);
    LowerKeepsTrimmed(t);
  }

  /** Such an admin comes straight from a padded command-line email. */
  lemma PaddedArgumentIsStoredPadded(admins: seq<AdminRow>, nextId: int, email: string, password: string,
                                     answer: string, chunks: seq<string>, hash: string -> string, now: Time)
    requires !Trimmed(email)
    requires Provision(admins, nextId, Args(Some(email), Some(password)), answer, chunks, hash, now).outcome.Added?
    ensures !Trimmed(Provision(admins, nextId, Args(Some(email), Some(password)), answer, chunks, hash, now).outcome.admin.email)
  {
    LowerKeepsUntrimmed(email);
  }
}
