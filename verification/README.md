# Blog backend core, modelled in Dafny

This project models the logic of a small blog backend: an Express service over SQLite with
authenticated admin routes that write posts, public routes that read them, and an offline script
that provisions admin accounts.

- **Admin post workflow** (`backend/src/routes/admin.js`):
  - `normalizePostInput`: trims the fields, picks the slug source, fills the default author, joins tags, coerces the publish flag, and rejects an empty title, slug or content, checked in that order.
  - `mapPost`.
  - The create, update and delete handlers, as a `PostStore` class that holds the `posts` table as a map from id to row plus the AUTOINCREMENT counter. Each method is proved to agree with a function from one table snapshot to the response and the next snapshot (module `AdminPosts`). The table invariant is proved about those functions: slugs are unique; title, excerpt, content, image URL, author and category are trimmed; title, slug and content are non-empty; and the publish flag is 0 or 1 and set exactly when `published_at` is.
  - The admin listing.
  - `POST /login`.
- **Public read view** (`backend/src/routes/public.js`):
  - the effective limit;
  - the published filter;
  - the newest-first order on `COALESCE(published_at, created_at)`;
  - SQLite's `LIMIT`;
  - `mapSummary` and `mapFull`;
  - the lookup of a published post by slug.
- **Admin provisioning** (`backend/scripts/create-admin.js`):
  - The hidden-password prompt is a fold (`Feed`) over the `data` chunks of the raw-mode input. An imperative loop (`ReadHidden`) is proved equal to that fold.
  - The whole run is a function, `Provision`: command-line values take precedence over prompts, the email is lowercased, both fields are required, a duplicate email is refused, and one `editor` admin is inserted. An `AdminTable` class runs it in place.
- **Cross-component properties** (module `Workflow`):
  - a deleted post disappears from the public detail;
  - a created published post appears there;
  - a list of clean tags survives create;
  - an admin provisioned from the command line can log in;
  - an admin whose command-line email had surrounding white space can never log in: the script lowercases that email but does not trim it, while `/login` trims.

How the model represents the source:

- **Truthiness.** An absent string key is `None` and a present but falsy one is `Some("")`. A flag is `Some(true)` exactly when it is truthy. A body timestamp is `None` when absent or falsy.
- **Opaque operations.** Timestamps are integers. The clock, `slugify`, bcrypt's hash and compare, and the JWT signer are parameters.
- **Scan order.** A public query takes the table as a sequence of rows in some scan order. `ORDER BY … DESC` is a stable sort on the key, so equal keys keep scan order. SQLite leaves that order open, and this is one order it may produce.
- **The public `limit`.** It is capped at 100, and 0 and NaN become 20. There is no lower bound, so a negative value reaches SQLite, which reads it as "no limit". `EffectiveLimit` and `SelectPublished` model this.
- **Errors.** Every exception other than a UNIQUE violation answers 400 with the exception's message. Only the three validation errors arise in the model.
- **Update spreads the body over the stored row.** Snake_case stored columns therefore override camelCase aliases in the body. `isPublished: false` cannot unpublish, and `published_at` is read from the request body rather than from the merged record. The model keeps both behaviours.
- **Whole-chunk matching.** `onData` compares whole chunks, so a pasted chunk containing a newline is buffered rather than ending the prompt.

## Model

| member | source | states |
|---|---|---|
| Text.Trim | backend/src/routes/admin.js:11 | the result starts and ends with a non-space, is no longer than the input and only holds characters of the input |
| Text.TrimCutsOnlySpace | backend/src/routes/admin.js:11 | the trim is a contiguous slice of the input, and every character cut off before or after it is white space |
| Text.TrimIdempotent | backend/src/routes/admin.js:11 | trimming twice is trimming once |
| Text.TrimEmptyIff | backend/src/routes/admin.js:22-24 | a field trims to empty exactly when it is all white space, so a blank title, slug or content is rejected |
| Text.Lower | backend/src/routes/admin.js:30 | same length; each upper-case ASCII letter becomes its lower-case counterpart (code point plus 32); every other character is unchanged |
| Text.LowerIdempotent | backend/scripts/create-admin.js:42 | lowercasing an already lowercased email changes nothing |
| Text.LowerKeepsTrimmed | backend/src/routes/admin.js:30 | lowercasing a trimmed string leaves it trimmed |
| Text.LowerKeepsSpace | backend/scripts/create-admin.js:42 | case folding maps white space to white space and nothing else to white space |
| Text.LowerKeepsUntrimmed | backend/scripts/create-admin.js:42 | lowercasing a string with white space at an end keeps that white space |
| Text.Split | backend/src/routes/admin.js:155 | splitting on a comma gives at least one piece and no piece contains the comma |
| Text.TrimEach | backend/src/routes/admin.js:155 | one result per piece, in order, each the trim of its piece |
| Text.DropEmpty | backend/src/routes/admin.js:155 | keeps exactly the non-empty pieces: no empty string survives, nothing new appears, and every non-empty piece is kept |
| Text.DropEmptyCounts | backend/src/routes/admin.js:155 | every non-empty piece is kept as often as it occurs, and no empty one |
| Text.DropEmptyAppend | backend/src/routes/admin.js:155 | filtering keeps the order: filtering a concatenation is the concatenation of the filtered parts |
| Text.SplitCons | backend/src/routes/admin.js:155 | a first character other than the comma extends the first piece of the split |
| Text.SplitJoin | backend/src/routes/admin.js:19 | splitting a comma-joined list of comma-free pieces gives the pieces back |
| Text.ParseTags | backend/src/routes/admin.js:155 | an empty column gives no tags; otherwise a string is a tag exactly when it is the non-empty trim of one of the comma-separated pieces; every tag is non-empty, trimmed and comma-free |
| Text.TagsFromPieces | backend/src/routes/admin.js:155 | every tag kept from comma-free pieces is a clean tag and the trim of one of the pieces |
| Text.PiecesGiveTags | backend/src/routes/admin.js:155 | every non-empty trim of a piece is kept as a tag |
| Text.Join | backend/src/routes/admin.js:19 | a single piece joins to itself, and comma-free pieces join to a string long enough to hold the separators between them; `SplitJoin` is its inverse |
| Text.TagsRoundTrip | backend/src/routes/admin.js:19 | a list of clean tags joined with commas parses back to the same list |
| Sorting.Insert | backend/src/routes/public.js:16 | inserting into a descending sequence keeps it descending and adds exactly that element |
| Sorting.SortDesc | backend/src/routes/public.js:16 | the result is a permutation of the input, ordered by the key, largest first |
| Schema.FindAdmin | backend/src/routes/admin.js:37 | the found admin is in the table with that exact email; nothing is found exactly when no admin has it |
| Schema.FindAdminAppend | backend/scripts/create-admin.js:57 | after appending an admin, a lookup finds the earlier match if there is one, else the new admin when its email matches |
| Schema.Scan | backend/src/routes/admin.js:52 | a full scan yields every stored row exactly once (distinct ids, each row as stored) and nothing else |
| AdminInput.Normalize | backend/src/routes/admin.js:10-27 | title, slug and content errors each hold exactly when their check is the first to fail, in that order; an accepted input holds the trimmed title, excerpt and category, the first truthy content, image URL and author spelling trimmed (author defaulting to "Coach Angelo"), slugify of the slug source, the stored tag text and the 0/1 flag, and is non-empty where required |
| AdminInput.StoredTags | backend/src/routes/admin.js:19 | no tags give an empty column, tag text is stored as its trim, and a one-element list is stored as that element |
| AdminInput.PublishFlag | backend/src/routes/admin.js:20 | the flag is 0 or 1, and 1 exactly when either spelling is truthy |
| AdminInput.SlugFromTitle | backend/src/routes/admin.js:12-13 | with a blank explicit slug, the slug is slugify of the trimmed title |
| AdminInput.SlugFromExplicit | backend/src/routes/admin.js:12-13 | a non-blank explicit slug is slugified in preference to the title |
| AdminInput.AuthorDefaults | backend/src/routes/admin.js:17 | with both author spellings missing or empty, the author is "Coach Angelo" |
| AdminInput.PublishedIffFlag | backend/src/routes/admin.js:20 | the stored flag is 1 exactly when either spelling of the publish flag is truthy |
| AdminInput.TagListRoundTrip | backend/src/routes/admin.js:19 | a tag list of clean tags is stored so that parsing the column gives the list back |
| AdminInput.Merge | backend/src/routes/admin.js:99 | every snake_case key the body carries wins; every one it leaves out takes the stored column (a stored `is_published` is truthy exactly when non-zero); camelCase keys come only from the body |
| AdminInput.MergeKeepsOmitted | backend/src/routes/admin.js:99 | a title, excerpt, category or tag column left out of an update keeps its stored (trimmed) value |
| AdminInput.CamelCaseFlagCannotUnpublish | backend/src/routes/admin.js:99 | without `is_published` in the body, a post whose stored flag is non-zero stays published whatever `isPublished` says |
| AdminInput.SnakeCaseFlagUnpublishes | backend/src/routes/admin.js:20 | `is_published: false`, with no truthy `isPublished`, unpublishes |
| AdminInput.CamelCaseContentIgnored | backend/src/routes/admin.js:15 | on update, `contentHtml` in the body is ignored when the stored content is non-empty |
| AdminInput.MapPost | backend/src/routes/admin.js:144-161 | every column is carried over as stored, except that the tags are the parsed tag column (clean tags) and the flag is true exactly when the stored flag is non-zero |
| AdminPosts.CreatePost | backend/src/routes/admin.js:56-89 | the only outcomes are 201, 400 and 409; 400 exactly on invalid input, with its message; 409 exactly when the slug is taken; the table is unchanged unless 201 |
| AdminPosts.CreatedPublishedAt | backend/src/routes/admin.js:60 | present exactly for a published input; then the body's `published_at`, else its `publishedAt`, else now |
| AdminPosts.NewRow | backend/src/routes/admin.js:62-79 | the inserted row holds every content column of the normalized input, the given id and `published_at`, and now as both timestamps |
| AdminPosts.CreateKeepsValid | backend/src/db.js:24 | create keeps slugs unique and every row well formed |
| AdminPosts.CreateAddsOneRow | backend/src/routes/admin.js:62-82 | a 201 adds exactly one row under the next id holding the normalized input's columns and the create rule's `published_at`, with both timestamps now, leaves the other rows alone, and answers with the new row read back |
| AdminPosts.CreatePublishedAtRule | backend/src/routes/admin.js:60 | `published_at` is null for a draft, else the body's `published_at`, else `publishedAt`, else now |
| AdminPosts.UpdatePost | backend/src/routes/admin.js:91-96 | a non-integer id gives 400 "Invalid id" and an unknown id gives 404, both before validation; the outcomes are 200, 400, 404 and 409; the table is unchanged unless 200 |
| AdminPosts.UpdatedPublishedAt | backend/src/routes/admin.js:101-103 | present exactly for a published input; then the body's `published_at`, else its `publishedAt`, else the stored value, else now |
| AdminPosts.RewrittenRow | backend/src/routes/admin.js:105-123 | the updated row holds every content column of the normalized input and the given `published_at`, keeps id and `created_at`, and has `updated_at` now |
| AdminPosts.Rewrite | backend/src/routes/admin.js:98-132 | for a found row: 400 exactly when the merged input is invalid, with its message; 409 exactly when another row holds the slug; nothing changes unless saved |
| AdminPosts.RewriteKeepsValid | backend/src/db.js:24 | a rewrite of a stored row keeps slugs unique and every row well formed |
| AdminPosts.UpdateKeepsValid | backend/src/db.js:24 | update keeps slugs unique and every row well formed |
| AdminPosts.RewriteOneRow | backend/src/routes/admin.js:105-126 | a save replaces only that row, with the content columns of the normalized merged input and the update rule's `published_at`; it keeps id and `created_at`, sets `updated_at` to now, and answers with the row read back |
| AdminPosts.UpdateRewritesOneRow | backend/src/routes/admin.js:105-126 | a successful update leaves the key set, the counter and every other row unchanged, stores the content columns of the body spread over the stored row and normalized, keeps id and `created_at`, and stamps `updated_at` |
| AdminPosts.RewritePublishedAt | backend/src/routes/admin.js:101-103 | the saved `published_at` is null for a draft, else the first present of body value, stored value and now |
| AdminPosts.UpdatePublishedAtRule | backend/src/routes/admin.js:101-103 | the same precedence case by case: body `published_at`, body `publishedAt`, stored value, now |
| AdminPosts.UpdateOwnSlugNoConflict | backend/src/routes/admin.js:128-129 | saving a valid post while keeping its own slug is never a conflict |
| AdminPosts.PublishDraftStampsNow | backend/src/routes/admin.js:101-103 | publishing a draft without a timestamp in the body stamps it now |
| AdminPosts.EditKeepsPublishedAt | backend/src/routes/admin.js:101-103 | editing a published post without a timestamp keeps it published with its original `published_at` |
| AdminPosts.DeletePost | backend/src/routes/admin.js:135-142 | 400 for a non-integer id; 404 exactly when the id is unknown, with the table unchanged; 204 removes exactly that key and nothing else; the id counter never changes, so a deleted id is not reused; the invariant is kept |
| AdminPosts.SecondCreateSameSlugConflicts | backend/src/routes/admin.js:84-85 | a second create with the same slug gets 409 and leaves the table as the first create left it |
| AdminPosts.MapPosts | backend/src/routes/admin.js:53 | one post per row, in the same order, each the `mapPost` of its row |
| AdminPosts.PostsOfSorted | backend/src/routes/admin.js:52-53 | mapping rows sorted by `created_at` gives posts newest first, each from one of the rows |
| AdminPosts.ListAll | backend/src/routes/admin.js:51-54 | one post per scanned row, newest `created_at` first, each the `mapPost` of a scanned row |
| AdminPosts.ListAllCovers | backend/src/routes/admin.js:51-54 | every scanned row appears in the admin listing |
| Store.PostStore.constructor | backend/src/db.js:21-35 | a new store is empty, valid, and will give id 1 next |
| Store.PostStore.Create | backend/src/routes/admin.js:56-89 | the in-place INSERT gives the response and new table that `CreatePost` specifies, and keeps the invariant |
| Store.PostStore.Update | backend/src/routes/admin.js:91-133 | the in-place UPDATE gives the response and new table that `UpdatePost` specifies, and keeps the invariant |
| Store.PostStore.Delete | backend/src/routes/admin.js:135-142 | the in-place DELETE gives the response and new table that `DeletePost` specifies, and keeps the invariant |
| Store.PostStore.All | backend/src/routes/admin.js:51-54 | lists every stored row exactly as `mapPost` shows it and nothing else, newest `created_at` first |
| PublicView.EffectiveLimit | backend/src/routes/public.js:11 | never above 100 and never 0; 20 for NaN or 0; the query value itself when in 1–100; 100 above that; negative exactly when the query is negative, and then equal to it |
| PublicView.Take | backend/src/routes/public.js:17 | a prefix of the rows, of length min(n, count), or all rows when n is negative; it holds no row more often than the input |
| PublicView.PrefixIncluded | backend/src/routes/public.js:17 | a prefix holds no element more often than the whole sequence |
| PublicView.Published | backend/src/routes/public.js:15 | a row is kept exactly when it is in the table with `is_published = 1` |
| PublicView.PublishedCounts | backend/src/routes/public.js:15 | each published row is kept as often as the scan yields it, and no draft is kept |
| PublicView.SelectPublished | backend/src/routes/public.js:12-18 | published rows of the table, no row more often than the published filter yields it, ordered newest first; with a negative limit exactly the published rows (as a multiset); otherwise min(limit, count) of them |
| PublicView.DrawnFromPublished | backend/src/routes/public.js:15 | rows drawn from the published filter are published rows of the table |
| PublicView.SelectionIsNewest | backend/src/routes/public.js:16-17 | a published row cut off by the limit is no newer than any row that is listed |
| PublicView.MapSummary | backend/src/routes/public.js:34-48 | every column but `content_html` and `is_published` is carried over as stored, and the tags are the parsed tag column (clean tags, none for an empty column) |
| PublicView.SummaryKeyOfRow | backend/src/routes/public.js:16 | a listed summary's `COALESCE(published_at, created_at)` is its row's, so the summaries keep the query's order |
| PublicView.MapFull | backend/src/routes/public.js:50-52 | the full view is the summary plus the row's `content_html` |
| PublicView.PublicMatchesAdmin | backend/src/routes/public.js:50-52 | the public full view and the admin `mapPost` agree on every field they share |
| PublicView.MapSummaries | backend/src/routes/public.js:20 | one summary per row, in the same order, each the `mapSummary` of its row |
| PublicView.SummariesOfSelection | backend/src/routes/public.js:16-20 | summaries of published rows taken newest first are summaries of published rows, newest first |
| PublicView.ListPublished | backend/src/routes/public.js:10-21 | every listed summary comes from a published row; newest first; exactly min(limit, published count) entries for the effective limit, all published rows when it is negative; so at most 20 without a usable limit and at most 100 unless negative |
| PublicView.ListsEveryPublishedRow | backend/src/routes/public.js:15-17 | with a negative limit, or no more published rows than the limit, every published row is listed |
| PublicView.FindPublishedBySlug | backend/src/routes/public.js:24-28 | a found row is in the table, has that slug and is published; nothing is found exactly when no such row exists |
| PublicView.PostDetail | backend/src/routes/public.js:23-31 | 200 with the `mapFull` of a published row with that slug, and 404 exactly when there is none |
| PublicView.DetailShowsTheRow | backend/src/routes/public.js:24-31 | with unique slugs, the detail of a published row's slug shows that very row |
| PublicView.FindTheRow | backend/src/routes/public.js:24-28 | with unique slugs, the lookup of a published row's slug returns that row |
| AdminLogin.Login | backend/src/routes/admin.js:29-45 | 400 exactly when the trimmed, lowercased email or the password is empty; a success answers with a token signed over id, email and role and a profile of only those three fields, for an admin with that email whose hash accepts the password |
| AdminLogin.LoginEmail | backend/src/routes/admin.js:30 | the looked-up email is trimmed and has no upper-case ASCII letter; an already trimmed email is only lowercased |
| AdminLogin.LoginPassword | backend/src/routes/admin.js:31 | a non-empty password is used exactly as sent, untrimmed; a missing or empty one is the empty string |
| AdminLogin.LoginSucceedsIff | backend/src/routes/admin.js:37-43 | with unique emails, login succeeds exactly when both fields are given and some admin with that email accepts the password |
| AdminLogin.UnknownEmailLooksLikeWrongPassword | backend/src/routes/admin.js:38-41 | an unknown email and a wrong password get the same 401 response and message |
| AdminLogin.EmailNormalised | backend/src/routes/admin.js:30 | surrounding white space and letter case in the typed email do not change the outcome |
| CreateAdmin.DropLast | backend/scripts/create-admin.js:34 | backspace removes the last character, and an empty buffer stays empty |
| CreateAdmin.OnData | backend/scripts/create-admin.js:22-37 | answers exactly on Enter, CR or Ctrl-D, with the trim of the buffer; aborts exactly on Ctrl-C; backspace drops the last character, if any; any other chunk is appended |
| CreateAdmin.Feed | backend/scripts/create-admin.js:22-38 | an answered prompt yields a trimmed value; a waiting prompt holds no more than what was typed |
| CreateAdmin.ReadHidden | backend/scripts/create-admin.js:17-39 | the chunk-by-chunk loop ends in the state the `Feed` fold gives |
| CreateAdmin.FeedOrdinary | backend/scripts/create-admin.js:35-36 | a chunk that is not Enter, CR, Ctrl-D, Ctrl-C or backspace is appended and reading goes on |
| CreateAdmin.FeedEnter | backend/scripts/create-admin.js:24-29 | Enter, CR or Ctrl-D answers with the trimmed buffer, whatever follows |
| CreateAdmin.TypedAppends | backend/scripts/create-admin.js:35-36 | a run of ordinary chunks piles up in the buffer, whatever follows it |
| CreateAdmin.TypedThenEnter | backend/scripts/create-admin.js:24-36 | ordinary keys followed by Enter, CR or Ctrl-D answer with the trimmed concatenation of what was typed |
| CreateAdmin.BackspaceOnEmpty | backend/scripts/create-admin.js:33-34 | backspace on an empty buffer has no effect |
| CreateAdmin.TypeThenErase | backend/scripts/create-admin.js:33-36 | a one-character key followed by backspace has no effect |
| CreateAdmin.InterruptAborts | backend/scripts/create-admin.js:31-32 | Ctrl-C aborts the prompt without an answer, whatever follows |
| CreateAdmin.NothingAfterEnter | backend/scripts/create-admin.js:27 | chunks after Enter do not change the answer |
| CreateAdmin.PastedNewlineIsBuffered | backend/scripts/create-admin.js:24 | any chunk of more than one character, newline included, is appended to the buffer and reading goes on |
| CreateAdmin.ProvidedEmail | backend/scripts/create-admin.js:42 | a command-line email is only lowercased; a prompted one is trimmed and lowercased; neither has an upper-case ASCII letter left |
| CreateAdmin.ProvidedPassword | backend/scripts/create-admin.js:43 | a command-line password is used as given; otherwise the password is the hidden prompt's result (`Feed` of the keystrokes from an empty buffer), trimmed when answered |
| CreateAdmin.Provision | backend/scripts/create-admin.js:42-57 | an admin is added exactly when both fields are non-empty, the prompt was answered and the email is new; the added row is next id, lowercased email, hash of the password, role editor, now; a duplicate is refused exactly when the email exists; otherwise nothing changes |
| CreateAdmin.ProvisionKeepsValid | backend/src/db.js:15 | a run keeps admin emails unique and every id below the counter |
| CreateAdmin.ArgsTakePrecedence | backend/scripts/create-admin.js:42-43 | with both values on the command line, the prompts do not affect the run |
| CreateAdmin.AdminTable.constructor | backend/src/db.js:13-19 | a new admins table is empty, valid, and will give id 1 next |
| CreateAdmin.AdminTable.RunScript | backend/scripts/create-admin.js:42-59 | the in-place run, reading the password through `ReadHidden`, ends with the outcome and table that `Provision` specifies, and keeps the invariant |
| Workflow.ScanSlugsUnique | backend/src/db.js:24 | any full scan of a valid table sees each slug at most once |
| Workflow.DeleteThenDetailNotFound | backend/src/routes/public.js:24-30 | after a delete, the deleted post's slug gives 404 on the public detail |
| Workflow.CreatePublishedThenDetail | backend/src/routes/public.js:24-31 | after a published create, the public detail of its slug shows the new row |
| Workflow.CreateTagsRoundTrip | backend/src/routes/admin.js:19 | a list of clean tags comes back unchanged in the 201 response |
| Workflow.ProvisionThenLogin | backend/src/routes/admin.js:30-44 | an admin created with a trimmed email and a password its hash accepts can log in, and is shown as an editor with the lowercased email |
| Workflow.PaddedEmailNeverLogsIn | backend/src/routes/admin.js:30 | no login ever answers with an admin whose stored email has white space at an end |
| Workflow.PaddedArgumentIsStoredPadded | backend/scripts/create-admin.js:42 | a command-line email with white space at either end is stored with it |

## Left out

- `requireAuth`, `GET /me` and token verification: authentication is treated as already done on the admin post routes. `backend/src/middleware/requireAuth.js` is not part of this model.
- `backend/src/server.js`, the health route, Express, CORS, helmet and logging: transport only.
- JWT internals, the secret and the 7-day expiry: the signer is a parameter over (id, email, role).
- bcrypt's salt and cost factor: hashing and comparison are parameters.
- The behaviour of `slugify`: it is a parameter, so URL-safety of slugs is not claimed.
- `toLowerCase` and `trim` beyond ASCII letters and the ECMAScript white-space set; JavaScript strings as UTF-16 code units (`slice(0, -1)` is modelled on characters).
- `String()` coercion of non-string JSON values, and `Number()` of fractional or exponent inputs: the limit query is modelled as NaN or an integer.
- ISO timestamp text and `datetime()` parsing: timestamps are integers.
- The order among rows with equal sort keys: it is left to SQLite, and the model fixes one order (scan order).
- `updated_at` increasing over time: this depends on the wall clock.
- The `null` branch of `mapPost`: the handlers only call it on a row just read back.
- Errors from the database other than the UNIQUE violation on slug, which would answer 400 with their own message.
- readline, the visible email prompt, raw-mode setup, console output and `process.exit`: the prompt's answer is a parameter, and exits are outcomes.
- Concurrency between requests: the handlers run one at a time here.
- Trim: its own contract states only the shape of the result (trimmed ends, characters of the input, no longer); that it is the input with surrounding white space cut off is stated by `TrimCutsOnlySpace`, kept apart because every caller of `Trim` would otherwise carry the quantifier.
