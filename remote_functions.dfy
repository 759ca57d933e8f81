/** The SvelteKit remote functions of the blog example: the guards of
    `createPost` and `getPost`, the slug derived from a post title, and the
    effects `createPost` and `addLike` ask of the database and of the query
    cache. Database queries and the authentication lookup are not run here:
    their answers are parameters, and the writes and refreshes a handler
    performs are returned, in order, as a sequence of `Effect` values. */
module RemoteFunctions {

  datatype Option<T> = None | Some(value: T)

  /** The error a handler raises with SvelteKit's `error(status, message)`. */
  datatype HttpError = HttpError(status: nat, message: string)

  const Unauthorized: HttpError := HttpError(401, "Unauthorized")
  const InvalidData: HttpError := HttpError(400, "Invalid data")
  const PostNotFound: HttpError := HttpError(404, "Post not found")

  /** The status of the redirect after a post is created ("303 See Other"). */
  const SeeOther: nat := 303

  /** The path under which a post is served. */
  const BlogPrefix: string := "/blog/"

  /** The signed-in user, as `auth.getUser()` answers it. */
  datatype User = User(id: string)

  /** A value of a submitted form field: text, or an uploaded file. */
  datatype FormValue = Text(text: string) | File

  /** A submitted form, as `data.get` answers it: each submitted name maps
      to its first value, and a name that was not submitted is not a key. */
  type FormData = map<string, FormValue>

  /** A row of the `posts` table. */
  datatype Post = Post(id: string, slug: string, title: string, content: string, authorId: string, likes: int)

  /** What a handler does to the world besides answering. */
  datatype Effect =
    | InsertPost(slug: string, title: string, content: string, authorId: string)  // INSERT INTO posts
    | RefreshPosts                                                              // getPosts().refresh()
    | UpdateLikes(postId: string)                                               // UPDATE posts SET likes = likes + 1
    | RefreshPost(key: string)                                                  // getPost(key).refresh()

  /** How `createPost` ends: with an error, or with a redirect to the new post. */
  datatype Outcome = Fail(error: HttpError) | Redirect(status: nat, location: string)

  /** The effects `createPost` performed, in order, and how it ended. */
  datatype Handled = Handled(effects: seq<Effect>, outcome: Outcome)

  /** The result of a query that can fail. */
  datatype Result<T> = Ok(value: T) | Err(error: HttpError)

  // ---------------------------------------------------------------------
  // The slug: title.toLowerCase().replace(/ /g, '-')

  /** Lower-casing of one character, restricted to ASCII letters. */
  function LowerAscii(c: char): char {
    if 'A' <= c <= 'Z' then (c as int + 32) as char else c
  }

  /** `toLowerCase`: every character lower-cased, nothing else changed. */
  function ToLowerCase(s: string): (r: string)
    ensures |r| == |s|
    ensures forall i :: 0 <= i < |s| ==> r[i] == LowerAscii(s[i])
  {
    if s == [] then [] else [LowerAscii(s[0])] + ToLowerCase(s[1..])
  }

  /** `replace(/ /g, '-')`: every space (U+0020 only) becomes a hyphen. */
  function ReplaceSpaces(s: string): (r: string)
    ensures |r| == |s|
    ensures forall i :: 0 <= i < |s| ==> r[i] == if s[i] == ' ' then '-' else s[i]
  {
    if s == [] then [] else [if s[0] == ' ' then '-' else s[0]] + ReplaceSpaces(s[1..])
  }

  /** The slug of a post title: position by position a hyphen where the title
      has a space and the lower-cased title character elsewhere; it holds no
      space and no upper-case ASCII letter. */
  function Slug(title: string): (slug: string)
    ensures |slug| == |title|
    ensures forall i :: 0 <= i < |title| ==>
      slug[i] == if title[i] == ' ' then '-' else LowerAscii(title[i])
    ensures forall i :: 0 <= i < |slug| ==> slug[i] != ' ' && !('A' <= slug[i] <= 'Z')
  {
    ReplaceSpaces(ToLowerCase(title))
  }

  /** A slug is its own slug. */
  lemma SlugIdempotent(title: string)
    ensures Slug(Slug(title)) == Slug(title)
  {
  }

  /** Titles that differ only in ASCII letter case, or in spaces written as
      hyphens, share their slug. */
  lemma SlugIgnoresCaseAndSpaces(title: string)
    ensures Slug(ToLowerCase(title)) == Slug(title)
    ensures Slug(ReplaceSpaces(title)) == Slug(title)
  {
  }

  // ---------------------------------------------------------------------
  // createPost

  /** `data.get(name)` when its answer is a string (`typeof … === 'string'`). */
  function TextField(data: FormData, name: string): Option<string> {
    if name in data && data[name].Text? then Some(data[name].text) else None
  }

  /** `createPost`: without a signed-in user it fails with 401; with a title
      or content that is not text it fails with 400; in both cases nothing is
      written. Otherwise it inserts the post under the slug of its title,
      refreshes the post list and redirects with 303 to `/blog/<slug>`. */
  function CreatePost(user: Option<User>, data: FormData): (r: Handled)
    ensures user.None? ==> r == Handled([], Fail(Unauthorized))
    ensures user.Some? && !("title" in data && data["title"].Text? && "content" in data && data["content"].Text?)
      ==> r == Handled([], Fail(InvalidData))
    ensures r.outcome.Redirect? <==>
      user.Some? && "title" in data && data["title"].Text? && "content" in data && data["content"].Text?
    ensures r.outcome.Redirect? ==>
      var title := data["title"].text;
      var content := data["content"].text;
      && r.outcome == Redirect(SeeOther, BlogPrefix + Slug(title))
      && r.effects == [InsertPost(Slug(title), title, content, user.value.id), RefreshPosts]
  {
    if user.None? then
      Handled([], Fail(Unauthorized))
    else
      var title := TextField(data, "title");
      var content := TextField(data, "content");
      if title.None? || content.None? then
        Handled([], Fail(InvalidData))
      else
        var slug := Slug(title.value);
        Handled([InsertPost(slug, title.value, content.value, user.value.id), RefreshPosts],
                Redirect(SeeOther, BlogPrefix + slug))
  }

  /** The authentication guard comes first: a request without a user gets 401
      whatever its form holds, even when the form would also be rejected. */
  lemma UnauthenticatedBeforeInvalid(data: FormData)
    requires !("title" in data && data["title"].Text? && "content" in data && data["content"].Text?)
    ensures CreatePost(None, data).outcome == Fail(Unauthorized)
    ensures CreatePost(None, data).outcome != Fail(InvalidData)
    ensures CreatePost(None, data).effects == []
  {
  }

  /** `createPost` has effects exactly when it succeeds, and fails only with 401 or 400. */
  lemma CreatePostWritesOnlyOnRedirect(user: Option<User>, data: FormData)
    ensures CreatePost(user, data).outcome.Fail? <==> CreatePost(user, data).effects == []
    ensures CreatePost(user, data).outcome.Fail? ==>
      CreatePost(user, data).outcome.error in {Unauthorized, InvalidData}
  {
  }

  /** A row the database stores for an `InsertPost`; the id and the like
      count are the database's to choose. */
  predicate Stores(e: Effect, p: Post) {
    e.InsertPost? && p.slug == e.slug && p.title == e.title && p.content == e.content
    && p.authorId == e.authorId
  }

  /** The redirect target of a created post is served: once the inserted row
      is in the table, `getPost` of the slug in the redirect finds a post, and
      finds the new one when no earlier post had that slug. */
  lemma CreatedPostIsFound(user: Option<User>, data: FormData, table: seq<Post>, row: Post)
    requires CreatePost(user, data).outcome.Redirect?
    requires Stores(CreatePost(user, data).effects[0], row)
    ensures CreatePost(user, data).outcome.location == BlogPrefix + row.slug
    ensures GetPost(table + [row], row.slug).Ok?
    ensures (forall p :: p in table ==> p.slug != row.slug) ==> GetPost(table + [row], row.slug) == Ok(row)
  {
  }

  /** In the model's table order, a post inserted under a slug that an
      earlier post already has does not change what `getPost` serves for that
      slug: the earlier post. */
  lemma {:induction false} EarlierPostKeepsBeingServed(table: seq<Post>, row: Post)
    requires GetPost(table, row.slug).Ok?
    ensures GetPost(table + [row], row.slug) == GetPost(table, row.slug)
  {
    RowsWithSlugAppend(table, row, row.slug);
  }

  // ---------------------------------------------------------------------
  // getPost

  /** Row `i` is the first row of the table with the slug. */
  predicate FirstWithSlug(table: seq<Post>, i: int, slug: string) {
    0 <= i < |table| && table[i].slug == slug && forall j :: 0 <= j < i ==> table[j].slug != slug
  }

  /** `SELECT * FROM posts WHERE slug = …`: the rows with that slug, in table order. */
  function RowsWithSlug(table: seq<Post>, slug: string): (rows: seq<Post>)
    ensures forall p :: p in rows <==> p in table && p.slug == slug
    ensures rows != [] ==> exists i :: FirstWithSlug(table, i, slug) && table[i] == rows[0]
  {
    if table == [] then []
    else
      var rest := RowsWithSlug(table[1..], slug);
      assert table == [table[0]] + table[1..];
      if table[0].slug == slug then
        assert FirstWithSlug(table, 0, slug);
        [table[0]] + rest
      else
        assert rest != [] ==> exists i :: FirstWithSlug(table, i, slug) && table[i] == rest[0] by {
          if rest != [] {
            var k :| FirstWithSlug(table[1..], k, slug) && table[1..][k] == rest[0];
            assert FirstWithSlug(table, k + 1, slug);
          }
        }
        rest
  }

  /** Appending a row with the slug to the table appends it to the answer. */
  lemma {:induction false} RowsWithSlugAppend(table: seq<Post>, row: Post, slug: string)
    requires row.slug == slug
    ensures RowsWithSlug(table + [row], slug) == RowsWithSlug(table, slug) + [row]
  {
    if table == [] {
      assert [] + [row] == [row];
      assert [row][1..] == [];
    } else {
      assert (table + [row])[1..] == table[1..] + [row];
      RowsWithSlugAppend(table[1..], row, slug);
    }
  }

  /** `getPost`: the first post with the slug, or 404 when there is none. */
  function GetPost(table: seq<Post>, slug: string): (r: Result<Post>)
    ensures r.Err? <==> forall p :: p in table ==> p.slug != slug
    ensures r.Err? ==> r.error == PostNotFound
    ensures r.Ok? ==> r.value in table && r.value.slug == slug
    ensures r.Ok? ==> exists i :: FirstWithSlug(table, i, slug) && table[i] == r.value
  {
    var rows := RowsWithSlug(table, slug);
    if |rows| == 0 then Err(PostNotFound) else Ok(rows[0])
  }

  // ---------------------------------------------------------------------
  // addLike

  /** `UPDATE posts SET likes = likes + 1 WHERE id = …`. */
  function LikeAdded(table: seq<Post>, postId: string): (r: seq<Post>)
    ensures |r| == |table|
    ensures forall i :: 0 <= i < |table| ==>
      r[i] == if table[i].id == postId then table[i].(likes := table[i].likes + 1) else table[i]
  {
    if table == [] then []
    else
      [if table[0].id == postId then table[0].(likes := table[0].likes + 1) else table[0]]
      + LikeAdded(table[1..], postId)
  }

  /** `addLike` as written: the update, then a refresh of `getPost(postId)`,
      whose key is matched against the slug column and not the id column. */
  function AddLike(postId: string): (effects: seq<Effect>)
    ensures |effects| == 2 && effects[0] == UpdateLikes(postId)
    ensures effects[1].RefreshPost? && effects[1].key == postId
  {
    [UpdateLikes(postId), RefreshPost(postId)]
  }

  /** Every post whose like count an update changes has its `getPost` query
      (keyed by the post's slug) refreshed. */
  predicate RefreshesLikedPosts(table: seq<Post>, postId: string, effects: seq<Effect>) {
    forall i :: 0 <= i < |table| && table[i].id == postId ==> RefreshPost(table[i].slug) in effects
  }

  /** The post with id "1" and slug "hello-world" is liked: `addLike` refreshes
      the query of slug "1", which finds no post, and leaves the query of
      "hello-world" stale. */
  lemma AddLikeRefreshesWrongQuery()
    ensures var table := [Post("1", "hello-world", "Hello World", "", "u", 0)];
      && !RefreshesLikedPosts(table, "1", AddLike("1"))
      && GetPost(LikeAdded(table, "1"), "1") == Err(PostNotFound)
      && GetPost(LikeAdded(table, "1"), "hello-world").Ok?
      && GetPost(LikeAdded(table, "1"), "hello-world").value.likes == 1
  {
  }

  /** For every table: when a post with the id has a slug other than the id,
      `addLike` as written leaves that post's `getPost` query unrefreshed. */
  lemma AddLikeMissesLikedPost(table: seq<Post>, postId: string, i: nat)
    requires i < |table| && table[i].id == postId && table[i].slug != postId
    ensures !RefreshesLikedPosts(table, postId, AddLike(postId))
    ensures RefreshPost(table[i].slug) !in AddLike(postId)
  {
  }

  /** The refreshes of the slugs of the rows with the given id, in table order. */
  function SlugRefreshes(table: seq<Post>, postId: string): (effects: seq<Effect>)
    ensures forall i :: 0 <= i < |table| && table[i].id == postId ==> RefreshPost(table[i].slug) in effects
    ensures forall e :: e in effects ==> e.RefreshPost? && exists p :: p in table && p.id == postId && e.key == p.slug
  {
    if table == [] then []
    else
      var rest := SlugRefreshes(table[1..], postId);
      assert forall i :: 1 <= i < |table| ==> table[i] == table[1..][i - 1];
      if table[0].id == postId then [RefreshPost(table[0].slug)] + rest else rest
  }

  /** `addLike` as evidently intended: after the update, the `getPost` query of
      every liked post is refreshed by its slug, and nothing else is. */
  function AddLikeRefreshingSlugs(table: seq<Post>, postId: string): (effects: seq<Effect>)
    ensures effects != [] && effects[0] == UpdateLikes(postId)
    ensures RefreshesLikedPosts(table, postId, effects)
    ensures forall e :: e in effects[1..] ==>
      e.RefreshPost? && exists p :: p in table && p.id == postId && e.key == p.slug
  {
    [UpdateLikes(postId)] + SlugRefreshes(table, postId)
  }

  /** After the corrected `addLike`, each liked post is found under its own
      slug with one more like: the query that is refreshed serves it. */
  lemma LikedPostIsRefreshedAndFound(table: seq<Post>, postId: string, i: nat)
    requires i < |table| && table[i].id == postId
    requires forall j :: 0 <= j < |table| && j != i ==> table[j].slug != table[i].slug
    ensures RefreshPost(table[i].slug) in AddLikeRefreshingSlugs(table, postId)
    ensures GetPost(LikeAdded(table, postId), table[i].slug) == Ok(table[i].(likes := table[i].likes + 1))
  {
  }
}
