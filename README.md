# Svelte example assets: counter state and blog remote functions

This project models the two example files of the repository that have logic of their own. Both belong to the Svelte integration.

- `counter.svelte.ts` has a `Counter` class with two reactive fields. `count` starts at 0 and `incrementor` starts at 1. Four methods update the fields in place: `increment`, `decrement`, `resetCount` and `resetIncrementor`. The module exports one fresh instance.
- `data.remote.ts` holds the remote functions of a small blog:
  - `getPost` answers 404 when no post has the requested slug.
  - `createPost` runs its checks in order. With no signed-in user it fails with 401. When `title` or `content` is not text it fails with 400. Otherwise it builds the slug from the title (lower-cased, each space replaced by `-`). It then inserts the post, refreshes the post list and redirects with 303 to `/blog/<slug>`.
  - `addLike` increments a post's like count and refreshes a `getPost` query.

Module `Counters` (`counter.dfy`) keeps the counter as a class with two `int` fields. Each method states its new fields exactly and says the other field is unchanged. A `Snapshot` value of the two fields, with one transition function per method, lets lemmas relate several calls.

Module `RemoteFunctions` (`remote_functions.dfy`) takes the handlers as pure functions. Their I/O answers are parameters:
- the user that `auth.getUser()` returns;
- the submitted `FormData`, a map from each field name to the first value `data.get` returns for it, text or file;
- the `posts` table.

A handler returns the writes and query refreshes it performs, in order, as `Effect` values, together with its outcome. SQL statements are modelled only through their effect on the table: the filter `WHERE slug = …` and the update `likes = likes + 1`.

## Model

| member | source | states |
|---|---|---|
| Counters.Counter.constructor | svelte/assets/counter.svelte.example.ts:5-6 | a new counter, which is also what the exported instance is, has count 0 and incrementor 1 |
| Counters.Counter.Increment | svelte/assets/counter.svelte.example.ts:8-10 | count becomes old count plus incrementor; incrementor is unchanged; nothing outside the object changes |
| Counters.Counter.Decrement | svelte/assets/counter.svelte.example.ts:12-14 | count becomes old count minus incrementor; incrementor is unchanged |
| Counters.Counter.ResetCount | svelte/assets/counter.svelte.example.ts:16-18 | count becomes 0; incrementor is unchanged |
| Counters.Counter.ResetIncrementor | svelte/assets/counter.svelte.example.ts:20-22 | incrementor becomes 1; count is unchanged |
| Counters.IncrementThenDecrementRestores | svelte/assets/counter.svelte.example.ts:8-14 | a caller that calls increment and then decrement on one counter finds both fields as they were |
| Counters.IncrementTimes | svelte/assets/counter.svelte.example.ts:8-10 | a caller that calls increment n times on one counter finds count moved by n times the incrementor, with the incrementor unchanged |
| Counters.IncrementsAddMultiple | svelte/assets/counter.svelte.example.ts:8-10 | n increments with incrementor k move count from c to c + n·k and keep k |
| Counters.IncrementThenDecrement | svelte/assets/counter.svelte.example.ts:8-14 | decrement after increment, with no change to the incrementor between them, restores the state |
| Counters.DecrementThenIncrement | svelte/assets/counter.svelte.example.ts:8-14 | increment after decrement restores the state |
| Counters.CountResetIdempotent | svelte/assets/counter.svelte.example.ts:16-18 | resetting the count twice equals resetting it once, and the incrementor is kept |
| Counters.IncrementorResetIdempotent | svelte/assets/counter.svelte.example.ts:20-22 | resetting the incrementor twice equals resetting it once, and the count is kept |
| Counters.ResetsRestoreInitial | svelte/assets/counter.svelte.example.ts:16-22 | both resets, in either order, give the initial state (0, 1) |
| RemoteFunctions.ToLowerCase | svelte/assets/remote-functions.example.ts:45 | same length as the input; each character is the ASCII-lower-cased input character |
| RemoteFunctions.ReplaceSpaces | svelte/assets/remote-functions.example.ts:45 | same length as the input; each space becomes `-` and every other character stays |
| RemoteFunctions.Slug | svelte/assets/remote-functions.example.ts:45 | the slug has the title's length; at each position it holds `-` where the title has a space and the lower-cased title character elsewhere; it contains no space and no upper-case ASCII letter |
| RemoteFunctions.SlugIdempotent | svelte/assets/remote-functions.example.ts:45 | the slug of a slug is that slug |
| RemoteFunctions.SlugIgnoresCaseAndSpaces | svelte/assets/remote-functions.example.ts:45 | lower-casing a title, or replacing its spaces by hyphens, first does not change its slug |
| RemoteFunctions.CreatePost | svelte/assets/remote-functions.example.ts:32-58 | with no user: 401 and no effect. With a user and a non-text title or content: 400 and no effect. It redirects exactly when the user is present and both fields are text. The redirect has status 303 and goes to `/blog/` + slug(title), after inserting (slug, title, content, user id) and refreshing the post list |
| RemoteFunctions.UnauthenticatedBeforeInvalid | svelte/assets/remote-functions.example.ts:34-43 | a request with no user whose title or content is missing or not text gets 401, not 400, and writes nothing |
| RemoteFunctions.CreatePostWritesOnlyOnRedirect | svelte/assets/remote-functions.example.ts:34-57 | createPost has effects exactly when it does not fail; its only failures are 401 and 400 |
| RemoteFunctions.CreatedPostIsFound | svelte/assets/remote-functions.example.ts:45-57 | once the inserted row is in the table, getPost finds a post under the slug the redirect points to; it finds the new post when no earlier post had that slug |
| RemoteFunctions.EarlierPostKeepsBeingServed | svelte/assets/remote-functions.example.ts:22-28 | in the model's table order, when an earlier post already has the slug, inserting another post with it leaves what getPost serves unchanged: the earlier post |
| RemoteFunctions.RowsWithSlug | svelte/assets/remote-functions.example.ts:22-25 | a post is an answer row exactly when it is in the table with that slug; the first answer row is the first such row of the table |
| RemoteFunctions.RowsWithSlugAppend | svelte/assets/remote-functions.example.ts:22-25 | appending a row with the slug to the table appends it to the answer, after the earlier matches |
| RemoteFunctions.GetPost | svelte/assets/remote-functions.example.ts:21-29 | fails with 404 "Post not found" exactly when no post has the slug; otherwise it is the first post with that slug |
| RemoteFunctions.LikeAdded | svelte/assets/remote-functions.example.ts:62-66 | the rows with the id get one more like; every other row is unchanged |
| RemoteFunctions.AddLike | svelte/assets/remote-functions.example.ts:61-70 | as written: exactly two effects, the like update on the id and then a refresh of getPost keyed by that same id |
| RemoteFunctions.AddLikeRefreshesWrongQuery | svelte/assets/remote-functions.example.ts:69 | for a post with id "1" and slug "hello-world", addLike refreshes a getPost query that answers 404 and not the one that serves the liked post |
| RemoteFunctions.AddLikeMissesLikedPost | svelte/assets/remote-functions.example.ts:61-70 | for every table, when a post with the id has a slug other than the id, the as-written addLike does not refresh that post's getPost query |
| RemoteFunctions.SlugRefreshes | svelte/assets/remote-functions.example.ts:69 | holds a refresh for the slug of every row with the id, and only such refreshes |
| RemoteFunctions.AddLikeRefreshingSlugs | svelte/assets/remote-functions.example.ts:61-70 | corrected addLike: it updates first, then refreshes the getPost query of every liked post by its slug, and nothing else |
| RemoteFunctions.LikedPostIsRefreshedAndFound | svelte/assets/remote-functions.example.ts:61-70 | after the corrected addLike, a liked post with a unique slug has its query refreshed, and that query serves it with one more like |

## Left out

- Svelte's `$state` reactivity is not modelled. The fields are plain fields, and no subscriber is notified.
- Counters.Counter.Increment: `count` and `incrementor` are mathematical integers. JavaScript's floating-point numbers, with their rounding and their loss of precision beyond 2^53, are not modelled. The same holds for Decrement.
- RemoteFunctions.ToLowerCase: lowercases only ASCII `A`–`Z`. JavaScript's `toLowerCase` also maps non-ASCII letters, which the model leaves unchanged. Slug inherits this. Its "same length as the title" holds only under this restriction: in JavaScript, `"İ".toLowerCase()` is two UTF-16 code units long.
- RemoteFunctions.GetPost: the SQL query has no `ORDER BY`, so the database may return matching rows in any order. The model takes the rows in table order, so "the first matching post" means the first in that order.
- RemoteFunctions.EarlierPostKeepsBeingServed: holds only under the table-order stand-in for the unordered SQL answer. The query has no `ORDER BY`, so after a second post with the same slug is inserted, the database may serve either post.
- The `auth.getUser()` lookup is a parameter of `CreatePost`. The database and the query cache are not modelled beyond the `Effect` values a handler returns and the table parameters.
- `await` and exceptions are not modelled. `error(…)` and `redirect(…)` throw in SvelteKit; the model returns them as outcomes instead. `addLike` does not await its refresh; the model keeps only the order of the two steps.
- The valibot `v.string()` argument validation of `getPost` and `addLike` is not modelled separately. Argument types are Dafny `string`s, so a non-string argument cannot occur.
- `getPosts`, `getCategories` and `getCategoryPosts` are left out. They are a plain SQL read or a build-time prerender, with no logic beyond the query.
- The `posts` table's column defaults and generated ids are not modelled. `CreatedPostIsFound` holds for any id and like count the database gives the new row.
- The other example files are left out. These are the Convex schema, functions and crons, the better-auth client and server, the Autumn product configuration, the Vite configuration and the Convex-Svelte client. They only configure third-party SDKs or forward calls to them.

## Findings

| source | as written | input that shows it | evidently intended | confidence | as-written member | corrected member |
|---|---|---|---|---|---|---|
| svelte/assets/remote-functions.example.ts:69 | `addLike(postId)` ends with `getPost(postId).refresh()`, but `getPost` looks posts up by slug, not by id | a post with id "1" and slug "hello-world": addLike("1") refreshes the query for slug "1", which answers 404, and leaves the query for "hello-world" stale | refresh the getPost query of each liked post by that post's slug | medium; not executed | RemoteFunctions.AddLike (shown by RemoteFunctions.AddLikeRefreshesWrongQuery and RemoteFunctions.AddLikeMissesLikedPost) | RemoteFunctions.AddLikeRefreshingSlugs (with RemoteFunctions.LikedPostIsRefreshedAndFound) |
