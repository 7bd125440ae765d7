# Forum store of the Kotodama web page, in Dafny

The page's forum (`js/foro.js`) keeps everything in the browser. A single
`Forum` object owns two lists. One holds the posts, each with its comments
and a like counter. The other holds the ids of the posts the user marked as
favorites. Every change is written back to local storage under the keys
`kt_posts` and `kt_fav`. The views pass every title, content and comment
text through `escapeHtml` before putting it into markup.

This project models that object and that helper:

- `wrappers.dfy` (`Wrappers`): the `Option` type, standing for `null` or a missing value.
- `text.dfy` (`Text`): JavaScript's `trim`, `toLowerCase` and `includes`, the pieces `search` is built from.
- `html.dfy` (`Html`): `escapeHtml`, and an `Unescape` that reads the five entities back.
- `posts.dfy` (`Posts`): post and comment records, the `find` lookup, and pure functions for what commenting and liking do to the list of posts. It also holds the lemmas for repeated operations and the filter behind `search`.
- `favorites.dfy` (`Favorites`): `indexOf` and the toggle of the favorites list, with its lemmas.
- `foro.dfy` (`Foro`): the `Forum` class. Its fields are `posts`, `favorites` and `store`, the persisted copy. It has one method per operation, each specified against the pure functions above. `Session` is a client that replays a whole visit on an empty store: post "Hello"/"World", like twice, comment, favorite and unfavorite, search for "hello" and "zzz", then reload. It checks what each step gives from the method contracts. The results of the two searches are worked out from `Search`'s contract, with `Posts.SubsequenceShorter` bounding the length.

The clock is not modelled. The ids and ISO timestamps that `Date.now()` and
`new Date().toISOString()` would supply are parameters of `CreatePost` and
`AddComment`. Ids are never assumed to be unique, so every lookup is stated
in terms of the *first* post that has the id, as `find` does. Storage is the
`Store` value: one optional list per key. `Save` overwrites both lists.
`Persisted()` says that reloading the store would give back the state in
memory. The constructor establishes it, and every operation keeps it, given
that every write succeeds and no other page writes `kt_posts` or `kt_fav`.

Three behaviours of the code worth noting:

- The repository does not reject empty titles, contents or comment texts. Only the page's form handlers trim and check them, so `CreatePost` and `AddComment` accept any string.
- Favorites keep list semantics, not set semantics. Toggling an absent id twice restores the list exactly. Toggling twice an id that is listed once moves it to the end. Toggling an id that is listed twice removes both copies, which `Favorites.DuplicateLosesMembership` exhibits, and `Favorites.ToggleTwiceMembership` shows this is the only count for which two toggles change membership. The operations never create a duplicate (`Favorites.ToggleKeepsNoDuplicates`). Only a stored list could hold one.
- `toggleLike` only ever adds one. A missing counter counts as 0.

## Model

Small definitions that only name a value (`LoadedPosts`, `LoadedFavorites`, `LikeCount`, `IsSpecial`) have no row of their own. The row of the member whose contract states their behaviour names them.

| member | source | states |
|---|---|---|
| Foro.Forum.constructor | js/foro.js:2-5 | the posts and favorites are the stored lists, or empty lists for unset keys (the `LoadedPosts` and `LoadedFavorites` definitions); reloading gives the state back |
| Foro.Forum.Save | js/foro.js:7-10 | both lists are written to the store, so that reloading reproduces them; nothing else changes |
| Foro.Forum.CreatePost | js/foro.js:12-24 | the returned post has the given id, title, content and timestamp, no comments and `Some(0)` likes; it becomes `posts[0]` and a lookup by its id finds it there, the old posts follow in their order, favorites are unchanged, and the state is saved |
| Foro.Forum.AddComment | js/foro.js:26-32 | the posts become `WithComment` of the old posts; with no post of that id the result is `None` and the store is untouched; otherwise the updated first post with that id is returned and the state is saved |
| Foro.Forum.ToggleLike | js/foro.js:34-40 | the posts become `WithLike` of the old posts; with no post of that id the result is `None` and the store is untouched; otherwise the updated first post with that id is returned and the state is saved |
| Foro.Forum.ToggleFavorite | js/foro.js:42-47 | favorites become `Toggled` of the old favorites, whether or not a post has the id; posts are unchanged; the state is always saved |
| Foro.Forum.Search | js/foro.js:49-53 | a query that is blank under `trim` gives `posts` itself; any other gives an ordered subsequence of `posts` whose members all match the normalised query, holding every matching post exactly as often as `posts` does and no other post |
| Posts.NewPost | js/foro.js:13-21 | once the new record is put in front of any list of posts, a lookup by its id finds it at index 0, even when an older post has the same id |
| Posts.FindPost | js/foro.js:27-28 | `None` exactly when no post has the id; otherwise the index of a post with the id such that no earlier post has it |
| Posts.FindSameIds | js/foro.js:35-36 | lists with the same ids in the same places give the same lookup result for every id, so commenting and liking never move a later lookup |
| Posts.WithComment | js/foro.js:27-31 | ids keep their places; with no post of that id the list is unchanged; otherwise only the first post with the id changes, its comments gaining exactly the new comment at the end and its other fields unchanged |
| Posts.WithLike | js/foro.js:35-39 | ids keep their places; with no post of that id the list is unchanged; otherwise only the first post with the id changes, its likes becoming its old count plus one, a missing count counting as 0 (the `LikeCount` definition), with its other fields unchanged |
| Posts.CreateExtends | js/foro.js:21 | putting a post in front only extends the list: the old posts sit after it in their old order, each keeping its id, title, content and timestamp, no comment lost and no like lost |
| Posts.CommentExtends | js/foro.js:27-29 | commenting only extends the list: every post keeps its place, id, title, content and timestamp, its comments can only grow at the end and its like count cannot drop |
| Posts.LikeExtends | js/foro.js:35-37 | liking only extends the list: every post keeps its place, id, title, content and timestamp, its comments can only grow at the end and its like count cannot drop |
| Posts.ExtendsTransitive | js/foro.js:21-37 | extensions compose, so any run of operations only extends the list |
| Posts.LikesAddUp | js/foro.js:34-39 | `k` likes on an existing id raise the first matching post's count by exactly `k` and leave its comments and every other post unchanged |
| Posts.CommentsInOrder | js/foro.js:26-31 | a run of comments on an existing id lands, in call order, after that post's earlier comments; its likes and every other post are unchanged |
| Posts.Reversed | js/foro.js:21 | the reference order for repeated `unshift`: same length, position `k` holding the element `k` places from the end |
| Posts.CreationOrder | js/foro.js:12-23 | after a run of creations the list is the new posts in reverse creation order followed by the old list |
| Posts.Matches | js/foro.js:52 | the `filter` test: the lowercased title or content includes the query; the empty query matches every post, and a matching query is no longer than the title or no longer than the content |
| Posts.SubsequenceShorter | js/foro.js:52 | a filtered list, being a subsequence, is never longer than the list it is taken from |
| Posts.Filter | js/foro.js:52 | the result is a subsequence of the posts, every element matches, and each post occurs in it as often as in the input if it matches and never otherwise |
| Favorites.IndexOf | js/foro.js:43 | -1 exactly when the id is absent; otherwise an index holding the id with no earlier occurrence |
| Favorites.Toggled | js/foro.js:42-46 | an absent id is appended at the end; a present id loses exactly its first occurrence, all other entries keeping their order |
| Favorites.ToggleCounts | js/foro.js:42-46 | toggling adds one copy of an absent id, removes one copy of a present id, and leaves the count of every other id unchanged |
| Favorites.ToggleTwiceAbsent | js/foro.js:42-46 | toggling an absent id twice restores the list exactly |
| Favorites.ToggleTwiceMembership | js/foro.js:42-46 | toggling an id twice restores whether it is a favorite exactly when the list does not hold it exactly twice |
| Favorites.ToggleKeepsNoDuplicates | js/foro.js:42-46 | on a duplicate-free list, toggling keeps it duplicate-free, flips the membership of the id and keeps the membership of every other id |
| Favorites.DuplicateLosesMembership | js/foro.js:42-46 | on `[7, 7]`, two toggles of 7 remove it entirely |
| Text.IsSpace | js/foro.js:50 | the code points `trim` removes, ECMAScript's WhiteSpace and LineTerminator; none is a capital, so lowercasing leaves each as it is |
| Text.LeadingSpaces | js/foro.js:50 | the length of the longest prefix made of characters `trim` removes |
| Text.TrailingStart | js/foro.js:50 | the start of the longest suffix made of characters `trim` removes |
| Text.Trim | js/foro.js:50 | the result is empty exactly when the input is blank; otherwise it neither starts nor ends with whitespace; it is a slice of the input with only whitespace cut from either side |
| Text.TrimFixed | js/foro.js:50 | a string that neither starts nor ends with whitespace is left as it is by `trim` |
| Text.TrimIdempotent | js/foro.js:50 | trimming twice is trimming once |
| Text.IsUpper | js/foro.js:50-52 | the characters `toLowerCase` changes in the range this model covers: A-Z and U+00C0 to U+00DE without U+00D7; each one's lower-case partner, 0x20 above, is a-z or U+00E0 to U+00FE without U+00F7 |
| Text.LowerChar | js/foro.js:50 | the result is never an upper-case letter; a character that is not upper case is unchanged; a capital moves to its lower-case form 0x20 above |
| Text.Lower | js/foro.js:50-52 | same length, each character lowercased in place |
| Text.LowerFixed | js/foro.js:50-52 | a string without capitals is left as it is by `toLowerCase` |
| Text.LowerIdempotent | js/foro.js:50-52 | lowercasing twice is lowercasing once |
| Text.Contains | js/foro.js:52 | `includes`: the empty query is included in every text, and an included query is never longer than the text |
| Text.ContainsAt | js/foro.js:52 | `includes` holds exactly when the query occurs at some index of the text |
| Text.MissingCharNotContained | js/foro.js:52 | a query with a character the text lacks is not included in it |
| Text.Normalize | js/foro.js:50-51 | the normalised query is empty exactly when the raw query is blank; it is never longer than the raw query and holds no capital |
| Text.NormalizeFixed | js/foro.js:50 | a query that is already trimmed and has no capitals is its own normal form |
| Html.EscapeChar | js/foro.js:85 | each of the five characters of the class `[&<>"']` (the `IsSpecial` definition) becomes an entity starting with `&`; every other character stays itself |
| Html.EscapeHtml | js/foro.js:84-86 | the output contains no `<`, `>`, `"` or `'`; it is never shorter than the input; it equals the input when the input has no special character |
| Html.EscapeRoundTrip | js/foro.js:84-86 | unescaping the output gives back the input, so every character is kept, in order |
| Html.EscapeAppend | js/foro.js:84-86 | escaping a concatenation is concatenating the escaped parts |

## Left out

- The JSON text in local storage is not modelled. `JSON.stringify` and `JSON.parse` in the constructor and in `save` (js/foro.js:3-4, 8-9) are left abstract: a stored value stands for its text. A stored value that fails to parse would throw; that case is not modelled.
- The clock is not modelled. `Date.now()` and `new Date().toISOString()` (js/foro.js:14, 19, 29) are parameters, because they are wall-clock calls. Nothing is claimed about ids being unique or increasing.
- Text.LowerChar: only ASCII and Latin-1 capitals are lowercased. Unicode's full case mapping, which `toLowerCase` applies (Greek, Cyrillic, `İ` and the rest), is beyond this model. `trim`'s whitespace set is written out in full.
- Foro.Forum.Search: takes a string. The `q || ''` fallback for a `null` or `undefined` query (js/foro.js:50) is not modelled, because the page always passes a string.
- Html.EscapeHtml: takes a string. `String(str)` coercion of non-string arguments and the default argument (js/foro.js:84) are not modelled.
- Post identity is not modelled. Posts are values inside the `posts` field. In the source, the post returned by `createPost`, `addComment` and `toggleLike` is the live object held in `posts`, and `search` returns the posts array itself. Here those results are equal copies, so later changes through an alias are not modelled.
- Other writers of local storage are not modelled. Every tab of the page's origin builds its own `Forum` (js/foro.js:57) and reads both keys only once (js/foro.js:3-4). Each save then overwrites both keys with that tab's lists (js/foro.js:8-9). So a save discards whatever another tab wrote since this one loaded. In the model `store` belongs to one `Forum` and has no other writer, so `Persisted()` does not describe several tabs.
- Failed writes to storage are not modelled. `Save` cannot fail. In the source, `localStorage.setItem` (js/foro.js:8-9) can throw, for example when the storage quota is full. By then `unshift`, `push`, the `likes` write or `splice` has already changed memory, so the stored text stays old, or only `kt_posts` is updated. The exception then escapes the operation. `Persisted()` is therefore promised only for runs in which every write succeeds.
- Ids are unbounded integers. JavaScript numbers (doubles, `NaN`, the `Number(...)` conversion of a button's data attribute) are not modelled.
- Posts.LikeCount: the like counter is modelled as an optional integer. `p.likes || 0` on other stored values (strings, `NaN`) is not modelled.
- The DOM code in js/foro.js is not modelled: `renderPosts`, the `DOMContentLoaded` handler with its form and click wiring, and `openComments` (js/foro.js:59-162). This is user-interface code. That includes the form handlers' trimming and non-empty checks of titles, contents and comments.
- js/app.js only highlights navigation links in the DOM, so it is not modelled.
