/**
 * Posts and comments as values, and the pure functions that say what the
 * forum's mutating operations do to its list of posts.
 */
module Posts {
  import opened Wrappers
  import Text

  /** A comment as `addComment` builds it: an id, the text and a timestamp. */
  datatype Comment = Comment(id: int, text: string, createdAt: string)

  /**
   * A post record. `likes` is optional because a record read back from
   * storage need not carry it; the forum then counts it as 0.
   */
  datatype Post = Post(
    id: int,
    title: string,
    content: string,
    comments: seq<Comment>,
    likes: Option<int>,
    createdAt: string)

  /** `p.likes || 0`: the like counter, a missing one counting as 0. */
  function LikeCount(p: Post): int {
    p.likes.GetOr(0)
  }

  /** The record `createPost` builds: no comments yet and zero likes. */
  function NewPost(id: int, title: string, content: string, createdAt: string): (r: Post)
    ensures forall ps: seq<Post> :: FindPost([r] + ps, id) == Some(0)
  {
    Post(id, title, content, [], Some(0), createdAt)
  }

  /**
   * `posts.find(x => x.id === id)`, as the index of the post found: the
   * first post whose id is `id`, or `None` when no post has it.
   */
  function FindPost(posts: seq<Post>, id: int): (r: Option<nat>)
    ensures r.None? ==> forall j :: 0 <= j < |posts| ==> posts[j].id != id
    ensures r.Some? ==> r.value < |posts| && posts[r.value].id == id
    ensures r.Some? ==> forall j :: 0 <= j < r.value ==> posts[j].id != id
  {
    if posts == [] then None
    else if posts[0].id == id then Some(0)
    else match FindPost(posts[1..], id)
      case None => None
      case Some(k) => Some(k + 1)
  }

  /** The two lists hold posts with the same ids in the same places. */
  predicate SameIds(a: seq<Post>, b: seq<Post>) {
    |a| == |b| && forall j :: 0 <= j < |a| ==> a[j].id == b[j].id
  }

  /** Changing posts without changing their ids leaves every lookup where it was. */
  lemma FindSameIds(a: seq<Post>, b: seq<Post>, id: int)
    requires SameIds(a, b)
    ensures FindPost(a, id) == FindPost(b, id)
  {
  }

  /**
   * The list after `addComment(id, …)` with comment `c`: when some post has
   * the id, `c` goes at the end of the first such post's comments and
   * nothing else changes; otherwise the list is as it was.
   */
  function WithComment(posts: seq<Post>, id: int, c: Comment): (r: seq<Post>)
    ensures SameIds(r, posts)
    ensures FindPost(posts, id).None? ==> r == posts
    ensures FindPost(posts, id).Some? ==>
      var i := FindPost(posts, id).value;
      && r[i].comments == posts[i].comments + [c]
      && r[i].title == posts[i].title && r[i].content == posts[i].content
      && r[i].likes == posts[i].likes && r[i].createdAt == posts[i].createdAt
      && forall j :: 0 <= j < |posts| && j != i ==> r[j] == posts[j]
  {
    match FindPost(posts, id)
    case None => posts
    case Some(i) => posts[i := posts[i].(comments := posts[i].comments + [c])]
  }

  /**
   * The list after `toggleLike(id)`: when some post has the id, the first
   * such post's counter becomes its old count plus one and nothing else
   * changes; otherwise the list is as it was.
   */
  function WithLike(posts: seq<Post>, id: int): (r: seq<Post>)
    ensures SameIds(r, posts)
    ensures FindPost(posts, id).None? ==> r == posts
    ensures FindPost(posts, id).Some? ==>
      var i := FindPost(posts, id).value;
      && r[i].likes == Some(LikeCount(posts[i]) + 1)
      && r[i].title == posts[i].title && r[i].content == posts[i].content
      && r[i].comments == posts[i].comments && r[i].createdAt == posts[i].createdAt
      && forall j :: 0 <= j < |posts| && j != i ==> r[j] == posts[j]
  {
    match FindPost(posts, id)
    case None => posts
    case Some(i) => posts[i := posts[i].(likes := Some(LikeCount(posts[i]) + 1))]
  }

  /**
   * `q` is a later version of post `p`: the same record with possibly more
   * comments appended and possibly more likes.
   */
  predicate Grew(p: Post, q: Post) {
    && q.id == p.id && q.title == p.title && q.content == p.content
    && q.createdAt == p.createdAt
    && p.comments <= q.comments
    && LikeCount(p) <= LikeCount(q)
  }

  /**
   * `b` is a later version of the list `a`: new posts may have come in at
   * the front, and every old post, in its old order, has only grown.
   */
  predicate Extends(a: seq<Post>, b: seq<Post>) {
    |a| <= |b| && forall j :: 0 <= j < |a| ==> Grew(a[j], b[|b| - |a| + j])
  }

  /** A later version of a later version is a later version. */
  lemma ExtendsTransitive(a: seq<Post>, b: seq<Post>, c: seq<Post>)
    requires Extends(a, b) && Extends(b, c)
    ensures Extends(a, c)
  {
    forall j | 0 <= j < |a| ensures Grew(a[j], c[|c| - |a| + j]) {
      var k := |b| - |a| + j;
      assert Grew(b[k], c[|c| - |b| + k]);
    }
  }

  /** Creating a post only extends the list: the old posts follow the new one unchanged. */
  lemma CreateExtends(posts: seq<Post>, p: Post)
    ensures Extends(posts, [p] + posts)
  {
    assert forall j :: 0 <= j < |posts| ==> ([p] + posts)[1 + j] == posts[j];
  }

  /** Commenting only extends the list: one comment list grows at its end. */
  lemma CommentExtends(posts: seq<Post>, id: int, c: Comment)
    ensures Extends(posts, WithComment(posts, id, c))
  {
    var r := WithComment(posts, id, c);
    forall j | 0 <= j < |posts| ensures Grew(posts[j], r[j]) {
      if FindPost(posts, id) != Some(j) {
        assert r[j] == posts[j];
      }
    }
  }

  /** Liking only extends the list: one counter goes up. */
  lemma LikeExtends(posts: seq<Post>, id: int)
    ensures Extends(posts, WithLike(posts, id))
  {
    var r := WithLike(posts, id);
    forall j | 0 <= j < |posts| ensures Grew(posts[j], r[j]) {
      if FindPost(posts, id) != Some(j) {
        assert r[j] == posts[j];
      }
    }
  }

  /** The list after `k` calls of `toggleLike(id)`. */
  function LikedTimes(posts: seq<Post>, id: int, k: nat): seq<Post>
    decreases k
  {
    if k == 0 then posts else LikedTimes(WithLike(posts, id), id, k - 1)
  }

  /**
   * `k` likes on the same id add exactly `k` to the first post with that id
   * and change no other post.
   */
  lemma {:induction false} LikesAddUp(posts: seq<Post>, id: int, k: nat)
    requires FindPost(posts, id).Some?
    ensures var i, r := FindPost(posts, id).value, LikedTimes(posts, id, k);
      && SameIds(r, posts)
      && LikeCount(r[i]) == LikeCount(posts[i]) + k
      && r[i].comments == posts[i].comments
      && forall j :: 0 <= j < |posts| && j != i ==> r[j] == posts[j]
    decreases k
  {
    if k > 0 {
      var i := FindPost(posts, id).value;
      var once := WithLike(posts, id);
      FindSameIds(once, posts, id);
      LikesAddUp(once, id, k - 1);
      assert LikedTimes(once, id, k - 1) == LikedTimes(posts, id, k);
      LikeStep(posts, once, LikedTimes(once, id, k - 1), i, k - 1);
    }
  }

  /** One like followed by `k` more on the same post is `k + 1` likes on it. */
  lemma LikeStep(posts: seq<Post>, once: seq<Post>, r: seq<Post>, i: nat, k: nat)
    requires i < |posts| && SameIds(once, posts) && SameIds(r, once)
    requires LikeCount(once[i]) == LikeCount(posts[i]) + 1 && once[i].comments == posts[i].comments
    requires forall j :: 0 <= j < |posts| && j != i ==> once[j] == posts[j]
    requires LikeCount(r[i]) == LikeCount(once[i]) + k && r[i].comments == once[i].comments
    requires forall j :: 0 <= j < |once| && j != i ==> r[j] == once[j]
    ensures SameIds(r, posts)
    ensures LikeCount(r[i]) == LikeCount(posts[i]) + (k + 1) && r[i].comments == posts[i].comments
    ensures forall j :: 0 <= j < |posts| && j != i ==> r[j] == posts[j]
  {
  }

  /** The list after one `addComment(id, …)` for each comment of `cs`, in order. */
  function CommentedAll(posts: seq<Post>, id: int, cs: seq<Comment>): seq<Post>
    decreases |cs|
  {
    if cs == [] then posts else CommentedAll(WithComment(posts, id, cs[0]), id, cs[1..])
  }

  /**
   * Comments made one after another on the same id end up, in call order,
   * after the comments the first post with that id already had.
   */
  lemma {:induction false} CommentsInOrder(posts: seq<Post>, id: int, cs: seq<Comment>)
    requires FindPost(posts, id).Some?
    ensures var i, r := FindPost(posts, id).value, CommentedAll(posts, id, cs);
      && SameIds(r, posts)
      && r[i].comments == posts[i].comments + cs
      && r[i].likes == posts[i].likes
      && forall j :: 0 <= j < |posts| && j != i ==> r[j] == posts[j]
    decreases |cs|
  {
    var i := FindPost(posts, id).value;
    if cs == [] {
      assert posts[i].comments + cs == posts[i].comments;
    } else {
      var once := WithComment(posts, id, cs[0]);
      FindSameIds(once, posts, id);
      CommentsInOrder(once, id, cs[1..]);
      assert CommentedAll(once, id, cs[1..]) == CommentedAll(posts, id, cs);
      CommentStep(posts, once, CommentedAll(once, id, cs[1..]), i, cs[0], cs[1..]);
      assert [cs[0]] + cs[1..] == cs;
    }
  }

  /** One comment followed by a run of comments on the same post is the whole run on it. */
  lemma CommentStep(posts: seq<Post>, once: seq<Post>, r: seq<Post>, i: nat, c: Comment, rest: seq<Comment>)
    requires i < |posts| && SameIds(once, posts) && SameIds(r, once)
    requires once[i].comments == posts[i].comments + [c] && once[i].likes == posts[i].likes
    requires forall j :: 0 <= j < |posts| && j != i ==> once[j] == posts[j]
    requires r[i].comments == once[i].comments + rest && r[i].likes == once[i].likes
    requires forall j :: 0 <= j < |once| && j != i ==> r[j] == once[j]
    ensures SameIds(r, posts)
    ensures r[i].comments == posts[i].comments + ([c] + rest) && r[i].likes == posts[i].likes
    ensures forall j :: 0 <= j < |posts| && j != i ==> r[j] == posts[j]
  {
  }

  /** `s` backwards. */
  function Reversed<T>(s: seq<T>): (r: seq<T>)
    ensures |r| == |s|
    ensures forall k :: 0 <= k < |s| ==> r[k] == s[|s| - 1 - k]
  {
    if s == [] then [] else Reversed(s[1..]) + [s[0]]
  }

  /** The list after `createPost` has put each post of `news` at the front, in order. */
  function CreatedAll(posts: seq<Post>, news: seq<Post>): seq<Post>
    decreases |news|
  {
    if news == [] then posts else CreatedAll([news[0]] + posts, news[1..])
  }

  /** After a run of creations the newest post comes first: the list is the run reversed, then the old list. */
  lemma {:induction false} CreationOrder(posts: seq<Post>, news: seq<Post>)
    ensures CreatedAll(posts, news) == Reversed(news) + posts
    decreases |news|
  {
    if news != [] {
      CreationOrder([news[0]] + posts, news[1..]);
      assert Reversed(news) == Reversed(news[1..]) + [news[0]];
    }
  }

  /** The match test of `search`: the lowercased title or content contains the query. */
  predicate Matches(p: Post, query: string)
    ensures query == [] ==> Matches(p, query)
    ensures Matches(p, query) ==> |query| <= |p.title| || |query| <= |p.content|
  {
    Text.Contains(Text.Lower(p.title), query) || Text.Contains(Text.Lower(p.content), query)
  }

  /** `r` is `s` with some elements left out and the rest in their order. */
  predicate SubsequenceOf<T(==)>(r: seq<T>, s: seq<T>)
    decreases |s|
  {
    r == [] || (s != [] && ((r[0] == s[0] && SubsequenceOf(r[1..], s[1..])) || SubsequenceOf(r, s[1..])))
  }

  /** A subsequence is never longer than the sequence it is taken from. */
  lemma {:induction false} SubsequenceShorter<T>(r: seq<T>, s: seq<T>)
    requires SubsequenceOf(r, s)
    ensures |r| <= |s|
    decreases |s|
  {
    if r != [] {
      if r[0] == s[0] && SubsequenceOf(r[1..], s[1..]) {
        SubsequenceShorter(r[1..], s[1..]);
      } else {
        SubsequenceShorter(r, s[1..]);
      }
    }
  }

  /**
   * `posts.filter(p => matches(p, query))`: the posts that match, in their
   * order, each as often as it occurs in `posts`, and no other.
   */
  function Filter(posts: seq<Post>, query: string): (r: seq<Post>)
    ensures SubsequenceOf(r, posts)
    ensures forall j :: 0 <= j < |r| ==> Matches(r[j], query)
    ensures forall p :: multiset(r)[p] == if Matches(p, query) then multiset(posts)[p] else 0
  {
    if posts == [] then []
    else
      var rest := Filter(posts[1..], query);
      assert posts == [posts[0]] + posts[1..];
      if Matches(posts[0], query) then
        assert ([posts[0]] + rest)[1..] == rest;
        [posts[0]] + rest
      else rest
  }
}
