/**
 * The forum store: the posts and the favorites of one browser page, kept
 * in memory and written back to local storage after every change.
 */
module Foro {
  import opened Wrappers
  import opened Posts
  import Favorites
  import Text

  /**
   * What local storage holds under the keys `kt_posts` and `kt_fav`, each
   * `None` while the key is unset. The JSON text is left abstract: a value
   * stands for the text it is stored as.
   */
  datatype Store = Store(posts: Option<seq<Post>>, favorites: Option<seq<int>>)

  /** The posts the constructor reads back: the stored list, or an empty list when the key is unset. */
  function LoadedPosts(s: Store): seq<Post> {
    s.posts.GetOr([])
  }

  /** The favorites the constructor reads back: the stored list, or an empty list when the key is unset. */
  function LoadedFavorites(s: Store): seq<int> {
    s.favorites.GetOr([])
  }

  class Forum {
    var posts: seq<Post>
    var favorites: seq<int>
    /** The persistent copy, as `save` last wrote it (or as the page found it). */
    var store: Store

    /** Reloading from storage would give back the state in memory. */
    predicate Persisted()
      reads this
    {
      LoadedPosts(store) == posts && LoadedFavorites(store) == favorites
    }

    /** `new Forum()`: the state read from storage, empty lists for unset keys. */
    constructor (stored: Store)
      ensures store == stored
      ensures posts == LoadedPosts(stored) && favorites == LoadedFavorites(stored)
      ensures Persisted()
    {
      posts := LoadedPosts(stored);
      favorites := LoadedFavorites(stored);
      store := stored;
    }

    /** `save()`: both lists are written out, so that reloading gives them back. */
    method Save()
      modifies this
      ensures posts == old(posts) && favorites == old(favorites)
      ensures store == Store(Some(posts), Some(favorites))
      ensures Persisted()
    {
      store := Store(Some(posts), Some(favorites));
    }

    /**
     * `createPost(title, content)`, with the id and the timestamp that the
     * clock would give passed in. The new post, with no comments and zero
     * likes, goes in front of the old posts, and the state is saved.
     */
    method CreatePost(id: int, title: string, content: string, createdAt: string) returns (post: Post)
      modifies this
      ensures post.id == id && post.title == title && post.content == content
      ensures post.comments == [] && post.likes == Some(0) && post.createdAt == createdAt
      ensures posts == [post] + old(posts) && favorites == old(favorites)
      ensures FindPost(posts, id) == Some(0)
      ensures store == Store(Some(posts), Some(favorites)) && Persisted()
    {
      post := NewPost(id, title, content, createdAt);
      posts := [post] + posts;
      Save();
    }

    /**
     * `addComment(postId, text)`, with the comment's id and timestamp passed
     * in. With no post of that id nothing happens, nothing is saved and the
     * result is `None`; otherwise the comment is appended to the first such
     * post, the state is saved and the updated post is returned.
     */
    method AddComment(postId: int, commentId: int, text: string, createdAt: string)
      returns (r: Option<Post>)
      modifies this
      ensures posts == WithComment(old(posts), postId, Comment(commentId, text, createdAt))
      ensures favorites == old(favorites)
      ensures FindPost(old(posts), postId).None? ==> r.None? && store == old(store)
      ensures FindPost(old(posts), postId).Some? ==>
        && r == Some(posts[FindPost(old(posts), postId).value])
        && store == Store(Some(posts), Some(favorites))
      ensures old(Persisted()) ==> Persisted()
    {
      var found := FindPost(posts, postId);
      if found.None? {
        return None;
      }
      var i := found.value;
      var p := posts[i];
      posts := posts[i := p.(comments := p.comments + [Comment(commentId, text, createdAt)])];
      Save();
      r := Some(posts[i]);
    }

    /**
     * `toggleLike(postId)`: with no post of that id nothing happens, nothing
     * is saved and the result is `None`; otherwise the first such post's
     * counter goes up by one, the state is saved and the post is returned.
     * There is no way down.
     */
    method ToggleLike(postId: int) returns (r: Option<Post>)
      modifies this
      ensures posts == WithLike(old(posts), postId)
      ensures favorites == old(favorites)
      ensures FindPost(old(posts), postId).None? ==> r.None? && store == old(store)
      ensures FindPost(old(posts), postId).Some? ==>
        && r == Some(posts[FindPost(old(posts), postId).value])
        && store == Store(Some(posts), Some(favorites))
      ensures old(Persisted()) ==> Persisted()
    {
      var found := FindPost(posts, postId);
      if found.None? {
        return None;
      }
      var i := found.value;
      var p := posts[i];
      posts := posts[i := p.(likes := Some(LikeCount(p) + 1))];
      Save();
      r := Some(posts[i]);
    }

    /**
     * `toggleFavorite(postId)`: the id is appended when absent and its first
     * occurrence removed when present, whether or not a post has that id;
     * the state is always saved.
     */
    method ToggleFavorite(postId: int)
      modifies this
      ensures favorites == Favorites.Toggled(old(favorites), postId)
      ensures posts == old(posts)
      ensures store == Store(Some(posts), Some(favorites)) && Persisted()
    {
      var idx := Favorites.IndexOf(favorites, postId);
      if idx == -1 {
        favorites := favorites + [postId];
      } else {
        favorites := favorites[..idx] + favorites[idx + 1..];
      }
      Save();
    }

    /**
     * `search(q)`: a query that is blank once trimmed gives the whole list of
     * posts; any other query gives, in their order, exactly the posts whose
     * lowercased title or content contains the trimmed, lowercased query.
     * Reading only, it changes nothing.
     */
    function Search(q: string): (r: seq<Post>)
      reads this
      ensures Text.IsBlank(q) ==> r == posts
      ensures !Text.IsBlank(q) ==> SubsequenceOf(r, posts)
      ensures !Text.IsBlank(q) ==> forall j :: 0 <= j < |r| ==> Matches(r[j], Text.Normalize(q))
      ensures !Text.IsBlank(q) ==> forall p ::
        multiset(r)[p] == if Matches(p, Text.Normalize(q)) then multiset(posts)[p] else 0
    {
      var query := Text.Normalize(q);
      if query == [] then posts else Filter(posts, query)
    }
  }

  /**
   * A session on an empty store: post, like twice, comment, favorite and
   * unfavorite, search, and reload the page.
   */
  method Session() {
    var forum := new Forum(Store(None, None));
    assert forum.posts == [] && forum.favorites == [];
    var post := forum.CreatePost(1, "Hello", "World", "2024-01-01T00:00:00.000Z");
    assert forum.posts == [post];
    var liked := forum.ToggleLike(post.id);
    assert LikeCount(forum.posts[0]) == 1;
    liked := forum.ToggleLike(post.id);
    assert LikeCount(forum.posts[0]) == 2;
    var commented := forum.AddComment(post.id, 2, "Nice!", "2024-01-01T00:00:01.000Z");
    assert |forum.posts| == 1 && |forum.posts[0].comments| == 1;
    assert forum.posts[0].title == "Hello" && forum.posts[0].content == "World";
    forum.ToggleFavorite(post.id);
    assert post.id in forum.favorites;
    forum.ToggleFavorite(post.id);
    assert post.id !in forum.favorites;
    SessionSearches(forum);
    var reloaded := new Forum(forum.store);
    assert reloaded.posts == forum.posts && reloaded.favorites == forum.favorites;
  }

  /** The session's searches: "hello" finds the one post, "zzz" finds nothing. */
  method SessionSearches(forum: Forum)
    requires |forum.posts| == 1
    requires forum.posts[0].title == "Hello" && forum.posts[0].content == "World"
  {
    var p := forum.posts[0];
    assert forum.posts == [p];
    SessionQueries();
    SessionMatches(p);
    var found := forum.Search("hello");
    var none := forum.Search("zzz");
    // The one post matches "hello", so it occurs once in `found`, which is no longer than the list.
    SubsequenceShorter(found, forum.posts);
    assert multiset(found)[p] == 1;
    assert p in found && |found| == 1;
    assert found == [found[0]];
    // No post matches "zzz", so no value occurs in `none`.
    forall x ensures multiset(none)[x] == 0 {
      if x != p {
        assert multiset(forum.posts)[x] == 0;
      }
    }
    assert multiset(none) == multiset{};
    assert found == forum.posts && none == [];
  }

  /** The two queries of the session are already trimmed and lowercase. */
  lemma SessionQueries()
    ensures Text.Normalize("hello") == "hello" && Text.Normalize("zzz") == "zzz"
  {
    Text.NormalizeFixed("hello");
    Text.NormalizeFixed("zzz");
  }

  /** The session's title and body, lowercased. */
  lemma SessionLowercase()
    ensures Text.Lower("Hello") == "hello" && Text.Lower("World") == "world"
  {
    var title, content := Text.Lower("Hello"), Text.Lower("World");
    assert title[0] == 'h' && title[1] == 'e' && title[2] == 'l' && title[3] == 'l' && title[4] == 'o';
    assert content[0] == 'w' && content[1] == 'o' && content[2] == 'r' && content[3] == 'l' && content[4] == 'd';
  }

  /** Neither lowercased text of the session contains "zzz". */
  lemma SessionNoZzz()
    ensures !Text.Contains("hello", "zzz") && !Text.Contains("world", "zzz")
  {
    Text.MissingCharNotContained("hello", "zzz", 0);
    Text.MissingCharNotContained("world", "zzz", 0);
  }

  /** The post titled "Hello" with body "World" matches "hello" and not "zzz". */
  lemma SessionMatches(p: Post)
    requires p.title == "Hello" && p.content == "World"
    ensures Matches(p, "hello") && !Matches(p, "zzz")
  {
    SessionLowercase();
    SessionNoZzz();
    assert "hello" <= Text.Lower(p.title);
  }
}
