/**
 The likes service: one store holding the posts table and the likes table, and
 its four handlers. The two writing handlers are methods that update the
 tables; the two reading handlers are functions of the current tables.
 */
module LikesApi {
  import opened Tables
  import opened Ranking

  /** The outcome of like_post: success, no such post (404), or already liked (400). */
  datatype Outcome = Ok | NotFound | Conflict

  class LikeStore {
    /** The posts table, keyed by post id. */
    var posts: map<int, Post>
    /** The likes table, in insertion order. */
    var likes: seq<Like>
    /** The id the next post receives: one more than the largest id in use. */
    var nextId: int

    /**
     The store's invariant: post ids are positive and nextId is one more than
     the largest of them, or 1 while there are none (how an integer primary key
     is assigned); every like refers to an existing post; and no
     (post_id, user_id) pair occurs twice.
     */
    ghost predicate Valid()
      reads this
    {
      && (forall k :: k in posts ==> 1 <= k < nextId)
      && (if nextId == 1 then posts == map[] else nextId - 1 in posts)
      && (forall i :: 0 <= i < |likes| ==> likes[i].postId in posts)
      && Unique(likes)
    }

    /** The tables as created on startup: both empty. */
    constructor ()
      ensures Valid()
      ensures posts == map[] && likes == [] && nextId == 1
    {
      posts := map[];
      likes := [];
      nextId := 1;
    }

    /**
     get_likes: the number of like rows for `postId`, with no check that the
     post exists; an unknown post has no likes. That this count is the number
     of rows, and of distinct users, is CountLikesIsRows and CountLikesIsUsers.
     */
    function GetLikes(postId: int): (n: nat)
      reads this
      ensures n <= |likes|
      ensures n == 0 <==> forall i :: 0 <= i < |likes| ==> likes[i].postId != postId
      ensures Valid() && postId !in posts ==> n == 0
    {
      CountLikesZero(likes, postId);
      CountLikes(likes, postId)
    }

    /** get_top_posts: a correct top five of the liked posts, all of them existing posts. */
    function GetTopPosts(): (r: seq<LikeCount>)
      reads this
      ensures IsTopPosts(likes, r)
      ensures forall i :: 0 <= i < |r| ==> r[i].likeCount == GetLikes(r[i].postId)
      ensures Valid() ==> forall i :: 0 <= i < |r| ==> r[i].postId in posts
      ensures forall i, j :: 0 <= i < j < |r| && r[i].likeCount == r[j].likeCount ==> r[i].postId < r[j].postId
    {
      TopPostsCorrect(likes);
      TopPosts(likes)
    }

    /**
     create_post: stores a post under a fresh id and returns that id. The
     content is not checked (an empty string is accepted).
     */
    method CreatePost(content: string) returns (id: int)
      requires Valid()
      modifies this
      ensures Valid()
      ensures id == old(nextId) && nextId == old(nextId) + 1
      ensures id !in old(posts) && posts == old(posts)[id := Post(content)]
      ensures likes == old(likes)
      ensures GetLikes(id) == 0
    {
      id := nextId;
      posts := posts[id := Post(content)];
      nextId := nextId + 1;
    }

    /**
     like_post: refuses an unknown post with NotFound, then a repeated
     (post_id, user_id) pair with Conflict, and otherwise appends one like.
     */
    method LikePost(postId: int, userId: string) returns (outcome: Outcome)
      requires Valid()
      modifies this
      ensures Valid()
      ensures postId !in posts ==> outcome == NotFound
      ensures postId in posts && Like(postId, userId) in old(likes) ==> outcome == Conflict
      ensures outcome == Ok <==> postId in posts && Like(postId, userId) !in old(likes)
      ensures posts == old(posts) && nextId == old(nextId)
      ensures likes == if outcome == Ok then old(likes) + [Like(postId, userId)] else old(likes)
      ensures outcome == Ok ==> CountLikes(likes, postId) == CountLikes(old(likes), postId) + 1
      ensures forall q :: q != postId ==> CountLikes(likes, q) == CountLikes(old(likes), q)
    {
      if postId !in posts {
        return NotFound;
      }
      if Like(postId, userId) in likes {
        return Conflict;
      }
      ghost var before := likes;
      likes := likes + [Like(postId, userId)];
      outcome := Ok;
      forall q ensures CountLikes(likes, q) == CountLikes(before, q) + (if q == postId then 1 else 0) {
        CountLikesAppend(before, Like(postId, userId), q);
      }
    }
  }
}
