/**
 The two tables of the likes store and the read-only queries over them.

 A post row holds its content; its id is the key under which the store keeps it.
 A like row records that one user liked one post. The surrogate `id` column of
 the likes table and the two timestamp columns are never read by any handler,
 so they are not part of a row here.
 */
module Tables {

  datatype Post = Post(content: string)

  datatype Like = Like(postId: int, userId: string)

  /** One row of the top-posts answer: a post id and its number of likes. */
  datatype LikeCount = LikeCount(postId: int, likeCount: nat)

  /** The query of get_likes: how many like rows carry post id `p`. */
  function CountLikes(likes: seq<Like>, p: int): (n: nat)
    ensures n <= |likes|
  {
    if likes == [] then 0
    else
      var last := likes[|likes| - 1];
      CountLikes(likes[..|likes| - 1], p) + (if last.postId == p then 1 else 0)
  }

  /** The positions of the like rows that refer to post `p`. */
  ghost function RowsOf(likes: seq<Like>, p: int): set<int>
  {
    set i | 0 <= i < |likes| && likes[i].postId == p
  }

  /** The users who liked post `p`. */
  ghost function UsersWhoLiked(likes: seq<Like>, p: int): set<string>
  {
    set i | 0 <= i < |likes| && likes[i].postId == p :: likes[i].userId
  }

  /** The uniqueness constraint `unique_like` on (post_id, user_id). */
  ghost predicate Unique(likes: seq<Like>)
  {
    forall i, j :: 0 <= i < j < |likes| ==> likes[i] != likes[j]
  }

  /** No post id occurs in two rows. */
  ghost predicate EachPostOnce(r: seq<LikeCount>)
  {
    forall i, j :: 0 <= i < j < |r| ==> r[i].postId != r[j].postId
  }

  /** Every row carries the post's true like count, which is at least one. */
  ghost predicate TrueCounts(likes: seq<Like>, r: seq<LikeCount>)
  {
    forall i :: 0 <= i < |r| ==> r[i].likeCount == CountLikes(likes, r[i].postId) >= 1
  }

  /** Appending one like row raises the count of its post by one and no other. */
  lemma CountLikesAppend(likes: seq<Like>, l: Like, p: int)
    ensures CountLikes(likes + [l], p) == CountLikes(likes, p) + (if l.postId == p then 1 else 0)
  {
    assert (likes + [l])[..|likes|] == likes;
  }

  /** A post has no likes exactly when no like row refers to it. */
  lemma {:induction false} CountLikesZero(likes: seq<Like>, p: int)
    ensures CountLikes(likes, p) == 0 <==> forall i :: 0 <= i < |likes| ==> likes[i].postId != p
  {
    if likes != [] {
      var n := |likes| - 1;
      CountLikesZero(likes[..n], p);
      assert forall i :: 0 <= i < n ==> likes[..n][i] == likes[i];
    }
  }

  /** The count of get_likes is the number of rows referring to the post. */
  lemma {:induction false} CountLikesIsRows(likes: seq<Like>, p: int)
    ensures CountLikes(likes, p) == |RowsOf(likes, p)|
  {
    if likes != [] {
      var n := |likes| - 1;
      var prefix := likes[..n];
      CountLikesIsRows(prefix, p);
      if likes[n].postId == p {
        assert RowsOf(likes, p) == RowsOf(prefix, p) + {n};
      } else {
        assert RowsOf(likes, p) == RowsOf(prefix, p);
      }
    }
  }

  /**
   Under the uniqueness constraint the count of a post is the number of
   distinct users who liked it.
   */
  lemma {:induction false} CountLikesIsUsers(likes: seq<Like>, p: int)
    ensures Unique(likes) ==> CountLikes(likes, p) == |UsersWhoLiked(likes, p)|
  {
    if likes != [] && Unique(likes) {
      var n := |likes| - 1;
      var prefix := likes[..n];
      assert Unique(prefix);
      CountLikesIsUsers(prefix, p);
      if likes[n].postId == p {
        assert UsersWhoLiked(likes, p) == UsersWhoLiked(prefix, p) + {likes[n].userId};
        forall i | 0 <= i < n && prefix[i].postId == p
          ensures prefix[i].userId != likes[n].userId
        {
          assert prefix[i] == likes[i] != likes[n];
        }
      } else {
        assert UsersWhoLiked(likes, p) == UsersWhoLiked(prefix, p);
      }
    }
  }

  /**
   The GROUP BY post_id of get_top_posts: the distinct post ids that have at
   least one like, in the order of their first like.
   */
  function LikedPosts(likes: seq<Like>): (ids: seq<int>)
    ensures forall i, j :: 0 <= i < j < |ids| ==> ids[i] != ids[j]
    ensures forall p :: p in ids <==> CountLikes(likes, p) > 0
  {
    if likes == [] then []
    else
      var n := |likes| - 1;
      var prev := LikedPosts(likes[..n]);
      assert forall p :: CountLikes(likes, p) > 0 <==> CountLikes(likes[..n], p) > 0 || likes[n].postId == p;
      if likes[n].postId in prev then prev else prev + [likes[n].postId]
  }

  /**
   Group-by with COUNT(*): one row per liked post, with its count. No post has
   two rows, and every row carries a true count of at least one.
   */
  function Groups(likes: seq<Like>): (rows: seq<LikeCount>)
    ensures EachPostOnce(rows)
    ensures TrueCounts(likes, rows)
  {
    var ids := LikedPosts(likes);
    assert forall i :: 0 <= i < |ids| ==> ids[i] in ids;
    seq(|ids|, i requires 0 <= i < |ids| => LikeCount(ids[i], CountLikes(likes, ids[i])))
  }

  /** Every liked post has its row, with its count, among the grouped rows. */
  lemma GroupsComplete(likes: seq<Like>)
    ensures forall p :: CountLikes(likes, p) > 0 ==> LikeCount(p, CountLikes(likes, p)) in Groups(likes)
  {
    var ids := LikedPosts(likes);
    var rows := Groups(likes);
    forall p | CountLikes(likes, p) > 0
      ensures LikeCount(p, CountLikes(likes, p)) in rows
    {
      var i :| 0 <= i < |ids| && ids[i] == p;
      assert rows[i] == LikeCount(p, CountLikes(likes, p));
    }
  }
}
