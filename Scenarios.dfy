/**
 Client runs of the likes service, derived from the methods' contracts and the
 query functions' definitions.
 */
module Scenarios {
  import opened Tables
  import opened Ranking
  import opened LikesApi

  /**
   A fresh store: create a post, like it as alice, again as alice, then as bob,
   read its count, and like a post that does not exist.
   */
  method FirstPostScenario()
    returns (id: int, first: Outcome, again: Outcome, bob: Outcome, count: nat, missing: Outcome)
    ensures id == 1
    ensures first == Ok && again == Conflict && bob == Ok
    ensures count == 2
    ensures missing == NotFound
  {
    var store := new LikeStore();
    id := store.CreatePost("hello");
    first, again, bob := AliceTwiceThenBob(store, id);
    count := store.GetLikes(id);
    assert [Like(1, "alice"), Like(1, "bob")][..1] == [Like(1, "alice")];
    missing := store.LikePost(999, "carol");
  }

  /** On a post without likes: alice likes it, alice again, then bob. */
  method AliceTwiceThenBob(store: LikeStore, id: int) returns (first: Outcome, again: Outcome, bob: Outcome)
    requires store.Valid() && store.posts.Keys == {id} && store.likes == []
    modifies store
    ensures store.Valid() && store.posts == old(store.posts)
    ensures store.likes == [Like(id, "alice"), Like(id, "bob")]
    ensures first == Ok && again == Conflict && bob == Ok
  {
    first := store.LikePost(id, "alice");
    assert store.likes == [Like(id, "alice")];
    again := store.LikePost(id, "alice");
    assert Like(id, "bob") !in store.likes by {
      assert "bob"[0] != "alice"[0];
    }
    bob := store.LikePost(id, "bob");
  }

  /**
   Liking a post twice as the same user: the first succeeds, the second is a
   Conflict, and the post gains exactly one like.
   */
  method LikeTwice(store: LikeStore, postId: int, userId: string) returns (first: Outcome, second: Outcome)
    requires store.Valid()
    requires postId in store.posts && Like(postId, userId) !in store.likes
    modifies store
    ensures store.Valid()
    ensures first == Ok && second == Conflict
    ensures store.GetLikes(postId) == old(store.GetLikes(postId)) + 1
  {
    first := store.LikePost(postId, userId);
    second := store.LikePost(postId, userId);
  }

  /**
   Two posts, the second liked once and the first twice: the top posts are the
   first, then the second.
   */
  method TopPostsScenario() returns (top: seq<LikeCount>)
    ensures top == [LikeCount(1, 2), LikeCount(2, 1)]
  {
    var store := new LikeStore();
    var _ := store.CreatePost("one");
    var _ := store.CreatePost("two");
    LikeSecondOnceFirstTwice(store);
    top := store.GetTopPosts();
    CountsOfThreeLikes();
    TopOfTwoPosts(store.likes, top);
  }

  /** On posts 1 and 2 without likes: ann likes post 2, then ann and ben like post 1. */
  method LikeSecondOnceFirstTwice(store: LikeStore)
    requires store.Valid() && store.posts.Keys == {1, 2} && store.likes == []
    modifies store
    ensures store.Valid() && store.posts == old(store.posts)
    ensures store.likes == [Like(2, "ann"), Like(1, "ann"), Like(1, "ben")]
  {
    var o := store.LikePost(2, "ann");
    assert store.likes == [Like(2, "ann")];
    o := store.LikePost(1, "ann");
    assert store.likes == [Like(2, "ann"), Like(1, "ann")];
    assert Like(1, "ben") !in store.likes by {
      assert "ben"[0] != "ann"[0];
    }
    o := store.LikePost(1, "ben");
  }

  /** The like counts of the table built by LikeSecondOnceFirstTwice. */
  lemma CountsOfThreeLikes()
    ensures CountLikes([Like(2, "ann"), Like(1, "ann"), Like(1, "ben")], 1) == 2
    ensures CountLikes([Like(2, "ann"), Like(1, "ann"), Like(1, "ben")], 2) == 1
    ensures forall x :: x != 1 && x != 2 ==> CountLikes([Like(2, "ann"), Like(1, "ann"), Like(1, "ben")], x) == 0
  {
    var likes := [Like(2, "ann"), Like(1, "ann"), Like(1, "ben")];
    assert likes[..2] == [Like(2, "ann"), Like(1, "ann")];
    assert likes[..2][..1] == [Like(2, "ann")];
    assert likes[..2][..1][..0] == [];
    forall x | x != 1 && x != 2
      ensures CountLikes(likes, x) == 0
    {
      CountLikesZero(likes, x);
    }
  }

  /** Rows naming each post at most once are no more than the posts they may name. */
  lemma {:induction false} RowsAtMostPosts(r: seq<LikeCount>, posts: set<int>)
    requires EachPostOnce(r)
    requires forall i :: 0 <= i < |r| ==> r[i].postId in posts
    ensures |r| <= |posts|
  {
    if r != [] {
      var n := |r| - 1;
      var rest := posts - {r[n].postId};
      forall i | 0 <= i < n
        ensures r[..n][i].postId in rest
      {
        assert r[i].postId != r[n].postId;
      }
      RowsAtMostPosts(r[..n], rest);
    }
  }

  /**
   When post 1 has two likes, post 2 one and no other post any, the only
   correct top five is post 1, then post 2.
   */
  lemma TopOfTwoPosts(likes: seq<Like>, r: seq<LikeCount>)
    requires IsTopPosts(likes, r)
    requires CountLikes(likes, 1) == 2 && CountLikes(likes, 2) == 1
    requires forall x :: x != 1 && x != 2 ==> CountLikes(likes, x) == 0
    ensures r == [LikeCount(1, 2), LikeCount(2, 1)]
  {
    assert TrueCounts(likes, r);
    assert forall i :: 0 <= i < |r| ==> r[i].postId == 1 || r[i].postId == 2;
    RowsAtMostPosts(r, {1, 2});
    assert NoneLeftOutAbove(likes, r);
    var a :| 0 <= a < |r| && r[a].postId == 1;
    var b :| 0 <= b < |r| && r[b].postId == 2;
    assert |r| == 2;
    assert ByCountDescending(r);
    assert a == 0 && b == 1;
    assert r[0] == LikeCount(1, 2) && r[1] == LikeCount(2, 1);
  }
}
