/**
 The top-posts query: group the like rows by post, count them, order by the
 count descending and keep the first five.

 The query leaves the order among posts with equal counts to the database. This
 model fixes it: equal counts are ordered by ascending post id.
 */
module Ranking {
  import opened Tables

  /** The LIMIT of the top-posts query. */
  const TopLimit: nat := 5

  /** `a` may stand before `b`: more likes, or as many likes and a smaller id. */
  predicate RankedBefore(a: LikeCount, b: LikeCount)
  {
    a.likeCount > b.likeCount || (a.likeCount == b.likeCount && a.postId <= b.postId)
  }

  ghost predicate Sorted(rows: seq<LikeCount>)
  {
    forall i, j :: 0 <= i < j < |rows| ==> RankedBefore(rows[i], rows[j])
  }

  /** Places `x` before the first row of `rows` that it ranks before. */
  function Insert(x: LikeCount, rows: seq<LikeCount>): (r: seq<LikeCount>)
    ensures multiset(r) == multiset(rows) + multiset{x}
    ensures forall y :: y in r <==> y == x || y in rows
  {
    if rows == [] then [x]
    else if RankedBefore(x, rows[0]) then [x] + rows
    else
      assert rows == [rows[0]] + rows[1..];
      [rows[0]] + Insert(x, rows[1..])
  }

  /** Inserting into a sorted table keeps it sorted. */
  lemma {:induction false} InsertKeepsSorted(x: LikeCount, rows: seq<LikeCount>)
    requires Sorted(rows)
    ensures Sorted(Insert(x, rows))
  {
    var r := Insert(x, rows);
    if rows == [] {
    } else if RankedBefore(x, rows[0]) {
      assert r == [x] + rows;
      forall i, j | 0 <= i < j < |r|
        ensures RankedBefore(r[i], r[j])
      {
        if i == 0 {
          assert r[j] == rows[j - 1];
          assert RankedBefore(rows[0], rows[j - 1]) || j == 1;
        } else {
          assert r[i] == rows[i - 1] && r[j] == rows[j - 1];
        }
      }
    } else {
      var rest := Insert(x, rows[1..]);
      InsertKeepsSorted(x, rows[1..]);
      assert r == [rows[0]] + rest;
      forall i, j | 0 <= i < j < |r|
        ensures RankedBefore(r[i], r[j])
      {
        if i == 0 {
          assert r[j] == rest[j - 1] && r[j] in rest;
          if r[j] != x {
            var m :| 0 <= m < |rows[1..]| && rows[1..][m] == r[j];
            assert rows[m + 1] == r[j];
          }
        } else {
          assert r[i] == rest[i - 1] && r[j] == rest[j - 1];
        }
      }
    }
  }

  /** ORDER BY like_count DESC, then post id ascending. */
  function SortRows(rows: seq<LikeCount>): (r: seq<LikeCount>)
    ensures multiset(r) == multiset(rows)
    ensures Sorted(r)
  {
    if rows == [] then []
    else
      assert rows == [rows[0]] + rows[1..];
      InsertKeepsSorted(rows[0], SortRows(rows[1..]));
      Insert(rows[0], SortRows(rows[1..]))
  }

  /**
   The answer of get_top_posts for the given likes table: five of the grouped
   rows, or all of them when there are fewer.
   */
  function TopPosts(likes: seq<Like>): (r: seq<LikeCount>)
    ensures |r| == if |Groups(likes)| < TopLimit then |Groups(likes)| else TopLimit
    ensures forall i :: 0 <= i < |r| ==> r[i] in Groups(likes)
  {
    var sorted := SortRows(Groups(likes));
    assert |sorted| == |multiset(sorted)| == |Groups(likes)|;
    assert forall i :: 0 <= i < |sorted| ==> sorted[i] in multiset(Groups(likes));
    sorted[..if |sorted| < TopLimit then |sorted| else TopLimit]
  }

  /** Rows ordered by like count, non-increasing. */
  ghost predicate ByCountDescending(r: seq<LikeCount>)
  {
    forall i, j :: 0 <= i < j < |r| ==> r[i].likeCount >= r[j].likeCount
  }

  /**
   A liked post is left out only when all places are taken, and then it has no
   more likes than any row that was kept.
   */
  ghost predicate NoneLeftOutAbove(likes: seq<Like>, r: seq<LikeCount>)
  {
    forall q :: CountLikes(likes, q) > 0 && (forall i :: 0 <= i < |r| ==> r[i].postId != q) ==>
      |r| == TopLimit && forall i :: 0 <= i < |r| ==> r[i].likeCount >= CountLikes(likes, q)
  }

  /** What a correct top-five answer is, whatever the tie-break. */
  ghost predicate IsTopPosts(likes: seq<Like>, r: seq<LikeCount>)
  {
    && |r| <= TopLimit
    && ByCountDescending(r)
    && EachPostOnce(r)
    && TrueCounts(likes, r)
    && NoneLeftOutAbove(likes, r)
  }

  /** A sequence without repeated elements holds each value at most once. */
  lemma {:induction false} DistinctMultiplicity(s: seq<LikeCount>, x: LikeCount)
    requires forall i, j :: 0 <= i < j < |s| ==> s[i] != s[j]
    ensures multiset(s)[x] <= 1
  {
    if s != [] {
      assert s == [s[0]] + s[1..];
      DistinctMultiplicity(s[1..], x);
      if s[0] == x {
        assert x !in s[1..];
      }
    }
  }

  /** A value at two positions occurs at least twice. */
  lemma RepeatedMultiplicity(s: seq<LikeCount>, i: nat, j: nat)
    requires i < j < |s| && s[i] == s[j]
    ensures multiset(s)[s[i]] >= 2
  {
    assert s == s[..j] + s[j..];
    assert s[..j][i] == s[i];
    assert s[j..][0] == s[i];
  }

  /** Reordering keeps a sequence free of repeated elements. */
  lemma PermutationKeepsDistinct(a: seq<LikeCount>, b: seq<LikeCount>)
    requires multiset(a) == multiset(b)
    requires forall i, j :: 0 <= i < j < |a| ==> a[i] != a[j]
    ensures forall i, j :: 0 <= i < j < |b| ==> b[i] != b[j]
  {
    forall i, j | 0 <= i < j < |b|
      ensures b[i] != b[j]
    {
      DistinctMultiplicity(a, b[i]);
      if b[i] == b[j] {
        RepeatedMultiplicity(b, i, j);
      }
    }
  }

  /**
   Sorting the grouped rows keeps them the liked posts, each once, each with
   its true count.
   */
  lemma SortedGroupsCorrect(likes: seq<Like>)
    ensures TrueCounts(likes, SortRows(Groups(likes)))
    ensures EachPostOnce(SortRows(Groups(likes)))
    ensures forall q :: CountLikes(likes, q) > 0 ==> LikeCount(q, CountLikes(likes, q)) in SortRows(Groups(likes))
  {
    var groups := Groups(likes);
    var sorted := SortRows(groups);
    GroupsComplete(likes);
    PermutationKeepsTrueCounts(likes, groups, sorted);
    PermutationKeepsDistinct(groups, sorted);
    forall q | CountLikes(likes, q) > 0
      ensures LikeCount(q, CountLikes(likes, q)) in sorted
    {
      assert LikeCount(q, CountLikes(likes, q)) in multiset(groups);
    }
  }

  /** Reordering a table keeps its counts true. */
  lemma PermutationKeepsTrueCounts(likes: seq<Like>, a: seq<LikeCount>, b: seq<LikeCount>)
    requires multiset(a) == multiset(b)
    requires TrueCounts(likes, a)
    ensures TrueCounts(likes, b)
  {
    forall i | 0 <= i < |b|
      ensures b[i].likeCount == CountLikes(likes, b[i].postId) >= 1
    {
      assert b[i] in multiset(a);
    }
  }

  /**
   A liked post missing from the first `k` rows of a sorted table that holds
   every liked post stands behind all of them, so the `k` places are all taken.
   */
  lemma LeftOutRanksLower(likes: seq<Like>, sorted: seq<LikeCount>, k: nat, q: int)
    requires Sorted(sorted) && k <= |sorted|
    requires LikeCount(q, CountLikes(likes, q)) in sorted
    requires forall i :: 0 <= i < k ==> sorted[i].postId != q
    ensures k < |sorted|
    ensures forall i :: 0 <= i < k ==> sorted[i].likeCount >= CountLikes(likes, q)
  {
    var m :| 0 <= m < |sorted| && sorted[m] == LikeCount(q, CountLikes(likes, q));
    assert forall i :: 0 <= i < k ==> RankedBefore(sorted[i], sorted[m]);
  }

  /** The first rows of a sorted table are ordered by count, ties by post id. */
  lemma PrefixByCount(sorted: seq<LikeCount>, k: nat)
    requires Sorted(sorted) && EachPostOnce(sorted) && k <= |sorted|
    ensures ByCountDescending(sorted[..k])
    ensures forall i, j :: 0 <= i < j < k && sorted[i].likeCount == sorted[j].likeCount
              ==> sorted[i].postId < sorted[j].postId
  {
    forall i, j | 0 <= i < j < k
      ensures sorted[i].likeCount >= sorted[j].likeCount
      ensures sorted[i].likeCount == sorted[j].likeCount ==> sorted[i].postId < sorted[j].postId
    {
      assert RankedBefore(sorted[i], sorted[j]);
      assert sorted[i].postId != sorted[j].postId;
    }
  }

  /** The first rows of a table with true counts carry true counts. */
  lemma PrefixTrueCounts(likes: seq<Like>, rows: seq<LikeCount>, k: nat)
    requires TrueCounts(likes, rows) && k <= |rows|
    ensures TrueCounts(likes, rows[..k])
  {
    forall i | 0 <= i < k
      ensures rows[..k][i].likeCount == CountLikes(likes, rows[..k][i].postId) >= 1
    {
      assert rows[..k][i] == rows[i];
    }
  }

  /**
   The first five rows of a sorted table that holds every liked post leave out
   no post with more likes than a row that was kept.
   */
  lemma PrefixNoneLeftOutAbove(likes: seq<Like>, sorted: seq<LikeCount>, k: nat)
    requires Sorted(sorted)
    requires k == if |sorted| < TopLimit then |sorted| else TopLimit
    requires forall q :: CountLikes(likes, q) > 0 ==> LikeCount(q, CountLikes(likes, q)) in sorted
    ensures NoneLeftOutAbove(likes, sorted[..k])
  {
    var r := sorted[..k];
    forall q | CountLikes(likes, q) > 0 && (forall i :: 0 <= i < |r| ==> r[i].postId != q)
      ensures |r| == TopLimit && forall i :: 0 <= i < |r| ==> r[i].likeCount >= CountLikes(likes, q)
    {
      LeftOutRanksLower(likes, sorted, k, q);
    }
  }

  /**
   The first rows of a sorted table of all liked posts, each once with its
   true count, are a correct top five.
   */
  lemma SortedPrefixIsTop(likes: seq<Like>, sorted: seq<LikeCount>, k: nat)
    requires Sorted(sorted)
    requires k == if |sorted| < TopLimit then |sorted| else TopLimit
    requires TrueCounts(likes, sorted)
    requires EachPostOnce(sorted)
    requires forall q :: CountLikes(likes, q) > 0 ==> LikeCount(q, CountLikes(likes, q)) in sorted
    ensures IsTopPosts(likes, sorted[..k])
    ensures forall i, j :: 0 <= i < j < k && sorted[i].likeCount == sorted[j].likeCount
              ==> sorted[i].postId < sorted[j].postId
  {
    PrefixByCount(sorted, k);
    PrefixTrueCounts(likes, sorted, k);
    PrefixNoneLeftOutAbove(likes, sorted, k);
    assert EachPostOnce(sorted[..k]) by {
      forall i, j | 0 <= i < j < k
        ensures sorted[..k][i].postId != sorted[..k][j].postId
      {
        assert sorted[i].postId != sorted[j].postId;
      }
    }
  }

  /** The answer is a correct top five, with ties ordered by ascending post id. */
  lemma TopPostsCorrect(likes: seq<Like>)
    ensures IsTopPosts(likes, TopPosts(likes))
    ensures forall i, j :: 0 <= i < j < |TopPosts(likes)| &&
              TopPosts(likes)[i].likeCount == TopPosts(likes)[j].likeCount
              ==> TopPosts(likes)[i].postId < TopPosts(likes)[j].postId
  {
    var sorted := SortRows(Groups(likes));
    var k := if |sorted| < TopLimit then |sorted| else TopLimit;
    SortedGroupsCorrect(likes);
    SortedPrefixIsTop(likes, sorted, k);
  }
}
