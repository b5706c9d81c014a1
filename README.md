# Likes store: a Dafny model

This project models the single-file "likes" service in `API.py`. The service keeps two tables:

- `posts`: an integer id and the post's text.
- `likes`: a `(post_id, user_id)` pair, kept unique by the `unique_like` constraint.

Four handlers work on these tables:

- `create_post` inserts a post and returns the new id.
- `like_post` returns 404 if the post is missing, 400 if the pair is already there, and otherwise inserts one like.
- `get_likes` counts the likes of a post id. It does not check that the post exists.
- `get_top_posts` groups the likes by post, counts them, orders by the count descending and keeps five rows.

The model has four modules:

- `Tables` (Tables.dfy): the row types. It also holds `CountLikes`, the query behind `get_likes`, and `Groups`, the GROUP BY/COUNT part of `get_top_posts`. Lemmas tie each one to an independent definition.
- `Ranking` (Ranking.dfy): the ORDER BY/LIMIT part. It defines `TopPosts` and `IsTopPosts`. `IsTopPosts` says what a correct top five is, whatever the tie-break. The main lemma proves that `TopPosts` is one.
- `LikesApi` (LikesApi.dfy): the class `LikeStore`. Its fields are the posts map, the likes sequence and the next post id. `Valid()` is the store's invariant. It says post ids are positive and the next id is one more than the largest, every like refers to an existing post, and no pair occurs twice. `CreatePost` and `LikePost` update the fields and keep `Valid()`. `GetLikes` and `GetTopPosts` are functions of the fields.
- `Scenarios` (Scenarios.dfy): client runs derived from the methods' contracts and the query functions' definitions. One starts from a fresh store: create post 1, alice likes it, alice again, bob, the count is 2, and liking the missing post 999 is NotFound. The others are a double like by one user and a two-post top-posts query. `AliceTwiceThenBob`, `LikeSecondOnceFirstTwice` and `CountsOfThreeLikes` are steps of these runs.

Design choices:

- Post ids follow the rule for an integer primary key: the largest id in use plus one, or 1 for an empty table. Posts are never deleted and the tables start empty, so ids are handed out as 1, 2, 3, and so on.
- The query leaves the order of posts with equal like counts to the database. The model puts them in ascending post-id order. `IsTopPosts` itself does not depend on that choice.
- `API.py` line 69 uses `func` without importing it (see line 4). The model implements the group-by/count/order-by/limit query the line is evidently meant to run.
- `Post.content` is only NOT NULL (API.py:17), and `create_post` does not check that it is non-empty; the model accepts any string.

## Model

| member | source | states |
|---|---|---|
| Tables.CountLikes | API.py:63 | the filter-and-count of get_likes over the likes table; the count never exceeds the number of like rows (its meaning is CountLikesIsRows) |
| Tables.CountLikesZero | API.py:63 | a post has a like count of 0 exactly when no like row has its id |
| Tables.CountLikesIsRows | API.py:63 | the count returned by get_likes is the number of like rows whose post_id is the argument |
| Tables.CountLikesIsUsers | API.py:63 | when the (post_id, user_id) pairs are unique, a post's like count is the number of distinct users who liked it |
| Tables.CountLikesAppend | API.py:55-57 | inserting one like row raises the count of its own post by one and leaves every other post's count unchanged |
| Tables.LikedPosts | API.py:69-70 | the grouping keys have no repeats, and a post id is among them exactly when that post has at least one like |
| Tables.Groups | API.py:69-70 | the GROUP BY post_id with COUNT: no post has two rows, and every row carries its post's true count, which is at least 1 |
| Tables.GroupsComplete | API.py:69-70 | every post with at least one like has its row, with its count, among the grouped rows |
| Ranking.Insert | API.py:71 | inserting a row into the ordered rows adds exactly that row; the multiset of rows grows by that row and nothing else |
| Ranking.InsertKeepsSorted | API.py:71 | inserting into rows ordered by count descending, ties by ascending id, keeps them ordered |
| Ranking.SortRows | API.py:71 | ORDER BY returns a permutation of the grouped rows, ordered by count descending with ties by ascending post id |
| Ranking.SortedGroupsCorrect | API.py:69-71 | the ordered rows still list every liked post once, each with its true count |
| Ranking.LeftOutRanksLower | API.py:71-72 | a liked post that falls outside the first k ordered rows has no more likes than any of those rows, and then all k places are taken |
| Ranking.PrefixByCount | API.py:71-72 | the first k rows of the ordered table are ordered by count non-increasing, and rows with equal counts come in strictly ascending post id |
| Ranking.PrefixNoneLeftOutAbove | API.py:71-72 | cutting the ordered table of all liked posts at five rows leaves out no post with more likes than a kept row, and leaves one out only when five rows are kept |
| Ranking.SortedPrefixIsTop | API.py:71-72 | the first five rows of the ordered table form a correct top five, with ties in ascending post-id order |
| Ranking.TopPosts | API.py:69-72 | the answer holds five of the grouped rows, or all of them when fewer posts are liked, and every returned row is one of the grouped rows |
| Ranking.TopPostsCorrect | API.py:69-73 | the query returns at most 5 rows ordered by like_count non-increasing; each post appears once; each count is its get_likes value and at least 1; a liked post is left out only when 5 rows are returned, and then it has no more likes than any returned row; ties come in ascending post id |
| LikesApi.LikeStore.constructor | API.py:36-37 | the tables start empty, and the store invariant holds |
| LikesApi.LikeStore.GetLikes | API.py:60-64 | get_likes is at most the number of likes, is 0 exactly when no like refers to the id, and is 0 for an id that is not a post; reading changes nothing |
| LikesApi.LikeStore.GetTopPosts | API.py:66-73 | get_top_posts is a correct top five of the current likes; every row's count equals get_likes of its post, every row names an existing post, and ties come in ascending post id |
| LikesApi.LikeStore.CreatePost | API.py:39-46 | create_post adds exactly one post, under an id that no existing post had (one more than the largest), leaves the likes unchanged, and the new post has 0 likes; the invariant is kept |
| LikesApi.LikeStore.LikePost | API.py:48-58 | like_post returns NotFound for a missing post whatever the user, and otherwise Conflict for a pair that already exists; it succeeds exactly when the post exists and the pair is new; on error nothing changes; on success exactly that like is appended, the post's count rises by one, every other count and the posts are unchanged; the invariant is kept |
| Scenarios.FirstPostScenario | API.py:39-64 | on a fresh store: create gives id 1; alice's like succeeds, her second like is a Conflict, bob's like succeeds; the count is then 2; liking post 999 is NotFound |
| Scenarios.AliceTwiceThenBob | API.py:49-58 | on a post with no likes: alice succeeds, alice again is a Conflict, bob succeeds, and the likes table then holds exactly alice's and bob's rows |
| Scenarios.LikeTwice | API.py:49-58 | the same user liking an existing post twice: the first call succeeds, the second is a Conflict, and the count rises by exactly one |
| Scenarios.TopPostsScenario | API.py:66-73 | with post 2 liked once and post 1 liked twice, get_top_posts returns post 1 with 2 likes, then post 2 with 1 like |
| Scenarios.LikeSecondOnceFirstTwice | API.py:49-58 | on posts 1 and 2 with no likes: ann likes post 2, then ann and ben like post 1; the posts are unchanged and the likes table then holds exactly those three rows in that order |
| Scenarios.CountsOfThreeLikes | API.py:63 | on that likes table, get_likes counts 2 for post 1, 1 for post 2 and 0 for every other id |
| Scenarios.TopOfTwoPosts | API.py:69-73 | with post 1 at two likes, post 2 at one and no other likes, the only correct top five is exactly those two rows in that order, for any tie-break |
| Scenarios.RowsAtMostPosts | API.py:69-70 | rows that name each post at most once can be no more than the set of posts they name |

## Left out

- HTTP: the FastAPI app, the routes, the status codes and the JSON response shapes. The outcomes of like_post are the datatype `Ok | NotFound | Conflict`. create_post returns only the id; its fixed success message is not modelled.
- The request schemas (`PostCreate`, `LikeCreate`). They only check types, so the handlers take typed arguments instead.
- The SQL engine, sessions, commit and refresh, and creating the tables on startup. The two tables are fields of one in-memory store that starts empty. Rows that an earlier run left in the database file are not modelled.
- The `created_at` and `liked_at` timestamps. They come from the wall clock and no handler reads them.
- The surrogate `id` column of the likes table. No handler reads it, and likes are kept in insertion order instead.
- Races between concurrent `like_post` requests, between the duplicate pre-check and the insert. The model is sequential. In it the pre-check and the uniqueness constraint refuse the same requests, and a constraint violation that escapes the pre-check never happens.
- The foreign key on `likes.post_id`. SQLite does not enforce it by default, so only like_post's existence check keeps likes pointing at existing posts, and that check is what the model keeps.
- The missing `func` import at API.py line 69. As written, get_top_posts would fail at run time. The model implements the intended query instead.
- Integer width: ids and counts are unbounded integers. SQLite's 64-bit limit on row ids is not modelled.
- GetTopPosts: the database may order posts with equal like counts in any way it likes. This model orders them by ascending post id. Everything in `IsTopPosts` holds for any tie order. The ascending-id clause is this model's own choice.
