# Social graph and like ledger

A Dafny model of the core of a small Django tweet site: one in-memory store of
four tables (users, tweets, follow edges, likes) and the requests that read and
change it.

- **Follow graph** (`accounts.dfy`, `follow_views.dfy`). A `FriendShip` is a
  directed edge `(follower, followee)` with a creation stamp. The
  `unique_friendship` constraint allows at most one edge per ordered pair. Both
  foreign keys cascade when a user is deleted. Following and unfollowing a
  user by username behave as the account tests say: an unknown username is a
  404 and changes nothing; the caller's own username is a 400 and changes
  nothing; a successful call creates or removes the caller's edge. The
  following and follower counts are edge counts.
- **Tweets** (`tweet_models.dfy`). A tweet has content of 1 to 140 characters
  without a null character, exactly one author, and a creation stamp set once. The default ordering of
  the tweet model is `-created_at`, newest first.
- **Like ledger and feeds** (`tweet_views.dfy`). A like is a `(user, tweet)`
  pair. The like view does a get-or-create of the pair, and the unlike view
  does a filtered delete. Each then answers the tweet's current like count.
  The home and detail feeds join each tweet with its author, its like count
  and the viewer's own likes of it. Only the author may delete a tweet.
- **Store** (`store.dfy`). A class `SocialStore.Store` holds the tables as
  `seq` fields. Each request is one method that changes only the fields it
  names. Every method keeps the store invariant `Valid()`. Each request
  method is tied to the view function of the same request; `DeleteUser` is
  tied to the cascade functions. `Valid()` also keeps every stored stamp below
  the store's clock, so a tweet just created is newer than every other tweet.
  The properties of repeated calls (idempotence, round trips, conflicts) are
  lemmas about those view functions.

The caller is a parameter of every view request. The views are
login-required, so the like, unlike, create, follow and unfollow requests
require the caller to be an existing user. The delete request needs no such
requirement, since only an existing tweet's author can succeed; `DeleteUser`
has no caller. Creation stamps come from a counter in the store
that only grows.

Decisions about the code:
- `-created_at` (tweets/models.py:15) is the only ordering key, so tweets with
  equal stamps stay unordered.
- The home feed lists every tweet of every user, not only followed users.
- accounts/tests.py names the edge's second field `following`; the model uses
  `followee`, as the `FriendShip` model at accounts/models.py:13 does.
- accounts/views.py defines only `SignupView`, so the behaviour of the follow
  and unfollow views is taken from accounts/tests.py:308-372. A username is
  resolved before it is compared with the caller, so an unknown username is a
  404. A follow of a user already followed and an unfollow of a user not
  followed are modelled as 400 failures that change nothing
  (`AlreadyFollowing`, `NotFollowing`).
- `Like` is imported at tweets/views.py:9 but not defined in tweets/models.py.
  It is modelled as a `(user, tweet)` pair whose foreign keys cascade like
  those of the other models. At most one like per pair is kept only by the
  get-or-create at tweets/views.py:75.
- `get_or_create` raises an error when the table already holds two copies of
  the pair; `TweetViews.GetOrCreate` does not model that error. The store
  invariant `Valid()` keeps one like per pair, so the case cannot arise there.

## Model

| member | source | states |
|---|---|---|
| `Results.StatusCode` | accounts/tests.py:326-338 | not found is answered 404 and a self target 400, as the tests assert; a follow conflict (`AlreadyFollowing`, `NotFollowing`) is also 400, a modelling decision; a non-author delete is 403, the refusal of `UserPassesTestMixin` at tweets/views.py:56; invalid content re-shows the form, 200 |
| `Accounts.UserByName` | accounts/tests.py:326-331 | looking up a username gives a user with that name, or NotFound exactly when no user has it |
| `Accounts.UserByNameFinds` | accounts/models.py:7-8 | with unique usernames, the lookup gives the one user with that name |
| `Accounts.UserById` | tweets/views.py:23 | the author join finds a user with the id exactly when one exists |
| `Accounts.DropUser` | accounts/models.py:7-8 | deleting a user keeps exactly the other users |
| `Accounts.DropEdgesOf` | accounts/models.py:12-13 | deleting a user removes every edge with the user as follower or followee, and keeps every other edge |
| `Accounts.DeleteUserKeepsGraph` | accounts/models.py:12-17 | after a user is deleted, ids and usernames stay unique, each pair has at most one edge, and every edge joins two existing users |
| `Accounts.IsFollowing` | accounts/tests.py:324 | the edge filter from one user to another is non-empty exactly when a stored edge joins them in that direction |
| `Seqs.Filter` | tweets/views.py:76 | a filter keeps exactly the rows that satisfy its condition and is no longer than the table |
| `FollowViews.EdgesFrom` | accounts/tests.py:289 | the edges filtered by follower are exactly the stored edges that start at the user |
| `FollowViews.EdgesTo` | accounts/tests.py:290 | the edges filtered by followee are exactly the stored edges that end at the user |
| `FollowViews.FollowingCount` | accounts/tests.py:289 | the following count is at most the number of edges, and zero exactly when no edge starts at the user |
| `FollowViews.FollowerCount` | accounts/tests.py:290 | the follower count is at most the number of edges, and zero exactly when no edge ends at the user |
| `FollowViews.RemoveEdge` | accounts/tests.py:348-358 | unfollowing removes exactly the edges from the caller to the target and keeps every other edge |
| `FollowViews.FollowView` | accounts/tests.py:314-338 | NotFound exactly when no user has the name; SelfTarget and AlreadyFollowing name a user with that name who is the caller, or whom the caller follows; every failure leaves the edges unchanged; success appends one edge from the caller to the target, so the new graph is the old one plus that pair |
| `FollowViews.FollowViewDecides` | accounts/tests.py:314-338 | with unique usernames, following an existing user succeeds exactly when it is someone else not yet followed, is SelfTarget exactly for oneself, and AlreadyFollowing exactly when the edge exists |
| `FollowViews.UnfollowView` | accounts/tests.py:348-372 | NotFound exactly when no user has the name; SelfTarget and NotFollowing name a user with that name who is the caller, or whom the caller does not follow; every failure leaves the edges unchanged; success removes exactly the pair from the caller to the target |
| `FollowViews.UnfollowViewDecides` | accounts/tests.py:348-372 | with unique usernames, unfollowing an existing user succeeds exactly when it is someone else who is followed, is SelfTarget exactly for oneself, and NotFollowing exactly when the edge is missing |
| `FollowViews.FollowKeepsGraphValid` | accounts/models.py:17 | a follow by an existing user keeps one edge per ordered pair, no self edge, and both ends existing |
| `FollowViews.UnfollowKeepsGraphValid` | accounts/models.py:17 | an unfollow keeps one edge per ordered pair, no self edge, and both ends existing |
| `FollowViews.CountsAreSetSizes` | accounts/tests.py:289-295 | with unique pairs, the following count is the number of distinct users followed, and the follower count the number of distinct followers |
| `FollowViews.RemoveEdgeFollowing` | accounts/tests.py:289 | removing an existing edge lowers its follower's following count by one and no one else's |
| `FollowViews.RemoveEdgeFollower` | accounts/tests.py:290 | removing an existing edge lowers its followee's follower count by one and no one else's |
| `FollowViews.FollowCounts` | accounts/tests.py:314-324 | after a successful follow, the edge exists, the caller's following count and the target's follower count each grow by one, and no other count changes |
| `FollowViews.UnfollowCounts` | accounts/tests.py:348-358 | after a successful unfollow, the edge is gone, the two counts each drop by one, and no other count changes |
| `FollowViews.FollowSelfFails` | accounts/tests.py:333-338 | following or unfollowing oneself fails with SelfTarget and leaves the edges unchanged, whatever the graph holds |
| `FollowViews.FollowTwiceConflicts` | accounts/models.py:17 | a second follow of the same user fails with AlreadyFollowing and leaves the graph as the first follow left it |
| `FollowViews.FollowUnfollowRoundTrip` | accounts/tests.py:341-358 | an unfollow right after a successful follow succeeds and restores the edge table |
| `TweetModels.Str` | tweets/models.py:11-12 | the string form of a tweet with valid content has 1 to 140 characters |
| `TweetModels.TweetById` | tweets/views.py:71 | the lookup gives a tweet with that id exactly when one exists, and NotFound otherwise |
| `TweetModels.TweetByIdFinds` | tweets/views.py:71 | with unique ids, the lookup gives the one tweet with that id |
| `TweetModels.StampedOnce` | tweets/models.py:9 | when the tables before and after an operation are drawn from one table with unique ids, every row present in both is the same row, with the same creation stamp |
| `TweetModels.Insert` | tweets/models.py:14-15 | inserting into a newest-first listing gives a newest-first listing with one more copy of the tweet |
| `TweetModels.ByNewest` | tweets/models.py:14-15 | the default listing is newest first and a permutation of the table |
| `TweetModels.DropTweetsBy` | tweets/models.py:8 | deleting a user removes exactly that user's tweets |
| `TweetModels.RemoveTweet` | tweets/views.py:56-60 | deleting a tweet keeps exactly the tweets with another id |
| `TweetViews.LikesOn` | tweets/views.py:76 | the likes filtered by tweet are exactly the stored likes of that tweet |
| `TweetViews.LikedCount` | tweets/views.py:76 | the like count is at most the number of likes, and zero exactly when no like is on the tweet |
| `TweetViews.LikesOf` | tweets/views.py:95 | the likes filtered by user and tweet are exactly the stored copies of that pair |
| `TweetViews.GetOrCreate` | tweets/views.py:75 | after a get-or-create the pair is stored, and every other like is stored exactly when it was before |
| `TweetViews.DeleteLikes` | tweets/views.py:95-96 | after the filtered delete the pair is gone, and every other like is stored exactly when it was before |
| `TweetViews.LikedCountIsLikers` | tweets/views.py:76 | with one like per pair, a tweet's like count is the number of distinct users who like it |
| `TweetViews.LikesOfAtMostOne` | tweets/views.py:24 | with one like per pair, a user's likes of a tweet are one row if the user likes it, and none otherwise |
| `TweetViews.GetOrCreateKeepsUnique` | tweets/views.py:75 | a get-or-create keeps at most one like per pair |
| `TweetViews.GetOrCreateCount` | tweets/views.py:75-76 | a get-or-create adds one to the liked tweet's count when the pair is new, and changes no other count |
| `TweetViews.DeleteLikesCount` | tweets/views.py:95-97 | the filtered delete takes one from the tweet's count when the pair was stored, and changes no other count |
| `TweetViews.LikeView` | tweets/views.py:67-84 | NotFound with no change exactly when the tweet does not exist; otherwise the pair is stored, no other like changes, and the view answers is_liked true with the new count of the tweet and its id |
| `TweetViews.UnlikeView` | tweets/views.py:87-105 | NotFound with no change exactly when the tweet does not exist; otherwise the pair is gone, no other like changes, and the view answers is_liked false with the new count and the tweet's id |
| `TweetViews.LikeViewsKeepLikesValid` | tweets/views.py:75-96 | a like or an unlike keeps one like per pair, with every like naming an existing user and tweet |
| `TweetViews.LikeIdempotent` | tweets/views.py:75 | any number N >= 1 of likes answers and leaves the table as one like does; with unique pairs, exactly one like of the pair is then stored |
| `TweetViews.LikeCountStep` | tweets/views.py:73-79 | the count a like answers is the previous count plus one if the user did not like the tweet yet, and the previous count otherwise |
| `TweetViews.UnlikeCountStep` | tweets/views.py:93-100 | the count an unlike answers is the previous count minus one if the user liked the tweet, and the previous count otherwise |
| `TweetViews.UnlikeAbsentIsNoop` | tweets/views.py:95-96 | unliking a tweet not liked succeeds, leaves the table unchanged, and answers the current count |
| `TweetViews.LikeUnlikeRoundTrip` | tweets/views.py:75-97 | when the user did not like the tweet, a like then an unlike restores the like table and answers the original count |
| `TweetViews.Annotate` | tweets/views.py:22-26 | a feed item carries the tweet, its author (an existing user with the tweet's author id), the count of all likes on the tweet, and the viewer's likes of it; these are non-empty exactly when the viewer likes the tweet, at most one with unique pairs |
| `TweetViews.HomeFeed` | tweets/views.py:20-27 | the home feed holds every tweet exactly once, in the declared `-created_at` order (newest first), and each item has the tweet's author, the count of all likes on it, and a non-empty viewer's-likes list exactly when the viewer likes it |
| `TweetViews.DetailFeed` | tweets/views.py:46-53 | the detail feed is NotFound exactly when the tweet does not exist; otherwise it is that tweet's item, annotated as in the home feed |
| `TweetViews.TweetCreateView` | tweets/views.py:30-38 | content that is empty, over 140 characters or holds a null character fails and changes nothing; otherwise the tweet is appended with the caller as author, the next id and the current stamp |
| `TweetViews.CreateKeepsValid` | tweets/models.py:7-9 | creating a tweet by an existing user with an unused id keeps ids unique, content within bounds, and every author and liked tweet existing |
| `TweetViews.MayDelete` | tweets/views.py:62-64 | NotFound exactly when the tweet does not exist; true or false names a tweet with the id whose author is or is not the requester; with unique ids, the answer is true exactly when the requester is the tweet's author |
| `TweetViews.DropLikesOn` | tweets/views.py:56-60 | deleting a tweet removes exactly the likes on it |
| `TweetViews.TweetDeleteView` | tweets/views.py:56-64 | NotFound exactly when the tweet does not exist; Forbidden names a tweet by another author; a failure changes nothing; with unique ids, success happens exactly when the requester is the author, and removes the tweet and exactly its likes |
| `TweetViews.NonAuthorDeleteChangesNothing` | tweets/views.py:62-64 | a delete by anyone but the author fails with Forbidden and leaves tweets and likes unchanged |
| `TweetViews.AuthorDeleteSucceeds` | tweets/views.py:62-64 | the author's delete of an existing tweet succeeds, answers the tweet, and removes it and exactly its likes |
| `TweetViews.DeleteKeepsValid` | tweets/views.py:56-64 | a delete keeps ids unique and every like naming an existing tweet |
| `TweetViews.DropLikesOfUser` | tweets/models.py:8 | deleting a user removes exactly the user's likes and the likes on the user's tweets, and keeps every other like |
| `TweetViews.DeleteUserKeepsTweets` | tweets/models.py:8 | after a user is deleted, every remaining tweet has an existing author and every remaining like names an existing user and tweet |
| `SocialStore.Store.constructor` | accounts/models.py:7-8 | a new store holds the given accounts, with no tweets, no edges and no likes |
| `SocialStore.Store.LikeTweet` | tweets/views.py:67-84 | the like request keeps the store valid, changes only the like table, and gives the answer and table of the like view |
| `SocialStore.Store.UnlikeTweet` | tweets/views.py:87-105 | the unlike request keeps the store valid, changes only the like table, and gives the answer and table of the unlike view |
| `SocialStore.Store.CreateTweet` | tweets/views.py:30-38 | the create request keeps the store valid, stamps the new tweet with the next id and the current clock, advances both only on success, keeps every existing tweet row unchanged, and makes the new tweet newer than every existing one |
| `SocialStore.Store.DeleteTweet` | tweets/views.py:56-64 | the delete request keeps the store valid and gives the answer and tables of the delete view, keeping every surviving tweet row unchanged |
| `SocialStore.Store.Follow` | accounts/tests.py:308-338 | the follow request keeps the store valid, changes only the edges and the clock, and gives the answer and edges of the follow view |
| `SocialStore.Store.Unfollow` | accounts/tests.py:341-372 | the unfollow request keeps the store valid, changes only the edges, and gives the answer and edges of the unfollow view |
| `SocialStore.Store.DeleteUser` | accounts/models.py:12-13 | deleting a user keeps the store valid and cascades to the user's tweets, every edge touching the user, the user's likes and the likes on the user's tweets, keeping every surviving tweet row unchanged |

## Left out

- Sign-up, login and logout: they are the framework's authentication. The caller is a parameter, and the login requirement becomes the precondition that the caller is an existing user.
- The user's `email` field: no part of the core reads it.
- URL routing and the `like_url`/`unlike_url` fields of the like answers: framework dispatch. The answers echo the tweet id.
- JSON and HTTP encoding, templates, redirects and the debug toolbar: presentation.
- The bound on database queries when building a feed (`select_related`, `prefetch_related`): a performance property the model cannot observe. The feed is a function of the tables.
- Concurrent duplicate inserts and integrity-error races: each request is atomic here.
- Real timestamps: a counter in the store stands in for them.
- The profile, following-list and follower-list views: accounts/views.py does not define them. The profile test checks its status, its two counts, and that it lists exactly the user's own tweets; the list tests check only their status. Only the counts are modelled.
- Whitespace stripping by the form: content is taken as already cleaned.
- TweetModels.Str: its contract states only the 1 to 140 character bound; that the string is the content itself is its body.
- TweetViews.HomeFeed: promises the `-created_at` order of tweets/models.py:14-15. The queryset at tweets/views.py:22-26 ends in an aggregate (`annotate(liked_count=Count("likes"))`), and Django 3.1 and later do not apply `Meta.ordering` to aggregate queries, so on those versions the program itself lists the home feed in no particular order.
- TweetViews.GetOrCreate: does not model the error `get_or_create` raises when two copies of the pair are stored; the store invariant excludes that table.
