/** The tweet views: liking and unliking a tweet, the home and detail feeds
    with their `liked_count` and `is_liked` annotations, creating a tweet, and
    deleting a tweet, which only its author may do. Each view is a function of
    the tables it reads, giving its answer and the tables it changes. */
module TweetViews {
  import opened Results
  import opened Accounts
  import opened TweetModels
  import Seqs

  /* ---------- The like table ---------- */

  /** The (user, tweet) pair a like stands for. */
  function LikeKey(l: Like): (UserId, TweetId) { (l.user, l.tweet) }

  /** At most one like per (user, tweet). No storage constraint says so; the
      get-or-create of the like view keeps it. */
  ghost predicate UniqueLikes(likes: seq<Like>) {
    Seqs.UniqueBy(likes, LikeKey)
  }

  /** The like table as the store keeps it: unique pairs, and every like names
      an existing user and an existing tweet. */
  ghost predicate LikesValid(users: seq<User>, tweets: seq<Tweet>, likes: seq<Like>) {
    && UniqueLikes(likes)
    && forall l :: l in likes ==> UserExists(users, l.user) && TweetExists(tweets, l.tweet)
  }

  function OnTweet(t: TweetId): Like -> bool { (l: Like) => l.tweet == t }
  function NotOnTweet(t: TweetId): Like -> bool { (l: Like) => l.tweet != t }
  function IsLikeOf(u: UserId, t: TweetId): Like -> bool { (l: Like) => l.user == u && l.tweet == t }
  function NotLikeOf(u: UserId, t: TweetId): Like -> bool { (l: Like) => !(l.user == u && l.tweet == t) }
  function LikerOf(l: Like): UserId { l.user }

  /** `Like.objects.filter(tweet=tweet)` */
  function LikesOn(likes: seq<Like>, t: TweetId): (r: seq<Like>)
    ensures forall l :: l in r <==> l in likes && l.tweet == t
  {
    Seqs.Filter(likes, OnTweet(t))
  }

  /** The like count of a tweet: `Like.objects.filter(tweet=tweet).count()` in
      the like views, `Count("likes")` in the feeds. */
  function LikedCount(likes: seq<Like>, t: TweetId): (n: nat)
    ensures n <= |likes|
    ensures n == 0 <==> forall l :: l in likes ==> l.tweet != t
  {
    var on := LikesOn(likes, t);
    assert |on| > 0 ==> on[0] in on;
    |on|
  }

  /** The users who like tweet `t`. */
  ghost function Likers(likes: seq<Like>, t: TweetId): set<UserId> {
    set l | l in likes && l.tweet == t :: l.user
  }

  /** `Like.objects.filter(user=user, tweet=tweet)`: the likes of one user on one tweet. */
  function LikesOf(likes: seq<Like>, u: UserId, t: TweetId): (r: seq<Like>)
    ensures forall l :: l in r <==> l in likes && l == Like(u, t)
  {
    Seqs.Filter(likes, IsLikeOf(u, t))
  }

  /** `Like.objects.get_or_create(user=user, tweet=tweet)` */
  function GetOrCreate(likes: seq<Like>, l: Like): (r: seq<Like>)
    ensures l in r
    ensures forall x :: x != l ==> (x in r <==> x in likes)
  {
    if l in likes then likes else likes + [l]
  }

  /** The like table without `user`'s likes of `tweet` (the filtered delete). */
  function DeleteLikes(likes: seq<Like>, u: UserId, t: TweetId): (r: seq<Like>)
    ensures Like(u, t) !in r
    ensures forall x :: x != Like(u, t) ==> (x in r <==> x in likes)
  {
    Seqs.Filter(likes, NotLikeOf(u, t))
  }

  /** With one like per pair, the like count of a tweet is the number of distinct users who like it. */
  lemma LikedCountIsLikers(likes: seq<Like>, t: TweetId)
    requires UniqueLikes(likes)
    ensures LikedCount(likes, t) == |Likers(likes, t)|
  {
    var on := LikesOn(likes, t);
    Seqs.FilterUniqueBy(likes, OnTweet(t), LikeKey);
    forall i, j | 0 <= i < j < |on| ensures LikerOf(on[i]) != LikerOf(on[j]) {
      assert LikeKey(on[i]) != LikeKey(on[j]);
      assert on[i] in on && on[j] in on;
    }
    Seqs.UniqueByCount(on, LikerOf);
    assert Seqs.Keys(on, LikerOf) == Likers(likes, t);
  }

  /** With one like per pair, a user's likes of a tweet are one row if the user
      likes it and none otherwise. */
  lemma LikesOfAtMostOne(likes: seq<Like>, u: UserId, t: TweetId)
    requires UniqueLikes(likes)
    ensures |LikesOf(likes, u, t)| == if Like(u, t) in likes then 1 else 0
  {
    var mine := LikesOf(likes, u, t);
    Seqs.FilterUniqueBy(likes, IsLikeOf(u, t), LikeKey);
    Seqs.UniqueByCount(mine, LikeKey);
    if Like(u, t) in likes {
      assert Seqs.Keys(mine, LikeKey) == {(u, t)};
    } else {
      assert Seqs.Keys(mine, LikeKey) == {};
    }
  }

  /** A get-or-create keeps one like per pair. */
  lemma GetOrCreateKeepsUnique(likes: seq<Like>, l: Like)
    requires UniqueLikes(likes)
    ensures UniqueLikes(GetOrCreate(likes, l))
  {
    if l !in likes {
      forall x | x in likes ensures LikeKey(x) != LikeKey(l) { }
      Seqs.UniqueByAppend(likes, l, LikeKey);
    }
  }

  /** The like count after a get-or-create: one more on the liked tweet if the
      pair is new, and no change anywhere else. */
  lemma GetOrCreateCount(likes: seq<Like>, l: Like, t: TweetId)
    ensures LikedCount(GetOrCreate(likes, l), t) == LikedCount(likes, t) + (if l !in likes && l.tweet == t then 1 else 0)
  {
    if l !in likes {
      Seqs.FilterAppend(likes, l, OnTweet(t));
    }
  }

  /** The like count after the filtered delete: one less on the tweet if the
      pair was there, and no change anywhere else. */
  lemma DeleteLikesCount(likes: seq<Like>, u: UserId, t: TweetId, t': TweetId)
    requires UniqueLikes(likes)
    ensures LikedCount(DeleteLikes(likes, u, t), t') == LikedCount(likes, t') - (if Like(u, t) in likes && t == t' then 1 else 0)
  {
    var likes' := DeleteLikes(likes, u, t);
    Seqs.FilterUniqueBy(likes, NotLikeOf(u, t), LikeKey);
    LikedCountIsLikers(likes, t');
    LikedCountIsLikers(likes', t');
    if Like(u, t) in likes && t == t' {
      assert Likers(likes', t') == Likers(likes, t') - {u} by {
        forall v | v in Likers(likes, t') && v != u ensures v in Likers(likes', t') {
          assert Like(v, t') in likes';
        }
      }
      assert u in Likers(likes, t') by { assert Like(u, t) in likes; }
    } else {
      assert Likers(likes', t') == Likers(likes, t') by {
        forall v | v in Likers(likes, t') ensures v in Likers(likes', t') {
          assert Like(v, t') in likes;
        }
      }
    }
  }

  /* ---------- The like and unlike views ---------- */

  /** The JSON body of the like and unlike views (the URL of the opposite view
      is left out). */
  datatype LikeResponse = LikeResponse(likedCount: nat, isLiked: bool, tweetId: TweetId)

  /** A like view's answer and the like table after it. */
  datatype LikeOutcome = LikeOutcome(result: Result<LikeResponse>, likes: seq<Like>)

  /** `LikeView.post`: `user` likes tweet `pk`. */
  function LikeView(tweets: seq<Tweet>, likes: seq<Like>, user: UserId, pk: TweetId): (o: LikeOutcome)
    ensures o.result.Err? <==> !TweetExists(tweets, pk)
    ensures o.result.Err? ==> o.result == Err(NotFound) && o.likes == likes
    ensures o.result.Ok? ==>
      && Like(user, pk) in o.likes
      && (forall x :: x != Like(user, pk) ==> (x in o.likes <==> x in likes))
      && o.result.value == LikeResponse(LikedCount(o.likes, pk), true, pk)
  {
    match TweetById(tweets, pk)
    case Err(e) => LikeOutcome(Err(e), likes)
    case Ok(tweet) =>
      var likes' := GetOrCreate(likes, Like(user, tweet.id));
      LikeOutcome(Ok(LikeResponse(LikedCount(likes', tweet.id), true, pk)), likes')
  }

  /** `UnlikeView.post`: `user` withdraws their like of tweet `pk`. */
  function UnlikeView(tweets: seq<Tweet>, likes: seq<Like>, user: UserId, pk: TweetId): (o: LikeOutcome)
    ensures o.result.Err? <==> !TweetExists(tweets, pk)
    ensures o.result.Err? ==> o.result == Err(NotFound) && o.likes == likes
    ensures o.result.Ok? ==>
      && Like(user, pk) !in o.likes
      && (forall x :: x != Like(user, pk) ==> (x in o.likes <==> x in likes))
      && o.result.value == LikeResponse(LikedCount(o.likes, pk), false, pk)
  {
    match TweetById(tweets, pk)
    case Err(e) => LikeOutcome(Err(e), likes)
    case Ok(tweet) =>
      var likes' := DeleteLikes(likes, user, tweet.id);
      LikeOutcome(Ok(LikeResponse(LikedCount(likes', tweet.id), false, pk)), likes')
  }

  /** A like or an unlike keeps the like table valid. */
  lemma LikeViewsKeepLikesValid(users: seq<User>, tweets: seq<Tweet>, likes: seq<Like>, user: UserId, pk: TweetId)
    requires LikesValid(users, tweets, likes) && UserExists(users, user)
    ensures LikesValid(users, tweets, LikeView(tweets, likes, user, pk).likes)
    ensures LikesValid(users, tweets, UnlikeView(tweets, likes, user, pk).likes)
  {
    GetOrCreateKeepsUnique(likes, Like(user, pk));
    Seqs.FilterUniqueBy(likes, NotLikeOf(user, pk), LikeKey);
  }

  /** `n` like calls in a row, the answer being that of the last one. */
  function RepeatLike(tweets: seq<Tweet>, likes: seq<Like>, user: UserId, pk: TweetId, n: nat): LikeOutcome
    requires n >= 1
    decreases n
  {
    var first := LikeView(tweets, likes, user, pk);
    if n == 1 then first else RepeatLike(tweets, first.likes, user, pk, n - 1)
  }

  /** Like is idempotent: any number N >= 1 of calls answers and leaves the
      table as one call does; with one like per pair, exactly one like of the
      pair is then stored. */
  lemma {:induction false} LikeIdempotent(tweets: seq<Tweet>, likes: seq<Like>, user: UserId, pk: TweetId, n: nat)
    requires n >= 1
    decreases n
    ensures RepeatLike(tweets, likes, user, pk, n) == LikeView(tweets, likes, user, pk)
    ensures UniqueLikes(likes) && TweetExists(tweets, pk) ==>
      |LikesOf(RepeatLike(tweets, likes, user, pk, n).likes, user, pk)| == 1
  {
    var first := LikeView(tweets, likes, user, pk);
    if n > 1 {
      LikeIdempotent(tweets, first.likes, user, pk, n - 1);
      assert LikeView(tweets, first.likes, user, pk) == first;
    }
    if UniqueLikes(likes) && TweetExists(tweets, pk) {
      GetOrCreateKeepsUnique(likes, Like(user, pk));
      LikesOfAtMostOne(first.likes, user, pk);
    }
  }

  /** The like count a like answers is the previous count plus one when the
      user did not like the tweet yet, and unchanged otherwise. */
  lemma LikeCountStep(tweets: seq<Tweet>, likes: seq<Like>, user: UserId, pk: TweetId)
    requires TweetExists(tweets, pk)
    ensures LikeView(tweets, likes, user, pk).result.value.likedCount
      == LikedCount(likes, pk) + (if Like(user, pk) in likes then 0 else 1)
  {
    GetOrCreateCount(likes, Like(user, pk), pk);
  }

  /** The like count an unlike answers is the previous count minus one when the
      user liked the tweet, and unchanged otherwise. */
  lemma UnlikeCountStep(tweets: seq<Tweet>, likes: seq<Like>, user: UserId, pk: TweetId)
    requires UniqueLikes(likes) && TweetExists(tweets, pk)
    ensures UnlikeView(tweets, likes, user, pk).result.value.likedCount
      == LikedCount(likes, pk) - (if Like(user, pk) in likes then 1 else 0)
  {
    DeleteLikesCount(likes, user, pk, pk);
  }

  /** Unlike without a like is a no-op: no error, the table is unchanged, and
      the count answered is the current one. */
  lemma UnlikeAbsentIsNoop(tweets: seq<Tweet>, likes: seq<Like>, user: UserId, pk: TweetId)
    requires TweetExists(tweets, pk) && Like(user, pk) !in likes
    ensures UnlikeView(tweets, likes, user, pk) ==
      LikeOutcome(Ok(LikeResponse(LikedCount(likes, pk), false, pk)), likes)
  {
    Seqs.FilterKeepsAll(likes, NotLikeOf(user, pk));
  }

  /** Round trip: when `user` does not like tweet `pk` yet, a like followed by
      an unlike restores the like table and the tweet's count. */
  lemma LikeUnlikeRoundTrip(tweets: seq<Tweet>, likes: seq<Like>, user: UserId, pk: TweetId)
    requires TweetExists(tweets, pk) && Like(user, pk) !in likes
    ensures var liked := LikeView(tweets, likes, user, pk);
      var unliked := UnlikeView(tweets, liked.likes, user, pk);
      && unliked.likes == likes
      && unliked.result == Ok(LikeResponse(LikedCount(likes, pk), false, pk))
  {
    var l := Like(user, pk);
    Seqs.FilterAppend(likes, l, NotLikeOf(user, pk));
    Seqs.FilterKeepsAll(likes, NotLikeOf(user, pk));
  }

  /* ---------- The feeds ---------- */

  /** One row of a feed: the tweet, its author (joined), the number of likes on
      the tweet, and the viewer's likes of it (non-empty exactly when the viewer
      likes the tweet). */
  datatype FeedItem = FeedItem(tweet: Tweet, author: User, likedCount: nat, isLiked: seq<Like>)

  ghost predicate AuthorsExist(users: seq<User>, tweets: seq<Tweet>) {
    forall t :: t in tweets ==> UserExists(users, t.author)
  }

  /** Annotates one tweet for `viewer`. */
  function Annotate(users: seq<User>, likes: seq<Like>, viewer: UserId, t: Tweet): (item: FeedItem)
    requires UserExists(users, t.author)
    ensures item.tweet == t && item.author in users && item.author.id == t.author
    ensures item.likedCount == LikedCount(likes, t.id)
    ensures |item.isLiked| > 0 <==> Like(viewer, t.id) in likes
    ensures forall l :: l in item.isLiked ==> l == Like(viewer, t.id)
    ensures UniqueLikes(likes) ==> |item.isLiked| <= 1
  {
    var mine := LikesOf(likes, viewer, t.id);
    assert |mine| > 0 <==> Like(viewer, t.id) in likes by {
      if |mine| > 0 { assert mine[0] in mine; }
    }
    assert UniqueLikes(likes) ==> |mine| <= 1 by {
      if UniqueLikes(likes) { LikesOfAtMostOne(likes, viewer, t.id); }
    }
    FeedItem(t, UserById(users, t.author).value, LikedCount(likes, t.id), mine)
  }

  function TweetsOf(feed: seq<FeedItem>): (r: seq<Tweet>)
    ensures |r| == |feed| && forall i :: 0 <= i < |feed| ==> r[i] == feed[i].tweet
  {
    seq(|feed|, i requires 0 <= i < |feed| => feed[i].tweet)
  }

  /** `HomeView.get_queryset`: every tweet of every user, newest first, each
      joined with its author and annotated with its like count and the
      viewer's likes of it. */
  function HomeFeed(users: seq<User>, tweets: seq<Tweet>, likes: seq<Like>, viewer: UserId): (feed: seq<FeedItem>)
    requires AuthorsExist(users, tweets)
    ensures multiset(TweetsOf(feed)) == multiset(tweets)
    ensures NewestFirst(TweetsOf(feed))
    ensures forall i :: 0 <= i < |feed| ==>
      && feed[i].author in users && feed[i].author.id == feed[i].tweet.author
      && feed[i].likedCount == LikedCount(likes, feed[i].tweet.id)
      && (|feed[i].isLiked| > 0 <==> Like(viewer, feed[i].tweet.id) in likes)
  {
    var ordered := ByNewest(tweets);
    assert forall i :: 0 <= i < |ordered| ==> ordered[i] in multiset(tweets);
    var feed := seq(|ordered|, i requires 0 <= i < |ordered| => Annotate(users, likes, viewer, ordered[i]));
    assert TweetsOf(feed) == ordered;
    feed
  }

  /** `TweetDetailView`: the same annotated queryset, narrowed to tweet `pk`, or 404. */
  function DetailFeed(users: seq<User>, tweets: seq<Tweet>, likes: seq<Like>, viewer: UserId, pk: TweetId): (r: Result<FeedItem>)
    requires AuthorsExist(users, tweets)
    ensures r.Err? <==> !TweetExists(tweets, pk)
    ensures r.Err? ==> r.error == NotFound
    ensures r.Ok? ==>
      && r.value.tweet in tweets && r.value.tweet.id == pk
      && r.value.author in users && r.value.author.id == r.value.tweet.author
      && r.value.likedCount == LikedCount(likes, pk)
      && (|r.value.isLiked| > 0 <==> Like(viewer, pk) in likes)
  {
    match TweetById(tweets, pk)
    case Err(e) => Err(e)
    case Ok(t) => Ok(Annotate(users, likes, viewer, t))
  }

  /* ---------- Creating and deleting tweets ---------- */

  /** A create or a delete's answer and the tables after it. */
  datatype TweetOutcome = TweetOutcome(result: Result<Tweet>, tweets: seq<Tweet>, likes: seq<Like>)

  /** `TweetCreateView.form_valid`: `author` posts `content`; the new row gets
      the next primary key `id` and the stamp `now`. */
  function TweetCreateView(tweets: seq<Tweet>, likes: seq<Like>, author: UserId, content: string, id: TweetId, now: nat): (o: TweetOutcome)
    ensures o.result.Err? <==> !ValidContent(content)
    ensures o.result.Err? ==> o.result == Err(InvalidContent) && o.tweets == tweets
    ensures o.result.Ok? ==>
      && o.result.value == Tweet(id, author, content, now)
      && o.tweets == tweets + [o.result.value]
      && |Str(o.result.value)| <= MaxContentLength
    ensures o.likes == likes
  {
    if !ValidContent(content) then TweetOutcome(Err(InvalidContent), tweets, likes)
    else
      var t := Tweet(id, author, content, now);
      TweetOutcome(Ok(t), tweets + [t], likes)
  }

  /** A create by an existing user with an unused id keeps the tables valid. */
  lemma CreateKeepsValid(users: seq<User>, tweets: seq<Tweet>, likes: seq<Like>, author: UserId, content: string, id: TweetId, now: nat)
    requires TweetsValid(users, tweets) && LikesValid(users, tweets, likes)
    requires UserExists(users, author) && forall t :: t in tweets ==> t.id != id
    ensures var o := TweetCreateView(tweets, likes, author, content, id, now);
      TweetsValid(users, o.tweets) && LikesValid(users, o.tweets, o.likes)
  {
    var o := TweetCreateView(tweets, likes, author, content, id, now);
    if o.result.Ok? {
      Seqs.UniqueByAppend(tweets, o.result.value, TweetIdOf);
      forall l | l in likes ensures TweetExists(o.tweets, l.tweet) {
        var t :| t in tweets && t.id == l.tweet;
        assert t in o.tweets;
      }
    }
  }

  /** `TweetDeleteView.test_func` after its `get_object`: 404 when the tweet
      does not exist, otherwise whether the requester is its author. */
  function MayDelete(tweets: seq<Tweet>, requester: UserId, pk: TweetId): (r: Result<bool>)
    ensures r.Err? <==> !TweetExists(tweets, pk)
    ensures r.Err? ==> r.error == NotFound
    ensures r == Ok(true) ==> exists t :: t in tweets && t.id == pk && t.author == requester
    ensures r == Ok(false) ==> exists t :: t in tweets && t.id == pk && t.author != requester
    ensures Seqs.UniqueBy(tweets, TweetIdOf) ==>
      && (r == Ok(true) <==> exists t :: t in tweets && t.id == pk && t.author == requester)
      && (r == Ok(false) <==> exists t :: t in tweets && t.id == pk && t.author != requester)
  {
    match TweetById(tweets, pk)
    case Err(e) =>
      Err(e)
    case Ok(t) =>
      assert Seqs.UniqueBy(tweets, TweetIdOf) ==> forall x :: x in tweets && x.id == pk ==> x == t by {
        if Seqs.UniqueBy(tweets, TweetIdOf) {
          forall x | x in tweets && x.id == pk ensures x == t {
            Seqs.UniqueByKeyDetermines(tweets, TweetIdOf, x, t);
          }
        }
      }
      Ok(t.author == requester)
  }

  /** The like table once tweet `pk` is deleted (assumed to cascade). */
  function DropLikesOn(likes: seq<Like>, pk: TweetId): (r: seq<Like>)
    ensures forall l :: l in r <==> l in likes && l.tweet != pk
  {
    Seqs.Filter(likes, NotOnTweet(pk))
  }

  /** `TweetDeleteView`: `requester` deletes tweet `pk`. Not found is a 404, a
      requester other than the author is a 403, and either way nothing
      changes; the author's delete removes the tweet and its likes. */
  function TweetDeleteView(tweets: seq<Tweet>, likes: seq<Like>, requester: UserId, pk: TweetId): (o: TweetOutcome)
    ensures o.result == Err(NotFound) <==> !TweetExists(tweets, pk)
    ensures o.result.Err? ==> o.result.error in {NotFound, Forbidden} && o.tweets == tweets && o.likes == likes
    ensures o.result == Err(Forbidden) ==> exists t :: t in tweets && t.id == pk && t.author != requester
    ensures Seqs.UniqueBy(tweets, TweetIdOf) ==>
      (o.result.Ok? <==> exists t :: t in tweets && t.id == pk && t.author == requester)
    ensures o.result.Ok? ==>
      && o.result.value in tweets && o.result.value.id == pk && o.result.value.author == requester
      && o.tweets == RemoveTweet(tweets, pk)
      && o.likes == DropLikesOn(likes, pk)
  {
    match MayDelete(tweets, requester, pk)
    case Err(e) => TweetOutcome(Err(e), tweets, likes)
    case Ok(allowed) =>
      if !allowed then TweetOutcome(Err(Forbidden), tweets, likes)
      else TweetOutcome(Ok(TweetById(tweets, pk).value), RemoveTweet(tweets, pk), DropLikesOn(likes, pk))
  }

  /** A delete by anyone but the author fails with `Forbidden` (403) and leaves
      the tweet and its likes in place. */
  lemma NonAuthorDeleteChangesNothing(tweets: seq<Tweet>, likes: seq<Like>, requester: UserId, t: Tweet)
    requires Seqs.UniqueBy(tweets, TweetIdOf) && t in tweets && t.author != requester
    ensures TweetDeleteView(tweets, likes, requester, t.id) == TweetOutcome(Err(Forbidden), tweets, likes)
  {
    TweetByIdFinds(tweets, t);
  }

  /** The author's own delete goes ahead: it answers the tweet and removes it
      together with its likes. */
  lemma AuthorDeleteSucceeds(tweets: seq<Tweet>, likes: seq<Like>, t: Tweet)
    requires Seqs.UniqueBy(tweets, TweetIdOf) && t in tweets
    ensures TweetDeleteView(tweets, likes, t.author, t.id) ==
      TweetOutcome(Ok(t), RemoveTweet(tweets, t.id), DropLikesOn(likes, t.id))
  {
    TweetByIdFinds(tweets, t);
  }

  /** A delete keeps the tables valid. */
  lemma DeleteKeepsValid(users: seq<User>, tweets: seq<Tweet>, likes: seq<Like>, requester: UserId, pk: TweetId)
    requires TweetsValid(users, tweets) && LikesValid(users, tweets, likes)
    ensures var o := TweetDeleteView(tweets, likes, requester, pk);
      TweetsValid(users, o.tweets) && LikesValid(users, o.tweets, o.likes)
  {
    var o := TweetDeleteView(tweets, likes, requester, pk);
    if o.result.Ok? {
      Seqs.FilterUniqueBy(tweets, NotTweet(pk), TweetIdOf);
      Seqs.FilterUniqueBy(likes, NotOnTweet(pk), LikeKey);
      forall l | l in o.likes ensures TweetExists(o.tweets, l.tweet) {
        var t :| t in tweets && t.id == l.tweet;
        assert t in o.tweets;
      }
    }
  }

  /* ---------- Deleting a user ---------- */

  /** The ids of the tweets `id` wrote. */
  ghost function AuthoredBy(tweets: seq<Tweet>, id: UserId): set<TweetId> {
    set t | t in tweets && t.author == id :: t.id
  }

  function SurvivesUserDelete(tweets: seq<Tweet>, id: UserId): Like -> bool {
    (l: Like) => l.user != id && forall t :: t in tweets && t.id == l.tweet ==> t.author != id
  }

  /** The like table once user `id` is deleted: the user's likes go (assumed
      to cascade), and so do the likes on the user's tweets, which go with
      them. */
  function DropLikesOfUser(likes: seq<Like>, tweets: seq<Tweet>, id: UserId): (r: seq<Like>)
    ensures forall l :: l in r <==> l in likes && l.user != id && l.tweet !in AuthoredBy(tweets, id)
  {
    Seqs.Filter(likes, SurvivesUserDelete(tweets, id))
  }

  /** Deleting a user, with its cascades, keeps the tweet and like tables valid. */
  lemma DeleteUserKeepsTweets(users: seq<User>, tweets: seq<Tweet>, likes: seq<Like>, id: UserId)
    requires TweetsValid(users, tweets) && LikesValid(users, tweets, likes)
    ensures var users', tweets' := DropUser(users, id), DropTweetsBy(tweets, id);
      TweetsValid(users', tweets') && LikesValid(users', tweets', DropLikesOfUser(likes, tweets, id))
  {
    var users', tweets', likes' := DropUser(users, id), DropTweetsBy(tweets, id), DropLikesOfUser(likes, tweets, id);
    Seqs.FilterUniqueBy(tweets, AuthoredByOther(id), TweetIdOf);
    Seqs.FilterUniqueBy(likes, SurvivesUserDelete(tweets, id), LikeKey);
    forall t | t in tweets' ensures UserExists(users', t.author) {
      var u :| u in users && u.id == t.author;
      assert u in users';
    }
    forall l | l in likes' ensures UserExists(users', l.user) && TweetExists(tweets', l.tweet) {
      var u :| u in users && u.id == l.user;
      assert u in users';
      var t :| t in tweets && t.id == l.tweet;
      assert t.author != id;
      assert t in tweets';
    }
  }
}
