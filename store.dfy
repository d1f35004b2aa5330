/** The store: the four tables (users, tweets, follow edges, likes) that every
    view reads and writes, with the auto-increment counter for tweet ids and a
    clock for creation stamps. Each request method is handled atomically and
    is tied to the view function of the same request; `DeleteUser` is tied to
    the cascade functions of a user delete. */
module SocialStore {
  import opened Results
  import opened Accounts
  import opened FollowViews
  import opened TweetModels
  import opened TweetViews
  import Seqs

  class Store {
    var users: seq<User>
    var tweets: seq<Tweet>
    var friendships: seq<FriendShip>
    var likes: seq<Like>
    /** The primary key the next tweet gets. */
    var nextTweetId: TweetId
    /** The stamp the next created row gets; it only grows, and every stored
        stamp is below it. */
    var clock: nat

    /** What the store guarantees between requests: unique users, a valid
        follow graph, valid tweets with ids below the counter, and valid likes. */
    ghost predicate Valid()
      reads this
    {
      && UsersValid(users)
      && GraphValid(users, friendships)
      && TweetsValid(users, tweets)
      && (forall t :: t in tweets ==> t.id < nextTweetId)
      && (forall t :: t in tweets ==> t.createdAt < clock)
      && (forall e :: e in friendships ==> e.createdAt < clock)
      && LikesValid(users, tweets, likes)
    }

    /** A store holding the given accounts and nothing else. Users are created
        by sign-up, which is not part of this model. */
    constructor (accounts: seq<User>)
      requires UsersValid(accounts)
      ensures Valid()
      ensures users == accounts && tweets == [] && friendships == [] && likes == []
      ensures nextTweetId == 0 && clock == 0
    {
      users, tweets, friendships, likes := accounts, [], [], [];
      nextTweetId, clock := 0, 0;
    }

    /** `LikeView.post` for the logged-in `caller`. */
    method LikeTweet(caller: UserId, pk: TweetId) returns (r: Result<LikeResponse>)
      requires Valid() && UserExists(users, caller)
      modifies this`likes
      ensures Valid()
      ensures LikeView(tweets, old(likes), caller, pk) == LikeOutcome(r, likes)
    {
      LikeViewsKeepLikesValid(users, tweets, likes, caller, pk);
      if TweetById(tweets, pk).Err? {
        return Err(NotFound);
      }
      var like := Like(caller, pk);
      if like !in likes {
        likes := likes + [like];
      }
      r := Ok(LikeResponse(LikedCount(likes, pk), true, pk));
    }

    /** `UnlikeView.post` for the logged-in `caller`. */
    method UnlikeTweet(caller: UserId, pk: TweetId) returns (r: Result<LikeResponse>)
      requires Valid() && UserExists(users, caller)
      modifies this`likes
      ensures Valid()
      ensures UnlikeView(tweets, old(likes), caller, pk) == LikeOutcome(r, likes)
    {
      LikeViewsKeepLikesValid(users, tweets, likes, caller, pk);
      if TweetById(tweets, pk).Err? {
        return Err(NotFound);
      }
      likes := DeleteLikes(likes, caller, pk);
      r := Ok(LikeResponse(LikedCount(likes, pk), false, pk));
    }

    /** `TweetCreateView` for the logged-in `caller`: the new tweet gets the
        next id and the current stamp, and both counters advance. */
    method CreateTweet(caller: UserId, content: string) returns (r: Result<Tweet>)
      requires Valid() && UserExists(users, caller)
      modifies this`tweets, this`nextTweetId, this`clock
      ensures Valid()
      ensures TweetCreateView(old(tweets), likes, caller, content, old(nextTweetId), old(clock)) == TweetOutcome(r, tweets, likes)
      ensures nextTweetId == old(nextTweetId) + (if r.Ok? then 1 else 0)
      ensures clock == old(clock) + (if r.Ok? then 1 else 0)
      ensures KeepsRows(old(tweets), tweets)
      ensures r.Ok? ==> forall t :: t in old(tweets) ==> t.createdAt < r.value.createdAt
    {
      CreateKeepsValid(users, tweets, likes, caller, content, nextTweetId, clock);
      if !ValidContent(content) {
        StampedOnce(tweets, tweets, tweets);
        return Err(InvalidContent);
      }
      var t := Tweet(nextTweetId, caller, content, clock);
      StampedOnce(tweets, tweets + [t], tweets + [t]);
      tweets := tweets + [t];
      nextTweetId, clock := nextTweetId + 1, clock + 1;
      r := Ok(t);
    }

    /** `TweetDeleteView` for the logged-in `caller`. */
    method DeleteTweet(caller: UserId, pk: TweetId) returns (r: Result<Tweet>)
      requires Valid()
      modifies this`tweets, this`likes
      ensures Valid()
      ensures TweetDeleteView(old(tweets), old(likes), caller, pk) == TweetOutcome(r, tweets, likes)
      ensures KeepsRows(old(tweets), tweets)
    {
      DeleteKeepsValid(users, tweets, likes, caller, pk);
      StampedOnce(tweets, tweets, tweets);
      StampedOnce(tweets, RemoveTweet(tweets, pk), tweets);
      var allowed := MayDelete(tweets, caller, pk);
      if allowed.Err? {
        return Err(NotFound);
      }
      if !allowed.value {
        return Err(Forbidden);
      }
      r := Ok(TweetById(tweets, pk).value);
      tweets, likes := RemoveTweet(tweets, pk), DropLikesOn(likes, pk);
    }

    /** The follow view for the logged-in `caller`; a new edge takes the
        current stamp and the clock advances. */
    method Follow(caller: UserId, name: string) returns (r: Result<User>)
      requires Valid() && UserExists(users, caller)
      modifies this`friendships, this`clock
      ensures Valid()
      ensures FollowView(users, old(friendships), caller, name, old(clock)) == FollowOutcome(r, friendships)
      ensures clock == old(clock) + (if r.Ok? then 1 else 0)
    {
      FollowKeepsGraphValid(users, friendships, caller, name, clock);
      var target := UserByName(users, name);
      if target.Err? {
        return Err(NotFound);
      }
      if target.value.id == caller {
        return Err(SelfTarget);
      }
      if IsFollowing(friendships, caller, target.value.id) {
        return Err(AlreadyFollowing);
      }
      friendships := friendships + [FriendShip(caller, target.value.id, clock)];
      clock := clock + 1;
      r := Ok(target.value);
    }

    /** The unfollow view for the logged-in `caller`. */
    method Unfollow(caller: UserId, name: string) returns (r: Result<User>)
      requires Valid() && UserExists(users, caller)
      modifies this`friendships
      ensures Valid()
      ensures UnfollowView(users, old(friendships), caller, name) == FollowOutcome(r, friendships)
    {
      UnfollowKeepsGraphValid(users, friendships, caller, name);
      var target := UserByName(users, name);
      if target.Err? {
        return Err(NotFound);
      }
      if target.value.id == caller {
        return Err(SelfTarget);
      }
      if !IsFollowing(friendships, caller, target.value.id) {
        return Err(NotFollowing);
      }
      friendships := RemoveEdge(friendships, caller, target.value.id);
      r := Ok(target.value);
    }

    /** Deleting a user and everything that cascades from it: the user's
        tweets, every follow edge on either side, the user's likes and the
        likes on the user's tweets. */
    method DeleteUser(id: UserId)
      requires Valid()
      modifies this`users, this`tweets, this`friendships, this`likes
      ensures Valid()
      ensures users == DropUser(old(users), id)
      ensures tweets == DropTweetsBy(old(tweets), id)
      ensures friendships == DropEdgesOf(old(friendships), id)
      ensures likes == DropLikesOfUser(old(likes), old(tweets), id)
      ensures KeepsRows(old(tweets), tweets)
    {
      StampedOnce(tweets, DropTweetsBy(tweets, id), tweets);
      DeleteUserKeepsGraph(users, friendships, id);
      DeleteUserKeepsTweets(users, tweets, likes, id);
      likes := DropLikesOfUser(likes, tweets, id);
      users, tweets, friendships := DropUser(users, id), DropTweetsBy(tweets, id), DropEdgesOf(friendships, id);
    }
  }

  /** Two users, alice and bob; bob posts "hello" and alice likes it twice. */
  method LikeTwiceScenario() {
    var alice, bob := User(1, "alice"), User(2, "bob");
    var s := new Store([alice, bob]);

    var posted := s.CreateTweet(bob.id, "hello");
    var hello := posted.value;
    assert s.tweets == [hello] && s.likes == [];

    var liked := s.LikeTweet(alice.id, hello.id);
    assert s.likes == [Like(alice.id, hello.id)];
    assert liked == Ok(LikeResponse(1, true, hello.id));
    liked := s.LikeTweet(alice.id, hello.id);
    assert s.likes == [Like(alice.id, hello.id)];
    assert liked == Ok(LikeResponse(1, true, hello.id));
  }

  /** Two users, alice and bob; bob posts "hello"; alice likes it and unlikes it. */
  method LikeUnlikeScenario() {
    var alice, bob := User(1, "alice"), User(2, "bob");
    var s := new Store([alice, bob]);

    var posted := s.CreateTweet(bob.id, "hello");
    var hello := posted.value;
    assert s.tweets == [hello] && s.likes == [];

    var liked := s.LikeTweet(alice.id, hello.id);
    assert s.likes == [Like(alice.id, hello.id)];
    var unliked := s.UnlikeTweet(alice.id, hello.id);
    assert s.likes == [];
    assert unliked == Ok(LikeResponse(0, false, hello.id));
  }

  /** Two users, alice and bob; bob posts "hello" and alice tries to delete it. */
  method DeleteScenario() {
    var alice, bob := User(1, "alice"), User(2, "bob");
    var s := new Store([alice, bob]);

    var posted := s.CreateTweet(bob.id, "hello");
    var hello := posted.value;
    assert s.tweets == [hello];

    var deleted := s.DeleteTweet(alice.id, hello.id);
    assert deleted == Err(Forbidden);
  }

  /** Two users, alice and bob; alice follows bob twice. */
  method FollowTwiceScenario() {
    var alice, bob := User(1, "alice"), User(2, "bob");
    var s := new Store([alice, bob]);

    var followed := s.Follow(alice.id, "bob");
    assert followed == Ok(bob);
    assert s.friendships == [FriendShip(alice.id, bob.id, 0)];
    assert FollowingCount(s.friendships, alice.id) == 1 && FollowerCount(s.friendships, bob.id) == 1;
    followed := s.Follow(alice.id, "bob");
    assert followed == Err(AlreadyFollowing);
  }

  /** Two users, alice and bob; alice follows bob and unfollows him twice. */
  method UnfollowTwiceScenario() {
    var alice, bob := User(1, "alice"), User(2, "bob");
    var s := new Store([alice, bob]);

    var followed := s.Follow(alice.id, "bob");
    assert s.friendships == [FriendShip(alice.id, bob.id, 0)];
    var unfollowed := s.Unfollow(alice.id, "bob");
    assert unfollowed == Ok(bob) && s.friendships == [];
    unfollowed := s.Unfollow(alice.id, "bob");
    assert unfollowed == Err(NotFollowing);
  }

  /** Two users, alice and bob; alice tries to follow an unknown user and
      herself. */
  method FollowRejectScenario() {
    var alice, bob := User(1, "alice"), User(2, "bob");
    var s := new Store([alice, bob]);

    var followed := s.Follow(alice.id, "carol");
    assert followed == Err(NotFound) && StatusCode(followed.error) == 404;
    followed := s.Follow(alice.id, "alice");
    assert followed == Err(SelfTarget) && StatusCode(followed.error) == 400;
  }
}
