/** The tweet models: a `Tweet` has content of at most 140 characters, exactly
    one author (a user foreign key that cascades on delete) and a creation stamp
    set once; tweets are listed newest first. A `Like` is a (user, tweet) pair. */
module TweetModels {
  import opened Results
  import opened Accounts
  import Seqs

  type TweetId = nat

  /** The `max_length` of a tweet's content. */
  const MaxContentLength: nat := 140

  /** A row of the tweet table. `author` is the `user` foreign key; `createdAt`
      stands for the `auto_now_add` timestamp, as an opaque increasing number. */
  datatype Tweet = Tweet(id: TweetId, author: UserId, content: string, createdAt: nat)

  /** A row of the like table: `user` likes `tweet`. */
  datatype Like = Like(user: UserId, tweet: TweetId)

  /** Content the form accepts: required, at most 140 characters, and free of
      the null character (the form field's standard validator refuses it). */
  predicate ValidContent(content: string) {
    0 < |content| <= MaxContentLength && '\0' !in content
  }

  /** The string form of a tweet (`__str__`): its content. */
  function Str(t: Tweet): (s: string)
    ensures ValidContent(t.content) ==> 0 < |s| <= MaxContentLength
  {
    t.content
  }

  function TweetIdOf(t: Tweet): TweetId { t.id }

  ghost predicate TweetExists(tweets: seq<Tweet>, id: TweetId) {
    exists t :: t in tweets && t.id == id
  }

  /** The tweet table as the store keeps it: unique ids, content within the
      bound, and every tweet's author an existing user. */
  ghost predicate TweetsValid(users: seq<User>, tweets: seq<Tweet>) {
    && Seqs.UniqueBy(tweets, TweetIdOf)
    && forall t :: t in tweets ==> ValidContent(t.content) && UserExists(users, t.author)
  }

  /** `get_object_or_404(Tweet, id=id)` */
  function TweetById(tweets: seq<Tweet>, id: TweetId): (r: Result<Tweet>)
    ensures r.Ok? <==> TweetExists(tweets, id)
    ensures r.Ok? ==> r.value in tweets && r.value.id == id
    ensures r.Err? ==> r.error == NotFound
  {
    if tweets == [] then Err(NotFound)
    else if tweets[0].id == id then Ok(tweets[0])
    else TweetById(tweets[1..], id)
  }

  /** With unique ids, the lookup finds the one tweet with that id. */
  lemma TweetByIdFinds(tweets: seq<Tweet>, t: Tweet)
    requires Seqs.UniqueBy(tweets, TweetIdOf) && t in tweets
    ensures TweetById(tweets, t.id) == Ok(t)
  {
    Seqs.UniqueByKeyDetermines(tweets, TweetIdOf, TweetById(tweets, t.id).value, t);
  }

  /** Rows present both before and after an operation are the same rows, so
      in particular `created_at`, stamped once, keeps its value. */
  ghost predicate KeepsRows(before: seq<Tweet>, after: seq<Tweet>) {
    forall t, t' :: t in before && t' in after && t.id == t'.id ==> t' == t
  }

  /** An operation whose tables before and after are drawn from one table with
      unique ids (the old table for a delete, the new one for a create) keeps
      every surviving row, and so its creation stamp, unchanged. */
  lemma StampedOnce(before: seq<Tweet>, after: seq<Tweet>, all: seq<Tweet>)
    requires Seqs.UniqueBy(all, TweetIdOf)
    requires forall x :: x in before ==> x in all
    requires forall x :: x in after ==> x in all
    ensures KeepsRows(before, after)
  {
    forall t, t' | t in before && t' in after && t.id == t'.id
      ensures t' == t
    {
      Seqs.UniqueByKeyDetermines(all, TweetIdOf, t, t');
    }
  }

  /** The default ordering `-created_at`: newest first. Tweets with equal stamps
      may come in either order. */
  ghost predicate NewestFirst(s: seq<Tweet>) {
    forall i, j :: 0 <= i < j < |s| ==> s[i].createdAt >= s[j].createdAt
  }

  /** Puts `t` into a listing that is newest first. */
  function Insert(t: Tweet, s: seq<Tweet>): (r: seq<Tweet>)
    requires NewestFirst(s)
    ensures NewestFirst(r)
    ensures multiset(r) == multiset(s) + multiset{t}
  {
    if s == [] then [t]
    else if t.createdAt >= s[0].createdAt then [t] + s
    else
      var rest := Insert(t, s[1..]);
      assert s == [s[0]] + s[1..];
      assert forall x :: x in rest ==> x.createdAt <= s[0].createdAt by {
        forall x | x in rest ensures x.createdAt <= s[0].createdAt {
          assert x in multiset(rest);
        }
      }
      NewestFirstCons(s[0], rest);
      [s[0]] + rest
  }

  /** A tweet at least as new as every tweet of a newest-first listing can go
      in front of it. */
  lemma NewestFirstCons(h: Tweet, rest: seq<Tweet>)
    requires NewestFirst(rest)
    requires forall x :: x in rest ==> x.createdAt <= h.createdAt
    ensures NewestFirst([h] + rest)
  {
    var r := [h] + rest;
    forall i, j | 0 <= i < j < |r| ensures r[i].createdAt >= r[j].createdAt {
      assert r[j] == rest[j - 1];
      if i > 0 {
        assert r[i] == rest[i - 1];
      } else {
        assert rest[j - 1] in rest;
      }
    }
  }

  /** The tweet table in its default order: newest first, and a permutation of
      the table. */
  function ByNewest(s: seq<Tweet>): (r: seq<Tweet>)
    ensures NewestFirst(r)
    ensures multiset(r) == multiset(s)
  {
    if s == [] then []
    else
      assert s == [s[0]] + s[1..];
      Insert(s[0], ByNewest(s[1..]))
  }

  function AuthoredByOther(id: UserId): Tweet -> bool { (t: Tweet) => t.author != id }
  function NotTweet(id: TweetId): Tweet -> bool { (t: Tweet) => t.id != id }

  /** The tweet table once a user is deleted: the `user` foreign key cascades,
      so the user's tweets go and every other tweet stays. */
  function DropTweetsBy(tweets: seq<Tweet>, id: UserId): (r: seq<Tweet>)
    ensures forall t :: t in r <==> t in tweets && t.author != id
  {
    Seqs.Filter(tweets, AuthoredByOther(id))
  }

  /** The tweet table without the tweet `id`. */
  function RemoveTweet(tweets: seq<Tweet>, id: TweetId): (r: seq<Tweet>)
    ensures forall t :: t in r <==> t in tweets && t.id != id
  {
    Seqs.Filter(tweets, NotTweet(id))
  }
}
