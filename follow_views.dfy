/** Following and unfollowing another user, and the following/follower counts
    shown on a profile. `accounts/views.py` defines only the sign-up view, so
    the behaviour of following is the one `accounts/tests.py` asserts: an unknown username
    is a 404 and changes nothing, the caller's own username is a 400 and
    changes nothing, and a call that succeeds creates or removes the edge from
    the caller to the target. A username is resolved before it is compared
    with the caller. */
module FollowViews {
  import opened Results
  import opened Accounts
  import Seqs

  function FromUser(id: UserId): FriendShip -> bool { (e: FriendShip) => e.follower == id }
  function ToUser(id: UserId): FriendShip -> bool { (e: FriendShip) => e.followee == id }
  function OtherThan(a: UserId, b: UserId): FriendShip -> bool {
    (e: FriendShip) => !(e.follower == a && e.followee == b)
  }
  function FolloweeOf(e: FriendShip): UserId { e.followee }
  function FollowerOf(e: FriendShip): UserId { e.follower }

  /** `FriendShip.objects.filter(follower=user)` */
  function EdgesFrom(edges: seq<FriendShip>, id: UserId): (r: seq<FriendShip>)
    ensures forall e :: e in r <==> e in edges && e.follower == id
  {
    Seqs.Filter(edges, FromUser(id))
  }

  /** `FriendShip.objects.filter(followee=user)` */
  function EdgesTo(edges: seq<FriendShip>, id: UserId): (r: seq<FriendShip>)
    ensures forall e :: e in r <==> e in edges && e.followee == id
  {
    Seqs.Filter(edges, ToUser(id))
  }

  /** The `following_count` of a profile: how many edges start at the user. */
  function FollowingCount(edges: seq<FriendShip>, id: UserId): (n: nat)
    ensures n <= |edges|
    ensures n == 0 <==> forall e :: e in edges ==> e.follower != id
  {
    var out := EdgesFrom(edges, id);
    assert |out| > 0 ==> out[0] in out;
    |out|
  }

  /** The `follower_count` of a profile: how many edges end at the user. */
  function FollowerCount(edges: seq<FriendShip>, id: UserId): (n: nat)
    ensures n <= |edges|
    ensures n == 0 <==> forall e :: e in edges ==> e.followee != id
  {
    var inc := EdgesTo(edges, id);
    assert |inc| > 0 ==> inc[0] in inc;
    |inc|
  }

  /** The users that `id` follows. */
  ghost function Followees(edges: seq<FriendShip>, id: UserId): set<UserId> {
    set e | e in edges && e.follower == id :: e.followee
  }

  /** The users that follow `id`. */
  ghost function Followers(edges: seq<FriendShip>, id: UserId): set<UserId> {
    set e | e in edges && e.followee == id :: e.follower
  }

  /** The edge table without the edge from `a` to `b`
      (`FriendShip.objects.filter(follower=a, followee=b).delete()`). */
  function RemoveEdge(edges: seq<FriendShip>, a: UserId, b: UserId): (r: seq<FriendShip>)
    ensures forall e :: e in r <==> e in edges && !(e.follower == a && e.followee == b)
  {
    Seqs.Filter(edges, OtherThan(a, b))
  }

  /** What a follow or unfollow answers, and the edge table after it. */
  datatype FollowOutcome = FollowOutcome(result: Result<User>, friendships: seq<FriendShip>)

  /** The follow view: `caller` asks to follow the user named `name`; `now`
      stamps the new edge. */
  function FollowView(users: seq<User>, edges: seq<FriendShip>, caller: UserId, name: string, now: nat): (o: FollowOutcome)
    ensures o.result == Err(NotFound) <==> forall u :: u in users ==> u.username != name
    ensures o.result.Err? ==> o.friendships == edges
    ensures o.result.Err? ==> o.result.error in {NotFound, SelfTarget, AlreadyFollowing}
    ensures o.result == Err(SelfTarget) ==> exists u :: u in users && u.username == name && u.id == caller
    ensures o.result == Err(AlreadyFollowing) ==>
      exists u :: u in users && u.username == name && u.id != caller && IsFollowing(edges, caller, u.id)
    ensures o.result.Ok? ==>
      var target := o.result.value;
      && target in users && target.username == name && target.id != caller
      && o.friendships == edges + [FriendShip(caller, target.id, now)]
      && forall a, b :: IsFollowing(o.friendships, a, b) <==> IsFollowing(edges, a, b) || (a == caller && b == target.id)
  {
    match UserByName(users, name)
    case Err(e) => FollowOutcome(Err(e), edges)
    case Ok(target) =>
      if target.id == caller then FollowOutcome(Err(SelfTarget), edges)
      else if IsFollowing(edges, caller, target.id) then FollowOutcome(Err(AlreadyFollowing), edges)
      else
        var edge := FriendShip(caller, target.id, now);
        assert IsFollowing(edges + [edge], caller, target.id) by { assert edge in edges + [edge]; }
        FollowOutcome(Ok(target), edges + [edge])
  }

  /** The unfollow view: `caller` asks to stop following the user named `name`. */
  function UnfollowView(users: seq<User>, edges: seq<FriendShip>, caller: UserId, name: string): (o: FollowOutcome)
    ensures o.result == Err(NotFound) <==> forall u :: u in users ==> u.username != name
    ensures o.result.Err? ==> o.friendships == edges
    ensures o.result.Err? ==> o.result.error in {NotFound, SelfTarget, NotFollowing}
    ensures o.result == Err(SelfTarget) ==> exists u :: u in users && u.username == name && u.id == caller
    ensures o.result == Err(NotFollowing) ==>
      exists u :: u in users && u.username == name && u.id != caller && !IsFollowing(edges, caller, u.id)
    ensures o.result.Ok? ==>
      var target := o.result.value;
      && target in users && target.username == name && target.id != caller
      && IsFollowing(edges, caller, target.id)
      && o.friendships == RemoveEdge(edges, caller, target.id)
      && forall a, b :: IsFollowing(o.friendships, a, b) <==> IsFollowing(edges, a, b) && !(a == caller && b == target.id)
  {
    match UserByName(users, name)
    case Err(e) => FollowOutcome(Err(e), edges)
    case Ok(target) =>
      if target.id == caller then FollowOutcome(Err(SelfTarget), edges)
      else if !IsFollowing(edges, caller, target.id) then FollowOutcome(Err(NotFollowing), edges)
      else
        FollowOutcome(Ok(target), RemoveEdge(edges, caller, target.id))
  }

  /** With unique usernames, a follow of the user `u` is decided by who `u` is:
      it succeeds exactly when `u` is someone else whom the caller does not
      follow yet, and fails with `SelfTarget` or `AlreadyFollowing` otherwise. */
  lemma FollowViewDecides(users: seq<User>, edges: seq<FriendShip>, caller: UserId, u: User, now: nat)
    requires UsersValid(users) && u in users
    ensures var r := FollowView(users, edges, caller, u.username, now).result;
      && (r == Ok(u) <==> u.id != caller && !IsFollowing(edges, caller, u.id))
      && (r == Err(SelfTarget) <==> u.id == caller)
      && (r == Err(AlreadyFollowing) <==> u.id != caller && IsFollowing(edges, caller, u.id))
  {
    UserByNameFinds(users, u);
  }

  /** With unique usernames, an unfollow of the user `u` succeeds exactly when
      `u` is someone else whom the caller follows, and fails with `SelfTarget`
      or `NotFollowing` otherwise. */
  lemma UnfollowViewDecides(users: seq<User>, edges: seq<FriendShip>, caller: UserId, u: User)
    requires UsersValid(users) && u in users
    ensures var r := UnfollowView(users, edges, caller, u.username).result;
      && (r == Ok(u) <==> u.id != caller && IsFollowing(edges, caller, u.id))
      && (r == Err(SelfTarget) <==> u.id == caller)
      && (r == Err(NotFollowing) <==> u.id != caller && !IsFollowing(edges, caller, u.id))
  {
    UserByNameFinds(users, u);
  }

  /** A follow by an existing user keeps the graph valid: the new pair is not
      yet in the table, its ends are distinct and both exist. */
  lemma FollowKeepsGraphValid(users: seq<User>, edges: seq<FriendShip>, caller: UserId, name: string, now: nat)
    requires GraphValid(users, edges) && UserExists(users, caller)
    ensures GraphValid(users, FollowView(users, edges, caller, name, now).friendships)
  {
    var o := FollowView(users, edges, caller, name, now);
    if o.result.Ok? {
      var edge := FriendShip(caller, o.result.value.id, now);
      forall e | e in edges ensures Pair(e) != Pair(edge) {
        assert !IsFollowing(edges, caller, edge.followee);
      }
      Seqs.UniqueByAppend(edges, edge, Pair);
    }
  }

  /** An unfollow keeps the graph valid. */
  lemma UnfollowKeepsGraphValid(users: seq<User>, edges: seq<FriendShip>, caller: UserId, name: string)
    requires GraphValid(users, edges)
    ensures GraphValid(users, UnfollowView(users, edges, caller, name).friendships)
  {
    var o := UnfollowView(users, edges, caller, name);
    if o.result.Ok? {
      Seqs.FilterUniqueBy(edges, OtherThan(caller, o.result.value.id), Pair);
    }
  }

  /** With the uniqueness constraint,
      `following_count` is the number of distinct users followed and
      `follower_count` the number of distinct followers. */
  lemma CountsAreSetSizes(edges: seq<FriendShip>, id: UserId)
    requires UniqueFriendship(edges)
    ensures FollowingCount(edges, id) == |Followees(edges, id)|
    ensures FollowerCount(edges, id) == |Followers(edges, id)|
  {
    var out := EdgesFrom(edges, id);
    Seqs.FilterUniqueBy(edges, FromUser(id), Pair);
    forall i, j | 0 <= i < j < |out| ensures FolloweeOf(out[i]) != FolloweeOf(out[j]) {
      assert Pair(out[i]) != Pair(out[j]);
      assert out[i] in out && out[j] in out;
    }
    Seqs.UniqueByCount(out, FolloweeOf);
    assert Seqs.Keys(out, FolloweeOf) == Followees(edges, id);

    var inc := EdgesTo(edges, id);
    Seqs.FilterUniqueBy(edges, ToUser(id), Pair);
    forall i, j | 0 <= i < j < |inc| ensures FollowerOf(inc[i]) != FollowerOf(inc[j]) {
      assert Pair(inc[i]) != Pair(inc[j]);
      assert inc[i] in inc && inc[j] in inc;
    }
    Seqs.UniqueByCount(inc, FollowerOf);
    assert Seqs.Keys(inc, FollowerOf) == Followers(edges, id);
  }

  /** A successful follow adds one to the caller's following count and one to
      the target's follower count, and changes no other count. */
  lemma FollowCounts(users: seq<User>, edges: seq<FriendShip>, caller: UserId, name: string, now: nat)
    requires FollowView(users, edges, caller, name, now).result.Ok?
    ensures var o := FollowView(users, edges, caller, name, now);
      var target := o.result.value.id;
      && IsFollowing(o.friendships, caller, target)
      && FollowingCount(o.friendships, caller) == FollowingCount(edges, caller) + 1
      && FollowerCount(o.friendships, target) == FollowerCount(edges, target) + 1
      && (forall x :: x != caller ==> FollowingCount(o.friendships, x) == FollowingCount(edges, x))
      && (forall x :: x != target ==> FollowerCount(o.friendships, x) == FollowerCount(edges, x))
  {
    var o := FollowView(users, edges, caller, name, now);
    var edge := FriendShip(caller, o.result.value.id, now);
    forall x ensures FollowingCount(o.friendships, x) == FollowingCount(edges, x) + (if x == caller then 1 else 0) {
      Seqs.FilterAppend(edges, edge, FromUser(x));
    }
    forall x ensures FollowerCount(o.friendships, x) == FollowerCount(edges, x) + (if x == edge.followee then 1 else 0) {
      Seqs.FilterAppend(edges, edge, ToUser(x));
    }
  }

  /** Removing an existing edge from `a` to `b` lowers `a`'s following count by one. */
  lemma RemoveEdgeFollowing(edges: seq<FriendShip>, a: UserId, b: UserId, x: UserId)
    requires UniqueFriendship(edges) && IsFollowing(edges, a, b)
    ensures FollowingCount(RemoveEdge(edges, a, b), x) == FollowingCount(edges, x) - (if x == a then 1 else 0)
  {
    var edges' := RemoveEdge(edges, a, b);
    Seqs.FilterUniqueBy(edges, OtherThan(a, b), Pair);
    CountsAreSetSizes(edges, x);
    CountsAreSetSizes(edges', x);
    if x == a {
      assert Followees(edges', x) == Followees(edges, x) - {b};
      var e :| e in edges && e.follower == a && e.followee == b;
      assert b in Followees(edges, x);
    } else {
      assert Followees(edges', x) == Followees(edges, x);
    }
  }

  /** Removing an existing edge from `a` to `b` lowers `b`'s follower count by one. */
  lemma RemoveEdgeFollower(edges: seq<FriendShip>, a: UserId, b: UserId, x: UserId)
    requires UniqueFriendship(edges) && IsFollowing(edges, a, b)
    ensures FollowerCount(RemoveEdge(edges, a, b), x) == FollowerCount(edges, x) - (if x == b then 1 else 0)
  {
    var edges' := RemoveEdge(edges, a, b);
    Seqs.FilterUniqueBy(edges, OtherThan(a, b), Pair);
    CountsAreSetSizes(edges, x);
    CountsAreSetSizes(edges', x);
    if x == b {
      assert Followers(edges', x) == Followers(edges, x) - {a};
      var e :| e in edges && e.follower == a && e.followee == b;
      assert a in Followers(edges, x);
    } else {
      assert Followers(edges', x) == Followers(edges, x);
    }
  }

  /** A successful unfollow takes one from the caller's following count and one
      from the target's follower count, and changes no other count. */
  lemma UnfollowCounts(users: seq<User>, edges: seq<FriendShip>, caller: UserId, name: string)
    requires UniqueFriendship(edges)
    requires UnfollowView(users, edges, caller, name).result.Ok?
    ensures var o := UnfollowView(users, edges, caller, name);
      var target := o.result.value.id;
      && !IsFollowing(o.friendships, caller, target)
      && FollowingCount(o.friendships, caller) == FollowingCount(edges, caller) - 1
      && FollowerCount(o.friendships, target) == FollowerCount(edges, target) - 1
      && (forall x :: x != caller ==> FollowingCount(o.friendships, x) == FollowingCount(edges, x))
      && (forall x :: x != target ==> FollowerCount(o.friendships, x) == FollowerCount(edges, x))
  {
    var o := UnfollowView(users, edges, caller, name);
    var target := o.result.value.id;
    forall x ensures FollowingCount(o.friendships, x) == FollowingCount(edges, x) - (if x == caller then 1 else 0) {
      RemoveEdgeFollowing(edges, caller, target, x);
    }
    forall x ensures FollowerCount(o.friendships, x) == FollowerCount(edges, x) - (if x == target then 1 else 0) {
      RemoveEdgeFollower(edges, caller, target, x);
    }
  }

  /** Following oneself fails with `SelfTarget` whatever the graph holds, and so
      does unfollowing oneself; neither changes the graph. */
  lemma FollowSelfFails(users: seq<User>, edges: seq<FriendShip>, me: User, now: nat)
    requires UsersValid(users) && me in users
    ensures FollowView(users, edges, me.id, me.username, now) == FollowOutcome(Err(SelfTarget), edges)
    ensures UnfollowView(users, edges, me.id, me.username) == FollowOutcome(Err(SelfTarget), edges)
  {
    UserByNameFinds(users, me);
  }

  /** Following is not idempotent: a second follow of the same user fails with
      `AlreadyFollowing` and leaves the graph as the first follow left it. */
  lemma FollowTwiceConflicts(users: seq<User>, edges: seq<FriendShip>, caller: UserId, name: string, now: nat, later: nat)
    requires FollowView(users, edges, caller, name, now).result.Ok?
    ensures var first := FollowView(users, edges, caller, name, now);
      FollowView(users, first.friendships, caller, name, later) == FollowOutcome(Err(AlreadyFollowing), first.friendships)
  {
    var first := FollowView(users, edges, caller, name, now);
    FollowCounts(users, edges, caller, name, now);
  }

  /** Unfollowing right after a successful follow restores the edge table. */
  lemma FollowUnfollowRoundTrip(users: seq<User>, edges: seq<FriendShip>, caller: UserId, name: string, now: nat)
    requires FollowView(users, edges, caller, name, now).result.Ok?
    ensures var first := FollowView(users, edges, caller, name, now);
      UnfollowView(users, first.friendships, caller, name) == FollowOutcome(first.result, edges)
  {
    var first := FollowView(users, edges, caller, name, now);
    var target := first.result.value.id;
    var edge := FriendShip(caller, target, now);
    assert UserByName(users, name) == first.result;
    assert !IsFollowing(edges, caller, target);
    assert first.friendships == edges + [edge];
    assert IsFollowing(first.friendships, caller, target) by { assert edge in first.friendships; }
    Seqs.FilterAppend(edges, edge, OtherThan(caller, target));
    Seqs.FilterKeepsAll(edges, OtherThan(caller, target));
    assert RemoveEdge(first.friendships, caller, target) == edges;
  }
}
