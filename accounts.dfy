/** The account models: users, and the directed `FriendShip` edge between two
    users with its `unique_friendship` constraint on the ordered pair. */
module Accounts {
  import opened Results
  import Seqs

  type UserId = nat

  /** A row of the user table. The core never changes users; it refers to them
      by `id` and looks them up by their unique `username`. */
  datatype User = User(id: UserId, username: string)

  /** A follow edge: `follower` follows `followee`. The edge is directed, so
      the edge from A to B says nothing about an edge from B to A. */
  datatype FriendShip = FriendShip(follower: UserId, followee: UserId, createdAt: nat)

  function IdOf(u: User): UserId { u.id }
  function UsernameOf(u: User): string { u.username }

  /** The columns of the `unique_friendship` constraint. */
  function Pair(e: FriendShip): (UserId, UserId) { (e.follower, e.followee) }

  /** Users have unique ids and unique usernames. */
  ghost predicate UsersValid(users: seq<User>) {
    Seqs.UniqueBy(users, IdOf) && Seqs.UniqueBy(users, UsernameOf)
  }

  ghost predicate UserExists(users: seq<User>, id: UserId) {
    exists u :: u in users && u.id == id
  }

  /** At most one edge per ordered pair (follower, followee). */
  ghost predicate UniqueFriendship(edges: seq<FriendShip>) {
    Seqs.UniqueBy(edges, Pair)
  }

  /** No user follows themself. */
  ghost predicate NoSelfFollow(edges: seq<FriendShip>) {
    forall e :: e in edges ==> e.follower != e.followee
  }

  /** The follow graph as the store keeps it: unique pairs, no self edge, and
      both ends of every edge are existing users. */
  ghost predicate GraphValid(users: seq<User>, edges: seq<FriendShip>) {
    && UniqueFriendship(edges)
    && NoSelfFollow(edges)
    && forall e :: e in edges ==> UserExists(users, e.follower) && UserExists(users, e.followee)
  }

  /** Looking a user up by username, or 404. */
  function UserByName(users: seq<User>, name: string): (r: Result<User>)
    ensures r.Ok? ==> r.value in users && r.value.username == name
    ensures r.Err? ==> r.error == NotFound && forall u :: u in users ==> u.username != name
  {
    if users == [] then Err(NotFound)
    else if users[0].username == name then Ok(users[0])
    else UserByName(users[1..], name)
  }

  /** With unique usernames, the lookup finds the one user with that name. */
  lemma UserByNameFinds(users: seq<User>, u: User)
    requires UsersValid(users) && u in users
    ensures UserByName(users, u.username) == Ok(u)
  {
    var r := UserByName(users, u.username);
    Seqs.UniqueByKeyDetermines(users, UsernameOf, r.value, u);
  }

  /** The user with a given id (the `select_related` join of an author). */
  function UserById(users: seq<User>, id: UserId): (r: Result<User>)
    ensures r.Ok? <==> UserExists(users, id)
    ensures r.Ok? ==> r.value in users && r.value.id == id
  {
    if users == [] then Err(NotFound)
    else if users[0].id == id then Ok(users[0])
    else UserById(users[1..], id)
  }

  function Between(a: UserId, b: UserId): FriendShip -> bool {
    (e: FriendShip) => e.follower == a && e.followee == b
  }

  /** Whether the directed edge from `a` to `b` exists
      (`FriendShip.objects.filter(follower=a, followee=b).exists()`). */
  predicate IsFollowing(edges: seq<FriendShip>, a: UserId, b: UserId)
    ensures IsFollowing(edges, a, b) <==> exists e :: e in edges && e.follower == a && e.followee == b
  {
    var found := Seqs.Filter(edges, Between(a, b));
    assert |found| > 0 ==> found[0] in found;
    |found| > 0
  }

  function KeepsUser(id: UserId): User -> bool { (u: User) => u.id != id }
  function AvoidsUser(id: UserId): FriendShip -> bool { (e: FriendShip) => e.follower != id && e.followee != id }

  /** The user table once a user is deleted. */
  function DropUser(users: seq<User>, id: UserId): (r: seq<User>)
    ensures forall u :: u in r <==> u in users && u.id != id
  {
    Seqs.Filter(users, KeepsUser(id))
  }

  /** The edge table once a user is deleted: both foreign keys cascade, so
      every edge with the user on either side goes and every other edge stays. */
  function DropEdgesOf(edges: seq<FriendShip>, id: UserId): (r: seq<FriendShip>)
    ensures forall e :: e in r <==> e in edges && e.follower != id && e.followee != id
  {
    Seqs.Filter(edges, AvoidsUser(id))
  }

  /** Deleting a user, with its cascade, keeps the user table and the follow
      graph valid. */
  lemma DeleteUserKeepsGraph(users: seq<User>, edges: seq<FriendShip>, id: UserId)
    requires UsersValid(users) && GraphValid(users, edges)
    ensures UsersValid(DropUser(users, id))
    ensures GraphValid(DropUser(users, id), DropEdgesOf(edges, id))
  {
    Seqs.FilterUniqueBy(users, KeepsUser(id), IdOf);
    Seqs.FilterUniqueBy(users, KeepsUser(id), UsernameOf);
    Seqs.FilterUniqueBy(edges, AvoidsUser(id), Pair);
    var users' := DropUser(users, id);
    forall e | e in DropEdgesOf(edges, id)
      ensures UserExists(users', e.follower) && UserExists(users', e.followee)
    {
      var a :| a in users && a.id == e.follower;
      var b :| b in users && b.id == e.followee;
      assert a in users' && b in users';
    }
  }
}
