/** The three tables the services read and write (profiles, secrets, friend_requests), the
    identities held by the authentication provider, and the errors the services raise.
    Timestamps (`created_at`, `updated_at`) are not modelled. */
module Schema {
  import opened Query

  type UserId = string
  type Email = string

  /** Primary key of a friend_requests row; the store generates a fresh one on insert. */
  type RequestId = nat

  datatype Status = Pending | Accepted | Rejected

  /** A profiles row. */
  datatype Profile = Profile(id: UserId, email: Email)

  /** A friend_requests row: a directed edge from the sender to the recipient. */
  datatype FriendRequest = FriendRequest(id: RequestId, fromUserId: UserId, toUserId: UserId, status: Status)

  /** A secrets row. */
  datatype SecretMessage = SecretMessage(userId: UserId, message: string)

  /** What the services throw. */
  datatype ServiceError =
    | UserNotFound           // "User not found"
    | Forbidden              // "403: Forbidden - Not friends"
    | Store(code: QueryError) // an error object of the store, rethrown unchanged

  /** The edge has `u` as one of its endpoints (`from_user_id.eq.u,to_user_id.eq.u`). */
  predicate Touches(e: FriendRequest, u: UserId) {
    e.fromUserId == u || e.toUserId == u
  }

  /** The email embedded for user `id` through a foreign key to profiles, or null when no
      profile row has that id. */
  function EmailOf(profiles: seq<Profile>, id: UserId): (r: Option<Email>)
    ensures r.None? <==> forall p :: p in profiles ==> p.id != id
    ensures r.Some? ==> Profile(id, r.value) in profiles
  {
    if profiles == [] then None
    else if profiles[0].id == id then Some(profiles[0].email)
    else EmailOf(profiles[1..], id)
  }

  predicate ProfileIdsDistinct(profiles: seq<Profile>) {
    forall i, j :: 0 <= i < j < |profiles| ==> profiles[i].id != profiles[j].id
  }

  predicate RequestIdsDistinct(rs: seq<FriendRequest>) {
    forall i, j :: 0 <= i < j < |rs| ==> rs[i].id != rs[j].id
  }

  /** Deleting rows keeps the primary key of friend_requests a key. */
  lemma {:induction false} FilterKeepsRequestIdsDistinct(f: FriendRequest -> bool, rs: seq<FriendRequest>)
    requires RequestIdsDistinct(rs)
    ensures RequestIdsDistinct(Filter(f, rs))
  {
    if rs != [] {
      var tail := rs[1..];
      assert RequestIdsDistinct(tail) by {
        forall i, j | 0 <= i < j < |tail| ensures tail[i].id != tail[j].id {
          assert tail[i] == rs[i + 1] && tail[j] == rs[j + 1];
        }
      }
      FilterKeepsRequestIdsDistinct(f, tail);
      if f(rs[0]) {
        var rest := Filter(f, tail);
        forall k | 0 <= k < |rest| ensures rest[k].id != rs[0].id {
          assert rest[k] in tail;
          var m :| 0 <= m < |tail| && tail[m] == rest[k];
          assert rs[m + 1] == rest[k];
        }
      }
    }
  }

  /** The hosted database: the three tables, plus the identities of the authentication
      provider and the generator of fresh friend_requests keys. */
  class Database {
    var profiles: seq<Profile>
    var secrets: map<UserId, string>   // keyed by the unique `user_id` column
    var friendRequests: seq<FriendRequest>
    var users: set<UserId>
    var nextRequestId: RequestId

    /** Primary keys are keys, and every stored request id was generated before `nextRequestId`. */
    ghost predicate Valid()
      reads this
    {
      && ProfileIdsDistinct(profiles)
      && RequestIdsDistinct(friendRequests)
      && (forall e :: e in friendRequests ==> e.id < nextRequestId)
    }

    /** A database holding the given accounts and no secrets or friend requests. */
    constructor (profiles: seq<Profile>, users: set<UserId>)
      requires ProfileIdsDistinct(profiles)
      ensures Valid()
      ensures this.profiles == profiles && this.users == users
      ensures secrets == map[] && friendRequests == [] && nextRequestId == 0
    {
      this.profiles := profiles;
      this.users := users;
      secrets := map[];
      friendRequests := [];
      nextRequestId := 0;
    }
  }
}
