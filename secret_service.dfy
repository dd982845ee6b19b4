/** The secret store over the secrets table, and the friendship rule that gates reading
    another user's secret. */
module SecretService {
  import opened Query
  import opened Schema
  import FriendService

  // ---------------------------------------------------------------------------------------
  // Own secret

  /** `select("*").eq("user_id", u)` on secrets: at most one row, since `user_id` is unique. */
  function SecretRows(secrets: map<UserId, string>, u: UserId): seq<SecretMessage> {
    if u in secrets then [SecretMessage(u, secrets[u])] else []
  }

  /** The user's secret, or null when none was saved: the PGRST116 error of `.single()` on
      an empty selection is not rethrown. */
  function GetSecretMessage(secrets: map<UserId, string>, u: UserId): (r: Option<SecretMessage>)
    ensures r.Some? <==> u in secrets
    ensures r.Some? ==> r.value == SecretMessage(u, secrets[u])
  {
    match Single(SecretRows(secrets, u))
    case Ok(row) => Some(row)
    case Err(_) => None
  }

  /** `upsert({user_id, message}, {onConflict: "user_id"}).select().single()`: replaces the
      user's row or creates it, and returns the stored row. */
  method SaveSecretMessage(db: Database, userId: UserId, message: string) returns (row: SecretMessage)
    requires db.Valid()
    modifies db`secrets
    ensures db.Valid()
    ensures db.secrets == old(db.secrets)[userId := message]
    ensures row == SecretMessage(userId, message)
    ensures GetSecretMessage(db.secrets, userId) == Some(row)
    ensures forall v :: v != userId ==> GetSecretMessage(db.secrets, v) == GetSecretMessage(old(db.secrets), v)
  {
    db.secrets := db.secrets[userId := message];
    row := SecretMessage(userId, message);
  }

  /** Saving the same message again leaves the same stored state. */
  lemma SaveIsIdempotent(secrets: map<UserId, string>, u: UserId, m: string)
    ensures secrets[u := m][u := m] == secrets[u := m]
    ensures GetSecretMessage(secrets[u := m][u := m], u) == Some(SecretMessage(u, m))
  {
  }

  // ---------------------------------------------------------------------------------------
  // Friendship

  /** The edge joins `a` and `b`, in either direction. */
  predicate Between(e: FriendRequest, a: UserId, b: UserId) {
    (e.fromUserId == a && e.toUserId == b) || (e.fromUserId == b && e.toUserId == a)
  }

  predicate IsAcceptedBetween(e: FriendRequest, a: UserId, b: UserId) {
    e.status == Accepted && Between(e, a, b)
  }

  function AcceptedBetweenRow(a: UserId, b: UserId): FriendRequest -> bool {
    (e: FriendRequest) => IsAcceptedBetween(e, a, b)
  }

  /** `.or("and(from.eq.a,to.eq.b),and(from.eq.b,to.eq.a)").eq("status", "accepted")`. */
  function AcceptedBetween(rs: seq<FriendRequest>, a: UserId, b: UserId): seq<FriendRequest> {
    Filter(AcceptedBetweenRow(a, b), rs)
  }

  /** `checkFriendship`: true when exactly one accepted edge joins the pair, false when none
      does, and the `.maybeSingle()` error when several do. */
  function CheckFriendship(rs: seq<FriendRequest>, a: UserId, b: UserId): (r: Result<bool, QueryError>)
    ensures r == Ok(true) <==> |AcceptedBetween(rs, a, b)| == 1
    ensures r == Ok(true) ==> exists e :: e in rs && e.status == Accepted && Between(e, a, b)
    ensures r == Ok(false) <==> forall e :: e in rs && Between(e, a, b) ==> e.status != Accepted
    ensures r.Err? <==> |AcceptedBetween(rs, a, b)| > 1
    ensures r.Err? ==> r.error == MultipleRows
  {
    var rows := AcceptedBetween(rs, a, b);
    assert rows != [] ==> rows[0] in rows;
    match MaybeSingle(rows)
    case Ok(data) => Ok(data.Some?)
    case Err(e) => Err(e)
  }

  lemma CheckFriendshipSymmetric(rs: seq<FriendRequest>, a: UserId, b: UserId)
    ensures CheckFriendship(rs, a, b) == CheckFriendship(rs, b, a)
  {
    FilterExtensional(AcceptedBetweenRow(a, b), AcceptedBetweenRow(b, a), rs);
  }

  /** Pending and rejected edges never change the outcome of the check. */
  lemma UnacceptedEdgesNeverGrant(before: seq<FriendRequest>, e: FriendRequest, after: seq<FriendRequest>, a: UserId, b: UserId)
    requires e.status != Accepted
    ensures CheckFriendship(before + [e] + after, a, b) == CheckFriendship(before + after, a, b)
  {
    FilterSkips(AcceptedBetweenRow(a, b), before, e, after);
    assert AcceptedBetween(before + [e] + after, a, b) == AcceptedBetween(before + after, a, b);
  }

  /** Two accepted edges between the same pair make the check fail instead of answering true. */
  lemma DuplicateAcceptedEdgesFail(rs: seq<FriendRequest>, a: UserId, b: UserId, i: nat, j: nat)
    requires i < j < |rs|
    requires IsAcceptedBetween(rs[i], a, b) && IsAcceptedBetween(rs[j], a, b)
    ensures CheckFriendship(rs, a, b) == Err(MultipleRows)
  {
    FilterTwo(AcceptedBetweenRow(a, b), rs, i, j);
  }

  // ---------------------------------------------------------------------------------------
  // A friend's secret

  /** The friend's secret when the check answers true, Forbidden when it answers false, and
      the check's own error otherwise. */
  function GetFriendSecretMessage(rs: seq<FriendRequest>, secrets: map<UserId, string>, currentUserId: UserId, friendId: UserId)
    : (r: Result<Option<SecretMessage>, ServiceError>)
    ensures r == Err(Forbidden) <==> forall e :: e in rs && Between(e, currentUserId, friendId) ==> e.status != Accepted
    ensures r.Ok? <==> |AcceptedBetween(rs, currentUserId, friendId)| == 1
    ensures r.Ok? ==> r.value == GetSecretMessage(secrets, friendId)
    ensures r.Err? && r != Err(Forbidden) ==> r == Err(Store(MultipleRows))
  {
    match CheckFriendship(rs, currentUserId, friendId)
    case Err(e) => Err(Store(e))
    case Ok(areFriends) =>
      if !areFriends then Err(Forbidden) else Ok(GetSecretMessage(secrets, friendId))
  }

  /** Resolves the friend by email first: an email that does not name exactly one profile is
      "User not found" whatever the friendships. */
  function GetFriendSecretMessageByEmail(profiles: seq<Profile>, rs: seq<FriendRequest>, secrets: map<UserId, string>,
                                         currentUserId: UserId, friendEmail: Email)
    : (r: Result<Option<SecretMessage>, ServiceError>)
    ensures r == Err(UserNotFound) <==> |FriendService.ProfilesWithEmail(profiles, friendEmail)| != 1
    ensures forall p :: p in profiles && p.email == friendEmail && r != Err(UserNotFound) ==>
              r == GetFriendSecretMessage(rs, secrets, currentUserId, p.id)
  {
    match FriendService.ResolveEmail(profiles, friendEmail)
    case Err(_) => Err(UserNotFound)
    case Ok(friendId) => GetFriendSecretMessage(rs, secrets, currentUserId, friendId)
  }

  // ---------------------------------------------------------------------------------------
  // The lifecycle and the rule together

  /** Accepting a request between two users who were not friends makes them friends, whatever
      the request's previous status. */
  lemma AcceptMakesFriends(rs: seq<FriendRequest>, i: nat, a: UserId, b: UserId)
    requires RequestIdsDistinct(rs)
    requires i < |rs| && Between(rs[i], a, b)
    requires CheckFriendship(rs, a, b) == Ok(false)
    ensures CheckFriendship(FriendService.UpdateStatus(rs, rs[i].id, Accepted), a, b) == Ok(true)
  {
    var after := FriendService.UpdateStatus(rs, rs[i].id, Accepted);
    forall j | 0 <= j < |after| && j != i ensures !IsAcceptedBetween(after[j], a, b) {
      assert rs[j].id != rs[i].id by {
        if j < i { assert rs[j].id != rs[i].id; } else { assert rs[i].id != rs[j].id; }
      }
      assert after[j] == rs[j];
      assert rs[j] in rs;
    }
    FilterOnly(AcceptedBetweenRow(a, b), after, i);
  }

  /** Rejecting a request leaves two users not friends when no other edge between them is
      accepted, whatever other pending or rejected edges join them. */
  lemma RejectOnlyRequestDeniesFriendship(rs: seq<FriendRequest>, i: nat, a: UserId, b: UserId)
    requires i < |rs|
    requires forall j :: 0 <= j < |rs| && j != i ==> !IsAcceptedBetween(rs[j], a, b)
    ensures CheckFriendship(FriendService.UpdateStatus(rs, rs[i].id, Rejected), a, b) == Ok(false)
  {
    var after := FriendService.UpdateStatus(rs, rs[i].id, Rejected);
    forall e | e in after && Between(e, a, b) ensures e.status != Accepted {
      var j :| 0 <= j < |after| && after[j] == e;
    }
  }

  /** A user who is not a friend is refused the secret; once the request between the two is
      accepted, the same read returns the owner's secret (or null when none is saved). */
  lemma AcceptanceUnlocksSecret(rs: seq<FriendRequest>, secrets: map<UserId, string>, i: nat, reader: UserId, owner: UserId)
    requires RequestIdsDistinct(rs)
    requires i < |rs| && Between(rs[i], reader, owner)
    requires CheckFriendship(rs, reader, owner) == Ok(false)
    ensures GetFriendSecretMessage(rs, secrets, reader, owner) == Err(Forbidden)
    ensures GetFriendSecretMessage(FriendService.UpdateStatus(rs, rs[i].id, Accepted), secrets, reader, owner)
              == Ok(GetSecretMessage(secrets, owner))
  {
    AcceptMakesFriends(rs, i, reader, owner);
  }
}
