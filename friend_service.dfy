/** The friend-request lifecycle over the friend_requests and profiles tables: sending a
    request by email, listing incoming pending requests, accepting or rejecting a request by
    id, and listing friends. */
module FriendService {
  import opened Query
  import opened Schema

  // ---------------------------------------------------------------------------------------
  // Sending a request

  /** The profiles rows whose email column equals `email` exactly. */
  function ProfilesWithEmail(profiles: seq<Profile>, email: Email): seq<Profile> {
    Filter(HasEmail(email), profiles)
  }

  function HasEmail(email: Email): Profile -> bool {
    (p: Profile) => p.email == email
  }

  /** `select("id").eq("email", email).single()` on profiles. */
  function ResolveEmail(profiles: seq<Profile>, email: Email): (r: Result<UserId, QueryError>)
    ensures r.Ok? <==> |ProfilesWithEmail(profiles, email)| == 1
    ensures r.Ok? ==> Profile(r.value, email) in profiles
    ensures r.Ok? ==> forall p :: p in profiles && p.email == email ==> p.id == r.value
  {
    match Single(ProfilesWithEmail(profiles, email))
    case Ok(row) =>
      assert row in ProfilesWithEmail(profiles, email);
      Ok(row.id)
    case Err(e) => Err(e)
  }

  /** Some profiles row has primary key `id`: the foreign key of a friend_requests endpoint. */
  predicate IsProfileId(profiles: seq<Profile>, id: UserId) {
    exists p :: p in profiles && p.id == id
  }

  /** Resolves the recipient by email and inserts a pending edge from the sender.  Neither a
      request to oneself nor a request that duplicates an existing edge is refused. */
  method SendFriendRequest(db: Database, fromUserId: UserId, toUserEmail: Email) returns (r: Result<(), ServiceError>)
    requires db.Valid()
    modifies db`friendRequests, db`nextRequestId
    ensures db.Valid()
    ensures r == Err(UserNotFound) <==> ResolveEmail(db.profiles, toUserEmail).Err?
    ensures r == Err(Store(ForeignKeyViolation)) <==>
              ResolveEmail(db.profiles, toUserEmail).Ok? && !IsProfileId(db.profiles, fromUserId)
    ensures r.Ok? || r == Err(UserNotFound) || r == Err(Store(ForeignKeyViolation))
    ensures r.Err? ==> db.friendRequests == old(db.friendRequests) && db.nextRequestId == old(db.nextRequestId)
    ensures r.Ok? ==>
              db.friendRequests == old(db.friendRequests) +
                [FriendRequest(old(db.nextRequestId), fromUserId, ResolveEmail(db.profiles, toUserEmail).value, Pending)]
  {
    var userData := ResolveEmail(db.profiles, toUserEmail);
    if userData.Err? {
      return Err(UserNotFound);
    }
    // The store checks the foreign keys of the new row; the recipient came from profiles.
    if !IsProfileId(db.profiles, fromUserId) {
      return Err(Store(ForeignKeyViolation));
    }
    var row := FriendRequest(db.nextRequestId, fromUserId, userData.value, Pending);
    db.friendRequests := db.friendRequests + [row];
    db.nextRequestId := db.nextRequestId + 1;
    r := Ok(());
  }

  // ---------------------------------------------------------------------------------------
  // Incoming requests

  /** A friend_requests row joined with the emails of both endpoints. */
  datatype IncomingRequest = IncomingRequest(request: FriendRequest, fromUserEmail: Option<Email>, toUserEmail: Option<Email>)

  predicate IsIncomingPending(e: FriendRequest, u: UserId) {
    e.toUserId == u && e.status == Pending
  }

  /** `.eq("to_user_id", u).eq("status", "pending")` on friend_requests. */
  function IncomingPending(rs: seq<FriendRequest>, u: UserId): seq<FriendRequest> {
    Filter(IncomingPendingRow(u), rs)
  }

  function IncomingPendingRow(u: UserId): FriendRequest -> bool {
    (e: FriendRequest) => IsIncomingPending(e, u)
  }

  function WithEmails(profiles: seq<Profile>, e: FriendRequest): IncomingRequest {
    IncomingRequest(e, EmailOf(profiles, e.fromUserId), EmailOf(profiles, e.toUserId))
  }

  /** The pending requests addressed to `u`, each with the sender's and recipient's email. */
  function GetFriendRequests(profiles: seq<Profile>, rs: seq<FriendRequest>, u: UserId): (r: seq<IncomingRequest>)
    ensures |r| == |IncomingPending(rs, u)| <= |rs|
    ensures forall i :: 0 <= i < |r| ==>
              && r[i].request in rs
              && IsIncomingPending(r[i].request, u)
              && r[i].fromUserEmail == EmailOf(profiles, r[i].request.fromUserId)
              && r[i].toUserEmail == EmailOf(profiles, r[i].request.toUserId)
    ensures forall e :: e in rs && IsIncomingPending(e, u) ==> exists i :: 0 <= i < |r| && r[i].request == e
  {
    var rows := IncomingPending(rs, u);
    var r := seq(|rows|, i requires 0 <= i < |rows| => WithEmails(profiles, rows[i]));
    assert forall i :: 0 <= i < |r| ==> rows[i] in rows;
    assert forall e :: e in rs && IsIncomingPending(e, u) ==> r[IndexOf(rows, e)].request == e;
    r
  }

  /** Position of an element of a sequence. */
  function IndexOf<T(==)>(s: seq<T>, x: T): (k: nat)
    requires x in s
    ensures k < |s| && s[k] == x
  {
    if s[0] == x then 0 else 1 + IndexOf(s[1..], x)
  }

  // ---------------------------------------------------------------------------------------
  // Accepting and rejecting

  /** `update({status}).eq("id", id)`: every row with that key takes the new status, whatever
      its old one; all other rows, and all other columns, are untouched. */
  function UpdateStatus(rs: seq<FriendRequest>, id: RequestId, status: Status): (r: seq<FriendRequest>)
    ensures |r| == |rs|
    ensures forall i :: 0 <= i < |rs| ==>
              r[i].id == rs[i].id && r[i].fromUserId == rs[i].fromUserId && r[i].toUserId == rs[i].toUserId
    ensures forall i :: 0 <= i < |rs| && rs[i].id == id ==> r[i].status == status
    ensures forall i :: 0 <= i < |rs| && rs[i].id != id ==> r[i] == rs[i]
  {
    seq(|rs|, i requires 0 <= i < |rs| => if rs[i].id == id then rs[i].(status := status) else rs[i])
  }

  /** An id no row carries leaves the table as it was, without an error. */
  lemma UpdateUnknownIdIsNoOp(rs: seq<FriendRequest>, id: RequestId, status: Status)
    requires forall e :: e in rs ==> e.id != id
    ensures UpdateStatus(rs, id, status) == rs
  {
  }

  /** Updating a status keeps the table's keys as they were. */
  lemma UpdateStatusKeepsKeys(rs: seq<FriendRequest>, id: RequestId, status: Status, next: RequestId)
    requires RequestIdsDistinct(rs) && forall e :: e in rs ==> e.id < next
    ensures RequestIdsDistinct(UpdateStatus(rs, id, status))
    ensures forall e :: e in UpdateStatus(rs, id, status) ==> e.id < next
  {
  }

  method AcceptFriendRequest(db: Database, requestId: RequestId)
    requires db.Valid()
    modifies db`friendRequests
    ensures db.Valid()
    ensures db.friendRequests == UpdateStatus(old(db.friendRequests), requestId, Accepted)
  {
    UpdateStatusKeepsKeys(db.friendRequests, requestId, Accepted, db.nextRequestId);
    db.friendRequests := UpdateStatus(db.friendRequests, requestId, Accepted);
  }

  method RejectFriendRequest(db: Database, requestId: RequestId)
    requires db.Valid()
    modifies db`friendRequests
    ensures db.Valid()
    ensures db.friendRequests == UpdateStatus(old(db.friendRequests), requestId, Rejected)
  {
    UpdateStatusKeepsKeys(db.friendRequests, requestId, Rejected, db.nextRequestId);
    db.friendRequests := UpdateStatus(db.friendRequests, requestId, Rejected);
  }

  /** A request just sent is listed among the recipient's incoming requests, with the
      sender's email. */
  lemma SentRequestIsListed(profiles: seq<Profile>, rs: seq<FriendRequest>, e: FriendRequest)
    requires e.status == Pending
    ensures exists i :: 0 <= i < |GetFriendRequests(profiles, rs + [e], e.toUserId)| &&
              GetFriendRequests(profiles, rs + [e], e.toUserId)[i] == WithEmails(profiles, e)
  {
    var r := GetFriendRequests(profiles, rs + [e], e.toUserId);
    assert e in rs + [e];
    var i :| 0 <= i < |r| && r[i].request == e;
    assert r[i] == WithEmails(profiles, e);
  }

  /** Once accepted or rejected, a request is no longer listed as incoming. */
  lemma AnsweredRequestLeavesIncoming(profiles: seq<Profile>, rs: seq<FriendRequest>, id: RequestId, status: Status, u: UserId)
    requires status != Pending
    ensures forall x :: x in GetFriendRequests(profiles, UpdateStatus(rs, id, status), u) ==> x.request.id != id
  {
  }

  // ---------------------------------------------------------------------------------------
  // Friends

  predicate IsAcceptedTouching(e: FriendRequest, u: UserId) {
    e.status == Accepted && Touches(e, u)
  }

  /** `.or("from_user_id.eq.u,to_user_id.eq.u").eq("status", "accepted")` on friend_requests. */
  function AcceptedTouching(rs: seq<FriendRequest>, u: UserId): seq<FriendRequest> {
    Filter(AcceptedTouchingRow(u), rs)
  }

  function AcceptedTouchingRow(u: UserId): FriendRequest -> bool {
    (e: FriendRequest) => IsAcceptedTouching(e, u)
  }

  /** The endpoint of `e` that is not `u`: the recipient when `u` sent it, else the sender. */
  /** The friend on an edge touching `u`: the recipient when `u` sent it, else the sender. */
  function OtherEndpoint(e: FriendRequest, u: UserId): (r: UserId)
    ensures r == e.fromUserId || r == e.toUserId
    ensures Touches(e, u) ==> {u, r} == {e.fromUserId, e.toUserId}
  {
    if e.fromUserId == u then e.toUserId else e.fromUserId
  }

  /** The embedded email of each row's other endpoint, null when it has no profile. */
  function FriendEmails(profiles: seq<Profile>, rows: seq<FriendRequest>, u: UserId): seq<Option<Email>> {
    seq(|rows|, i requires 0 <= i < |rows| => EmailOf(profiles, OtherEndpoint(rows[i], u)))
  }

  /** `.filter(Boolean)` on strings or undefined: drops the missing and the empty ones. */
  function Truthy(xs: seq<Option<Email>>): (r: seq<Email>)
    ensures |r| <= |xs|
    ensures forall x :: x in r <==> Some(x) in xs && x != ""
  {
    if xs == [] then []
    else if xs[0].Some? && xs[0].value != "" then [xs[0].value] + Truthy(xs[1..])
    else Truthy(xs[1..])
  }

  /** One email per accepted edge touching `u`, naming its other endpoint; edges whose other
      endpoint has no (or an empty) email contribute nothing, nor do unaccepted edges. */
  function GetFriends(profiles: seq<Profile>, rs: seq<FriendRequest>, u: UserId): (r: seq<Email>)
    ensures |r| <= |AcceptedTouching(rs, u)|
    ensures forall x :: x in r <==>
              x != "" && exists e :: e in rs && IsAcceptedTouching(e, u) && EmailOf(profiles, OtherEndpoint(e, u)) == Some(x)
  {
    var rows := AcceptedTouching(rs, u);
    var emails := FriendEmails(profiles, rows, u);
    forall x ensures Some(x) in emails <==> exists e :: e in rs && IsAcceptedTouching(e, u) && EmailOf(profiles, OtherEndpoint(e, u)) == Some(x) {
      if Some(x) in emails {
        var i :| 0 <= i < |emails| && emails[i] == Some(x);
        assert rows[i] in rows;
      }
      if e :| e in rs && IsAcceptedTouching(e, u) && EmailOf(profiles, OtherEndpoint(e, u)) == Some(x) {
        assert emails[IndexOf(rows, e)] == Some(x);
      }
    }
    Truthy(emails)
  }

  /** Pending and rejected edges never change the friend list. */
  lemma GetFriendsIgnoresUnaccepted(profiles: seq<Profile>, before: seq<FriendRequest>, e: FriendRequest, after: seq<FriendRequest>, u: UserId)
    requires e.status != Accepted
    ensures GetFriends(profiles, before + [e] + after, u) == GetFriends(profiles, before + after, u)
  {
    FilterSkips(AcceptedTouchingRow(u), before, e, after);
    assert AcceptedTouching(before + [e] + after, u) == AcceptedTouching(before + after, u);
  }
}
