/** The account-deletion endpoint: authenticate the bearer token, delete the user's secrets,
    then every friend request the user sent or received, then the identity, and answer with
    a status code. */
module DeleteAccount {
  import opened Query
  import opened Schema
  import FriendService
  import SecretService

  datatype Body = ErrorBody(error: string) | MessageBody(message: string)

  /** The JSON response, reduced to its status code and body. */
  datatype Response = Response(status: int, body: Body)

  const Unauthorized := Response(401, ErrorBody("Unauthorized"))
  const DeleteFailed := Response(500, ErrorBody("Failed to delete user account"))
  const Deleted := Response(200, MessageBody("Account deleted successfully"))

  /** What the handler's collaborators answer: the tokens the authentication provider
      accepts (with the user each belongs to), and whether each of the three deletions
      succeeds. */
  datatype Backend = Backend(
    sessions: map<string, UserId>,
    secretsDeleteSucceeds: bool,
    requestsDeleteSucceeds: bool,
    deleteUserSucceeds: bool)

  // ---------------------------------------------------------------------------------------
  // The token

  /** `String.prototype.replace` with a string pattern: only the first occurrence of `pat`,
      wherever it stands, is replaced. */
  function ReplaceFirst(s: string, pat: string, rep: string): string
    decreases |s|
  {
    if |s| < |pat| then s
    else if s[..|pat|] == pat then rep + s[|pat|..]
    else [s[0]] + ReplaceFirst(s[1..], pat, rep)
  }

  predicate OccursAt(pat: string, s: string, i: nat) {
    i + |pat| <= |s| && s[i..i + |pat|] == pat
  }

  predicate Occurs(pat: string, s: string) {
    exists i: nat :: i <= |s| && OccursAt(pat, s, i)
  }

  lemma ReplaceFirstOfPrefixed(pat: string, t: string, rep: string)
    ensures ReplaceFirst(pat + t, pat, rep) == rep + t
  {
  }

  lemma {:induction false} ReplaceFirstWithoutOccurrence(s: string, pat: string, rep: string)
    requires !Occurs(pat, s)
    ensures ReplaceFirst(s, pat, rep) == s
    decreases |s|
  {
    if |s| >= |pat| {
      assert s[0..0 + |pat|] == s[..|pat|];
      assert !OccursAt(pat, s, 0);
      var t := s[1..];
      if Occurs(pat, t) {
        var i: nat :| i <= |t| && OccursAt(pat, t, i);
        assert s[i + 1..i + 1 + |pat|] == t[i..i + |pat|];
        assert OccursAt(pat, s, i + 1);
        assert false;
      }
      ReplaceFirstWithoutOccurrence(t, pat, rep);
      assert s == [s[0]] + t;
    }
  }

  /** An occurrence one place further into `s` is an occurrence in its tail. */
  lemma OccursAtTail(pat: string, s: string, k: nat)
    requires s != []
    ensures OccursAt(pat, s, k + 1) <==> OccursAt(pat, s[1..], k)
  {
    if k + 1 + |pat| <= |s| {
      assert s[1..][k..k + |pat|] == s[k + 1..k + 1 + |pat|];
    }
  }

  /** Where the pattern first occurs, it is replaced there and nowhere else: text before and
      after the occurrence is kept as it was. */
  lemma {:induction false} ReplaceFirstAtFirstOccurrence(s: string, pat: string, rep: string, i: nat)
    requires OccursAt(pat, s, i)
    requires forall k: nat :: k < i ==> !OccursAt(pat, s, k)
    ensures ReplaceFirst(s, pat, rep) == s[..i] + rep + s[i + |pat|..]
    decreases i
  {
    assert s[0..|pat|] == s[..|pat|];
    if i == 0 {
      assert ReplaceFirst(s, pat, rep) == rep + s[|pat|..];
    } else {
      assert !OccursAt(pat, s, 0);
      var t := s[1..];
      assert ReplaceFirst(s, pat, rep) == [s[0]] + ReplaceFirst(t, pat, rep);
      OccursAtTail(pat, s, i - 1);
      forall k: nat | k < i - 1 ensures !OccursAt(pat, t, k) {
        OccursAtTail(pat, s, k);
      }
      ReplaceFirstAtFirstOccurrence(t, pat, rep, i - 1);
      assert s[..i] == [s[0]] + t[..i - 1];
      assert t[i - 1 + |pat|..] == s[i + |pat|..];
    }
  }

  /** `authHeader.replace("Bearer ", "")`. */
  function BearerToken(header: string): string {
    ReplaceFirst(header, "Bearer ", "")
  }

  /** The header is present and not empty, and the provider accepts the token in it. */
  predicate Authorized(authorization: Option<string>, backend: Backend) {
    && authorization.Some?
    && authorization.value != ""
    && BearerToken(authorization.value) in backend.sessions
  }

  /** The user the verified token belongs to: the only identity the handler acts on. */
  function VerifiedUser(authorization: Option<string>, backend: Backend): UserId
    requires Authorized(authorization, backend)
  {
    backend.sessions[BearerToken(authorization.value)]
  }

  /** Under a well-formed header, the token the provider is asked about is the text after
      the scheme; a header without the scheme is passed on whole. */
  lemma TokenOfHeader(token: string)
    ensures BearerToken("Bearer " + token) == token
    ensures !Occurs("Bearer ", token) ==> BearerToken(token) == token
  {
    ReplaceFirstOfPrefixed("Bearer ", token, "");
    if !Occurs("Bearer ", token) {
      ReplaceFirstWithoutOccurrence(token, "Bearer ", "");
    }
  }

  /** The handler's authentication: a missing or empty header is refused; a header
      `"Bearer " + t` is accepted exactly when the provider knows the token t, and the handler
      then acts on the user t belongs to. */
  lemma AuthorizationOfHeader(token: string, backend: Backend)
    ensures !Authorized(None, backend)
    ensures !Authorized(Some(""), backend)
    ensures Authorized(Some("Bearer " + token), backend) <==> token in backend.sessions
    ensures token in backend.sessions ==> VerifiedUser(Some("Bearer " + token), backend) == backend.sessions[token]
  {
    TokenOfHeader(token);
  }

  // ---------------------------------------------------------------------------------------
  // The cascade

  function NotTouchingRow(u: UserId): FriendRequest -> bool {
    (e: FriendRequest) => !Touches(e, u)
  }

  /** `delete().or("from_user_id.eq.u,to_user_id.eq.u")` on friend_requests: the rows that
      remain. */
  function RemoveEdgesOf(rs: seq<FriendRequest>, u: UserId): (r: seq<FriendRequest>)
    ensures forall e :: e in r <==> e in rs && !Touches(e, u)
  {
    Filter(NotTouchingRow(u), rs)
  }

  /** After the two table deletes the user has no secret, no friend and no friendship, and
      every other user's secret is what it was. */
  lemma CascadeLeavesNothingOfUser(profiles: seq<Profile>, rs: seq<FriendRequest>, secrets: map<UserId, string>, u: UserId)
    ensures SecretService.GetSecretMessage(secrets - {u}, u) == None
    ensures forall v :: v != u ==> SecretService.GetSecretMessage(secrets - {u}, v) == SecretService.GetSecretMessage(secrets, v)
    ensures forall x :: SecretService.CheckFriendship(RemoveEdgesOf(rs, u), u, x) == Ok(false)
    ensures FriendService.GetFriends(profiles, RemoveEdgesOf(rs, u), u) == []
    ensures FriendService.GetFriendRequests(profiles, RemoveEdgesOf(rs, u), u) == []
  {
    var after := RemoveEdgesOf(rs, u);
    EmptyOrHasHead(FriendService.GetFriends(profiles, after, u));
    EmptyOrHasHead(FriendService.GetFriendRequests(profiles, after, u));
  }

  /** The DELETE handler.  The results of the two table deletes are not inspected; only the
      identity deletion decides between 500 and 200. */
  method Delete(db: Database, authorization: Option<string>, backend: Backend) returns (resp: Response)
    requires db.Valid()
    modifies db`secrets, db`friendRequests, db`users
    ensures db.Valid()
    ensures !Authorized(authorization, backend) ==>
              && resp == Unauthorized
              && db.secrets == old(db.secrets)
              && db.friendRequests == old(db.friendRequests)
              && db.users == old(db.users)
    ensures Authorized(authorization, backend) ==>
              var u := VerifiedUser(authorization, backend);
              && db.secrets == (if backend.secretsDeleteSucceeds then old(db.secrets) - {u} else old(db.secrets))
              && db.friendRequests == (if backend.requestsDeleteSucceeds then RemoveEdgesOf(old(db.friendRequests), u)
                                       else old(db.friendRequests))
              && db.users == (if backend.deleteUserSucceeds then old(db.users) - {u} else old(db.users))
              && resp == (if backend.deleteUserSucceeds then Deleted else DeleteFailed)
  {
    if authorization.None? || authorization.value == "" {
      return Unauthorized;
    }
    var token := BearerToken(authorization.value);
    if token !in backend.sessions {
      return Unauthorized;
    }
    var userId := backend.sessions[token];

    // 1. secrets
    if backend.secretsDeleteSucceeds {
      db.secrets := db.secrets - {userId};
    }
    // 2. friend requests, sent and received
    if backend.requestsDeleteSucceeds {
      FilterKeepsRequestIdsDistinct(NotTouchingRow(userId), db.friendRequests);
      db.friendRequests := RemoveEdgesOf(db.friendRequests, userId);
    }
    // 3. the identity
    if !backend.deleteUserSucceeds {
      return DeleteFailed;
    }
    db.users := db.users - {userId};
    resp := Deleted;
  }
}
