/** A client of the services: what a caller can conclude from their contracts alone. */
module Scenarios {
  import opened Query
  import opened Schema
  import FriendService
  import SecretService
  import DeleteAccount

  /** Alice keeps a secret that Bob, not her friend, is refused; her request by email reaches
      Bob with her address attached. */
  method RequestReachesRecipient()
  {
    var alice := Profile("alice-id", "alice@example.com");
    var bob := Profile("bob-id", "bob@example.com");
    var db := new Database([alice, bob], {"alice-id", "bob-id"});

    var saved := SecretService.SaveSecretMessage(db, "alice-id", "hello");
    var read := SecretService.GetFriendSecretMessage(db.friendRequests, db.secrets, "bob-id", "alice-id");
    assert read == Err(Forbidden);

    assert alice.email[0] != bob.email[0];
    FilterOnly(FriendService.HasEmail(bob.email), db.profiles, 1);
    assert FriendService.ResolveEmail(db.profiles, bob.email) == Ok(bob.id);
    assert FriendService.IsProfileId(db.profiles, "alice-id") by { assert alice in db.profiles; }
    var sent := FriendService.SendFriendRequest(db, "alice-id", "bob@example.com");
    assert sent.Ok?;
    var request := FriendRequest(0, "alice-id", "bob-id", Pending);
    assert db.friendRequests == [request];

    var incoming := FriendService.GetFriendRequests(db.profiles, db.friendRequests, "bob-id");
    assert request in db.friendRequests;
    assert |incoming| == 1 && incoming[0].request == request;
    assert incoming[0].fromUserEmail == Some("alice@example.com");
  }

  /** Once Bob accepts Alice's request, the read he was refused returns her secret. */
  method AcceptedRequestUnlocksSecret(db: Database)
    requires db.Valid()
    requires db.secrets == map["alice-id" := "hello"]
    requires db.friendRequests == [FriendRequest(0, "alice-id", "bob-id", Pending)]
    modifies db`friendRequests
  {
    var request := db.friendRequests[0];
    var read := SecretService.GetFriendSecretMessage(db.friendRequests, db.secrets, "bob-id", "alice-id");
    assert read == Err(Forbidden);
    FriendService.AcceptFriendRequest(db, request.id);
    SecretService.AcceptMakesFriends([request], 0, "bob-id", "alice-id");
    read := SecretService.GetFriendSecretMessage(db.friendRequests, db.secrets, "bob-id", "alice-id");
    assert read == Ok(Some(SecretMessage("alice-id", "hello")));
  }

  /** Deleting Alice's account with her token takes her secret and her friendships with it. */
  method DeletedAccountLeavesNoTrace(db: Database)
    requires db.Valid()
    requires db.secrets == map["alice-id" := "hello"]
    requires db.friendRequests == [FriendRequest(0, "alice-id", "bob-id", Accepted)]
    modifies db`secrets, db`friendRequests, db`users
  {
    DeleteAccount.TokenOfHeader("alice-token");
    var backend := DeleteAccount.Backend(map["alice-token" := "alice-id"], true, true, true);
    var requestsBefore, secretsBefore := db.friendRequests, db.secrets;
    var response := DeleteAccount.Delete(db, Some("Bearer alice-token"), backend);
    assert response == DeleteAccount.Deleted;
    DeleteAccount.CascadeLeavesNothingOfUser(db.profiles, requestsBefore, secretsBefore, "alice-id");
    assert SecretService.GetSecretMessage(db.secrets, "alice-id") == None;
    assert SecretService.CheckFriendship(db.friendRequests, "alice-id", "bob-id") == Ok(false);
  }
}
