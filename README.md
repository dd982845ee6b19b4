# Friendship-gated secret store

A Dafny model of the service layer of a small web application. Users keep one private secret
message each. They send each other friend requests by email, and an accepted request lets either
user read the other's secret. An account-deletion endpoint removes a user's data and then the
user's identity.

The hosted database behind the services is modelled as a `Database` class with these fields:

- `profiles`: a sequence of rows `(id, email)`, where `id` is the primary key;
- `secrets`: a map from `user_id` to message (`user_id` is the unique column the upsert conflicts on);
- `friendRequests`: a sequence of edges `(id, from, to, status)`, with `status` one of pending, accepted or rejected;
- `users`: the set of identities the authentication provider holds;
- `nextRequestId`: the key generator for new edges.

`Database.Valid()` states that both primary keys are keys and that every stored key was generated
earlier. Every method that changes the database preserves it.

The query semantics the services depend on are written out in `Query`:

- a selection is a `Filter` of a table in storage order;
- `.single()` is `Single`: it fails unless exactly one row matches;
- `.maybeSingle()` is `MaybeSingle`: no row gives null, and more than one row is an error;
- the upsert on `user_id` is a map update.

`update().eq("id", …)` is `FriendService.UpdateStatus`, next to the two services that use it. It
changes every row with that key, and an unknown key is a silent no-op.

Module layout:

- `Query` (query.dfy): result types, `Filter` and its lemmas, `Single`, `MaybeSingle`.
- `Schema` (schema.dfy): rows, service errors, the foreign-key email lookup, the `Database` class.
- `FriendService` (friend_service.dfy): sending, listing, accepting and rejecting requests; listing friends.
- `SecretService` (secret_service.dfy): own secret, the friendship check, and the gated read of a friend's secret.
- `DeleteAccount` (delete_account.dfy): the DELETE handler, its token handling and the cascade.
- `Scenarios` (scenarios.dfy): three client methods. They show what a caller can conclude from the contracts alone: a secret is refused until the request is accepted, the request is listed with the sender's email, and deletion removes the secret and the friendship.

Operations that change rows in place are methods on a `Database` argument:

- `SendFriendRequest`, `AcceptFriendRequest` and `RejectFriendRequest`;
- `SaveSecretMessage`;
- the `Delete` handler.

Operations that only read are functions over the table values.

The model keeps the code's permissive behaviour. The services have no guards beyond the lookups
they make:

- A request to oneself is accepted. So is a request that duplicates an existing edge.
- Accept and reject overwrite the status whatever it was. A rejected edge can later be accepted.
- Accepting or rejecting an unknown id succeeds and changes nothing. It does not fail as not found.

One consequence, proved as `DuplicateAcceptedEdgesFail`: nothing stops two accepted edges between
the same pair. Two users who sent each other requests and accepted both are one example. For
such a pair, `checkFriendship` throws the `.maybeSingle()` error instead of returning true, so
neither user can read the other's secret.

Other source details that the model keeps:

- `getFriends` ends with `.filter(Boolean)`. This drops friends with no profile row and also friends whose email is the empty string.
- The endpoint rejects a missing Authorization header, and also an empty one.
- It builds the token with `replace("Bearer ", "")`, which removes the first occurrence of `"Bearer "` wherever it stands, not only at the start (`ReplaceFirstAtFirstOccurrence`).
- The handler does not inspect the results of the two table deletes. A failing delete leaves its table unchanged and the handler carries on. Only the identity deletion decides between 500 and 200.
- The embedded selects name the foreign key `friend_requests_from_user_id_fkey` from friend_requests to profiles. So an insert whose sender has no profile row fails with the store's foreign-key error, which is rethrown. The recipient's id comes from profiles, so it cannot violate its key.

Inputs the model takes as parameters:

- The authentication provider's token check is a map from accepted tokens to user ids.
- The outcome of each of the three deletions is a flag.
- Keys for new friend requests come from a counter in place of generated UUIDs.

## Model

| member | source | states |
|---|---|---|
| `Query.Single` | src/services/friend.service.ts:18-24 | `.single()` succeeds iff exactly one row matched and returns it; otherwise no-rows or multiple-rows error |
| `Query.MaybeSingle` | src/services/secret.service.ts:65-74 | `.maybeSingle()` gives null for no row and the row for one row; it errors iff more than one row matched |
| `Query.Filter` | src/services/friend.service.ts:46-47 | a selection keeps exactly the rows satisfying the filter, never more rows than the table |
| `Query.FilterAppend` | src/services/friend.service.ts:46-47 | selecting from a concatenation concatenates the selections |
| `Query.FilterSkips` | src/services/friend.service.ts:91 | a row the filter rejects can be removed without changing the selection |
| `Query.FilterExtensional` | src/services/secret.service.ts:68-70 | filters that agree on every row select the same rows |
| `Query.FilterTwo` | src/services/secret.service.ts:72 | two matching rows at distinct positions give a selection of at least two rows |
| `Query.FilterOnly` | src/services/secret.service.ts:72 | a row that is the only match is the whole selection |
| `Schema.EmailOf` | src/services/friend.service.ts:42-43 | the embedded email is null iff no profile has that id, else it is the email of a profile with that id |
| `Schema.FilterKeepsRequestIdsDistinct` | src/types/database.types.ts:48-49 | deleting friend requests keeps `id` a key |
| `FriendService.ResolveEmail` | src/services/friend.service.ts:18-22 | the lookup succeeds iff exactly one profile has the email, and yields that profile's id |
| `FriendService.SendFriendRequest` | src/services/friend.service.ts:16-33 | "User not found" iff the email does not resolve, with the table unchanged; the foreign-key error iff it resolves but the sender has no profile; otherwise exactly one pending edge from the sender to the resolved id is appended, with a fresh key and no self or duplicate check |
| `FriendService.GetFriendRequests` | src/services/friend.service.ts:36-55 | lists one entry per edge addressed to the user with status pending, and only those, each with the sender's and recipient's embedded email |
| `FriendService.SentRequestIsListed` | src/services/friend.service.ts:26-55 | a pending edge just appended is listed for its recipient with the sender's email |
| `FriendService.UpdateStatus` | src/services/friend.service.ts:60-63 | every row with the key takes the new status whatever its old one; keys and endpoints never change; rows with other keys are unchanged |
| `FriendService.UpdateUnknownIdIsNoOp` | src/services/friend.service.ts:59-66 | an unknown id leaves the table unchanged, without an error |
| `FriendService.UpdateStatusKeepsKeys` | src/services/friend.service.ts:59-76 | a status update keeps the keys distinct and below the key generator |
| `FriendService.AcceptFriendRequest` | src/services/friend.service.ts:59-66 | the table becomes the update of the key to accepted; the database stays valid |
| `FriendService.RejectFriendRequest` | src/services/friend.service.ts:69-76 | the table becomes the update of the key to rejected; the database stays valid |
| `FriendService.AnsweredRequestLeavesIncoming` | src/services/friend.service.ts:46-47 | after an accept or reject, the edge with that key is no longer listed as incoming |
| `FriendService.Truthy` | src/services/friend.service.ts:102 | `filter(Boolean)` keeps exactly the present, non-empty emails |
| `FriendService.OtherEndpoint` | src/services/friend.service.ts:97-101 | the friend is one of the edge's two endpoints, and together with the user it makes up both endpoints of an edge touching the user |
| `FriendService.GetFriends` | src/services/friend.service.ts:79-102 | an email is listed iff it is non-empty and is the other endpoint's email of some accepted edge touching the user; the list is no longer than the accepted edges touching the user |
| `FriendService.GetFriendsIgnoresUnaccepted` | src/services/friend.service.ts:91 | a pending or rejected edge never changes the friend list |
| `SecretService.GetSecretMessage` | src/services/secret.service.ts:13-26 | returns the user's row iff one exists, and null otherwise; a missing row is not an error |
| `SecretService.SaveSecretMessage` | src/services/secret.service.ts:29-47 | the user's message is replaced or created; reading it back gives the saved row; every other user's secret is unchanged |
| `SecretService.SaveIsIdempotent` | src/services/secret.service.ts:32-41 | saving the same message twice leaves the state of saving it once |
| `SecretService.CheckFriendship` | src/services/secret.service.ts:64-76 | true iff exactly one accepted edge joins the pair in either direction; false iff none does, so pending and rejected edges never grant; the maybeSingle error iff several do |
| `SecretService.CheckFriendshipSymmetric` | src/services/secret.service.ts:68-70 | checkFriendship(a, b) equals checkFriendship(b, a) |
| `SecretService.UnacceptedEdgesNeverGrant` | src/services/secret.service.ts:71 | adding a pending or rejected edge never changes the outcome of the check |
| `SecretService.DuplicateAcceptedEdgesFail` | src/services/secret.service.ts:72-74 | two accepted edges between a pair make the check fail instead of answering true |
| `SecretService.GetFriendSecretMessage` | src/services/secret.service.ts:50-61 | "403: Forbidden - Not friends" iff no accepted edge joins the pair; otherwise returns the friend's secret, possibly null, or rethrows the check's error |
| `SecretService.GetFriendSecretMessageByEmail` | src/services/secret.service.ts:79-96 | "User not found" iff the email does not name exactly one profile, whatever the friendships; otherwise the gated read for that profile's id |
| `SecretService.AcceptMakesFriends` | src/services/friend.service.ts:59-66 | accepting an edge between two users who were not friends makes the check true, whatever the edge's previous status |
| `SecretService.RejectOnlyRequestDeniesFriendship` | src/services/friend.service.ts:69-76 | rejecting an edge leaves the check false whenever no other edge between the pair is accepted, even if other pending or rejected edges join them |
| `SecretService.AcceptanceUnlocksSecret` | src/services/secret.service.ts:50-61 | a non-friend is refused; after the edge is accepted, the same read returns the owner's secret |
| `DeleteAccount.ReplaceFirstOfPrefixed` | src/app/api/delete-account/route.ts:25 | replacing the first occurrence of a prefix strips it |
| `DeleteAccount.ReplaceFirstWithoutOccurrence` | src/app/api/delete-account/route.ts:25 | a string without the pattern is left unchanged |
| `DeleteAccount.ReplaceFirstAtFirstOccurrence` | src/app/api/delete-account/route.ts:25 | the first occurrence of the pattern, wherever it stands, is replaced; the text before and after it is kept |
| `DeleteAccount.AuthorizationOfHeader` | src/app/api/delete-account/route.ts:19-34 | a missing or empty header is refused; `Bearer t` is accepted iff the provider knows t, and then the handler acts on t's user |
| `DeleteAccount.TokenOfHeader` | src/app/api/delete-account/route.ts:25 | `Bearer t` yields the token t; a header without `Bearer ` is passed on whole |
| `DeleteAccount.RemoveEdgesOf` | src/app/api/delete-account/route.ts:41-44 | the remaining edges are exactly those with the user at neither endpoint |
| `DeleteAccount.CascadeLeavesNothingOfUser` | src/app/api/delete-account/route.ts:38-44 | after the two deletes the user has no secret, no friendship with anyone, no friends and no incoming requests; other users' secrets are unchanged |
| `DeleteAccount.Delete` | src/app/api/delete-account/route.ts:16-62 | a missing, empty or unverified header gives 401 and changes nothing; otherwise it acts on the token's user only: secrets, then edges, then identity are deleted as their deletions succeed, and the response is 500 "Failed to delete user account" when identity deletion fails, even after the data is gone, else 200 "Account deleted successfully" |

## Left out

- Store failures other than the row-count errors and the foreign-key error are left out: network errors, row-level security refusals and other PostgREST errors. So the model omits the rethrow in `getSecretMessage` for codes other than PGRST116. It also omits the `if (error) throw error` paths of `getFriendRequests`, `acceptFriendRequest`, `rejectFriendRequest`, `getFriends` and `saveSecretMessage`. It omits the handler's `catch` branch (500 "Internal server error") too.
- Row-level security policies are left out: the model does not capture a policy that silently filters an update or a select.
- Timestamps (`created_at`, `updated_at`) and the secrets table's own `id` column are omitted.
- Whatever the database does to `profiles` when an identity is deleted (for example a cascading foreign key) is not in the service code. The model leaves profiles unchanged.
- User ids are opaque values. The model does not capture how an id containing `,` or `)` would corrupt the interpolated `.or(...)` filter strings.
- The requests run asynchronously and may race at the store. The model runs each operation alone.
- `console.error` logging and JSON serialisation are left out. A response is a status code and a body.
- `FriendService.GetFriendRequests`: states which edges are listed and how many, not their order, because the store returns them in an unspecified order. The model's `Filter` uses storage order.
- `FriendService.GetFriends`: states which emails are listed and bounds the length, but not the multiplicity of each email.
