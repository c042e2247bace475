# Friend routes: a verified model

This project models the friend-graph rules of the four friend route handlers
in `backend/routes/friends.js`: sending a friend request, answering one
(accept or any other status), unfriending, and the "friends of friends"
recommendation query. The document store is an immutable map from user id to
a user record holding an ordered `friends` list and an ordered list of
embedded `friendRequests` (`{id, from, status}`). Each mutating handler is a
pure function from (store, caller, arguments) to a `Transition`, which holds
the store after the handler and the outcome it reported. The recommendation
handler is a method from (store, caller) to a ranked list or an error.

Files and modules:

- `store.dfy` (`UserStore`): records, outcomes and errors. It also holds the
  first-match lookup used by `find` and by the lookup of a request by id, and
  the friend-list filter used by unfriend.
- `friend_routes.dfy` (`FriendRoutes`): the three handlers that change the
  store.
- `friend_graph.dfy` (`FriendGraph`): the handlers as a state machine
  (`Command`, `Step`, `Run`) and the lemmas relating them. These cover the
  store invariant, the symmetry and idempotence of unfriend, and
  send-then-accept.
- `recommendations.dfy` (`Recommendations`): the ranking query as filter,
  count, sort and take.

Behaviour the model pins down, as the handler code has it:

- A request blocks a second request from the same sender whatever its
  status: pending, accepted or rejected. Nothing checks for a request in the
  other direction, so two users may each hold a request from the other.
- The answer handler writes any status string the client sends. Only
  `"accepted"` changes friend lists. It does not look at the request's
  previous status or at existing friendships, so accepting the same request
  twice puts each user on the other's list twice more
  (`FriendGraph.AcceptTwiceAddsTwice`).
- A user may send a request to themselves. The array pushes of the accept
  path are modelled as the document layer's atomic `$push` updates: the
  sender's update is saved first, then the caller's. For a user accepting
  their own request this makes the model push the caller onto their own list
  twice; that case rests on an assumption listed under "Left out".
- Unfriend loads both users from the same store. Each filtered list is
  written back whole. For a user unfriending themselves the model removes
  them from their own list and reports success, again under an assumption
  listed under "Left out".
- A null dereference sends a handler down its catch-all error path before
  anything is saved. This happens when the caller is missing in the answer or
  recommendation handler, or when the sender of an accepted request is
  missing. The model reports these as `ServerError` and leaves the store
  unchanged.
- Recommendations count the distinct existing users on the caller's list
  whose own list holds the candidate. Populating the caller's friends drops
  ids that name no user, and the lookup matches user documents, not list
  entries, so duplicates do not count twice.

## Model

| member | source | states |
|---|---|---|
| UserStore.FirstIndex | backend/routes/friends.js:15-17 | the index returned is the first whose element satisfies the predicate, and None exactly when no element does |
| UserStore.RemoveAll | backend/routes/friends.js:144-149 | the filtered list no longer holds the removed id, holds every other id exactly as many times as before, and is shorter by the number of removed occurrences |
| UserStore.RemoveAllAppend | backend/routes/friends.js:144-146 | filtering distributes over concatenation, so the surviving entries keep their order |
| UserStore.RemoveAllIdempotent | backend/routes/friends.js:144-149 | filtering a friend list twice gives the same list as filtering it once |
| FriendRoutes.SendRequest | backend/routes/friends.js:9-27 | a missing target fails with not-found. Any existing request from the caller, whatever its status, fails with already-sent. Both failures leave the store unchanged. The send succeeds exactly when the target exists and holds no request from the caller, and then exactly one pending request from the caller is appended to the target's requests, and no other user or field changes |
| FriendRoutes.AnswerRequest | backend/routes/friends.js:46-56 | only the answered request changes, and only in its status. A status other than "accepted" leaves every friend list alone. Accepting appends the sender to the caller's friends and the caller to the sender's friends, each exactly once, and changes no other user. Accepting one's own request appends the caller to their own list twice, assuming both saves of the caller's document succeed |
| FriendRoutes.RespondToRequest | backend/routes/friends.js:38-56 | a missing caller fails on the server. An id not among the caller's requests fails with not-found. Accepting a request whose sender is missing fails on the server. Every failure leaves the store unchanged. Otherwise the first request with that id is the one answered |
| FriendRoutes.Unfriend | backend/routes/friends.js:134-149 | fails with not-found, store unchanged, exactly when either user is missing. Otherwise every occurrence of each user is filtered from the other's friends, and nothing else in the store changes |
| FriendGraph.Step | backend/routes/friends.js:6-157 | every handler keeps the set of users, and a failing handler leaves the store unchanged |
| FriendGraph.SendPreservesValid | backend/routes/friends.js:14-26 | after a send, no user holds two requests from one sender, and friendship stays mutual |
| FriendGraph.AnswerKeepsOneRequestPerSender | backend/routes/friends.js:54-55 | rewriting a status never creates a second request from one sender |
| FriendGraph.AnswerKeepsFriendsSymmetric | backend/routes/friends.js:46-51 | accepting adds the pair in both directions, so mutual friendship survives any answer |
| FriendGraph.RespondPreservesValid | backend/routes/friends.js:36-56 | answering a request, successfully or not, keeps the store valid |
| FriendGraph.UnfriendPreservesValid | backend/routes/friends.js:143-149 | unfriending keeps friendship mutual and friend ids pointing at users |
| FriendGraph.StepPreservesValid | backend/routes/friends.js:6-157 | every handler keeps the store valid |
| FriendGraph.RunPreservesValid | backend/routes/friends.js:6-157 | any sequence of handler calls keeps the store valid |
| FriendGraph.UnfriendSymmetric | backend/routes/friends.js:143-149 | unfriending b as a gives the same outcome and store as unfriending a as b |
| FriendGraph.UnfriendIdempotent | backend/routes/friends.js:139-149 | unfriending the same pair a second time reports the same outcome and changes nothing |
| FriendGraph.UnfriendSeparates | backend/routes/friends.js:143-149 | after unfriending, neither user is on the other's list |
| FriendGraph.SendThenAccept | backend/routes/friends.js:22-56 | a fresh request that the target then accepts makes the two users friends, each list growing by exactly the other user |
| FriendGraph.AcceptTwiceAddsTwice | backend/routes/friends.js:46-51 | accepting the same request twice puts the sender on the caller's list twice and the caller on the sender's list twice: there is no check of the previous status or of an existing friendship |
| Recommendations.Insert | backend/routes/friends.js:107-109 | inserting into a list ordered by decreasing count keeps it ordered, and the result is the input plus the one entry as a multiset: it adds exactly that entry and keeps all others |
| Recommendations.InsertKeepsIdsDistinct | backend/routes/friends.js:107-109 | inserting an entry whose id is not yet listed keeps every id listed once |
| Recommendations.RankCandidates | backend/routes/friends.js:73-109 | the ranking lists every candidate exactly once with its mutual-friend count, in non-increasing count order. A candidate is a user that is neither the caller nor on the caller's list |
| Recommendations.Recommend | backend/routes/friends.js:67-123 | a missing caller is a server error. Otherwise there are at most 10 entries: all candidates when there are at most 10, else exactly 10. No entry is the caller, a current friend or an unknown id, and ids are distinct. Each count equals the number of the caller's friends whose list holds the entry. Counts are non-increasing. No candidate left out has more mutual friends than an entry kept |

## Left out

- HTTP routing, response bodies and status codes: they become the `Outcome` and `Error` datatypes (`UserNotFound`, `RequestAlreadySent`, `RequestNotFound`, `ServerError`).
- The authentication middleware: the caller id is a parameter.
- Persistence calls (`findById`, `save`, `populate`): they are reads and writes of the map. The id of a new embedded request is generated by the document layer, so it is a parameter of `SendRequest`.
- Failures of the database itself, which also reach the catch-all error path: only the null dereferences named above are modelled.
- Schema validation: `backend/models/User.js` is not part of this model. If the schema restricts `status` to a fixed set, the save would reject other strings; the model writes any string, as the handler does.
- Partial failure and ordering between the two saves of the accept path, and the parallel loads and saves of unfriend: each handler is one atomic transition.
- The database's tie order for equal mutual-friend counts: the model fixes one order, and the contracts leave ties unordered.
- The `$project` stage and the username and email fields: records carry no fields without logic.
- Recommendations.Recommend: the entries carry the id and the count, not the username and email the handler also returns.
- Id forms: a user id is one string used both as the store's key and in the list comparisons. The handlers look users up by parsed id but compare list entries with the raw path or caller id as a string, so the two agree only when an id is written in its canonical form (the lower-case hex that an id prints as). The model assumes canonical ids; an id in another spelling, such as upper-case hex, finds the user but matches no list entry, so unfriending with it would succeed without changing either list. A path id that cannot be parsed at all makes the lookup throw, which is a server error the model does not represent.
- FriendRoutes.AnswerRequest: for a user accepting their own request, the handler saves two separately loaded copies of the caller's document. The model assumes both saves succeed as `$push` updates, so the caller is pushed twice and the status is written. With the document layer's default versioning the second save may instead be rejected, leaving the caller on their own list once, the status unchanged and a server error reported; that outcome is not modelled.
- FriendRoutes.Unfriend: for a user unfriending themselves, the handler saves two copies of one document in parallel. The model assumes both saves succeed and reports success. If the document layer rejects one of them the handler reports a server error, although the stored list still ends as the model has it.
