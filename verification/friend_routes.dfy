/** The three handlers of the friend routes that change the store: sending a
    request, answering one, and unfriending. The caller is the authenticated
    user id; the other arguments come from the request path and body.
 */
module FriendRoutes {
  import opened UserStore

  /** Appends `id` to a user's friend list, as an array push does. */
  function AddFriend(u: User, id: UserId): (u': User)
    ensures u'.friends == u.friends + [id]
    ensures u'.friendRequests == u.friendRequests
  {
    u.(friends := u.friends + [id])
  }

  /** POST /request/:userId. The caller asks `target` to become a friend; the
      new embedded request gets the id `newId` from the document layer.
      It fails when the target does not exist, and when the target already
      holds a request from the caller, whatever that request's status. */
  function SendRequest(s: Store, caller: UserId, target: UserId, newId: RequestId): (t: Transition)
    ensures t.outcome.Failed? ==> t.next == s
    ensures t.outcome == Failed(UserNotFound) <==> target !in s
    ensures t.outcome == Failed(RequestAlreadySent) <==>
              target in s && HasRequestFrom(s[target].friendRequests, caller)
    ensures t.outcome == Done <==>
              target in s && !HasRequestFrom(s[target].friendRequests, caller)
    ensures t.outcome == Done ==>
              && target in s
              && OnlyChanged(s, t.next, {target})
              && t.next[target].friends == s[target].friends
              && t.next[target].friendRequests
                 == s[target].friendRequests + [Request(newId, caller, Pending)]
  {
    if target !in s then Transition(s, Failed(UserNotFound))
    else
      var rs := s[target].friendRequests;
      match FirstIndex(rs, (r: Request) => r.from == caller)
      case Some(_) => Transition(s, Failed(RequestAlreadySent))
      case None =>
        var request := Request(newId, caller, Pending);
        Transition(s[target := s[target].(friendRequests := rs + [request])], Done)
  }

  /** The store after the caller answers their `i`-th request with `status`.
      Only the status "accepted" touches friend lists: the sender is pushed
      onto the caller's list and the caller onto the sender's, with no check
      for an existing friendship or for the request's previous status. The
      sender's push is saved first, then the caller's push and the status. */
  function AnswerRequest(s: Store, caller: UserId, i: nat, status: string): (s': Store)
    requires caller in s && i < |s[caller].friendRequests|
    requires status == Accepted ==> s[caller].friendRequests[i].from in s
    ensures s'.Keys == s.Keys
    // only the answered request changes, and only in its status
    ensures s'[caller].friendRequests
            == s[caller].friendRequests[i := s[caller].friendRequests[i].(status := status)]
    // any other status leaves every friend list alone
    ensures status != Accepted ==>
              && OnlyChanged(s, s', {caller})
              && s'[caller].friends == s[caller].friends
    // accepting makes each party a friend of the other, once more
    ensures var from := s[caller].friendRequests[i].from;
            status == Accepted && from != caller ==>
              && OnlyChanged(s, s', {caller, from})
              && s'[caller].friends == s[caller].friends + [from]
              && s'[from] == AddFriend(s[from], caller)
    // a user accepting their own request is pushed onto their list twice,
    // when both saves of the caller's document go through
    ensures var from := s[caller].friendRequests[i].from;
            status == Accepted && from == caller ==>
              && OnlyChanged(s, s', {caller})
              && s'[caller].friends == s[caller].friends + [caller, caller]
  {
    var rs := s[caller].friendRequests;
    var request := rs[i];
    var s1 := if status == Accepted then s[request.from := AddFriend(s[request.from], caller)] else s;
    var me := if status == Accepted then AddFriend(s1[caller], request.from) else s1[caller];
    s1[caller := me.(friendRequests := rs[i := request.(status := status)])]
  }

  /** PUT /request/:requestId. The caller answers the first request with id
      `requestId` in their own list, writing `status` onto it. A caller, or an
      accepted request's sender, missing from the store makes the handler
      dereference nothing and fail on the server before anything is saved. */
  function RespondToRequest(s: Store, caller: UserId, requestId: RequestId, status: string): (t: Transition)
    ensures t.outcome.Failed? ==> t.next == s
    ensures t.outcome == Done || t.outcome == Failed(RequestNotFound) || t.outcome == Failed(ServerError)
    ensures caller !in s ==> t.outcome == Failed(ServerError)
    ensures t.outcome == Failed(RequestNotFound) <==>
              caller in s && !HasRequestId(s[caller].friendRequests, requestId)
    ensures forall i :: caller in s && FirstWithId(s[caller].friendRequests, requestId, i) ==>
              var from := s[caller].friendRequests[i].from;
              && (t.outcome == Done <==> status != Accepted || from in s)
              && (t.outcome == Done ==> t.next == AnswerRequest(s, caller, i, status))
  {
    if caller !in s then Transition(s, Failed(ServerError))
    else
      var rs := s[caller].friendRequests;
      match FirstIndex(rs, (r: Request) => r.id == requestId)
      case None => Transition(s, Failed(RequestNotFound))
      case Some(i) =>
        if status == Accepted && rs[i].from !in s then Transition(s, Failed(ServerError))
        else Transition(AnswerRequest(s, caller, i, status), Done)
  }

  /** DELETE /unfriend/:userId. Both users are loaded from the same store;
      every occurrence of each is filtered out of the other's friend list and
      both filtered lists are written back. */
  function Unfriend(s: Store, caller: UserId, other: UserId): (t: Transition)
    ensures t.outcome.Failed? ==> t.next == s
    ensures t.outcome == Failed(UserNotFound) <==> caller !in s || other !in s
    ensures t.outcome == Done || t.outcome == Failed(UserNotFound)
    ensures t.outcome == Done ==>
              && caller in s && other in s
              && OnlyChanged(s, t.next, {caller, other})
              && t.next[caller] == s[caller].(friends := RemoveAll(s[caller].friends, other))
              && t.next[other] == s[other].(friends := RemoveAll(s[other].friends, caller))
  {
    if caller !in s || other !in s then Transition(s, Failed(UserNotFound))
    else
      var user := s[caller];
      var friendUser := s[other];
      var user' := user.(friends := RemoveAll(user.friends, other));
      var friendUser' := friendUser.(friends := RemoveAll(friendUser.friends, caller));
      Transition(s[caller := user'][other := friendUser'], Done)
  }
}
