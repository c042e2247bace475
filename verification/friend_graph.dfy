/** The friend graph the handlers maintain, seen as a state machine: the
    handlers are its transitions, and the lemmas here relate transitions to
    each other and to the invariants they keep.
 */
module FriendGraph {
  import opened UserStore
  import opened FriendRoutes

  /** One request to the friend routes, made by the authenticated `caller`. */
  datatype Command =
    | Send(caller: UserId, target: UserId, newId: RequestId)
    | Respond(caller: UserId, requestId: RequestId, status: string)
    | Remove(caller: UserId, other: UserId)

  /** The store after one command and the outcome it reports. */
  function Step(s: Store, c: Command): (t: Transition)
    ensures t.next.Keys == s.Keys
    ensures t.outcome.Failed? ==> t.next == s
  {
    match c
    case Send(caller, target, newId) => SendRequest(s, caller, target, newId)
    case Respond(caller, requestId, status) => RespondToRequest(s, caller, requestId, status)
    case Remove(caller, other) => Unfriend(s, caller, other)
  }

  /** The store after a sequence of commands, each applied to the store the
      previous one left; a failing command leaves it as it was. */
  function Run(s: Store, cs: seq<Command>): (s': Store)
    ensures s'.Keys == s.Keys
    decreases |cs|
  {
    if |cs| == 0 then s else Run(Step(s, cs[0]).next, cs[1..])
  }

  /** Every friend id names a user, and friendship is mutual: whenever `b` is
      on `a`'s list, `a` is on `b`'s. */
  ghost predicate FriendsSymmetric(s: Store)
  {
    forall a, b :: a in s && b in s[a].friends ==> b in s && a in s[b].friends
  }

  /** No user holds two requests from the same sender. */
  ghost predicate OneRequestPerSender(s: Store)
  {
    forall u, i, j ::
      u in s && 0 <= i < j < |s[u].friendRequests| ==>
        s[u].friendRequests[i].from != s[u].friendRequests[j].from
  }

  ghost predicate Valid(s: Store)
  {
    FriendsSymmetric(s) && OneRequestPerSender(s)
  }

  /** A send only appends a request from a sender the target had no request
      from, and touches no friend list. */
  lemma SendPreservesValid(s: Store, caller: UserId, target: UserId, newId: RequestId)
    requires Valid(s)
    ensures Valid(SendRequest(s, caller, target, newId).next)
  {
  }

  /** Answering a request rewrites one status, so it never changes who sent
      which request. */
  lemma AnswerKeepsOneRequestPerSender(s: Store, caller: UserId, i: nat, status: string)
    requires caller in s && i < |s[caller].friendRequests|
    requires status == Accepted ==> s[caller].friendRequests[i].from in s
    requires OneRequestPerSender(s)
    ensures OneRequestPerSender(AnswerRequest(s, caller, i, status))
  {
  }

  /** Accepting adds the pair in both directions, and any other answer adds
      nothing, so mutual friendship survives. */
  lemma AnswerKeepsFriendsSymmetric(s: Store, caller: UserId, i: nat, status: string)
    requires caller in s && i < |s[caller].friendRequests|
    requires status == Accepted ==> s[caller].friendRequests[i].from in s
    requires FriendsSymmetric(s)
    ensures FriendsSymmetric(AnswerRequest(s, caller, i, status))
  {
  }

  /** Answering a request, successfully or not, keeps the store valid. */
  lemma RespondPreservesValid(s: Store, caller: UserId, requestId: RequestId, status: string)
    requires Valid(s)
    ensures Valid(RespondToRequest(s, caller, requestId, status).next)
  {
    var t := RespondToRequest(s, caller, requestId, status);
    if t.outcome == Done {
      var rs := s[caller].friendRequests;
      var i := FirstIndex(rs, (r: Request) => r.id == requestId).value;
      assert FirstWithId(rs, requestId, i);
      AnswerKeepsOneRequestPerSender(s, caller, i, status);
      AnswerKeepsFriendsSymmetric(s, caller, i, status);
    }
  }

  /** Unfriending drops a pair in both directions at once. */
  lemma UnfriendPreservesValid(s: Store, caller: UserId, other: UserId)
    requires Valid(s)
    ensures Valid(Unfriend(s, caller, other).next)
  {
  }

  /** Every command keeps the store valid, whether it succeeds or fails. */
  lemma StepPreservesValid(s: Store, c: Command)
    requires Valid(s)
    ensures Valid(Step(s, c).next)
  {
    match c
    case Send(caller, target, newId) => SendPreservesValid(s, caller, target, newId);
    case Respond(caller, requestId, status) => RespondPreservesValid(s, caller, requestId, status);
    case Remove(caller, other) => UnfriendPreservesValid(s, caller, other);
  }

  /** Any sequence of commands keeps the store valid. */
  lemma {:induction false} RunPreservesValid(s: Store, cs: seq<Command>)
    requires Valid(s)
    ensures Valid(Run(s, cs))
    decreases |cs|
  {
    if |cs| != 0 {
      StepPreservesValid(s, cs[0]);
      RunPreservesValid(Step(s, cs[0]).next, cs[1..]);
    }
  }

  /** Unfriending is symmetric: it does not matter which of the two users
      makes the request. */
  lemma UnfriendSymmetric(s: Store, a: UserId, b: UserId)
    ensures Unfriend(s, a, b) == Unfriend(s, b, a)
  {
  }

  /** Unfriending again changes nothing: the second call succeeds and leaves
      the store the first call produced. */
  lemma UnfriendIdempotent(s: Store, a: UserId, b: UserId)
    ensures var t := Unfriend(s, a, b);
            Unfriend(t.next, a, b) == t
  {
    var t := Unfriend(s, a, b);
    if t.outcome == Done {
      RemoveAllIdempotent(s[a].friends, b);
      RemoveAllIdempotent(s[b].friends, a);
      if a == b {
        RemoveAllIdempotent(s[a].friends, a);
      }
    }
  }

  /** After a successful unfriend neither user is on the other's list. */
  lemma UnfriendSeparates(s: Store, a: UserId, b: UserId)
    requires a in s && b in s
    ensures var s' := Unfriend(s, a, b).next;
            b !in s'[a].friends && a !in s'[b].friends
  {
  }

  /** A request sent to `target` and then accepted by `target` makes the two
      users friends of each other, provided the document layer gave the new
      request an id no earlier request of `target` carries. */
  lemma SendThenAccept(s: Store, caller: UserId, target: UserId, newId: RequestId)
    requires caller in s && target in s && caller != target
    requires !HasRequestFrom(s[target].friendRequests, caller)
    requires !HasRequestId(s[target].friendRequests, newId)
    ensures var t1 := SendRequest(s, caller, target, newId);
            var t2 := RespondToRequest(t1.next, target, newId, Accepted);
            && t1.outcome == Done && t2.outcome == Done
            && t2.next[target].friends == s[target].friends + [caller]
            && t2.next[caller].friends == s[caller].friends + [target]
  {
    var t1 := SendRequest(s, caller, target, newId);
    var rs := t1.next[target].friendRequests;
    assert FirstWithId(rs, newId, |rs| - 1);
  }

  /** Accepting is not idempotent: answering the same request "accepted"
      twice puts each user on the other's list twice. */
  lemma AcceptTwiceAddsTwice(s: Store, caller: UserId, requestId: RequestId, i: nat)
    requires caller in s
    requires FirstWithId(s[caller].friendRequests, requestId, i)
    requires s[caller].friendRequests[i].from in s
    requires s[caller].friendRequests[i].from != caller
    ensures var from := s[caller].friendRequests[i].from;
            var t1 := RespondToRequest(s, caller, requestId, Accepted);
            var t2 := RespondToRequest(t1.next, caller, requestId, Accepted);
            && t2.outcome == Done
            && t2.next[caller].friends == s[caller].friends + [from, from]
            && t2.next[from].friends == s[from].friends + [caller, caller]
  {
    var t1 := RespondToRequest(s, caller, requestId, Accepted);
    var rs1 := t1.next[caller].friendRequests;
    assert FirstWithId(rs1, requestId, i);
    var from := s[caller].friendRequests[i].from;
    assert rs1[i].from == from;
    var t2 := RespondToRequest(t1.next, caller, requestId, Accepted);
    assert t2.next[caller].friends == s[caller].friends + [from] + [from];
    assert t2.next[from].friends == s[from].friends + [caller] + [caller];
  }
}
