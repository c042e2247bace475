/** The user documents the friend routes read and write.

    A store maps each user id to that user's record: an ordered list of friend
    ids and an ordered list of embedded friend requests. Every route handler is
    modelled as a pure function from a store to a `Transition`: the store after
    the handler ran and the outcome it reported.
 */
module UserStore {

  type UserId = string
  type RequestId = string

  /** The status a new request starts with. */
  const Pending: string := "pending"
  /** The only status value that makes the two users friends. */
  const Accepted: string := "accepted"

  /** An embedded friend request. `status` is whatever string the client sent
      when it last answered the request. */
  datatype Request = Request(id: RequestId, from: UserId, status: string)

  datatype User = User(friends: seq<UserId>, friendRequests: seq<Request>)

  type Store = map<UserId, User>

  datatype Option<T> = None | Some(value: T)

  /** The failures a handler reports. `ServerError` stands for the catch-all
      path a handler takes when it dereferences a user that does not exist. */
  datatype Error = UserNotFound | RequestAlreadySent | RequestNotFound | ServerError

  datatype Outcome = Done | Failed(error: Error)

  datatype Transition = Transition(next: Store, outcome: Outcome)

  datatype Result<T> = Ok(value: T) | Err(error: Error)

  /** True iff `s'` has the same users as `s` and every user outside `changed`
      has exactly the record it had in `s`. */
  ghost predicate OnlyChanged(s: Store, s': Store, changed: set<UserId>)
  {
    && s'.Keys == s.Keys
    && forall u :: u in s && u !in changed ==> s'[u] == s[u]
  }

  /** True iff some request in `rs` was sent by `from`. */
  ghost predicate HasRequestFrom(rs: seq<Request>, from: UserId)
  {
    exists i :: 0 <= i < |rs| && rs[i].from == from
  }

  /** True iff some request in `rs` carries the id `id`. */
  ghost predicate HasRequestId(rs: seq<Request>, id: RequestId)
  {
    exists i :: 0 <= i < |rs| && rs[i].id == id
  }

  /** True iff `i` is the position of the first request in `rs` with id `id`,
      which is the request a lookup by id returns. */
  ghost predicate FirstWithId(rs: seq<Request>, id: RequestId, i: int)
  {
    && 0 <= i < |rs|
    && rs[i].id == id
    && forall j :: 0 <= j < i ==> rs[j].id != id
  }

  /** Position of the first element of `xs` that satisfies `p`, or `None` when
      no element does; both a linear `find` and a lookup by subdocument id
      scan the list this way. */
  function FirstIndex<T>(xs: seq<T>, p: T -> bool): (r: Option<nat>)
    ensures r.Some? ==> r.value < |xs| && p(xs[r.value])
    ensures r.Some? ==> forall j :: 0 <= j < r.value ==> !p(xs[j])
    ensures r.None? <==> forall j :: 0 <= j < |xs| ==> !p(xs[j])
  {
    if |xs| == 0 then None
    else if p(xs[0]) then Some(0)
    else
      match FirstIndex(xs[1..], p)
      case None => None
      case Some(k) =>
        assert forall j :: 1 <= j <= k ==> xs[j] == xs[1..][j - 1];
        Some(k + 1)
  }

  /** The friend list `xs` with every occurrence of `x` filtered out, the rest in order. */
  function RemoveAll(xs: seq<UserId>, x: UserId): (r: seq<UserId>)
    ensures forall y :: y in r <==> y in xs && y != x
    ensures forall y :: y != x ==> multiset(r)[y] == multiset(xs)[y]
    ensures |r| == |xs| - multiset(xs)[x]
  {
    if |xs| == 0 then []
    else
      assert xs == [xs[0]] + xs[1..];
      if xs[0] == x then RemoveAll(xs[1..], x)
      else [xs[0]] + RemoveAll(xs[1..], x)
  }

  /** Filtering distributes over concatenation: the entries that survive keep
      their relative order. */
  lemma {:induction false} RemoveAllAppend(a: seq<UserId>, b: seq<UserId>, x: UserId)
    ensures RemoveAll(a + b, x) == RemoveAll(a, x) + RemoveAll(b, x)
  {
    if |a| == 0 {
      assert a + b == b;
    } else {
      assert (a + b)[0] == a[0];
      assert (a + b)[1..] == a[1..] + b;
      RemoveAllAppend(a[1..], b, x);
    }
  }

  /** Filtering a list that does not hold `x` leaves it as it is. */
  lemma {:induction false} RemoveAllAbsent(xs: seq<UserId>, x: UserId)
    requires x !in xs
    ensures RemoveAll(xs, x) == xs
  {
    if |xs| != 0 {
      assert xs[0] != x;
      RemoveAllAbsent(xs[1..], x);
    }
  }

  /** Filtering twice gives the same list as filtering once. */
  lemma RemoveAllIdempotent(xs: seq<UserId>, x: UserId)
    ensures RemoveAll(RemoveAll(xs, x), x) == RemoveAll(xs, x)
  {
    RemoveAllAbsent(RemoveAll(xs, x), x);
  }
}
