/** GET /recommendations: "friends of friends" ranked by mutual friends.

    Every user other than the caller and the caller's friends is a candidate;
    a candidate's mutual-friend count is the number of distinct users on the
    caller's list whose own list holds the candidate; candidates are ordered
    by that count, largest first, and at most ten are returned. Candidates
    with equal counts may come in any order.
 */
module Recommendations {
  import opened UserStore

  /** The most entries a recommendation list holds. */
  const Limit: nat := 10

  datatype Recommendation = Recommendation(id: UserId, mutualFriends: nat)

  /** The users that may be recommended to `caller`. Friend ids that name no
      user cannot match any user, so they exclude nobody. */
  function Candidates(s: Store, caller: UserId): set<UserId>
    requires caller in s
  {
    set u | u in s && u != caller && u !in s[caller].friends
  }

  /** The users on the caller's list whose own list holds `candidate`; each
      such user counts once however often either list repeats an id. */
  function MutualFriends(s: Store, caller: UserId, candidate: UserId): set<UserId>
    requires caller in s
  {
    set f | f in s && f in s[caller].friends && candidate in s[f].friends
  }

  function MutualCount(s: Store, caller: UserId, candidate: UserId): nat
    requires caller in s
  {
    |MutualFriends(s, caller, candidate)|
  }

  /** Largest mutual-friend count first. */
  ghost predicate SortedByCount(recs: seq<Recommendation>)
  {
    forall i, j :: 0 <= i < j < |recs| ==> recs[i].mutualFriends >= recs[j].mutualFriends
  }

  ghost predicate DistinctIds(recs: seq<Recommendation>)
  {
    forall i, j :: 0 <= i < j < |recs| ==> recs[i].id != recs[j].id
  }

  function Ids(recs: seq<Recommendation>): (ids: seq<UserId>)
    ensures |ids| == |recs|
    ensures forall k :: 0 <= k < |recs| ==> ids[k] == recs[k].id
  {
    seq(|recs|, k requires 0 <= k < |recs| => recs[k].id)
  }

  /** Places `e` in a list ordered by count, ahead of every entry whose count
      does not exceed its own. */
  function Insert(recs: seq<Recommendation>, e: Recommendation): (r: seq<Recommendation>)
    requires SortedByCount(recs)
    ensures SortedByCount(r)
    ensures |r| == |recs| + 1
    ensures forall x :: x in r <==> x in recs || x == e
    ensures multiset(r) == multiset(recs) + multiset{e}
    decreases |recs|
  {
    if |recs| == 0 || e.mutualFriends >= recs[0].mutualFriends then
      [e] + recs
    else
      var rest := Insert(recs[1..], e);
      assert forall x :: x in rest ==> x.mutualFriends <= recs[0].mutualFriends;
      assert recs == [recs[0]] + recs[1..];
      [recs[0]] + rest
  }

  /** Inserting an entry whose id is not yet listed keeps the ids distinct. */
  lemma {:induction false} InsertKeepsIdsDistinct(recs: seq<Recommendation>, e: Recommendation)
    requires SortedByCount(recs) && DistinctIds(recs)
    requires forall x :: x in recs ==> x.id != e.id
    ensures DistinctIds(Insert(recs, e))
    decreases |recs|
  {
    var r := Insert(recs, e);
    if |recs| == 0 || e.mutualFriends >= recs[0].mutualFriends {
      assert r == [e] + recs;
      forall i, j | 0 <= i < j < |r|
        ensures r[i].id != r[j].id
      {
        if i == 0 {
          assert r[j] == recs[j - 1];
        } else {
          assert r[i] == recs[i - 1] && r[j] == recs[j - 1];
        }
      }
    } else {
      var rest := Insert(recs[1..], e);
      InsertKeepsIdsDistinct(recs[1..], e);
      assert r == [recs[0]] + rest;
      forall i, j | 0 <= i < j < |r|
        ensures r[i].id != r[j].id
      {
        if i == 0 {
          assert r[j] == rest[j - 1];
          assert r[j] in recs[1..] || r[j] == e;
          if r[j] in recs[1..] {
            var m :| 0 <= m < |recs[1..]| && recs[1..][m] == r[j];
            assert recs[m + 1] == r[j];
          } else {
            assert recs[0] in recs;
          }
        } else {
          assert r[i] == rest[i - 1] && r[j] == rest[j - 1];
        }
      }
    }
  }

  /** Every candidate with its mutual-friend count, largest count first. */
  method RankCandidates(s: Store, caller: UserId) returns (ranked: seq<Recommendation>)
    requires caller in s
    ensures SortedByCount(ranked)
    ensures DistinctIds(ranked)
    ensures |ranked| == |Candidates(s, caller)|
    ensures forall x :: x in ranked ==>
              x.id in Candidates(s, caller) && x.mutualFriends == MutualCount(s, caller, x.id)
    ensures forall u :: u in Candidates(s, caller) ==>
              Recommendation(u, MutualCount(s, caller, u)) in ranked
  {
    var candidates := Candidates(s, caller);
    var todo := candidates;
    ranked := [];
    while todo != {}
      invariant todo <= candidates
      invariant SortedByCount(ranked)
      invariant DistinctIds(ranked)
      invariant |ranked| == |candidates - todo|
      invariant forall x :: x in ranked ==>
                  x.id in candidates - todo && x.mutualFriends == MutualCount(s, caller, x.id)
      invariant forall u :: u in candidates - todo ==>
                  Recommendation(u, MutualCount(s, caller, u)) in ranked
      decreases |todo|
    {
      var u :| u in todo;
      var e := Recommendation(u, MutualCount(s, caller, u));
      InsertKeepsIdsDistinct(ranked, e);
      assert candidates - (todo - {u}) == (candidates - todo) + {u};
      ranked := Insert(ranked, e);
      todo := todo - {u};
    }
    assert candidates - todo == candidates;
  }

  /** The recommendations for `caller`, or a server error when the caller is
      not a user (the handler dereferences the missing document). */
  method Recommend(s: Store, caller: UserId) returns (r: Result<seq<Recommendation>>)
    ensures r.Err? <==> caller !in s
    ensures r.Err? ==> r.error == ServerError
    ensures r.Ok? ==> |r.value| <= Limit
    ensures r.Ok? ==>
              var n := |Candidates(s, caller)|;
              |r.value| == if n < Limit then n else Limit
    // never the caller, never a current friend, never an unknown id
    ensures r.Ok? ==> forall k :: 0 <= k < |r.value| ==>
              && r.value[k].id in s
              && r.value[k].id != caller
              && r.value[k].id !in s[caller].friends
    ensures r.Ok? ==> DistinctIds(r.value)
    ensures r.Ok? ==> forall k :: 0 <= k < |r.value| ==>
              r.value[k].mutualFriends == MutualCount(s, caller, r.value[k].id)
    ensures r.Ok? ==> SortedByCount(r.value)
    // a candidate left out has no more mutual friends than any entry kept
    ensures r.Ok? ==> forall u, k ::
              u in Candidates(s, caller) && u !in Ids(r.value) && 0 <= k < |r.value| ==>
                MutualCount(s, caller, u) <= r.value[k].mutualFriends
    ensures r.Ok? && |Candidates(s, caller)| <= Limit ==>
              forall u :: u in Candidates(s, caller) ==> u in Ids(r.value)
  {
    if caller !in s {
      return Err(ServerError);
    }
    var ranked := RankCandidates(s, caller);
    var n := if |ranked| < Limit then |ranked| else Limit;
    var top := ranked[..n];
    forall k | 0 <= k < |top|
      ensures top[k].id in Candidates(s, caller)
      ensures top[k].mutualFriends == MutualCount(s, caller, top[k].id)
    {
      assert top[k] in ranked;
    }
    forall u, k | u in Candidates(s, caller) && u !in Ids(top) && 0 <= k < |top|
      ensures MutualCount(s, caller, u) <= top[k].mutualFriends
    {
      var m :| 0 <= m < |ranked| && ranked[m] == Recommendation(u, MutualCount(s, caller, u));
      assert m >= n by {
        assert forall j :: 0 <= j < n ==> Ids(top)[j] == ranked[j].id;
      }
    }
    if |ranked| <= Limit {
      forall u | u in Candidates(s, caller)
        ensures u in Ids(top)
      {
        var m :| 0 <= m < |ranked| && ranked[m] == Recommendation(u, MutualCount(s, caller, u));
        assert Ids(top)[m] == u;
      }
    }
    r := Ok(top);
  }
}
