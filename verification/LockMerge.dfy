/** Settling undecided locks in a view change: the leader's table after Merge against the table
    every other replica rebuilds from the merged record. */
module LockMerge {
  import opened LockServer

  function Ids(ops: seq<Op>): set<OpId>
  {
    set i | 0 <= i < |ops| :: ops[i].id
  }

  predicate DistinctIds(ops: seq<Op>)
  {
    forall i, j | 0 <= i < j < |ops| :: ops[i].id != ops[j].id
  }

  /** What the view change hands over: lock requests under fresh operation ids, with a majority
      result, for the same key, for everything in d. */
  predicate Undecided(R: Record, d: seq<Op>, u: seq<Op>, majority: map<OpId, Reply>)
  {
    && DistinctIds(d) && DistinctIds(u)
    && Ids(d) !! Ids(u) && Ids(d) !! R.Keys && Ids(u) !! R.Keys
    && (forall i | 0 <= i < |d| ::
          d[i].id in majority && d[i].request.isLock && majority[d[i].id].key == d[i].request.key)
    && (forall i | 0 <= i < |u| :: u[i].request.isLock)
  }

  predicate HasMajority(d: seq<Op>, majority: map<OpId, Reply>)
  {
    forall i | 0 <= i < |d| :: d[i].id in majority
  }

  predicate Succeeded(d: seq<Op>, majority: map<OpId, Reply>, i: nat)
    requires i < |d| && HasMajority(d, majority)
  {
    majority[d[i].id].status == 0
  }

  /** The first majority-successful operation on its key. */
  predicate FirstSuccess(d: seq<Op>, majority: map<OpId, Reply>, i: nat)
    requires i < |d| && HasMajority(d, majority)
  {
    && Succeeded(d, majority, i)
    && forall j | 0 <= j < i :: Succeeded(d, majority, j) ==> majority[d[j].id].key != majority[d[i].id].key
  }

  /** The operation Merge grants. */
  predicate Granted(t: Table, d: seq<Op>, majority: map<OpId, Reply>, i: nat)
    requires i < |d| && HasMajority(d, majority)
  {
    FirstSuccess(d, majority, i) && majority[d[i].id].key !in t
  }

  // ----- the table after Merge -----

  lemma Prefix(d: seq<Op>, i: nat)
    requires i < |d|
    ensures d[..i + 1][..i] == d[..i] && d[..i + 1][i] == d[i]
  {
  }

  /** The merged table: locks held before stay as they are, and otherwise a key belongs to the
      client of the one operation granted on it. */
  lemma {:induction false} MergedTable(t: Table, d: seq<Op>, majority: map<OpId, Reply>, n: nat, k: Key, c: Client)
    requires HasMajority(d, majority) && n <= |d|
    ensures Held(MergeLocks(t, d[..n], majority), k, c) <==>
            || Held(t, k, c)
            || exists i | 0 <= i < n :: Granted(t, d, majority, i) && majority[d[i].id].key == k
                && d[i].request.client == c
    ensures k in MergeLocks(t, d[..n], majority) <==>
            k in t || exists i | 0 <= i < n :: Succeeded(d, majority, i) && majority[d[i].id].key == k
  {
    if n > 0 {
      Prefix(d, n - 1);
      MergedTable(t, d, majority, n - 1, k, c);
    }
  }

  lemma GrantMeetsFreeKey(t: Table, d: seq<Op>, majority: map<OpId, Reply>, i: nat)
    requires HasMajority(d, majority) && i < |d|
    ensures Granted(t, d, majority, i) <==>
            Succeeded(d, majority, i) && majority[d[i].id].key !in MergeLocks(t, d[..i], majority)
  {
    MergedTable(t, d, majority, i, majority[d[i].id].key, 0);
  }

  /** Merge never alters a lock that is held, and grants at most one operation a key. */
  lemma MergeKeepsLocks(t: Table, d: seq<Op>, majority: map<OpId, Reply>)
    requires HasMajority(d, majority)
    ensures forall k, c | Held(t, k, c) :: Held(MergeLocks(t, d, majority), k, c)
    ensures forall i, j | 0 <= i < |d| && 0 <= j < |d| && Granted(t, d, majority, i) && Granted(t, d, majority, j) ::
              majority[d[i].id].key == majority[d[j].id].key ==> i == j
  {
    assert d[..|d|] == d;
    forall k, c | Held(t, k, c) ensures Held(MergeLocks(t, d, majority), k, c) {
      MergedTable(t, d, majority, |d|, k, c);
    }
  }

  // ----- the replies -----

  function Decision(t: Table, d: seq<Op>, majority: map<OpId, Reply>, i: nat): Reply
    requires i < |d| && HasMajority(d, majority)
  {
    var reply := majority[d[i].id];
    if Succeeded(d, majority, i) && !Granted(t, d, majority, i) then Reply(reply.key, -1) else reply
  }

  lemma {:induction false} DecisionsUpTo(t: Table, d: seq<Op>, majority: map<OpId, Reply>, n: nat, i: nat)
    requires HasMajority(d, majority) && DistinctIds(d) && i < n <= |d|
    ensures d[i].id in MergeResults(t, d[..n], majority)
    ensures MergeResults(t, d[..n], majority)[d[i].id] == Decision(t, d, majority, i)
    decreases n
  {
    Prefix(d, n - 1);
    if i < n - 1 {
      DecisionsUpTo(t, d, majority, n - 1, i);
      assert d[i].id != d[n - 1].id;
    } else {
      GrantMeetsFreeKey(t, d, majority, i);
    }
  }

  lemma {:induction false} RejectedUpTo(results: map<OpId, Reply>, u: seq<Op>, n: nat, id: OpId)
    requires DistinctIds(u) && n <= |u|
    ensures id !in Ids(u) && id in results ==>
              id in RejectAll(results, u[..n]) && RejectAll(results, u[..n])[id] == results[id]
    ensures forall i | 0 <= i < n :: u[i].id == id ==>
              id in RejectAll(results, u[..n]) && RejectAll(results, u[..n])[id] == Reply(u[i].request.key, -1)
  {
    if n > 0 {
      Prefix(u, n - 1);
      RejectedUpTo(results, u, n - 1, id);
      assert u[n - 1].id in Ids(u);
    }
  }

  lemma {:induction false} AnsweredUpTo(t: Table, d: seq<Op>, majority: map<OpId, Reply>, n: nat)
    requires HasMajority(d, majority) && n <= |d|
    ensures MergeResults(t, d[..n], majority).Keys == Ids(d[..n])
  {
    if n > 0 {
      Prefix(d, n - 1);
      AnsweredUpTo(t, d, majority, n - 1);
      LastId(d[..n]);
    }
  }

  lemma {:induction false} RefusedUpTo(results: map<OpId, Reply>, u: seq<Op>, n: nat)
    requires n <= |u|
    ensures RejectAll(results, u[..n]).Keys == results.Keys + Ids(u[..n])
  {
    if n > 0 {
      Prefix(u, n - 1);
      RefusedUpTo(results, u, n - 1);
      LastId(u[..n]);
    }
  }

  lemma LastId(ops: seq<Op>)
    requires ops != []
    ensures Ids(ops) == Ids(ops[..|ops| - 1]) + {ops[|ops| - 1].id}
  {
    var before := ops[..|ops| - 1];
    assert forall i | 0 <= i < |before| :: ops[i] == before[i];
  }

  lemma {:induction false} CountIds(ops: seq<Op>, n: nat)
    requires DistinctIds(ops) && n <= |ops|
    ensures |Ids(ops[..n])| == n
  {
    if n > 0 {
      Prefix(ops, n - 1);
      CountIds(ops, n - 1);
      LastId(ops[..n]);
      assert ops[n - 1].id !in Ids(ops[..n - 1]);
    }
  }

  /** Merge answers every operation in d and in u and no other, as the replica asserts afterwards. */
  lemma MergeAnswersAll(t: Table, d: seq<Op>, u: seq<Op>, majority: map<OpId, Reply>)
    requires HasMajority(d, majority) && DistinctIds(d) && DistinctIds(u) && Ids(d) !! Ids(u)
    ensures var results := RejectAll(MergeResults(t, d, majority), u);
            && results.Keys == Ids(d) + Ids(u)
            && |results| == |d| + |u|
  {
    assert d[..|d|] == d && u[..|u|] == u;
    AnsweredUpTo(t, d, majority, |d|);
    RefusedUpTo(MergeResults(t, d, majority), u, |u|);
    CountIds(d, |d|);
    CountIds(u, |u|);
  }

  /** Merge's results: every operation in d keeps its majority result unless it lost its key, and
      every operation in u is refused. */
  lemma MergeResultsOf(t: Table, R: Record, d: seq<Op>, u: seq<Op>, majority: map<OpId, Reply>)
    requires Undecided(R, d, u, majority)
    ensures var results := RejectAll(MergeResults(t, d, majority), u);
            && (forall i | 0 <= i < |d| :: d[i].id in results && results[d[i].id] == Decision(t, d, majority, i))
            && (forall i | 0 <= i < |u| :: u[i].id in results && results[u[i].id] == Reply(u[i].request.key, -1))
  {
    var granted := MergeResults(t, d, majority);
    assert d[..|d|] == d && u[..|u|] == u;
    forall i | 0 <= i < |d|
      ensures d[i].id in RejectAll(granted, u) && RejectAll(granted, u)[d[i].id] == Decision(t, d, majority, i)
    {
      DecisionsUpTo(t, d, majority, |d|, i);
      assert d[i].id in Ids(d);
      RejectedUpTo(granted, u, |u|, d[i].id);
    }
    forall i | 0 <= i < |u|
      ensures u[i].id in RejectAll(granted, u) && RejectAll(granted, u)[u[i].id] == Reply(u[i].request.key, -1)
    {
      RejectedUpTo(granted, u, |u|, u[i].id);
    }
  }

  // ----- the merged record -----

  /** The record with the given operations entered under their results. */
  function Enter(R: Record, ops: seq<Op>, results: map<OpId, Reply>): Record
    requires forall i | 0 <= i < |ops| :: ops[i].id in results
  {
    if ops == [] then R
    else
      var op := ops[|ops| - 1];
      Enter(R, ops[..|ops| - 1], results)[op.id := Entry(op.request, results[op.id])]
  }

  lemma {:induction false} EnterKeys(R: Record, ops: seq<Op>, results: map<OpId, Reply>, n: nat)
    requires forall i | 0 <= i < |ops| :: ops[i].id in results
    requires n <= |ops|
    ensures Enter(R, ops[..n], results).Keys == R.Keys + set i | 0 <= i < n :: ops[i].id
  {
    if n > 0 {
      Prefix(ops, n - 1);
      EnterKeys(R, ops, results, n - 1);
    }
  }

  /** Entering lock operations adds exactly the successful ones to what is locked. */
  lemma {:induction false} EnterMeaning(R: Record, ops: seq<Op>, results: map<OpId, Reply>, n: nat, k: Key, c: Client)
    requires forall i | 0 <= i < |ops| :: ops[i].id in results && ops[i].request.isLock
    requires DistinctIds(ops) && Ids(ops) !! R.Keys && n <= |ops|
    ensures UnlockedIn(Enter(R, ops[..n], results), k, c) <==> UnlockedIn(R, k, c)
    ensures LockedIn(Enter(R, ops[..n], results), k, c) <==>
            || LockedIn(R, k, c)
            || exists i | 0 <= i < n :: ops[i].request == Request(c, k, true) && results[ops[i].id].status == 0
  {
    if n > 0 {
      Prefix(ops, n - 1);
      EnterKeys(R, ops, results, n - 1);
      EnterMeaning(R, ops, results, n - 1, k, c);
      var op := ops[n - 1];
      assert op.id in Ids(ops);
      AddEntry(Enter(R, ops[..n - 1], results), op.id, Entry(op.request, results[op.id]), k, c);
    }
  }

  /** The master record of the new view. */
  function MergedRecord(R: Record, t: Table, d: seq<Op>, u: seq<Op>, majority: map<OpId, Reply>): Record
    requires Undecided(R, d, u, majority)
  {
    MergeResultsOf(t, R, d, u, majority);
    var results := RejectAll(MergeResults(t, d, majority), u);
    Enter(Enter(R, d, results), u, results)
  }

  lemma MergedRecordMeaning(R: Record, t: Table, d: seq<Op>, u: seq<Op>, majority: map<OpId, Reply>, k: Key, c: Client)
    requires Undecided(R, d, u, majority)
    ensures UnlockedIn(MergedRecord(R, t, d, u, majority), k, c) <==> UnlockedIn(R, k, c)
    ensures LockedIn(MergedRecord(R, t, d, u, majority), k, c) <==>
            || LockedIn(R, k, c)
            || exists i | 0 <= i < |d| :: Granted(t, d, majority, i) && d[i].request == Request(c, k, true)
  {
    MergeResultsOf(t, R, d, u, majority);
    var results := RejectAll(MergeResults(t, d, majority), u);
    assert d[..|d|] == d && u[..|u|] == u;
    var R' := Enter(R, d, results);
    EnterKeys(R, d, results, |d|);
    assert R'.Keys == R.Keys + Ids(d);
    EnterMeaning(R, d, results, |d|, k, c);
    EnterMeaning(R', u, results, |u|, k, c);
  }

  /** No operation that is granted belongs to a client whose unlock of the key is already in the record. */
  ghost predicate NoStaleGrant(R: Record, t: Table, d: seq<Op>, majority: map<OpId, Reply>)
    requires HasMajority(d, majority)
  {
    forall i | 0 <= i < |d| && Granted(t, d, majority, i) :: !UnlockedIn(R, d[i].request.key, d[i].request.client)
  }

  /** The leader's table after Merge is the table every replica builds from the merged record, if and
      only if no operation that is granted belongs to a client whose unlock of the key is already in
      the record. */
  lemma MergeAgreesWithSync(R: Record, t: Table, d: seq<Op>, u: seq<Op>, majority: map<OpId, Reply>)
    requires Undecided(R, d, u, majority) && IsSyncOf(t, R)
    ensures IsSyncOf(MergeLocks(t, d, majority), MergedRecord(R, t, d, u, majority)) <==>
            NoStaleGrant(R, t, d, majority)
  {
    var t', R' := MergeLocks(t, d, majority), MergedRecord(R, t, d, u, majority);
    assert d[..|d|] == d;
    if i :| 0 <= i < |d| && Granted(t, d, majority, i) && UnlockedIn(R, d[i].request.key, d[i].request.client) {
      var k, c := d[i].request.key, d[i].request.client;
      MergedTable(t, d, majority, |d|, k, c);
      MergedRecordMeaning(R, t, d, u, majority, k, c);
      assert Held(t', k, c) && UnlockedIn(R', k, c);
    } else {
      forall k: Key, c: Client ensures Held(t', k, c) <==> LockedIn(R', k, c) && !UnlockedIn(R', k, c) {
        MergedTable(t, d, majority, |d|, k, c);
        MergedRecordMeaning(R, t, d, u, majority, k, c);
        assert Held(t, k, c) <==> LockedIn(R, k, c) && !UnlockedIn(R, k, c);
      }
    }
  }

  /** The condition can fail. Client 1 locked and unlocked "k"; its lock is still undecided when the
      view changes, as is the later lock of client 2, which a majority granted too. Merge gives the
      key back to client 1 and refuses client 2, while the merged record shows no holder at all. */
  lemma StaleGrant()
    ensures var R: Record := map[(1, 2) := Entry(Request(1, "k", false), Reply("", 0))];
            var d := [Op((1, 1), Request(1, "k", true)), Op((2, 1), Request(2, "k", true))];
            var majority := map[(1, 1) := Reply("k", 0), (2, 1) := Reply("k", 0)];
            && Undecided(R, d, [], majority) && IsSyncOf(map[], R)
            && Held(MergeLocks(map[], d, majority), "k", 1)
            && Decision(map[], d, majority, 1) == Reply("k", -1)
            && !IsSyncOf(MergeLocks(map[], d, majority), MergedRecord(R, map[], d, [], majority))
  {
    var R: Record := map[(1, 2) := Entry(Request(1, "k", false), Reply("", 0))];
    var d := [Op((1, 1), Request(1, "k", true)), Op((2, 1), Request(2, "k", true))];
    var majority := map[(1, 1) := Reply("k", 0), (2, 1) := Reply("k", 0)];
    assert Frees(R[(1, 2)], "k", 1);
    assert UnlockedIn(R, "k", 1);
    assert FirstSuccess(d, majority, 0);
    assert Succeeded(d, majority, 0);
    assert d[..2] == d;
    MergedTable(map[], d, majority, 2, "k", 1);
    MergeAgreesWithSync(R, map[], d, [], majority);
  }

  // ----- the whole view change -----

  /** Whoever the merged record leaves as a holder holds the key in the leader's table. */
  lemma MergedOneHolder(R: Record, t: Table, d: seq<Op>, u: seq<Op>, majority: map<OpId, Reply>)
    requires Undecided(R, d, u, majority) && IsSyncOf(t, R)
    ensures AtMostOneHolder(MergedRecord(R, t, d, u, majority))
  {
    var t', R' := MergeLocks(t, d, majority), MergedRecord(R, t, d, u, majority);
    assert d[..|d|] == d;
    forall k: Key, c: Client ensures LockedIn(R', k, c) && !UnlockedIn(R', k, c) ==> Held(t', k, c) {
      MergedTable(t, d, majority, |d|, k, c);
      MergedRecordMeaning(R, t, d, u, majority, k, c);
      assert Held(t, k, c) <==> LockedIn(R, k, c) && !UnlockedIn(R, k, c);
    }
  }

  /** The leader syncs with R, merges, and sends the merged record; a follower syncs with that. If the
      leader's iteration orders agree, it gets past its assertion. Then, if no grant is stale, the follower
      ends with the leader's table if and only if its own iteration orders agree; and if those agree, if and
      only if no grant is stale. */
  method ViewChange(leader: LockServer, follower: LockServer, R: Record, d: seq<Op>, u: seq<Op>,
                    majority: map<OpId, Reply>, order: map<Key, Orders>, order': map<Key, Orders>, ghost t: Table)
    returns (ok: bool)
    requires leader != follower && Undecided(R, d, u, majority) && IsSyncOf(t, R)
    requires Iterates(order, R) && OrdersAgree(order) && Iterates(order', MergedRecord(R, t, d, u, majority))
    modifies leader, follower
    ensures leader.locks == MergeLocks(t, d, majority)
    ensures NoStaleGrant(R, t, d, majority) ==> (ok && follower.locks == leader.locks <==> OrdersAgree(order'))
    ensures OrdersAgree(order') ==> ok && (follower.locks == leader.locks <==> NoStaleGrant(R, t, d, majority))
  {
    SyncHasOneHolder(t, R);
    var synced := leader.Sync(R, order);
    SyncUnique(leader.locks, t, R);
    var results := leader.Merge(d, u, majority);
    MergeResultsOf(t, R, d, u, majority);
    var merged := Enter(Enter(R, d, results), u, results);
    MergedOneHolder(R, t, d, u, majority);
    MergeAgreesWithSync(R, t, d, u, majority);
    ok := follower.Sync(merged, order');
    if IsSyncOf(follower.locks, merged) && IsSyncOf(leader.locks, merged) {
      SyncUnique(follower.locks, leader.locks, merged);
    }
  }
}
