/** What rebuilding a lock table from a replica's record gives, compared with the live table: after any
    order of proposals and finalizations. */
module LockRecovery {
  import opened LockServer

  // ----- live execution of one replica -----

  /** The table together with the record, and which recorded operations are finalized. */
  datatype Replica = Replica(table: Table, record: Record, finalized: set<OpId>)

  /** The messages of normal operation: locks are consensus operations, unlocks inconsistent ones. An id
      names one operation of one client. */
  datatype Event =
    | ProposeLock(id: OpId, c: Client, k: Key)
    | FinalizeLock(id: OpId, result: Reply)
    | ProposeUnlock(id: OpId, c: Client, k: Key)
    | FinalizeUnlock(id: OpId)

  /** A lock is executed when it is proposed, and its recorded result is replaced when it is finalized. An
      unlock is recorded when it is proposed, with the empty result, which reads as status 0, and executed
      when it is finalized. A recorded operation is not proposed again, nor an unlock executed twice. */
  function Deliver(s: Replica, e: Event): Replica
  {
    match e
    case ProposeLock(id, c, k) =>
      if id in s.record then s
      else
        var (t, status) := Consensus(s.table, Request(c, k, true));
        s.(table := t, record := s.record[id := Entry(Request(c, k, true), Reply(k, status))])
    case FinalizeLock(id, result) =>
      if id in s.record && s.record[id].request.isLock then
        s.(record := s.record[id := s.record[id].(reply := result)], finalized := s.finalized + {id})
      else s
    case ProposeUnlock(id, c, k) =>
      if id in s.record then s
      else s.(record := s.record[id := Entry(Request(c, k, false), Reply("", 0))])
    case FinalizeUnlock(id) =>
      if id in s.record && id !in s.finalized then
        s.(table := Inconsistent(s.table, s.record[id].request), finalized := s.finalized + {id})
      else s
  }

  function Run(events: seq<Event>): Replica
  {
    if events == [] then Replica(map[], map[], {})
    else Deliver(Run(events[..|events| - 1]), events[|events| - 1])
  }

  // ----- what the table follows -----

  /** An unlock of k by c has been executed. */
  ghost predicate Executed(s: Replica, k: Key, c: Client)
  {
    exists id | id in s.finalized && id in s.record :: Frees(s.record[id], k, c)
  }

  /** The table holds exactly the locks recorded as successful whose unlock has not been executed; and
      recorded unlocks read as successful. */
  ghost predicate Follows(s: Replica)
  {
    && s.finalized <= s.record.Keys
    && (forall id | id in s.record && !s.record[id].request.isLock :: s.record[id].reply.status == 0)
    && (forall k: Key, c: Client :: Held(s.table, k, c) <==> LockedIn(s.record, k, c) && !Executed(s, k, c))
  }

  /** The proposal grants a lock to a client whose unlock of that key has been executed here. */
  ghost predicate Regrant(s: Replica, e: Event)
  {
    && e.ProposeLock? && e.id !in s.record
    && (e.k !in s.table || s.table[e.k] == e.c)
    && Executed(s, e.k, e.c)
  }

  /** The final result decides whether the record shows a lock that no executed unlock has ended. */
  ghost predicate Overturns(s: Replica, e: Event)
  {
    && e.FinalizeLock? && e.id in s.record && s.record[e.id].request.isLock
    && var q := s.record[e.id].request;
       && !Executed(s, q.key, q.client)
       && LockedIn(s.record, q.key, q.client) != LockedIn(Deliver(s, e).record, q.key, q.client)
  }

  /** One message keeps the table following the record exactly if it neither regrants nor overturns. */
  lemma DeliverFollows(s: Replica, e: Event)
    requires Follows(s)
    ensures Follows(Deliver(s, e)) <==> !Regrant(s, e) && !Overturns(s, e)
  {
    match e
    case ProposeLock(id, c, k) => if id !in s.record { LockProposed(s, e); }
    case FinalizeLock(id, result) => if id in s.record && s.record[id].request.isLock { LockFinalized(s, e); }
    case ProposeUnlock(id, c, k) => if id !in s.record { UnlockProposed(s, e); }
    case FinalizeUnlock(id) =>
      if id in s.record && !s.record[id].request.isLock && id !in s.finalized { UnlockFinalized(s, e); }
  }

  /** A fresh entry that is not finalized executes no unlock. */
  lemma ExecutedSame(s: Replica, s': Replica, k: Key, c: Client)
    requires s.finalized <= s'.finalized
    requires forall id | id in s.finalized && id in s.record :: id in s'.record && s'.record[id] == s.record[id]
    requires forall id | id in s'.finalized && id in s'.record && !s'.record[id].request.isLock ::
               id in s.finalized && id in s.record && s'.record[id] == s.record[id]
    ensures Executed(s', k, c) <==> Executed(s, k, c)
  {
    if Executed(s, k, c) {
      var id :| id in s.finalized && id in s.record && Frees(s.record[id], k, c);
      assert id in s'.finalized && id in s'.record && Frees(s'.record[id], k, c);
    }
    if Executed(s', k, c) {
      var id :| id in s'.finalized && id in s'.record && Frees(s'.record[id], k, c);
      assert id in s.finalized && id in s.record && Frees(s.record[id], k, c);
    }
  }

  lemma LockProposed(s: Replica, e: Event)
    requires Follows(s) && e.ProposeLock? && e.id !in s.record
    ensures Follows(Deliver(s, e)) <==> !Regrant(s, e)
  {
    var s' := Deliver(s, e);
    forall k: Key, c: Client
      ensures LockedIn(s'.record, k, c) <==> LockedIn(s.record, k, c) || Grants(s'.record[e.id], k, c)
      ensures Executed(s', k, c) <==> Executed(s, k, c)
    {
      AddEntry(s.record, e.id, s'.record[e.id], k, c);
      ExecutedSame(s, s', k, c);
    }
    if Regrant(s, e) {
      assert Held(s'.table, e.k, e.c) && Executed(s', e.k, e.c);
    } else {
      forall k: Key, c: Client ensures Held(s'.table, k, c) <==> LockedIn(s'.record, k, c) && !Executed(s', k, c) {
        assert Held(s.table, k, c) <==> LockedIn(s.record, k, c) && !Executed(s, k, c);
      }
    }
  }

  lemma UnlockProposed(s: Replica, e: Event)
    requires Follows(s) && e.ProposeUnlock? && e.id !in s.record
    ensures Follows(Deliver(s, e))
  {
    var s' := Deliver(s, e);
    forall k: Key, c: Client ensures Held(s'.table, k, c) <==> LockedIn(s'.record, k, c) && !Executed(s', k, c) {
      AddEntry(s.record, e.id, s'.record[e.id], k, c);
      ExecutedSame(s, s', k, c);
      assert Held(s.table, k, c) <==> LockedIn(s.record, k, c) && !Executed(s, k, c);
    }
  }

  lemma UnlockFinalized(s: Replica, e: Event)
    requires Follows(s) && e.FinalizeUnlock? && e.id in s.record && !s.record[e.id].request.isLock
              && e.id !in s.finalized
    ensures Follows(Deliver(s, e))
  {
    var s' := Deliver(s, e);
    var q := s.record[e.id].request;
    assert Frees(s.record[e.id], q.key, q.client);
    forall k: Key, c: Client ensures Held(s'.table, k, c) <==> LockedIn(s'.record, k, c) && !Executed(s', k, c) {
      assert Held(s.table, k, c) <==> LockedIn(s.record, k, c) && !Executed(s, k, c);
      if (k, c) == (q.key, q.client) {
        assert e.id in s'.finalized && Frees(s'.record[e.id], k, c);
      } else {
        OtherExecuted(s, s', e.id, k, c);
      }
    }
  }

  lemma OtherExecuted(s: Replica, s': Replica, id: OpId, k: Key, c: Client)
    requires s'.record == s.record && s'.finalized == s.finalized + {id} && id in s.record && !Frees(s.record[id], k, c)
    ensures Executed(s', k, c) <==> Executed(s, k, c)
  {
    if Executed(s, k, c) {
      var x :| x in s.finalized && x in s.record && Frees(s.record[x], k, c);
      assert x in s'.finalized && Frees(s'.record[x], k, c);
    }
    if Executed(s', k, c) {
      var x :| x in s'.finalized && x in s'.record && Frees(s'.record[x], k, c);
      assert x in s.finalized && Frees(s.record[x], k, c);
    }
  }

  lemma LockFinalized(s: Replica, e: Event)
    requires Follows(s) && e.FinalizeLock? && e.id in s.record && s.record[e.id].request.isLock
    ensures Follows(Deliver(s, e)) <==> !Overturns(s, e)
  {
    var s' := Deliver(s, e);
    var q := s.record[e.id].request;
    forall k: Key, c: Client
      ensures Executed(s', k, c) <==> Executed(s, k, c)
      ensures (k, c) != (q.key, q.client) ==> (LockedIn(s'.record, k, c) <==> LockedIn(s.record, k, c))
    {
      FinalizedExecuted(s, s', e.id, k, c);
      if (k, c) != (q.key, q.client) {
        OtherLocked(s.record, e.id, e.result, k, c);
      }
    }
    assert Held(s.table, q.key, q.client) <==> LockedIn(s.record, q.key, q.client) && !Executed(s, q.key, q.client);
    if !Overturns(s, e) {
      forall k: Key, c: Client ensures Held(s'.table, k, c) <==> LockedIn(s'.record, k, c) && !Executed(s', k, c) {
        assert Held(s.table, k, c) <==> LockedIn(s.record, k, c) && !Executed(s, k, c);
      }
    } else {
      assert !(Held(s'.table, q.key, q.client) <==>
               LockedIn(s'.record, q.key, q.client) && !Executed(s', q.key, q.client));
    }
  }

  /** Replacing the result of a lock does not touch what is locked for others, nor what is unlocked. */
  lemma OtherLocked(R: Record, id: OpId, result: Reply, k: Key, c: Client)
    requires id in R && (k, c) != (R[id].request.key, R[id].request.client)
    ensures LockedIn(R[id := R[id].(reply := result)], k, c) <==> LockedIn(R, k, c)
  {
    var R' := R[id := R[id].(reply := result)];
    if x :| x in R && Grants(R[x], k, c) { assert x in R' && Grants(R'[x], k, c); }
    if x :| x in R' && Grants(R'[x], k, c) { assert x in R && Grants(R[x], k, c); }
  }

  lemma FinalizedExecuted(s: Replica, s': Replica, id: OpId, k: Key, c: Client)
    requires id in s.record && s.record[id].request.isLock && s'.finalized == s.finalized + {id}
    requires s'.record.Keys == s.record.Keys && s'.record[id].request == s.record[id].request
    requires forall x | x in s.record && x != id :: s'.record[x] == s.record[x]
    ensures Executed(s', k, c) <==> Executed(s, k, c)
  {
    if Executed(s, k, c) {
      var x :| x in s.finalized && x in s.record && Frees(s.record[x], k, c);
      assert x in s'.finalized && Frees(s'.record[x], k, c);
    }
    if Executed(s', k, c) {
      var x :| x in s'.finalized && x in s'.record && Frees(s'.record[x], k, c);
      assert x in s.finalized && Frees(s.record[x], k, c);
    }
  }

  // ----- whole runs -----

  ghost predicate FollowsAt(events: seq<Event>, n: nat)
    requires n <= |events|
  {
    Follows(Run(events[..n]))
  }

  ghost predicate PartsAt(events: seq<Event>, n: nat)
    requires n < |events|
  {
    Regrant(Run(events[..n]), events[n]) || Overturns(Run(events[..n]), events[n])
  }

  lemma RunStep(events: seq<Event>, n: nat)
    requires n < |events|
    ensures Run(events[..n + 1]) == Deliver(Run(events[..n]), events[n])
  {
    assert events[..n + 1][..n] == events[..n];
  }

  /** Whatever the order of the messages, the table follows the record all along the run if and only if no
      message regrants or overturns a lock. */
  lemma FollowsIff(events: seq<Event>)
    ensures (forall n | 0 <= n <= |events| :: FollowsAt(events, n))
            <==> (forall n | 0 <= n < |events| :: !PartsAt(events, n))
  {
    var follows := seq(|events| + 1, n requires 0 <= n <= |events| => FollowsAt(events, n));
    var parts := seq(|events|, n requires 0 <= n < |events| => PartsAt(events, n));
    assert events[..0] == [];
    assert FollowsAt(events, 0);
    forall n | 0 <= n < |events| ensures follows[n] ==> (follows[n + 1] <==> !parts[n]) {
      if FollowsAt(events, n) {
        RunStep(events, n);
        DeliverFollows(Run(events[..n]), events[n]);
      }
    }
    FirstFailure(follows, parts, |parts|);
    assert forall n | 0 <= n <= |events| :: follows[n] == FollowsAt(events, n);
    assert forall n | 0 <= n < |events| :: parts[n] == PartsAt(events, n);
  }

  /** If agreement is lost exactly at the bad steps, it holds throughout exactly if there is none. */
  lemma {:induction false} FirstFailure(agrees: seq<bool>, bad: seq<bool>, n: nat)
    requires |agrees| == |bad| + 1 && n <= |bad| && agrees[0]
    requires forall i | 0 <= i < |bad| :: agrees[i] ==> (agrees[i + 1] <==> !bad[i])
    ensures (forall i | 0 <= i <= n :: agrees[i]) <==> (forall i | 0 <= i < n :: !bad[i])
  {
    if n > 0 {
      FirstFailure(agrees, bad, n - 1);
      assert agrees[n - 1] ==> (agrees[n] <==> !bad[n - 1]);
    }
  }

  /** The table holds a lock whose unlock has been proposed. */
  ghost predicate UnlockPending(s: Replica)
  {
    exists k: Key, c: Client :: Held(s.table, k, c) && UnlockedIn(s.record, k, c)
  }

  /** Where the table follows the record, the record means the live table if and only if no holder's unlock
      has been proposed; and it never leaves two holders. */
  lemma MeansLiveIff(s: Replica)
    requires Follows(s)
    ensures IsSyncOf(s.table, s.record) <==> !UnlockPending(s)
    ensures AtMostOneHolder(s.record)
  {
    forall k: Key, c: Client ensures Executed(s, k, c) ==> UnlockedIn(s.record, k, c) {
      if Executed(s, k, c) {
        var id :| id in s.finalized && id in s.record && Frees(s.record[id], k, c);
      }
    }
    assert forall k: Key, c: Client :: Held(s.table, k, c) <==> LockedIn(s.record, k, c) && !Executed(s, k, c);
    if !UnlockPending(s) {
      forall k: Key, c: Client ensures Held(s.table, k, c) <==>
          LockedIn(s.record, k, c) && !UnlockedIn(s.record, k, c) {
        assert !(Held(s.table, k, c) && UnlockedIn(s.record, k, c));
      }
    }
    forall k: Key, c: Client, c': Client
      | LockedIn(s.record, k, c) && !UnlockedIn(s.record, k, c) && LockedIn(s.record, k, c')
          && !UnlockedIn(s.record, k, c')
      ensures c == c'
    {
      assert Held(s.table, k, c) && Held(s.table, k, c');
    }
  }

  /** After any run without regrant and overturned result, the record means the live table if and only if
      no unlock of a holder is between its proposal and its execution. */
  lemma SyncEqualsReplay(events: seq<Event>)
    requires forall n | 0 <= n < |events| :: !PartsAt(events, n)
    ensures IsSyncOf(Run(events).table, Run(events).record) <==> !UnlockPending(Run(events))
    ensures AtMostOneHolder(Run(events).record)
  {
    FollowsIff(events);
    assert FollowsAt(events, |events|);
    assert events[..|events|] == events;
    MeansLiveIff(Run(events));
  }

  predicate LateLock(unlock: Event, lock: Event)
  {
    unlock.ProposeUnlock? && lock.ProposeLock? && unlock.c == lock.c && unlock.k == lock.k
  }

  /** The final result is the one the replica gave. */
  ghost predicate ConfirmsAt(events: seq<Event>, n: nat)
    requires n < |events|
  {
    var e, R := events[n], Run(events[..n]).record;
    e.FinalizeLock? && e.id in R ==> R[e.id].reply.status == e.result.status
  }

  /** If no lock of a client is proposed after its unlock of that key, and final results are those the
      replica gave, the table follows the record all along, in any interleaving with other clients. */
  lemma NoLateLockFollows(events: seq<Event>)
    requires forall i, j | 0 <= i < j < |events| :: !LateLock(events[i], events[j])
    requires forall n | 0 <= n < |events| :: ConfirmsAt(events, n)
    ensures forall n | 0 <= n < |events| :: !PartsAt(events, n)
    ensures forall n | 0 <= n <= |events| :: FollowsAt(events, n)
  {
    forall n | 0 <= n < |events| ensures !PartsAt(events, n) {
      var s, e := Run(events[..n]), events[n];
      if Regrant(s, e) {
        var id :| id in s.finalized && id in s.record && Frees(s.record[id], e.k, e.c);
        var i := UnlockFromEvents(events[..n], id);
        assert LateLock(events[i], e);
      }
      if Overturns(s, e) {
        assert ConfirmsAt(events, n);
        ConfirmedLocked(s.record, e.id, e.result, s.record[e.id].request.key, s.record[e.id].request.client);
      }
    }
    FollowsIff(events);
  }

  lemma ConfirmedLocked(R: Record, id: OpId, result: Reply, k: Key, c: Client)
    requires id in R && R[id].reply.status == result.status
    ensures LockedIn(R[id := R[id].(reply := result)], k, c) <==> LockedIn(R, k, c)
  {
    var R' := R[id := R[id].(reply := result)];
    if x :| x in R && Grants(R[x], k, c) { assert x in R' && Grants(R'[x], k, c); }
    if x :| x in R' && Grants(R'[x], k, c) { assert x in R && Grants(R[x], k, c); }
  }

  lemma {:induction false} UnlockFromEvents(events: seq<Event>, id: OpId) returns (i: nat)
    requires id in Run(events).record && !Run(events).record[id].request.isLock
    ensures i < |events| && events[i].ProposeUnlock?
    ensures Run(events).record[id].request == Request(events[i].c, events[i].k, false)
  {
    var n := |events| - 1;
    if id in Run(events[..n]).record {
      i := UnlockFromEvents(events[..n], id);
    } else {
      i := n;
    }
  }

  // ----- each of the three conditions can fail -----

  lemma RunMore(events: seq<Event>, e: Event)
    ensures Run(events + [e]) == Deliver(Run(events), e)
  {
    assert (events + [e])[..|events|] == events;
  }

  lemma ReleasedInRecord(s: Replica, id: OpId)
    requires id in s.record && Frees(s.record[id], "k", 1) && Held(s.table, "k", 1)
    ensures !IsSyncOf(s.table, s.record)
  {
    assert UnlockedIn(s.record, "k", 1);
  }

  /** Between its proposal and its execution an unlock is in the record and not in the table. */
  lemma PendingUnlockDisagrees()
    ensures var s := Run([ProposeLock((1, 1), 1, "k")] + [ProposeUnlock((1, 2), 1, "k")]);
            Held(s.table, "k", 1) && !IsSyncOf(s.table, s.record)
  {
    RunMore([], ProposeLock((1, 1), 1, "k"));
    assert [] + [ProposeLock((1, 1), 1, "k")] == [ProposeLock((1, 1), 1, "k")];
    RunMore([ProposeLock((1, 1), 1, "k")], ProposeUnlock((1, 2), 1, "k"));
    ReleasedInRecord(Run([ProposeLock((1, 1), 1, "k")] + [ProposeUnlock((1, 2), 1, "k")]), (1, 2));
  }

  /** A replica that granted a lock the client then decided as refused keeps it in its table. */
  lemma OverturnedDisagrees()
    ensures var s := Run([ProposeLock((1, 1), 1, "k")] + [FinalizeLock((1, 1), Reply("k", -1))]);
            Held(s.table, "k", 1) && !IsSyncOf(s.table, s.record)
  {
    RunMore([], ProposeLock((1, 1), 1, "k"));
    assert [] + [ProposeLock((1, 1), 1, "k")] == [ProposeLock((1, 1), 1, "k")];
    RunMore([ProposeLock((1, 1), 1, "k")], FinalizeLock((1, 1), Reply("k", -1)));
    var s := Run([ProposeLock((1, 1), 1, "k")] + [FinalizeLock((1, 1), Reply("k", -1))]);
    assert !LockedIn(s.record, "k", 1);
  }

  /** After any run that leaves the key free or with client 1, an executed unlock and then a lock of that
      client. */
  lemma RegrantDisagrees(events: seq<Event>, id: OpId, id': OpId)
    requires var s := Run(events);
             && ("k" in s.table ==> s.table["k"] == 1)
             && id !in s.record && id' !in s.record && id !in s.finalized && id != id'
    ensures var s := Run(events + [ProposeUnlock(id, 1, "k")] + [FinalizeUnlock(id)] + [ProposeLock(id', 1, "k")]);
            Held(s.table, "k", 1) && !IsSyncOf(s.table, s.record)
  {
    var x, y, z := ProposeUnlock(id, 1, "k"), FinalizeUnlock(id), ProposeLock(id', 1, "k");
    RunMore(events, x);
    RunMore(events + [x], y);
    RunMore(events + [x] + [y], z);
    ReleasedInRecord(Run(events + [x] + [y] + [z]), id);
  }

  /** A client that asks again after its unlock. */
  lemma ReacquireDisagrees()
    ensures var s := Run([ProposeLock((1, 1), 1, "k")] + [ProposeUnlock((1, 2), 1, "k")] + [FinalizeUnlock((1, 2))]
                         + [ProposeLock((1, 3), 1, "k")]);
            Held(s.table, "k", 1) && !IsSyncOf(s.table, s.record)
  {
    RunMore([], ProposeLock((1, 1), 1, "k"));
    assert [] + [ProposeLock((1, 1), 1, "k")] == [ProposeLock((1, 1), 1, "k")];
    RegrantDisagrees([ProposeLock((1, 1), 1, "k")], (1, 2), (1, 3));
  }

  /** A client that asks once, and whose lock reaches the replica only after its unlock. */
  lemma LateLockDisagrees()
    ensures var s := Run([] + [ProposeUnlock((1, 2), 1, "k")] + [FinalizeUnlock((1, 2))] + [ProposeLock((1, 1), 1,
              "k")]);
            Held(s.table, "k", 1) && !IsSyncOf(s.table, s.record)
  {
    RegrantDisagrees([], (1, 2), (1, 1));
  }

  // ----- Sync on the record of a run -----

  /** Rebuilding the table from the record a replica keeps: the result is what the record means, past the
      assertion, if and only if the iteration orders agree; and it is the live table if and only if they
      agree, as long as no holder's unlock is pending, or if and only if none is pending, where they do. */
  method Rebuild(server: LockServer, events: seq<Event>, order: map<Key, Orders>) returns (ok: bool)
    requires forall n | 0 <= n < |events| :: !PartsAt(events, n)
    requires Iterates(order, Run(events).record)
    modifies server
    ensures ok && IsSyncOf(server.locks, Run(events).record) <==> OrdersAgree(order)
    ensures !UnlockPending(Run(events)) ==> (ok && server.locks == Run(events).table <==> OrdersAgree(order))
    ensures OrdersAgree(order) ==> (server.locks == Run(events).table <==> !UnlockPending(Run(events)))
  {
    SyncEqualsReplay(events);
    ok := server.Sync(Run(events).record, order);
    if IsSyncOf(server.locks, Run(events).record) && IsSyncOf(Run(events).table, Run(events).record) {
      SyncUnique(server.locks, Run(events).table, Run(events).record);
    }
  }
}
