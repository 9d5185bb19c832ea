/** Clients and 2f+1 replicas together: lock and unlock messages reach each replica in any order, after
    any delay or not at all, and a client decides on the answers of whichever replicas it has heard from:
    on the fast path when a fast quorum agrees, on the slow path by counting the answers of a quorum. */
module LockProtocol {
  import opened LockServer
  import opened LockClient
  import opened Quorum

  datatype Phase = Idle | Asked | Holding | Refused | Released

  /** The answer of a replica to the client's request number attempt, which it records and repeats. */
  datatype Answer = Answer(replica: nat, client: Client, attempt: nat, reply: Reply)

  datatype State = State(
    tables: seq<Table>,                         // the lock table of each replica
    phases: map<(Client, Key), Phase>,          // each client's view of each key
    attempts: map<(Client, Key), nat>,          // lock requests sent so far
    answers: set<Answer>,                       // answers recorded so far
    unlocks: set<(Client, Key, nat)>,           // unlock requests sent so far
    executed: set<(nat, Client, Key, nat)>)     // unlocks executed, by replica

  datatype Action =
    | Ask(c: Client, k: Key)
    | DeliverLock(r: nat, c: Client, k: Key, attempt: nat)
    | DecideFast(c: Client, k: Key, heard: seq<nat>, reply: Reply)
    | DecideSlow(c: Client, k: Key, heard: seq<nat>, replies: seq<Reply>)
    | SendUnlock(c: Client, k: Key)
    | DeliverUnlock(r: nat, c: Client, k: Key, attempt: nat)

  function PhaseOf(s: State, c: Client, k: Key): Phase
  {
    if (c, k) in s.phases then s.phases[(c, k)] else Idle
  }

  function AttemptOf(s: State, c: Client, k: Key): nat
  {
    if (c, k) in s.attempts then s.attempts[(c, k)] else 0
  }

  function Init(f: nat): State
  {
    State(seq(2 * f + 1, _ => map[]), map[], map[], {}, {}, {})
  }

  ghost predicate Unanswered(s: State, r: nat, c: Client, k: Key, attempt: nat)
  {
    forall a | a in s.answers :: !(a.replica == r && a.client == c && a.attempt == attempt && a.reply.key == k)
  }

  predicate Distinct(heard: seq<nat>)
  {
    forall i, j | 0 <= i < j < |heard| :: heard[i] != heard[j]
  }

  /** When an action can happen. If once holds, a client asks for a key only once. A replica executes a
      request once: a repeated one only gets the recorded answer again. */
  ghost predicate Enabled(f: nat, once: bool, s: State, a: Action)
  {
    match a
    case Ask(c, k) => PhaseOf(s, c, k) == Idle || (!once && PhaseOf(s, c, k) == Released)
    case DeliverLock(r, c, k, attempt) =>
      r < |s.tables| && 1 <= attempt <= AttemptOf(s, c, k) && Unanswered(s, r, c, k, attempt)
    case DecideFast(c, k, heard, reply) =>
      && PhaseOf(s, c, k) == Asked && reply.key == k
      && |heard| >= FastQuorumSize(f) && Distinct(heard)
      && (forall i | 0 <= i < |heard| :: Answer(heard[i], c, AttemptOf(s, c, k), reply) in s.answers)
    case DecideSlow(c, k, heard, replies) =>
      && PhaseOf(s, c, k) == Asked
      && |heard| == |replies| >= QuorumSize(f) && Distinct(heard)
      && (forall i | 0 <= i < |heard| ::
            replies[i].key == k && Answer(heard[i], c, AttemptOf(s, c, k), replies[i]) in s.answers)
    case SendUnlock(c, k) => PhaseOf(s, c, k) == Holding || PhaseOf(s, c, k) == Refused
    case DeliverUnlock(r, c, k, attempt) =>
      r < |s.tables| && (c, k, attempt) in s.unlocks && (r, c, k, attempt) !in s.executed
  }

  ghost function Do(s: State, a: Action): State
    requires Fits(s, a)
  {
    match a
    case Ask(c, k) =>
      s.(phases := s.phases[(c, k) := Asked], attempts := s.attempts[(c, k) := AttemptOf(s, c, k) + 1])
    case DeliverLock(r, c, k, attempt) =>
      var (t, status) := Consensus(s.tables[r], Request(c, k, true));
      s.(tables := s.tables[r := t], answers := s.answers + {Answer(r, c, attempt, Reply(k, status))})
    case DecideFast(c, k, heard, reply) =>
      s.(phases := s.phases[(c, k) := if reply.status == 0 then Holding else Refused])
    case DecideSlow(c, k, heard, replies) =>
      s.(phases := s.phases[(c, k) := if SuccessTotal(Tally(replies)) >= 2 then Holding else Refused])
    case SendUnlock(c, k) =>
      s.(phases := s.phases[(c, k) := Released], unlocks := s.unlocks + {(c, k, AttemptOf(s, c, k))})
    case DeliverUnlock(r, c, k, attempt) =>
      s.(tables := s.tables[r := Inconsistent(s.tables[r], Request(c, k, false))],
         executed := s.executed + {(r, c, k, attempt)})
  }

  predicate Fits(s: State, a: Action)
  {
    a.DeliverLock? || a.DeliverUnlock? ==> a.r < |s.tables|
  }

  /** The actions can be carried out one after the other from s. */
  ghost predicate Runs(f: nat, once: bool, s: State, actions: seq<Action>)
    decreases |actions|
  {
    actions != [] ==> Enabled(f, once, s, actions[0]) && Runs(f, once, Do(s, actions[0]), actions[1..])
  }

  ghost function Final(f: nat, once: bool, s: State, actions: seq<Action>): State
    requires Runs(f, once, s, actions)
    decreases |actions|
  {
    if actions == [] then s else Final(f, once, Do(s, actions[0]), actions[1..])
  }

  /** No key is held by two clients. */
  ghost predicate Exclusive(s: State)
  {
    forall c, c', k :: PhaseOf(s, c, k) == Holding && PhaseOf(s, c', k) == Holding ==> c == c'
  }

  // ----- the invariant -----

  ghost predicate Granted(s: State, r: nat, c: Client, k: Key)
  {
    exists a | a in s.answers :: a.replica == r && a.client == c && a.reply == Reply(k, 0)
  }

  predicate Unreleased(p: Phase)
  {
    p == Asked || p == Holding || p == Refused
  }

  /** What a client that holds a key has behind it: the grant of the only replica, or of two. */
  ghost predicate Backed(f: nat, s: State, c: Client, k: Key)
  {
    exists r: nat, r': nat :: (f == 0 || r != r') && Granted(s, r, c, k) && Granted(s, r', c, k)
  }

  /** A replica that granted a lock keeps it until the client sends its unlock, and a client that
      holds a key is backed by grants. */
  ghost predicate Inv(f: nat, s: State)
  {
    && |s.tables| == 2 * f + 1
    && (forall c: Client, k: Key :: Numbered(s, c, k))
    && (forall a | a in s.answers :: a.replica < 2 * f + 1 && PhaseOf(s, a.client, a.reply.key) != Idle)
    && (forall c, k, n | (c, k, n) in s.unlocks :: PhaseOf(s, c, k) == Released)
    && (forall r: nat, c, k | Granted(s, r, c, k) && Unreleased(PhaseOf(s, c, k)) ::
          r < |s.tables| && Held(s.tables[r], k, c))
    && (forall c, k | PhaseOf(s, c, k) == Holding :: Backed(f, s, c, k))
  }

  /** Nothing has been asked in the initial phase. */
  predicate Numbered(s: State, c: Client, k: Key)
  {
    PhaseOf(s, c, k) == Idle ==> AttemptOf(s, c, k) == 0
  }

  lemma BackedStays(f: nat, s: State, s': State, c: Client, k: Key)
    requires Backed(f, s, c, k) && s.answers <= s'.answers
    ensures Backed(f, s', c, k)
  {
    var r: nat, r': nat :| (f == 0 || r != r') && Granted(s, r, c, k) && Granted(s, r', c, k);
    assert Granted(s', r, c, k) && Granted(s', r', c, k);
  }

  lemma {:induction false} TwoSuccesses(replies: seq<Reply>) returns (i: nat, j: nat)
    requires Successes(replies) >= 2
    ensures i < j < |replies| && replies[i].status == 0 && replies[j].status == 0
  {
    var n := |replies| - 1;
    if replies[n].status != 0 || Successes(replies[..n]) >= 2 {
      i, j := TwoSuccesses(replies[..n]);
    } else {
      i := OneSuccess(replies[..n]);
      j := n;
    }
  }

  lemma {:induction false} OneSuccess(replies: seq<Reply>) returns (i: nat)
    requires Successes(replies) >= 1
    ensures i < |replies| && replies[i].status == 0
  {
    var n := |replies| - 1;
    if replies[n].status == 0 {
      i := n;
    } else {
      i := OneSuccess(replies[..n]);
    }
  }

  /** Both ways of deciding for the lock rest on enough grants. */
  lemma DecisionBacked(f: nat, s: State, a: Action)
    requires Enabled(f, true, s, a) && (a.DecideSlow? || a.DecideFast?)
    requires PhaseOf(Do(s, a), a.c, a.k) == Holding
    ensures Backed(f, s, a.c, a.k)
  {
    if a.DecideSlow? {
      TallyCounts(a.replies);
      var i, j := TwoSuccesses(a.replies);
      assert a.replies[i] == Reply(a.k, 0) && a.replies[j] == Reply(a.k, 0);
      assert Granted(s, a.heard[i], a.c, a.k) && Granted(s, a.heard[j], a.c, a.k);
    } else {
      var j := if f == 0 then 0 else 1;
      assert a.reply == Reply(a.k, 0);
      assert Answer(a.heard[0], a.c, AttemptOf(s, a.c, a.k), a.reply) in s.answers;
      assert Answer(a.heard[j], a.c, AttemptOf(s, a.c, a.k), a.reply) in s.answers;
      assert Granted(s, a.heard[0], a.c, a.k) && Granted(s, a.heard[j], a.c, a.k);
    }
  }

  lemma DecideKeepsInv(f: nat, s: State, a: Action)
    requires Inv(f, s) && Enabled(f, true, s, a) && (a.DecideSlow? || a.DecideFast?)
    ensures Inv(f, Do(s, a))
  {
    var s' := Do(s, a);
    forall c: Client, k: Key ensures Numbered(s', c, k) {
      assert Numbered(s, c, k);
    }
    forall r: nat, c, k | Granted(s', r, c, k) && Unreleased(PhaseOf(s', c, k))
      ensures r < |s'.tables| && Held(s'.tables[r], k, c)
    {
      assert Granted(s, r, c, k) && Unreleased(PhaseOf(s, c, k));
    }
    forall c: Client, k: Key | PhaseOf(s', c, k) == Holding ensures Backed(f, s', c, k) {
      if (c, k) == (a.c, a.k) {
        DecisionBacked(f, s, a);
      }
      BackedStays(f, s, s', c, k);
    }
  }

  lemma LockDeliveryKeepsInv(f: nat, s: State, a: Action)
    requires Inv(f, s) && Enabled(f, true, s, a) && a.DeliverLock?
    ensures Inv(f, Do(s, a))
  {
    var s' := Do(s, a);
    assert Numbered(s, a.c, a.k);
    forall c: Client, k: Key ensures Numbered(s', c, k) {
      assert Numbered(s, c, k);
    }
    forall r: nat, c, k | Granted(s', r, c, k) && Unreleased(PhaseOf(s', c, k))
      ensures r < |s'.tables| && Held(s'.tables[r], k, c)
    {
      if !Granted(s, r, c, k) {
        assert r == a.r && c == a.c && k == a.k;
      }
    }
    forall c: Client, k: Key | PhaseOf(s', c, k) == Holding ensures Backed(f, s', c, k) {
      assert PhaseOf(s, c, k) == Holding;
      BackedStays(f, s, s', c, k);
    }
  }

  lemma UnlockDeliveryKeepsInv(f: nat, s: State, a: Action)
    requires Inv(f, s) && Enabled(f, true, s, a) && a.DeliverUnlock?
    ensures Inv(f, Do(s, a))
  {
    var s' := Do(s, a);
    forall c: Client, k: Key ensures Numbered(s', c, k) {
      assert Numbered(s, c, k);
    }
    forall r: nat, c, k | Granted(s', r, c, k) && Unreleased(PhaseOf(s', c, k))
      ensures r < |s'.tables| && Held(s'.tables[r], k, c)
    {
      assert Granted(s, r, c, k);
    }
    forall c: Client, k: Key | PhaseOf(s', c, k) == Holding ensures Backed(f, s', c, k) {
      assert PhaseOf(s, c, k) == Holding;
      BackedStays(f, s, s', c, k);
    }
  }

  lemma SendKeepsInv(f: nat, s: State, a: Action)
    requires Inv(f, s) && Enabled(f, true, s, a) && (a.Ask? || a.SendUnlock?)
    ensures Inv(f, Do(s, a))
  {
    var s' := Do(s, a);
    forall c: Client, k: Key ensures Numbered(s', c, k) {
      assert Numbered(s, c, k);
    }
    forall r: nat, c, k | Granted(s', r, c, k) && Unreleased(PhaseOf(s', c, k))
      ensures r < |s'.tables| && Held(s'.tables[r], k, c)
    {
      assert Granted(s, r, c, k);
    }
    forall c: Client, k: Key | PhaseOf(s', c, k) == Holding ensures Backed(f, s', c, k) {
      assert PhaseOf(s, c, k) == Holding;
      BackedStays(f, s, s', c, k);
    }
  }

  lemma StepKeepsInv(f: nat, s: State, a: Action)
    requires Inv(f, s) && Enabled(f, true, s, a)
    ensures Inv(f, Do(s, a))
  {
    match a
    case Ask(c, k) => SendKeepsInv(f, s, a);
    case SendUnlock(c, k) => SendKeepsInv(f, s, a);
    case DecideFast(c, k, heard, reply) => DecideKeepsInv(f, s, a);
    case DecideSlow(c, k, heard, replies) => DecideKeepsInv(f, s, a);
    case DeliverLock(r, c, k, attempt) => LockDeliveryKeepsInv(f, s, a);
    case DeliverUnlock(r, c, k, attempt) => UnlockDeliveryKeepsInv(f, s, a);
  }

  lemma {:induction false} RunKeepsInv(f: nat, s: State, actions: seq<Action>)
    requires Inv(f, s) && Runs(f, true, s, actions)
    ensures Inv(f, Final(f, true, s, actions))
    decreases |actions|
  {
    if actions != [] {
      StepKeepsInv(f, s, actions[0]);
      RunKeepsInv(f, Do(s, actions[0]), actions[1..]);
    }
  }

  lemma InvIsExclusive(f: nat, s: State)
    requires f <= 1 && Inv(f, s)
    ensures Exclusive(s)
  {
    forall c, c', k | PhaseOf(s, c, k) == Holding && PhaseOf(s, c', k) == Holding ensures c == c' {
      assert Backed(f, s, c, k) && Backed(f, s, c', k);
      var r: nat, q: nat :| (f == 0 || r != q) && Granted(s, r, c, k) && Granted(s, q, c, k);
      var r': nat, q': nat :| (f == 0 || r' != q') && Granted(s, r', c', k) && Granted(s, q', c', k);
      var x := CommonReplica(f, r, q, r', q');
      assert Granted(s, x, c, k) && Granted(s, x, c', k);
      assert Held(s.tables[x], k, c) && Held(s.tables[x], k, c');
    }
  }

  /** Two pairs out of three replicas share one. */
  lemma CommonReplica(f: nat, r: nat, q: nat, r': nat, q': nat) returns (x: nat)
    requires f <= 1 && r <= 2 * f && q <= 2 * f && r' <= 2 * f && q' <= 2 * f
    requires f == 0 || (r != q && r' != q')
    ensures (x == r || x == q) && (x == r' || x == q')
  {
    x := if r == r' || r == q' then r else q;
  }

  /** With one or three replicas and every client asking for a key only once, no run ever lets two
      clients hold the same key. */
  lemma MutualExclusion(f: nat, actions: seq<Action>)
    requires f <= 1 && Runs(f, true, Init(f), actions)
    ensures Exclusive(Final(f, true, Init(f), actions))
  {
    assert forall r: nat, c, k :: !Granted(Init(f), r, c, k);
    assert forall c: Client, k: Key :: Numbered(Init(f), c, k);
    RunKeepsInv(f, Init(f), actions);
    InvIsExclusive(f, Final(f, true, Init(f), actions));
  }

  // ----- every request is executed once -----

  /** The replica has executed what this delivery would execute. */
  ghost predicate Spent(s: State, a: Action)
  {
    match a
    case DeliverLock(r, c, k, attempt) => !Unanswered(s, r, c, k, attempt)
    case DeliverUnlock(r, c, k, attempt) => (r, c, k, attempt) in s.executed
    case _ => false
  }

  lemma SpentStays(s: State, b: Action, a: Action)
    requires Fits(s, b)
    ensures Spent(s, a) ==> Spent(Do(s, b), a)
    ensures a == b && (a.DeliverLock? || a.DeliverUnlock?) ==> Spent(Do(s, b), a)
  {
    var s' := Do(s, b);
    if Spent(s, a) && a.DeliverLock? {
      var x :| x in s.answers && x.replica == a.r && x.client == a.c && x.attempt == a.attempt && x.reply.key == a.k;
      assert x in s'.answers;
    }
    if a == b && a.DeliverLock? {
      var x := Answer(a.r, a.c, a.attempt, Reply(a.k, Consensus(s.tables[a.r], Request(a.c, a.k, true)).1));
      assert x in s'.answers;
    }
  }

  lemma {:induction false} SpentNeverAgain(f: nat, once: bool, s: State, actions: seq<Action>, a: Action)
    requires Runs(f, once, s, actions) && Spent(s, a)
    ensures a !in actions
    decreases |actions|
  {
    if actions != [] {
      SpentStays(s, actions[0], a);
      SpentNeverAgain(f, once, Do(s, actions[0]), actions[1..], a);
    }
  }

  /** In every run a replica executes each request of a client at most once. */
  lemma {:induction false} ExecutedOnce(f: nat, once: bool, s: State, actions: seq<Action>, i: nat, j: nat)
    requires Runs(f, once, s, actions) && i < j < |actions| && actions[i] == actions[j]
    ensures !actions[i].DeliverLock? && !actions[i].DeliverUnlock?
    decreases |actions|
  {
    var a := actions[0];
    if i > 0 {
      ExecutedOnce(f, once, Do(s, a), actions[1..], i - 1, j - 1);
    } else if a.DeliverLock? || a.DeliverUnlock? {
      SpentStays(s, a, a);
      SpentNeverAgain(f, once, Do(s, a), actions[1..], a);
    }
  }

  // ----- how far the guarantee reaches -----

  /** A run after which two clients hold the same key. */
  ghost predicate Breaks(f: nat, once: bool, actions: seq<Action>)
  {
    Runs(f, once, Init(f), actions) && !Exclusive(Final(f, once, Init(f), actions))
  }

  lemma {:induction false} ThenOne(f: nat, once: bool, s: State, xs: seq<Action>, a: Action)
    requires Runs(f, once, s, xs) && Enabled(f, once, Final(f, once, s, xs), a)
    ensures Runs(f, once, s, xs + [a]) && Final(f, once, s, xs + [a]) == Do(Final(f, once, s, xs), a)
    decreases |xs|
  {
    if xs == [] {
      assert xs + [a] == [a] && [a][1..] == [];
      assert Runs(f, once, Do(s, a), []);
    } else {
      assert (xs + [a])[1..] == xs[1..] + [a];
      ThenOne(f, once, Do(s, xs[0]), xs[1..], a);
    }
  }

  /** What replica r has answered to the client's request. */
  predicate Replied(s: State, r: nat, c: Client, k: Key, attempt: nat, status: int)
  {
    Answer(r, c, attempt, Reply(k, status)) in s.answers
  }

  /** The states differ only in the tables of replicas lo..hi-1 and their answers to one request, which
      follow from who holds the key there. */
  ghost predicate Delivered(s: State, s': State, c: Client, k: Key, attempt: nat, lo: nat, hi: nat)
  {
    && |s'.tables| == |s.tables| && hi <= |s.tables|
    && s'.phases == s.phases && s'.attempts == s.attempts && s'.unlocks == s.unlocks && s'.executed == s.executed
    && s.answers <= s'.answers
    && (forall a | a in s'.answers ::
          a in s.answers || (a.client == c && a.attempt == attempt && a.reply.key == k && lo <= a.replica < hi))
    && (forall r: nat | r < |s.tables| && !(lo <= r < hi) :: s'.tables[r] == s.tables[r])
    && (forall r: nat | lo <= r < hi :: Served(s, s', r, c, k, attempt))
  }

  predicate Served(s: State, s': State, r: nat, c: Client, k: Key, attempt: nat)
    requires r < |s.tables| && r < |s'.tables|
  {
    if k in s.tables[r] && s.tables[r][k] != c then s'.tables[r] == s.tables[r] && Replied(s', r, c, k, attempt, -1)
    else Held(s'.tables[r], k, c) && Replied(s', r, c, k, attempt, 0)
  }

  /** The current request of a client reaches replicas lo..hi-1. */
  lemma {:induction false} DeliverRange(
    f: nat, once: bool, s0: State, xs: seq<Action>, c: Client, k: Key, lo: nat, hi: nat)
    returns (ys: seq<Action>)
    requires Runs(f, once, s0, xs) && lo <= hi
    requires var s := Final(f, once, s0, xs);
             && hi <= |s.tables| && AttemptOf(s, c, k) >= 1
             && forall r: nat | lo <= r < hi :: Unanswered(s, r, c, k, AttemptOf(s, c, k))
    ensures Runs(f, once, s0, ys)
    ensures var s := Final(f, once, s0, xs);
            Delivered(s, Final(f, once, s0, ys), c, k, AttemptOf(s, c, k), lo, hi)
    decreases hi - lo
  {
    var s := Final(f, once, s0, xs);
    if lo == hi {
      ys := xs;
    } else {
      ys := DeliverRange(f, once, s0, xs, c, k, lo, hi - 1);
      var s1 := Final(f, once, s0, ys);
      var a := DeliverLock(hi - 1, c, k, AttemptOf(s, c, k));
      StillUnanswered(s, s1, c, k, AttemptOf(s, c, k), lo, hi - 1);
      ThenOne(f, once, s0, ys, a);
      ys := ys + [a];
      DeliveredNext(s, s1, c, k, AttemptOf(s, c, k), lo, hi - 1);
    }
  }

  lemma StillUnanswered(s: State, s': State, c: Client, k: Key, attempt: nat, lo: nat, r: nat)
    requires Delivered(s, s', c, k, attempt, lo, r) && Unanswered(s, r, c, k, attempt)
    ensures Unanswered(s', r, c, k, attempt)
  {
  }

  lemma DeliveredNext(s: State, s1: State, c: Client, k: Key, attempt: nat, lo: nat, r: nat)
    requires Delivered(s, s1, c, k, attempt, lo, r) && lo <= r < |s.tables|
    ensures Delivered(s, Do(s1, DeliverLock(r, c, k, attempt)), c, k, attempt, lo, r + 1)
  {
    var s' := Do(s1, DeliverLock(r, c, k, attempt));
    forall q: nat | lo <= q < r + 1 ensures Served(s, s', q, c, k, attempt) {
      if q < r {
        assert Served(s, s1, q, c, k, attempt);
      }
    }
  }

  lemma {:induction false} TwoAreEnough(replies: seq<Reply>)
    requires |replies| >= 2 && replies[0].status == 0 && replies[1].status == 0
    ensures Successes(replies) >= 2
  {
    var n := |replies| - 1;
    if n > 1 {
      TwoAreEnough(replies[..n]);
    } else {
      assert replies[..1] == [replies[0]] && [replies[0]][..0] == [];
      assert Successes([replies[0]]) == Successes([]) + 1;
    }
  }

  /** Replica r granted the request if it is below the bound, and refused it otherwise. */
  predicate Voted(s: State, r: nat, c: Client, k: Key, attempt: nat, bound: nat)
  {
    Replied(s, r, c, k, attempt, if r < bound then 0 else -1)
  }

  ghost predicate QuorumVoted(s: State, f: nat, lo: nat, c: Client, k: Key, attempt: nat, bound: nat)
  {
    forall r: nat | lo <= r <= lo + f :: Voted(s, r, c, k, attempt, bound)
  }

  lemma VotesStay(s: State, s': State, f: nat, lo: nat, c: Client, k: Key, attempt: nat, bound: nat)
    requires QuorumVoted(s, f, lo, c, k, attempt, bound) && s.answers <= s'.answers
    ensures QuorumVoted(s', f, lo, c, k, attempt, bound)
  {
    forall r: nat | lo <= r <= lo + f ensures Voted(s', r, c, k, attempt, bound) {
      assert Voted(s, r, c, k, attempt, bound);
    }
  }

  /** A client that has heard from a quorum, and was granted the lock by two of it, takes it. */
  lemma DecideOnQuorum(f: nat, once: bool, s0: State, xs: seq<Action>, c: Client, k: Key, lo: nat, bound: nat)
    returns (ys: seq<Action>)
    requires f >= 1 && Runs(f, once, s0, xs) && lo + 2 <= bound
    requires var s := Final(f, once, s0, xs);
             && PhaseOf(s, c, k) == Asked
             && QuorumVoted(s, f, lo, c, k, AttemptOf(s, c, k), bound)
    ensures Runs(f, once, s0, ys)
    ensures var s := Final(f, once, s0, xs); Final(f, once, s0, ys) == s.(phases := s.phases[(c, k) := Holding])
  {
    var s := Final(f, once, s0, xs);
    var heard, replies := seq(f + 1, i => lo + i), seq(f + 1, i => Reply(k, if lo + i < bound then 0 else -1));
    TwoAreEnough(replies);
    TallyCounts(replies);
    forall i | 0 <= i < |heard|
      ensures replies[i].key == k && Answer(heard[i], c, AttemptOf(s, c, k), replies[i]) in s.answers
    {
      assert Voted(s, lo + i, c, k, AttemptOf(s, c, k), bound);
    }
    ThenOne(f, once, s0, xs, DecideSlow(c, k, heard, replies));
    ys := xs + [DecideSlow(c, k, heard, replies)];
  }

  /** Two clients have asked for the same key. */
  ghost predicate BothAsked(s: State, f: nat)
  {
    && |s.tables| == 2 * f + 1
    && PhaseOf(s, 1, "k") == Asked && PhaseOf(s, 2, "k") == Asked
    && AttemptOf(s, 1, "k") == 1 && AttemptOf(s, 2, "k") == 1
  }

  lemma AskBoth(f: nat, once: bool) returns (xs: seq<Action>)
    ensures Runs(f, once, Init(f), xs)
    ensures var s := Final(f, once, Init(f), xs);
            BothAsked(s, f) && s.answers == {} && forall r: nat | r < |s.tables| :: s.tables[r] == map[]
  {
    ThenOne(f, once, Init(f), [], Ask(1, "k"));
    xs := [] + [Ask(1, "k")];
    ThenOne(f, once, Init(f), xs, Ask(2, "k"));
    xs := xs + [Ask(2, "k")];
  }

  /** Replicas 0 and 1 grant the key to client 1, the following f+1 to client 2, and client 1 is refused
      where it asks further. */
  lemma SplitVote(f: nat, once: bool) returns (xs: seq<Action>)
    requires f >= 2
    ensures Runs(f, once, Init(f), xs) && BothAsked(Final(f, once, Init(f), xs), f)
    ensures QuorumVoted(Final(f, once, Init(f), xs), f, 0, 1, "k", 1, 2)
    ensures QuorumVoted(Final(f, once, Init(f), xs), f, 2, 2, "k", 1, 3 + f)
  {
    xs := AskBoth(f, once);
    var s1 := Final(f, once, Init(f), xs);
    xs := DeliverRange(f, once, Init(f), xs, 1, "k", 0, 2);
    var s2 := Final(f, once, Init(f), xs);
    assert forall r: nat | 2 <= r < f + 3 :: Unanswered(s2, r, 2, "k", 1);
    xs := DeliverRange(f, once, Init(f), xs, 2, "k", 2, f + 3);
    var s3 := Final(f, once, Init(f), xs);
    assert forall r: nat | 2 <= r < f + 1 :: Unanswered(s3, r, 1, "k", 1);
    xs := DeliverRange(f, once, Init(f), xs, 1, "k", 2, f + 1);
    CountVotes(f, s1, s2, s3, Final(f, once, Init(f), xs));
  }

  lemma CountVotes(f: nat, s1: State, s2: State, s3: State, s4: State)
    requires f >= 2 && |s1.tables| == 2 * f + 1 && forall r: nat | r < |s1.tables| :: s1.tables[r] == map[]
    requires Delivered(s1, s2, 1, "k", 1, 0, 2) && Delivered(s2, s3, 2, "k", 1, 2, f + 3)
    requires Delivered(s3, s4, 1, "k", 1, 2, f + 1)
    ensures QuorumVoted(s4, f, 0, 1, "k", 1, 2) && QuorumVoted(s4, f, 2, 2, "k", 1, 3 + f)
  {
    forall r: nat | 0 <= r <= f ensures Voted(s4, r, 1, "k", 1, 2) {
      if r < 2 {
        assert Served(s1, s2, r, 1, "k", 1);
      } else {
        assert Served(s2, s3, r, 2, "k", 1);
        assert Served(s3, s4, r, 1, "k", 1);
      }
    }
    var lo, bound := 2, 3 + f;
    forall r: nat | lo <= r <= lo + f ensures Voted(s4, r, 2, "k", 1, bound) {
      assert Served(s2, s3, r, 2, "k", 1);
    }
  }

  /** With five replicas or more, each of two clients can hear from a quorum, find two grants in it, and
      take the lock. */
  lemma FiveReplicasBreak(f: nat, once: bool)
    requires f >= 2
    ensures exists actions :: Breaks(f, once, actions)
  {
    var xs := SplitVote(f, once);
    var s := Final(f, once, Init(f), xs);
    xs := DecideOnQuorum(f, once, Init(f), xs, 1, "k", 0, 2);
    VotesStay(s, Final(f, once, Init(f), xs), f, 2, 2, "k", 1, 3 + f);
    xs := DecideOnQuorum(f, once, Init(f), xs, 2, "k", 2, 3 + f);
    var last := Final(f, once, Init(f), xs);
    assert PhaseOf(last, 1, "k") == Holding && PhaseOf(last, 2, "k") == Holding;
    assert Breaks(f, once, xs);
  }

  // ----- asking again -----

  /** No answer is for a request still to be sent. */
  ghost predicate NoFuture(s: State)
  {
    forall a | a in s.answers :: a.attempt <= AttemptOf(s, a.client, a.reply.key)
  }

  /** The first f+1 replicas have the key free or assigned to c. */
  ghost predicate FreeFor(s: State, f: nat, c: Client, k: Key)
  {
    |s.tables| == 2 * f + 1 && forall r: nat | r <= f :: k in s.tables[r] ==> s.tables[r][k] == c
  }

  ghost predicate HeldAt(s: State, f: nat, c: Client, k: Key)
  {
    |s.tables| == 2 * f + 1 && forall r: nat | r <= f :: Held(s.tables[r], k, c)
  }

  /** A client asks the first f+1 replicas and is granted the key by all of them. */
  lemma AskFirst(f: nat, once: bool, s0: State, xs: seq<Action>, c: Client, k: Key) returns (ys: seq<Action>)
    requires Runs(f, once, s0, xs)
    requires var s := Final(f, once, s0, xs); FreeFor(s, f, c, k) && Enabled(f, once, s, Ask(c, k)) && NoFuture(s)
    ensures Runs(f, once, s0, ys)
    ensures var s, s' := Final(f, once, s0, xs), Final(f, once, s0, ys);
            && HeldAt(s', f, c, k) && NoFuture(s') && s'.unlocks == s.unlocks && s'.executed == s.executed
            && s'.phases == s.phases[(c, k) := Asked] && AttemptOf(s', c, k) == AttemptOf(s, c, k) + 1
            && QuorumVoted(s', f, 0, c, k, AttemptOf(s', c, k), f + 1)
  {
    var s := Final(f, once, s0, xs);
    ThenOne(f, once, s0, xs, Ask(c, k));
    ys := xs + [Ask(c, k)];
    var s1 := Final(f, once, s0, ys);
    ys := DeliverRange(f, once, s0, ys, c, k, 0, f + 1);
    AllGrant(f, s, s1, Final(f, once, s0, ys), c, k);
  }

  lemma AllGrant(f: nat, s: State, s1: State, s2: State, c: Client, k: Key)
    requires FreeFor(s, f, c, k) && NoFuture(s) && s1 == Do(s, Ask(c, k))
    requires Delivered(s1, s2, c, k, AttemptOf(s1, c, k), 0, f + 1)
    ensures HeldAt(s2, f, c, k) && NoFuture(s2)
    ensures QuorumVoted(s2, f, 0, c, k, AttemptOf(s1, c, k), f + 1)
  {
    var attempt, bound := AttemptOf(s1, c, k), f + 1;
    forall r: nat | r <= f ensures Held(s2.tables[r], k, c) && Voted(s2, r, c, k, attempt, bound) {
      assert Served(s1, s2, r, c, k, attempt);
    }
  }

  /** Then it takes the lock: on the fast path if there is only one replica, otherwise on the slow one. */
  lemma Acquire(f: nat, once: bool, s0: State, xs: seq<Action>, c: Client, k: Key) returns (ys: seq<Action>)
    requires Runs(f, once, s0, xs)
    requires var s := Final(f, once, s0, xs); FreeFor(s, f, c, k) && Enabled(f, once, s, Ask(c, k)) && NoFuture(s)
    ensures Runs(f, once, s0, ys)
    ensures var s, s' := Final(f, once, s0, xs), Final(f, once, s0, ys);
            && HeldAt(s', f, c, k) && NoFuture(s') && s'.unlocks == s.unlocks && s'.executed == s.executed
            && s'.phases == s.phases[(c, k) := Holding] && AttemptOf(s', c, k) == AttemptOf(s, c, k) + 1
  {
    ys := AskFirst(f, once, s0, xs, c, k);
    var s := Final(f, once, s0, ys);
    if f == 0 {
      assert Voted(s, 0, c, k, AttemptOf(s, c, k), f + 1);
      var a := DecideFast(c, k, [0], Reply(k, 0));
      ThenOne(f, once, s0, ys, a);
      ys := ys + [a];
    } else {
      ys := DecideOnQuorum(f, once, s0, ys, c, k, 0, f + 1);
    }
  }

  /** Client 1 locks, unlocks and locks again before any replica has executed the unlock. */
  lemma LockTwice(f: nat) returns (xs: seq<Action>)
    ensures Runs(f, false, Init(f), xs)
    ensures var s := Final(f, false, Init(f), xs);
            && HeldAt(s, f, 1, "k") && NoFuture(s) && (1, "k", 1) in s.unlocks && s.executed == {}
            && s.phases == map[(1, "k") := Holding]
  {
    assert Runs(f, false, Init(f), []);
    xs := Acquire(f, false, Init(f), [], 1, "k");
    ThenOne(f, false, Init(f), xs, SendUnlock(1, "k"));
    xs := xs + [SendUnlock(1, "k")];
    xs := Acquire(f, false, Init(f), xs, 1, "k");
  }

  /** The first unlock is executed at the first n replicas. */
  lemma {:induction false} LateUnlocks(f: nat, xs: seq<Action>, n: nat) returns (ys: seq<Action>)
    requires Runs(f, false, Init(f), xs) && n <= f + 1
    requires var s := Final(f, false, Init(f), xs);
             HeldAt(s, f, 1, "k") && NoFuture(s) && (1, "k", 1) in s.unlocks && s.executed == {}
    ensures Runs(f, false, Init(f), ys)
    ensures var s, s' := Final(f, false, Init(f), xs), Final(f, false, Init(f), ys);
            && |s'.tables| == 2 * f + 1 && NoFuture(s') && s'.phases == s.phases && s'.unlocks == s.unlocks
            && (forall r: nat | r <= f :: if r < n then "k" !in s'.tables[r] else Held(s'.tables[r], "k", 1))
            && (forall e | e in s'.executed :: e.0 < n)
    decreases n
  {
    if n == 0 {
      ys := xs;
    } else {
      ys := LateUnlocks(f, xs, n - 1);
      var a := DeliverUnlock(n - 1, 1, "k", 1);
      ThenOne(f, false, Init(f), ys, a);
      ys := ys + [a];
    }
  }

  /** Asking again while the unlock is still under way lets the late unlock free the new lock, with any
      number of replicas. */
  lemma ReacquiringBreaks(f: nat)
    ensures exists actions :: Breaks(f, false, actions)
  {
    var xs := LockTwice(f);
    xs := LateUnlocks(f, xs, f + 1);
    xs := Acquire(f, false, Init(f), xs, 2, "k");
    var last := Final(f, false, Init(f), xs);
    assert PhaseOf(last, 1, "k") == Holding && PhaseOf(last, 2, "k") == Holding;
    assert Breaks(f, false, xs);
  }

  /** No run lets two clients hold a key if and only if clients ask for a key only once and there are no
      more than three replicas. */
  lemma ExclusiveIff(f: nat, once: bool)
    ensures (forall actions :: !Breaks(f, once, actions)) <==> once && f <= 1
  {
    if once && f <= 1 {
      forall actions ensures !Breaks(f, once, actions) {
        if Runs(f, once, Init(f), actions) {
          MutualExclusion(f, actions);
        }
      }
    } else if f >= 2 {
      FiveReplicasBreak(f, once);
    } else {
      ReacquiringBreaks(f);
    }
  }
}
