/** One replica of the lock server: its lock table, the upcalls that change it, the rebuilding of
    the table from an operation record, and the settling of undecided locks in a view change. */
module LockServer {
  import SD = SetDifference

  type Key = string
  type Client = nat
  type OpId = (nat, nat)
  type Table = map<Key, Client>

  datatype Request = Request(client: Client, key: Key, isLock: bool)

  /** Status 0 is success, -1 held by someone else, -2 not held by the client. */
  datatype Reply = Reply(key: Key, status: int)

  datatype Entry = Entry(request: Request, reply: Reply)

  type Record = map<OpId, Entry>

  /** An undecided operation of a view change, with the request of its first entry. */
  datatype Op = Op(id: OpId, request: Request)

  // ----- the two upcalls, as functions of the table -----

  predicate Held(t: Table, k: Key, c: Client)
  {
    k in t && t[k] == c
  }

  function Consensus(t: Table, r: Request): (Table, int)
  {
    if r.isLock then
      if r.key !in t then (t[r.key := r.client], 0)
      else (t, if t[r.key] == r.client then 0 else -1)
    else if Held(t, r.key, r.client) then (t - {r.key}, 0) else (t, -2)
  }

  function Inconsistent(t: Table, r: Request): Table
  {
    if !r.isLock && Held(t, r.key, r.client) then t - {r.key} else t
  }

  // ----- what a record says -----

  /** Client c has a successful lock of k in the record. */
  ghost predicate LockedIn(R: Record, k: Key, c: Client)
  {
    exists id | id in R :: Grants(R[id], k, c)
  }

  /** Client c has an unlock of k in the record. */
  ghost predicate UnlockedIn(R: Record, k: Key, c: Client)
  {
    exists id | id in R :: Frees(R[id], k, c)
  }

  predicate Grants(e: Entry, k: Key, c: Client)
  {
    e.request == Request(c, k, true) && e.reply.status == 0
  }

  predicate Frees(e: Entry, k: Key, c: Client)
  {
    e.request == Request(c, k, false) && e.reply.status == 0
  }

  /** The table Sync is meant to build: c holds k exactly if it locked and did not unlock it. */
  ghost predicate IsSyncOf(t: Table, R: Record)
  {
    forall k: Key, c: Client :: Held(t, k, c) <==> LockedIn(R, k, c) && !UnlockedIn(R, k, c)
  }

  /** Sync's assertion: no key has two holders left. */
  ghost predicate AtMostOneHolder(R: Record)
  {
    forall k: Key, c: Client, c': Client ::
      LockedIn(R, k, c) && !UnlockedIn(R, k, c) && LockedIn(R, k, c') && !UnlockedIn(R, k, c') ==> c == c'
  }

  lemma SyncUnique(t: Table, t': Table, R: Record)
    requires IsSyncOf(t, R) && IsSyncOf(t', R)
    ensures t == t'
  {
    forall k: Key ensures (k in t <==> k in t') && (k in t ==> t[k] == t'[k]) {
      if k in t { assert Held(t, k, t[k]); assert Held(t', k, t[k]); }
      if k in t' { assert Held(t', k, t'[k]); assert Held(t, k, t'[k]); }
    }
  }

  lemma SyncHasOneHolder(t: Table, R: Record)
    requires IsSyncOf(t, R)
    ensures AtMostOneHolder(R)
  {
    forall k: Key, c: Client, c': Client
      | LockedIn(R, k, c) && !UnlockedIn(R, k, c) && LockedIn(R, k, c') && !UnlockedIn(R, k, c')
      ensures c == c'
    {
      assert Held(t, k, c) && Held(t, k, c');
    }
  }

  /** Adding one fresh entry to a record. */
  lemma AddEntry(R: Record, id: OpId, e: Entry, k: Key, c: Client)
    requires id !in R
    ensures LockedIn(R[id := e], k, c) <==> LockedIn(R, k, c) || Grants(e, k, c)
    ensures UnlockedIn(R[id := e], k, c) <==> UnlockedIn(R, k, c) || Frees(e, k, c)
  {
    var R' := R[id := e];
    if x :| x in R && Grants(R[x], k, c) { assert x in R' && Grants(R'[x], k, c); }
    if x :| x in R && Frees(R[x], k, c) { assert x in R' && Frees(R'[x], k, c); }
    assert id in R' && R'[id] == e;
  }

  // ----- the replica -----

  /** The per-key sets Sync fills while it reads the record. */
  datatype KeyLockInfo = KeyLockInfo(locked: set<Client>, unlocked: set<Client>)

  /** The clients with a successful lock (or unlock) of k among the given operations. */
  function ClientsOf(R: Record, seen: set<OpId>, k: Key, isLock: bool): set<Client>
    requires seen <= R.Keys
  {
    set id | id in seen && R[id].request.isLock == isLock && R[id].request.key == k && R[id].reply.status == 0
      :: R[id].request.client
  }

  ghost predicate InfoOf(info: map<Key, KeyLockInfo>, R: Record, seen: set<OpId>)
    requires seen <= R.Keys
  {
    && info.Keys == (set id | id in seen :: R[id].request.key)
    && forall k | k in info :: info[k] == KeyLockInfo(ClientsOf(R, seen, k, true), ClientsOf(R, seen, k, false))
  }

  /** The order in which the two hash sets of one key are iterated. */
  datatype Orders = Orders(locked: seq<Client>, unlocked: seq<Client>)

  ghost predicate Enumerates(s: seq<Client>, cs: set<Client>)
  {
    SD.Distinct(s) && forall c :: c in s <==> c in cs
  }

  /** Some iteration order for every hash set Sync fills from the record. */
  ghost predicate Iterates(order: map<Key, Orders>, R: Record)
  {
    && order.Keys == (set id | id in R :: R[id].request.key)
    && forall k | k in order ::
         && Enumerates(order[k].locked, ClientsOf(R, R.Keys, k, true))
         && Enumerates(order[k].unlocked, ClientsOf(R, R.Keys, k, false))
  }

  /** The clients std::set_difference leaves over for one key. */
  function Left(o: Orders): seq<Client>
  {
    SD.Walk(o.locked, o.unlocked, 0, 0)
  }

  /** On every key the two sets are iterated in orders that agree on their common clients. */
  ghost predicate OrdersAgree(order: map<Key, Orders>)
  {
    forall k | k in order :: SD.SameOrder(order[k].locked, order[k].unlocked)
  }

  predicate OneAtMost(s: seq<Client>)
  {
    forall i, j | 0 <= i < |s| && 0 <= j < |s| :: s[i] == s[j]
  }

  class LockServer {
    var locks: Table

    constructor ()
      ensures locks == map[]
    {
      locks := map[];
    }

    /** Releases the key if this client holds it; never touches another client's lock. */
    method ExecInconsistentUpcall(r: Request)
      modifies this
      ensures locks == Inconsistent(old(locks), r)
      ensures forall k, c :: Held(locks, k, c) <==> Held(old(locks), k, c) && (r.isLock || k != r.key || c != r.client)
    {
      if !r.isLock {
        if r.key in locks {
          if r.client == locks[r.key] {
            locks := locks - {r.key};
          }
        }
      }
    }

    method ExecConsensusUpcall(r: Request) returns (reply: Reply)
      modifies this
      ensures (locks, reply.status) == Consensus(old(locks), r) && reply.key == r.key
      ensures r.isLock ==> (reply.status == 0 <==> Held(locks, r.key, r.client))
      ensures !r.isLock ==> (reply.status == 0 <==> Held(old(locks), r.key, r.client))
      ensures reply.status != 0 ==> reply.status == if r.isLock then -1 else -2
      ensures forall k, c :: Held(locks, k, c) <==>
                if k == r.key && c == r.client then r.isLock && reply.status == 0 else Held(old(locks), k, c)
    {
      var status := 0;
      if r.isLock {
        if r.key !in locks {
          locks := locks[r.key := r.client];
        } else if locks[r.key] != r.client {
          status := -1;
        }
      } else {
        if r.key !in locks {
          status := -2;
        } else if locks[r.key] != r.client {
          status := -2;
        } else {
          locks := locks - {r.key};
        }
      }
      reply := Reply(r.key, status);
    }

    /** Rebuilds the table from a record: what the walk leaves over holds the key, and the assertion
        fails exactly if it leaves two clients.  The outcome is the table the record means if and only
        if it means one at all and the iteration orders agree. */
    method Sync(R: Record, order: map<Key, Orders>) returns (ok: bool)
      requires Iterates(order, R)
      modifies this
      ensures ok <==> forall k | k in order :: OneAtMost(Left(order[k]))
      ensures ok ==> SettledExcept(locks, order, {})
      ensures ok && IsSyncOf(locks, R) <==> AtMostOneHolder(R) && OrdersAgree(order)
    {
      locks := map[];
      var info := CollectInfo(R);
      var todo := info.Keys;
      while todo != {}
        invariant todo <= info.Keys
        invariant SettledExcept(locks, order, todo)
        invariant forall k | k in order && k !in todo :: OneAtMost(Left(order[k]))
      {
        var key :| key in todo;
        var diff := SD.Difference(order[key].locked, order[key].unlocked);
        if !OneAtMost(diff) {
          TwoLeft(R, order, key);
          return false;
        }
        SettleKey(locks, order, todo, key);
        if diff != [] {
          locks := locks[key := diff[0]];
        }
        todo := todo - {key};
      }
      SyncExact(R, order, locks);
      return true;
    }

    /** Settles the undecided locks: grants the majority-successful ones in d whose key is still
        free, in order, and rejects everything in u. */
    method Merge(d: seq<Op>, u: seq<Op>, majority: map<OpId, Reply>) returns (results: map<OpId, Reply>)
      requires forall i | 0 <= i < |d| :: d[i].id in majority
      modifies this
      ensures locks == MergeLocks(old(locks), d, majority)
      ensures results == RejectAll(MergeResults(old(locks), d, majority), u)
    {
      results := map[];
      ghost var t := locks;
      for i := 0 to |d|
        invariant locks == MergeLocks(t, d[..i], majority) && results == MergeResults(t, d[..i], majority)
      {
        assert d[..i + 1][..i] == d[..i];
        var reply := majority[d[i].id];
        if reply.status == 0 {
          if reply.key !in locks {
            locks := locks[reply.key := d[i].request.client];
            results := results[d[i].id := reply];
          } else {
            results := results[d[i].id := Reply(reply.key, -1)];
          }
        } else {
          results := results[d[i].id := reply];
        }
      }
      assert d[..|d|] == d;
      ghost var granted := results;
      for i := 0 to |u|
        invariant results == RejectAll(granted, u[..i])
      {
        assert u[..i + 1][..i] == u[..i];
        results := results[u[i].id := Reply(u[i].request.key, -1)];
      }
      assert u[..|u|] == u;
    }
  }

  /** What the walks leave over on the keys outside todo has been entered in the table. */
  ghost predicate SettledExcept(t: Table, order: map<Key, Orders>, todo: set<Key>)
  {
    forall k, c :: Held(t, k, c) <==> k in order && k !in todo && c in Left(order[k])
  }

  lemma SettleKey(t: Table, order: map<Key, Orders>, todo: set<Key>, key: Key)
    requires SettledExcept(t, order, todo) && key in todo && key in order && OneAtMost(Left(order[key]))
    ensures var diff := Left(order[key]);
            SettledExcept(if diff != [] then t[key := diff[0]] else t, order, todo - {key})
  {
    var diff := Left(order[key]);
    var t' := if diff != [] then t[key := diff[0]] else t;
    assert key in t ==> Held(t, key, t[key]);
    forall k, c ensures Held(t', k, c) <==> k in order && k !in todo - {key} && c in Left(order[k]) {
      if k == key {
        assert diff != [] ==> diff[0] in diff && (c in diff ==> c == diff[0]);
      } else {
        assert Held(t', k, c) <==> Held(t, k, c);
      }
    }
  }

  /** Sync's first loop. The record is read in an arbitrary order. */
  method CollectInfo(R: Record) returns (info: map<Key, KeyLockInfo>)
    ensures InfoOf(info, R, R.Keys)
  {
    info := map[];
    var todo := R.Keys;
    while todo != {}
      invariant todo <= R.Keys && InfoOf(info, R, R.Keys - todo)
    {
      var id :| id in todo;
      var request, status := R[id].request, R[id].reply.status;
      var entry := if request.key in info then info[request.key] else KeyLockInfo({}, {});
      if request.isLock && status == 0 {
        entry := entry.(locked := entry.locked + {request.client});
      } else if !request.isLock && status == 0 {
        entry := entry.(unlocked := entry.unlocked + {request.client});
      }
      InfoStep(info, R, R.Keys - todo, id, entry);
      info := info[request.key := entry];
      assert R.Keys - todo + {id} == R.Keys - (todo - {id});
      todo := todo - {id};
    }
    assert R.Keys - todo == R.Keys;
  }

  lemma ClientsStep(R: Record, seen: set<OpId>, id: OpId, k: Key, isLock: bool)
    requires seen <= R.Keys && id in R
    ensures var e := R[id];
            ClientsOf(R, seen + {id}, k, isLock) == ClientsOf(R, seen, k, isLock) +
              if e.request.isLock == isLock && e.request.key == k && e.reply.status == 0 then {e.request.client} else {}
  {
  }

  lemma InfoStep(info: map<Key, KeyLockInfo>, R: Record, seen: set<OpId>, id: OpId, entry: KeyLockInfo)
    requires seen <= R.Keys && id in R && InfoOf(info, R, seen)
    requires var k := R[id].request.key;
             var before := if k in info then info[k] else KeyLockInfo({}, {});
             var who := if R[id].reply.status == 0 then {R[id].request.client} else {};
             entry == if R[id].request.isLock then before.(locked := before.locked + who)
                      else before.(unlocked := before.unlocked + who)
    ensures InfoOf(info[R[id].request.key := entry], R, seen + {id})
  {
    var k := R[id].request.key;
    var info' := info[k := entry];
    if k !in info {
      assert ClientsOf(R, seen, k, true) == {} && ClientsOf(R, seen, k, false) == {};
    }
    forall x | x in info'
      ensures info'[x] == KeyLockInfo(ClientsOf(R, seen + {id}, x, true), ClientsOf(R, seen + {id}, x, false))
    {
      ClientsStep(R, seen, id, x, true);
      ClientsStep(R, seen, id, x, false);
    }
  }

  lemma OrderMeaning(R: Record, order: map<Key, Orders>, k: Key, c: Client)
    requires Iterates(order, R)
    ensures k in order && c in order[k].locked <==> LockedIn(R, k, c)
    ensures k in order && c in order[k].unlocked <==> UnlockedIn(R, k, c)
  {
    if id :| id in R && Grants(R[id], k, c) { assert R[id].request.key in order; }
    if id :| id in R && Frees(R[id], k, c) { assert R[id].request.key in order; }
    if k in order && c in order[k].locked {
      var id :| id in R && R[id].request.isLock && R[id].request.key == k && R[id].reply.status == 0
          && R[id].request.client == c;
      assert Grants(R[id], k, c);
    }
    if k in order && c in order[k].unlocked {
      var id :| id in R && !R[id].request.isLock && R[id].request.key == k && R[id].reply.status == 0
          && R[id].request.client == c;
      assert Frees(R[id], k, c);
    }
  }

  /** With agreeing orders the walk of a key leaves over exactly its holders. */
  lemma LeftAreHolders(R: Record, order: map<Key, Orders>, k: Key, c: Client)
    requires Iterates(order, R) && k in order && SD.SameOrder(order[k].locked, order[k].unlocked)
    ensures c in Left(order[k]) <==> LockedIn(R, k, c) && !UnlockedIn(R, k, c)
  {
    OrderMeaning(R, order, k, c);
    SD.DifferenceIff(order[k].locked, order[k].unlocked);
  }

  /** If the assertion fails, the record has two holders or the orders do not agree. */
  lemma TwoLeft(R: Record, order: map<Key, Orders>, k: Key)
    requires Iterates(order, R) && k in order && !OneAtMost(Left(order[k]))
    ensures !(AtMostOneHolder(R) && OrdersAgree(order))
  {
    if OrdersAgree(order) {
      var s := Left(order[k]);
      var i, j :| 0 <= i < |s| && 0 <= j < |s| && s[i] != s[j];
      LeftAreHolders(R, order, k, s[i]);
      LeftAreHolders(R, order, k, s[j]);
    }
  }

  /** The table of the left-over clients is the one the record means exactly if the orders agree. */
  lemma SyncExact(R: Record, order: map<Key, Orders>, t: Table)
    requires Iterates(order, R) && SettledExcept(t, order, {})
    ensures IsSyncOf(t, R) <==> OrdersAgree(order)
    ensures IsSyncOf(t, R) ==> AtMostOneHolder(R)
  {
    if OrdersAgree(order) {
      forall k: Key, c: Client ensures Held(t, k, c) <==> LockedIn(R, k, c) && !UnlockedIn(R, k, c) {
        if k in order {
          LeftAreHolders(R, order, k, c);
        } else {
          OrderMeaning(R, order, k, c);
        }
      }
    }
    if IsSyncOf(t, R) {
      SyncHasOneHolder(t, R);
      forall k | k in order ensures SD.SameOrder(order[k].locked, order[k].unlocked) {
        ExactMeansAgree(R, order, t, k);
      }
    }
  }

  lemma ExactMeansAgree(R: Record, order: map<Key, Orders>, t: Table, k: Key)
    requires Iterates(order, R) && SettledExcept(t, order, {}) && IsSyncOf(t, R) && k in order
    ensures SD.SameOrder(order[k].locked, order[k].unlocked)
  {
    var a, b := order[k].locked, order[k].unlocked;
    forall x ensures x in SD.Walk(a, b, 0, 0) <==> x in a && x !in b {
      OrderMeaning(R, order, k, x);
      assert Held(t, k, x) <==> x in Left(order[k]);
    }
    SD.DifferenceIff(a, b);
  }

  // ----- Merge as a function of the table -----

  function MergeLocks(t: Table, d: seq<Op>, majority: map<OpId, Reply>): Table
    requires forall i | 0 <= i < |d| :: d[i].id in majority
  {
    if d == [] then t
    else
      var n := |d| - 1;
      var t' := MergeLocks(t, d[..n], majority);
      var reply := majority[d[n].id];
      if reply.status == 0 && reply.key !in t' then t'[reply.key := d[n].request.client] else t'
  }

  function MergeResults(t: Table, d: seq<Op>, majority: map<OpId, Reply>): map<OpId, Reply>
    requires forall i | 0 <= i < |d| :: d[i].id in majority
  {
    if d == [] then map[]
    else
      var n := |d| - 1;
      var t' := MergeLocks(t, d[..n], majority);
      var reply := majority[d[n].id];
      MergeResults(t, d[..n], majority)[d[n].id :=
        if reply.status == 0 && reply.key in t' then Reply(reply.key, -1) else reply]
  }

  function RejectAll(results: map<OpId, Reply>, u: seq<Op>): map<OpId, Reply>
  {
    if u == [] then results
    else RejectAll(results, u[..|u| - 1])[u[|u| - 1].id := Reply(u[|u| - 1].request.key, -1)]
  }
}
