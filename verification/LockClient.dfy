/** The client's decision on the replies to one lock request. */
module LockClient {
  import opened LockServer

  /** How often each reply was received, built one answer at a time. */
  function Tally(answers: seq<Reply>): map<Reply, nat>
  {
    if answers == [] then map[]
    else
      var t, a := Tally(answers[..|answers| - 1]), answers[|answers| - 1];
      t[a := if a in t then t[a] + 1 else 1]
  }

  /** Number of answers that report success. */
  function Successes(answers: seq<Reply>): nat
  {
    if answers == [] then 0
    else Successes(answers[..|answers| - 1]) + if answers[|answers| - 1].status == 0 then 1 else 0
  }

  function Weight(results: map<Reply, nat>, r: Reply): nat
    requires r in results
  {
    if r.status == 0 then results[r] else 0
  }

  /** Sum of the counts of all successful replies. */
  ghost function SuccessTotal(results: map<Reply, nat>): nat
    decreases |results|
  {
    if results == map[] then 0
    else var r :| r in results; Weight(results, r) + SuccessTotal(results - {r})
  }

  /** The sum does not depend on the order in which replies are taken out. */
  lemma {:induction false} TakeOut(results: map<Reply, nat>, r: Reply)
    requires r in results
    ensures SuccessTotal(results) == Weight(results, r) + SuccessTotal(results - {r})
    decreases |results|
  {
    var x :| x in results && SuccessTotal(results) == Weight(results, x) + SuccessTotal(results - {x});
    if x != r {
      var a, b := results - {x}, results - {r};
      assert a - {r} == b - {x};
      TakeOut(a, r);
      TakeOut(b, x);
      assert Weight(a, r) == Weight(results, r) && Weight(b, x) == Weight(results, x);
    }
  }

  /** Grouping the answers loses none: the decision counts exactly the successful ones. */
  lemma {:induction false} TallyCounts(answers: seq<Reply>)
    ensures SuccessTotal(Tally(answers)) == Successes(answers)
  {
    if answers != [] {
      var before, a := answers[..|answers| - 1], answers[|answers| - 1];
      TallyCounts(before);
      var t, t' := Tally(before), Tally(answers);
      TakeOut(t', a);
      assert t' - {a} == t - {a};
      if a in t {
        TakeOut(t, a);
      } else {
        assert t - {a} == t;
      }
    }
  }

  /** If two replicas or more granted the lock, the client takes it. */
  method Decide(results: map<Reply, nat>) returns (final_: Reply)
    ensures final_.status == if SuccessTotal(results) >= 2 then 0 else -1
    ensures if results == map[] then final_.key == "" else exists r | r in results :: r.key == final_.key
  {
    var count, key, todo := 0, "", results;
    while todo != map[]
      invariant todo.Keys <= results.Keys && forall r | r in todo :: todo[r] == results[r]
      invariant count + SuccessTotal(todo) == SuccessTotal(results)
      invariant if todo == results then key == "" else exists r | r in results :: r.key == key
      decreases |todo|
    {
      var r :| r in todo;
      TakeOut(todo, r);
      key := r.key;
      if r.status == 0 {
        count := count + todo[r];
      }
      assert r in results && r !in todo - {r};
      todo := todo - {r};
    }
    final_ := Reply(key, if count >= 2 then 0 else -1);
  }
}
