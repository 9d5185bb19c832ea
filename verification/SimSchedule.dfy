/** What the simulated loop guarantees over whole runs, for callbacks that send, set and cancel at will. */
module SimSchedule {
  import opened Bytes
  import opened SimTransport

  // ----- messages: first in, first out, each once -----

  /** The messages a callback puts straight into the queue. */
  function Sends(acts: seq<Action>): seq<Msg>
  {
    if acts == [] then []
    else (if acts[0].Send? && acts[0].delay == 0 then [acts[0].q] else []) + Sends(acts[1..])
  }

  /** The messages an event puts into the queue. */
  function Pushed(e: Event): seq<Msg>
  {
    if e.Fired? && e.t.cb.Enqueue? then [e.t.cb.q] else Sends(e.acts)
  }

  function Deliveries(log: seq<Event>): seq<Msg>
  {
    if log == [] then [] else (if log[0].Delivered? then [log[0].q] else []) + Deliveries(log[1..])
  }

  function PushedAll(log: seq<Event>): seq<Msg>
  {
    if log == [] then [] else Pushed(log[0]) + PushedAll(log[1..])
  }

  lemma {:induction false} ApplyAllQueue(s: State, acts: seq<Action>)
    ensures ApplyAll(s, acts).queue == s.queue + Sends(acts)
    decreases |acts|
  {
    if acts != [] {
      ApplyAllQueue(Apply(s, acts[0]), acts[1..]);
    }
  }

  lemma StepQueue(s: State, acts: seq<Action>)
    requires Step(s, acts).Did?
    ensures var Did(s', e) := Step(s, acts);
            (if e.Delivered? then [e.q] else []) + s'.queue == s.queue + Pushed(e)
    ensures Step(s, acts).e.Fired? ==> s.queue == []
  {
    ApplyAllQueue(s, acts);
    if s.queue == [] {
      var t := s.timers[0];
      ApplyAllQueue(s.(vtime := t.due, timers := s.timers[1..]), acts);
    }
  }

  lemma FirstEvent(e: Event, log: seq<Event>)
    ensures Deliveries([e] + log) == (if e.Delivered? then [e.q] else []) + Deliveries(log)
    ensures PushedAll([e] + log) == Pushed(e) + PushedAll(log)
  {
    assert ([e] + log)[1..] == log;
  }

  /** Rest out plus rest queued equals rest in, and the first step moves d out and p in. */
  lemma Regroup(d: seq<Msg>, out: seq<Msg>, left: seq<Msg>, mid: seq<Msg>, in_: seq<Msg>, first: seq<Msg>, p: seq<Msg>)
    requires out + left == mid + in_ && d + mid == first + p
    ensures d + out + left == first + (p + in_)
  {
    assert d + out + left == d + (out + left);
    assert d + (mid + in_) == d + mid + in_;
    assert first + p + in_ == first + (p + in_);
  }

  /** What was delivered and what is still queued is exactly what was queued, in that order. */
  lemma {:induction false} MessagesConserved(s: State, script: seq<seq<Action>>)
    ensures var r := RunFrom(s, script);
            Deliveries(r.log) + r.s.queue == s.queue + PushedAll(r.log)
    decreases |script|
  {
    if script != [] && Step(s, script[0]).Did? {
      var Did(s', e) := Step(s, script[0]);
      var r := RunFrom(s', script[1..]);
      StepQueue(s, script[0]);
      MessagesConserved(s', script[1..]);
      FirstEvent(e, r.log);
      Regroup(if e.Delivered? then [e.q] else [], Deliveries(r.log), r.s.queue, s'.queue, PushedAll(r.log),
          s.queue, Pushed(e));
    }
  }

  /** Whenever a timer fires, every message queued before has been delivered. */
  lemma {:induction false} NoTimerWhileQueued(s: State, script: seq<seq<Action>>, i: nat)
    requires i < |RunFrom(s, script).log| && RunFrom(s, script).log[i].Fired?
    ensures var log := RunFrom(s, script).log;
            Deliveries(log[..i]) == s.queue + PushedAll(log[..i])
    decreases |script|
  {
    var Did(s', e) := Step(s, script[0]);
    var rest := RunFrom(s', script[1..]).log;
    StepQueue(s, script[0]);
    if i > 0 {
      NoTimerWhileQueued(s', script[1..], i - 1);
      var before := rest[..i - 1];
      assert ([e] + rest)[..i] == [e] + before;
      FirstEvent(e, before);
      Regroup(if e.Delivered? then [e.q] else [], Deliveries(before), [], s'.queue, PushedAll(before), s.queue,
          Pushed(e));
    }
  }

  // ----- timers: by due time, ties in the order they were set -----

  predicate Before(x: Timer, y: Timer)
  {
    x.due < y.due || (x.due == y.due && x.id < y.id)
  }

  ghost predicate Sorted(timers: seq<Timer>)
  {
    forall i, j | 0 <= i < j < |timers| :: Before(timers[i], timers[j])
  }

  /** The table is sorted, ids are below the counter, and nothing pending lies in the past. */
  ghost predicate Inv(s: State)
  {
    && s.vtime < TWO_64
    && Sorted(s.timers)
    && forall i | 0 <= i < |s.timers| :: s.timers[i].id <= s.lastTimerId && s.vtime <= s.timers[i].due < TWO_64
  }

  lemma {:induction false} UpperBoundSpec(timers: seq<Timer>, due: nat)
    requires Sorted(timers)
    ensures forall i | 0 <= i < |timers| :: i < UpperBound(timers, due) <==> timers[i].due <= due
  {
    if timers != [] && timers[0].due <= due {
      UpperBoundSpec(timers[1..], due);
      forall i | 0 <= i < |timers| ensures i < UpperBound(timers, due) <==> timers[i].due <= due {
        if i > 0 {
          assert timers[i] == timers[1..][i - 1];
        }
      }
    }
  }

  lemma InsertSorted(timers: seq<Timer>, t: Timer)
    requires Sorted(timers) && forall i | 0 <= i < |timers| :: timers[i].id < t.id
    ensures Sorted(Insert(timers, t))
    ensures forall i | 0 <= i < |Insert(timers, t)| :: Insert(timers, t)[i] == t || Insert(timers, t)[i] in timers
    ensures t in Insert(timers, t)
  {
    UpperBoundSpec(timers, t.due);
    var n := UpperBound(timers, t.due);
    assert Insert(timers, t)[n] == t;
  }

  lemma {:induction false} WithoutSpec(timers: seq<Timer>, id: nat)
    requires Sorted(timers)
    ensures Sorted(Without(timers, id))
    ensures forall i | 0 <= i < |Without(timers, id)| ::
              Without(timers, id)[i] in timers && Without(timers, id)[i].id != id
  {
    if timers != [] {
      WithoutSpec(timers[1..], id);
    }
  }

  /** The action sets no timer beyond the 64-bit range. */
  predicate InRange(now: nat, a: Action)
  {
    && (a.SetTimer? ==> now + a.ms < TWO_64)
    && (a.Send? ==> now + a.delay < TWO_64)
  }

  /** Everything pending comes after the timer that fired last. */
  ghost predicate After(s: State, last: Timer)
  {
    && last.due <= s.vtime && last.id <= s.lastTimerId
    && forall i | 0 <= i < |s.timers| :: Before(last, s.timers[i])
  }

  lemma AddTimerKeeps(s: State, ms: nat, cb: Callback, last: Timer)
    requires Inv(s) && s.vtime + ms < TWO_64
    ensures Inv(AddTimer(s, ms, cb)) && AddTimer(s, ms, cb).vtime == s.vtime
    ensures After(s, last) ==> After(AddTimer(s, ms, cb), last)
  {
    assert (s.vtime + ms) % TWO_64 == s.vtime + ms;
    InsertKeeps(s, Timer(s.vtime + ms, s.lastTimerId + 1, cb), last);
  }

  lemma InsertKeeps(s: State, t: Timer, last: Timer)
    requires Inv(s) && t.id == s.lastTimerId + 1 && s.vtime <= t.due < TWO_64
    ensures var s' := s.(lastTimerId := t.id, timers := Insert(s.timers, t));
            Inv(s') && (After(s, last) ==> After(s', last))
  {
    InsertSorted(s.timers, t);
    var timers := Insert(s.timers, t);
    forall i | 0 <= i < |timers|
      ensures timers[i].id <= t.id && s.vtime <= timers[i].due < TWO_64
      ensures After(s, last) ==> Before(last, timers[i])
    {
      if timers[i] != t {
        var k :| 0 <= k < |s.timers| && s.timers[k] == timers[i];
      }
    }
  }

  lemma ApplyKeeps(s: State, a: Action, last: Timer)
    requires Inv(s) && InRange(s.vtime, a)
    ensures Inv(Apply(s, a)) && Apply(s, a).vtime == s.vtime
    ensures After(s, last) ==> After(Apply(s, a), last)
  {
    match a
    case Send(q, delay) => if delay > 0 { AddTimerKeeps(s, delay, Enqueue(q), last); }
    case Drop(q) =>
    case SetTimer(ms, tag) => AddTimerKeeps(s, ms, App(tag), last);
    case Cancel(id) => WithoutSpec(s.timers, id);
    case CancelAll =>
  }

  lemma {:induction false} ApplyAllKeeps(s: State, acts: seq<Action>, last: Timer)
    requires Inv(s) && forall i | 0 <= i < |acts| :: InRange(s.vtime, acts[i])
    ensures Inv(ApplyAll(s, acts)) && ApplyAll(s, acts).vtime == s.vtime
    ensures After(s, last) ==> After(ApplyAll(s, acts), last)
    decreases |acts|
  {
    if acts != [] {
      ApplyKeeps(s, acts[0], last);
      ApplyAllKeeps(Apply(s, acts[0]), acts[1..], last);
    }
  }

  predicate EventInRange(e: Event)
  {
    forall i | 0 <= i < |e.acts| :: InRange(e.now, e.acts[i])
  }

  /** One callback: the assertion holds, time does not go back, and a timer that fires comes after the
      one before it and before everything still pending. */
  lemma StepKeeps(s: State, acts: seq<Action>, last: Timer)
    requires Inv(s) && (Step(s, acts).Did? ==> EventInRange(Step(s, acts).e))
    ensures !Step(s, acts).Failed?
    ensures Step(s, acts).Did? ==>
              var Did(s', e) := Step(s, acts);
              && Inv(s') && s.vtime <= s'.vtime == e.now
              && (After(s, last) ==> After(s', last))
              && (e.Fired? ==> e.t.due == e.now && After(s', e.t))
              && (e.Fired? && After(s, last) ==> Before(last, e.t))
  {
    if s.queue != [] {
      ApplyAllKeeps(s, acts, last);
    } else if s.processTimers && s.timers != [] {
      var t := s.timers[0];
      var s1 := s.(vtime := t.due, timers := s.timers[1..]);
      assert Inv(s1) && After(s1, t);
      if t.cb.App? {
        ApplyAllKeeps(s1, acts, t);
        ApplyAllKeeps(s1, acts, last);
      }
    }
  }

  lemma {:induction false} FiredAfter(s: State, script: seq<seq<Action>>, last: Timer)
    requires Inv(s) && After(s, last)
    requires forall i | 0 <= i < |RunFrom(s, script).log| :: EventInRange(RunFrom(s, script).log[i])
    ensures forall i | 0 <= i < |RunFrom(s, script).log| :: RunFrom(s, script).log[i].Fired? ==>
              Before(last, RunFrom(s, script).log[i].t)
    decreases |script|
  {
    if script != [] && Step(s, script[0]).Did? {
      var Did(s', e) := Step(s, script[0]);
      var log, rest := RunFrom(s, script).log, RunFrom(s', script[1..]).log;
      assert log == [e] + rest;
      assert log[0] == e && forall i | 0 <= i < |rest| :: rest[i] == log[i + 1];
      StepKeeps(s, script[0], last);
      FiredAfter(s', script[1..], last);
    }
  }

  /** Times that never decrease, between lo and hi. */
  ghost predicate Forward(log: seq<Event>, lo: nat, hi: nat)
  {
    && lo <= hi
    && (forall i | 0 <= i < |log| :: lo <= log[i].now <= hi)
    && (forall i, j | 0 <= i < j < |log| :: log[i].now <= log[j].now)
  }

  lemma ForwardFrom(e: Event, rest: seq<Event>, lo: nat, hi: nat)
    requires lo <= e.now && Forward(rest, e.now, hi)
    ensures Forward([e] + rest, lo, hi)
  {
    var log := [e] + rest;
    assert forall i | 0 < i < |log| :: log[i] == rest[i - 1];
  }

  /** Virtual time never decreases and the loop's assertion never fails, in every run whose timers stay
      within the 64-bit range. */
  lemma {:induction false} TimeMovesForward(s: State, script: seq<seq<Action>>)
    requires Inv(s)
    requires forall i | 0 <= i < |RunFrom(s, script).log| :: EventInRange(RunFrom(s, script).log[i])
    ensures var r := RunFrom(s, script);
            r.ok && Inv(r.s) && Forward(r.log, s.vtime, r.s.vtime)
    decreases |script|
  {
    if script != [] {
      var none := Timer(0, 0, App(0));
      StepKeepsIfDid(s, script, none);
      if Step(s, script[0]).Did? {
        var Did(s', e) := Step(s, script[0]);
        var log, rest := RunFrom(s, script).log, RunFrom(s', script[1..]);
        assert log == [e] + rest.log;
        assert forall i | 0 <= i < |rest.log| :: rest.log[i] == log[i + 1];
        TimeMovesForward(s', script[1..]);
        ForwardFrom(e, rest.log, s.vtime, rest.s.vtime);
      }
    }
  }

  lemma StepKeepsIfDid(s: State, script: seq<seq<Action>>, last: Timer)
    requires Inv(s) && script != []
    requires forall i | 0 <= i < |RunFrom(s, script).log| :: EventInRange(RunFrom(s, script).log[i])
    ensures !Step(s, script[0]).Failed?
    ensures Step(s, script[0]).Did? ==>
              && Inv(Step(s, script[0]).s)
              && s.vtime <= Step(s, script[0]).s.vtime == Step(s, script[0]).e.now
              && (Step(s, script[0]).e.Fired? ==> After(Step(s, script[0]).s, Step(s, script[0]).e.t))
  {
    if Step(s, script[0]).Did? {
      assert RunFrom(s, script).log[0] == Step(s, script[0]).e;
    }
    StepKeeps(s, script[0], last);
  }

  /** In the order of due times, those due together in the order they were set. */
  ghost predicate FiringOrder(log: seq<Event>)
  {
    forall i, j | 0 <= i < j < |log| && log[i].Fired? && log[j].Fired? :: Before(log[i].t, log[j].t)
  }

  lemma FirstInOrder(e: Event, rest: seq<Event>)
    requires FiringOrder(rest)
    requires e.Fired? ==> forall i | 0 <= i < |rest| && rest[i].Fired? :: Before(e.t, rest[i].t)
    ensures FiringOrder([e] + rest)
  {
    var log := [e] + rest;
    assert forall i | 0 < i < |log| :: log[i] == rest[i - 1];
  }

  /** Timers fire in order of due time, those due together in the order they were set, each once. */
  lemma {:induction false} TimersFireInOrder(s: State, script: seq<seq<Action>>)
    requires Inv(s)
    requires forall i | 0 <= i < |RunFrom(s, script).log| :: EventInRange(RunFrom(s, script).log[i])
    ensures FiringOrder(RunFrom(s, script).log)
    decreases |script|
  {
    if script != [] && Step(s, script[0]).Did? {
      var Did(s', e) := Step(s, script[0]);
      var rest := RunFrom(s', script[1..]).log;
      StepKeepsIfDid(s, script, Timer(0, 0, App(0)));
      assert RunFrom(s, script).log == [e] + rest;
      assert forall i | 0 <= i < |rest| :: rest[i] == ([e] + rest)[i + 1];
      TimersFireInOrder(s', script[1..]);
      if e.Fired? {
        FiredAfter(s', script[1..], e.t);
      }
      FirstInOrder(e, rest);
    }
  }

  // ----- cancelled timers -----

  /** The id was handed out and is no longer pending. */
  ghost predicate Gone(s: State, id: nat)
  {
    id <= s.lastTimerId && forall i | 0 <= i < |s.timers| :: s.timers[i].id != id
  }

  lemma {:induction false} WithoutKeeps(timers: seq<Timer>, x: nat, id: nat)
    requires forall i | 0 <= i < |timers| :: timers[i].id != id
    ensures forall i | 0 <= i < |Without(timers, x)| :: Without(timers, x)[i].id != id
  {
    if timers != [] {
      WithoutKeeps(timers[1..], x, id);
    }
  }

  lemma {:induction false} WithoutRemoves(timers: seq<Timer>, id: nat)
    ensures forall i | 0 <= i < |Without(timers, id)| :: Without(timers, id)[i].id != id
  {
    if timers != [] {
      WithoutRemoves(timers[1..], id);
    }
  }

  lemma ApplyKeepsGone(s: State, a: Action, id: nat)
    requires Gone(s, id)
    ensures Gone(Apply(s, a), id)
  {
    if a.Cancel? {
      WithoutKeeps(s.timers, a.id, id);
    }
  }

  lemma {:induction false} ApplyAllKeepsGone(s: State, acts: seq<Action>, id: nat)
    requires Gone(s, id)
    ensures Gone(ApplyAll(s, acts), id)
    decreases |acts|
  {
    if acts != [] {
      ApplyKeepsGone(s, acts[0], id);
      ApplyAllKeepsGone(Apply(s, acts[0]), acts[1..], id);
    }
  }

  /** A timer that is cancelled or has fired never fires again, whatever happens later. */
  lemma {:induction false} GoneForever(s: State, script: seq<seq<Action>>, id: nat)
    requires Gone(s, id)
    ensures forall i | 0 <= i < |RunFrom(s, script).log| :: RunFrom(s, script).log[i].Fired? ==>
              RunFrom(s, script).log[i].t.id != id
    decreases |script|
  {
    if script != [] && Step(s, script[0]).Did? {
      var Did(s', e) := Step(s, script[0]);
      if s.queue != [] {
        ApplyAllKeepsGone(s, script[0], id);
      } else {
        ApplyAllKeepsGone(s.(vtime := s.timers[0].due, timers := s.timers[1..]), script[0], id);
      }
      GoneForever(s', script[1..], id);
      var log, rest := RunFrom(s, script).log, RunFrom(s', script[1..]).log;
      assert log == [e] + rest;
      assert forall i | 0 < i < |log| :: log[i] == rest[i - 1];
    }
  }

  lemma CancelledNeverFires(s: State, id: nat, script: seq<seq<Action>>)
    requires id <= s.lastTimerId
    ensures var log := RunFrom(Apply(s, Cancel(id)), script).log;
            forall i | 0 <= i < |log| :: log[i].Fired? ==> log[i].t.id != id
  {
    WithoutRemoves(s.timers, id);
    GoneForever(Apply(s, Cancel(id)), script, id);
  }

  // ----- the 64-bit range is exactly what the assertion needs -----

  /** Times are unsigned 64-bit values. */
  predicate Typed(a: Action)
  {
    (a.SetTimer? ==> a.ms < TWO_64) && (a.Send? ==> a.delay < TWO_64)
  }

  predicate Cancels(a: Action)
  {
    a.Cancel? || a.CancelAll?
  }

  /** The timer the loop would look at lies in the past. */
  predicate Overdue(s: State)
  {
    s.processTimers && s.timers != [] && s.timers[0].due < s.vtime
  }

  lemma InsertOverdue(s: State, t: Timer)
    requires Overdue(s)
    ensures Overdue(s.(lastTimerId := t.id, timers := Insert(s.timers, t)))
  {
    assert UpperBound(s.timers, t.due) > 0 ==> Insert(s.timers, t)[0] == s.timers[0];
  }

  lemma ApplyOverdue(s: State, a: Action)
    requires Overdue(s) && !Cancels(a)
    ensures Overdue(Apply(s, a)) && Apply(s, a).vtime == s.vtime
  {
    if a.SetTimer? {
      InsertOverdue(s, Timer((s.vtime + a.ms) % TWO_64, s.lastTimerId + 1, App(a.tag)));
    } else if a.Send? && a.delay > 0 {
      InsertOverdue(s, Timer((s.vtime + a.delay) % TWO_64, s.lastTimerId + 1, Enqueue(a.q)));
    }
  }

  lemma {:induction false} ApplyAllOverdue(s: State, acts: seq<Action>)
    requires Overdue(s) && forall i | 0 <= i < |acts| :: !Cancels(acts[i])
    ensures Overdue(ApplyAll(s, acts)) && ApplyAll(s, acts).vtime == s.vtime
    decreases |acts|
  {
    if acts != [] {
      ApplyOverdue(s, acts[0]);
      ApplyAllOverdue(Apply(s, acts[0]), acts[1..]);
    }
  }

  /** A timer whose due time wraps around lands in the past, before everything pending. */
  lemma WrapOverdue(s: State, ms: nat, cb: Callback)
    requires Inv(s) && s.processTimers && ms < TWO_64 <= s.vtime + ms
    ensures Overdue(AddTimer(s, ms, cb))
  {
    var due := s.vtime + ms - TWO_64;
    assert (s.vtime + ms) % TWO_64 == due;
    assert UpperBound(s.timers, due) == 0;
    assert AddTimer(s, ms, cb).timers[0].due == due;
  }

  /** Set on an idle loop, a timer makes the next turn fail its assertion if and only if its due time
      wraps around. */
  lemma FailsIffWrapped(s: State, ms: nat, cb: Callback, acts: seq<Action>)
    requires Inv(s) && s.queue == [] && s.processTimers && ms < TWO_64
    ensures Step(AddTimer(s, ms, cb), acts) == Failed <==> s.vtime + ms >= TWO_64
  {
    if s.vtime + ms < TWO_64 {
      AddTimerKeeps(s, ms, cb, Timer(0, 0, cb));
    } else {
      WrapOverdue(s, ms, cb);
    }
  }

  /** A callback that sets a timer out of range, and cancels none, leaves one overdue. */
  lemma {:induction false} CallbackOverdue(s: State, acts: seq<Action>, k: nat)
    requires Inv(s) && s.processTimers && k < |acts| && !InRange(s.vtime, acts[k])
    requires forall i | 0 <= i < |acts| :: Typed(acts[i]) && !Cancels(acts[i])
    ensures Overdue(ApplyAll(s, acts)) && ApplyAll(s, acts).vtime == s.vtime
    decreases |acts|
  {
    if InRange(s.vtime, acts[0]) {
      ApplyKeeps(s, acts[0], Timer(0, 0, App(0)));
      CallbackOverdue(Apply(s, acts[0]), acts[1..], k - 1);
    } else {
      match acts[0] {
        case Send(q, delay) => WrapOverdue(s, delay, Enqueue(q));
        case SetTimer(ms, tag) => WrapOverdue(s, ms, App(tag));
        case _ =>
      }
      ApplyAllOverdue(Apply(s, acts[0]), acts[1..]);
    }
  }

  /** From then on the loop delivers what is queued, and fails as soon as it looks at the timers. */
  lemma {:induction false} OverdueFails(s: State, script: seq<seq<Action>>)
    requires Overdue(s) && forall i | 0 <= i < |RunFrom(s, script).log| :: NoCancel(RunFrom(s, script).log[i])
    ensures !RunFrom(s, script).ok || Overdue(RunFrom(s, script).s)
    decreases |script|
  {
    if script != [] && Step(s, script[0]).Did? {
      var Did(s', e) := Step(s, script[0]);
      var log, rest := RunFrom(s, script).log, RunFrom(s', script[1..]).log;
      assert log == [e] + rest && log[0] == e;
      assert forall i | 0 <= i < |rest| :: rest[i] == log[i + 1];
      ApplyAllOverdue(s, script[0]);
      OverdueFails(s', script[1..]);
    }
  }

  predicate NoCancel(e: Event)
  {
    forall i | 0 <= i < |e.acts| :: !Cancels(e.acts[i])
  }

  /** The callbacks pass 64-bit times, none cancels all timers, and none cancels a timer once one has
      been set out of range. */
  ghost predicate CancelsInTime(log: seq<Event>)
  {
    && (forall i | 0 <= i < |log| :: Ordinary(log[i]))
    && (forall i, j | 0 <= i <= j < |log| :: !EventInRange(log[i]) ==> NoCancel(log[j]))
  }

  predicate Ordinary(e: Event)
  {
    forall i | 0 <= i < |e.acts| :: Typed(e.acts[i]) && !e.acts[i].CancelAll?
  }

  lemma {:induction false} StaysOn(s: State, acts: seq<Action>)
    requires s.processTimers && forall i | 0 <= i < |acts| :: !acts[i].CancelAll?
    ensures ApplyAll(s, acts).processTimers
    decreases |acts|
  {
    if acts != [] {
      StaysOn(Apply(s, acts[0]), acts[1..]);
    }
  }

  /** One callback, in range or not. */
  lemma StepOverdue(s: State, acts: seq<Action>)
    requires Inv(s) && s.processTimers && Step(s, acts).Did?
    requires Ordinary(Step(s, acts).e) && (!EventInRange(Step(s, acts).e) ==> NoCancel(Step(s, acts).e))
    ensures var Did(s', e) := Step(s, acts);
            if EventInRange(e) then Inv(s') && s'.processTimers else Overdue(s')
  {
    var Did(s', e) := Step(s, acts);
    if EventInRange(e) {
      StepKeeps(s, acts, Timer(0, 0, App(0)));
      StepStaysOn(s, acts);
    } else {
      var k :| 0 <= k < |e.acts| && !InRange(e.now, e.acts[k]);
      if s.queue != [] {
        CallbackOverdue(s, acts, k);
      } else {
        var s1 := s.(vtime := s.timers[0].due, timers := s.timers[1..]);
        assert Inv(s1);
        CallbackOverdue(s1, acts, k);
      }
    }
  }

  lemma StepStaysOn(s: State, acts: seq<Action>)
    requires s.processTimers && Step(s, acts).Did? && Ordinary(Step(s, acts).e)
    ensures Step(s, acts).s.processTimers
  {
    if s.queue != [] {
      StaysOn(s, acts);
    } else if s.timers[0].cb.App? {
      StaysOn(s.(vtime := s.timers[0].due, timers := s.timers[1..]), acts);
    }
  }

  lemma {:induction false} OutOfRangeFails(s: State, script: seq<seq<Action>>, k: nat)
    requires Inv(s) && s.processTimers && CancelsInTime(RunFrom(s, script).log)
    requires k < |RunFrom(s, script).log| && !EventInRange(RunFrom(s, script).log[k])
    ensures !RunFrom(s, script).ok || Overdue(RunFrom(s, script).s)
    decreases |script|
  {
    var Did(s', e) := Step(s, script[0]);
    var log, rest := RunFrom(s, script).log, RunFrom(s', script[1..]).log;
    assert log == [e] + rest && log[0] == e;
    assert forall i | 0 <= i < |rest| :: rest[i] == log[i + 1];
    StepOverdue(s, script[0]);
    if EventInRange(e) {
      OutOfRangeFails(s', script[1..], k - 1);
    } else {
      OverdueFails(s', script[1..]);
    }
  }

  /** A run carried on until the loop has nothing left to do, or stops on its assertion, passes the
      assertion throughout if and only if no timer was ever set out of the 64-bit range. */
  lemma RunPassesIff(s: State, script: seq<seq<Action>>)
    requires Inv(s) && s.processTimers && CancelsInTime(RunFrom(s, script).log)
    requires var r := RunFrom(s, script); r.ok ==> r.s.queue == [] && r.s.timers == []
    ensures var r := RunFrom(s, script);
            r.ok <==> forall i | 0 <= i < |r.log| :: EventInRange(r.log[i])
  {
    var r := RunFrom(s, script);
    if forall i | 0 <= i < |r.log| :: EventInRange(r.log[i]) {
      TimeMovesForward(s, script);
    } else {
      var k :| 0 <= k < |r.log| && !EventInRange(r.log[k]);
      OutOfRangeFails(s, script, k);
    }
  }

  /** Cancelling in the same callback takes a wrapped timer back before the loop looks at it. */
  lemma CancelledWrapPasses()
    ensures var s := State([], [], 0, 5, true);
            Step(ApplyAll(s, [SetTimer(TWO_64 - 1, 0), Cancel(1)]), []) == Quiet
  {
    var s := State([], [], 0, 5, true);
    var set_ := Apply(s, SetTimer(TWO_64 - 1, 0));
    assert set_.timers == [Timer(4, 1, App(0))];
    assert Without(set_.timers[1..], 1) == [];
    var acts := [SetTimer(TWO_64 - 1, 0), Cancel(1)];
    assert acts[1..] == [Cancel(1)] && acts[1..][1..] == [];
    assert ApplyAll(set_, [Cancel(1)]) == Apply(set_, Cancel(1));
  }

  // ----- the same with cancellations -----

  /** The ids of the pending timers that were set out of range, after one more action. */
  function Mark(s: State, a: Action, w: set<nat>): set<nat>
  {
    match a
    case Send(q, delay) => if InRange(s.vtime, a) then w else w + {s.lastTimerId + 1}
    case Drop(q) => w
    case SetTimer(ms, tag) => if InRange(s.vtime, a) then w else w + {s.lastTimerId + 1}
    case Cancel(id) => w - {id}
    case CancelAll => {}
  }

  function MarkAll(s: State, acts: seq<Action>, w: set<nat>): set<nat>
    decreases |acts|
  {
    if acts == [] then w else MarkAll(Apply(s, acts[0]), acts[1..], Mark(s, acts[0], w))
  }

  /** After one more callback of the loop. */
  function MarkStep(s: State, acts: seq<Action>, w: set<nat>): set<nat>
  {
    if s.queue != [] then MarkAll(s, acts, w)
    else if s.timers != [] && s.timers[0].cb.App? then
      MarkAll(s.(vtime := s.timers[0].due, timers := s.timers[1..]), acts, w)
    else w
  }

  /** Exactly the marked timers lie in the past. */
  ghost predicate Marked(s: State, w: set<nat>)
  {
    && s.vtime < TWO_64
    && Sorted(s.timers)
    && (forall i | 0 <= i < |s.timers| ::
          && s.timers[i].id <= s.lastTimerId && s.timers[i].due < TWO_64
          && (s.timers[i].id in w <==> s.timers[i].due < s.vtime))
    && (forall id | id in w :: PendingId(s.timers, id))
  }

  ghost predicate PendingId(timers: seq<Timer>, id: nat)
  {
    exists i | 0 <= i < |timers| :: timers[i].id == id
  }

  lemma InsertMarked(s: State, t: Timer, w: set<nat>)
    requires Marked(s, w) && t.id == s.lastTimerId + 1 && t.due < TWO_64
    ensures Marked(s.(lastTimerId := t.id, timers := Insert(s.timers, t)), if t.due < s.vtime then w + {t.id} else w)
  {
    var w' := if t.due < s.vtime then w + {t.id} else w;
    var timers := Insert(s.timers, t);
    FreshId(s, w);
    InsertSorted(s.timers, t);
    forall i | 0 <= i < |timers|
      ensures timers[i].id <= t.id && timers[i].due < TWO_64 && (timers[i].id in w' <==> timers[i].due < s.vtime)
    {
      if timers[i] != t {
        var k :| 0 <= k < |s.timers| && s.timers[k] == timers[i];
      }
    }
    forall id | id in w' ensures PendingId(timers, id) {
      if id == t.id {
        assert timers[UpperBound(s.timers, t.due)] == t;
      } else {
        InsertPending(s.timers, t, id);
      }
    }
  }

  lemma FreshId(s: State, w: set<nat>)
    requires Marked(s, w)
    ensures forall id | id in w :: id <= s.lastTimerId
  {
    forall id | id in w ensures id <= s.lastTimerId {
      assert PendingId(s.timers, id);
    }
  }

  lemma InsertPending(timers: seq<Timer>, t: Timer, id: nat)
    requires PendingId(timers, id)
    ensures PendingId(Insert(timers, t), id)
  {
    var k :| 0 <= k < |timers| && timers[k].id == id;
    var n := UpperBound(timers, t.due);
    assert Insert(timers, t)[if k < n then k else k + 1] == timers[k];
  }

  lemma AddTimerIs(s: State, ms: nat, cb: Callback) returns (t: Timer)
    requires s.vtime < TWO_64 && ms < TWO_64
    ensures AddTimer(s, ms, cb) == s.(lastTimerId := t.id, timers := Insert(s.timers, t))
    ensures t.id == s.lastTimerId + 1 && t.due < TWO_64 && (t.due < s.vtime <==> s.vtime + ms >= TWO_64)
  {
    t := Timer((s.vtime + ms) % TWO_64, s.lastTimerId + 1, cb);
    assert t.due == if s.vtime + ms < TWO_64 then s.vtime + ms else s.vtime + ms - TWO_64;
  }

  lemma AddMarked(s: State, ms: nat, cb: Callback, w: set<nat>, s': State)
    requires Marked(s, w) && ms < TWO_64 && s' == AddTimer(s, ms, cb)
    ensures Marked(s', if s.vtime + ms < TWO_64 then w else w + {s.lastTimerId + 1})
  {
    var t := AddTimerIs(s, ms, cb);
    InsertMarked(s, t, w);
  }

  lemma {:induction false} WithoutPending(timers: seq<Timer>, id: nat, other: nat)
    requires PendingId(timers, other) && other != id
    ensures PendingId(Without(timers, id), other)
  {
    var i :| 0 <= i < |timers| && timers[i].id == other;
    var rest := Without(timers[1..], id);
    if i == 0 {
      assert Without(timers, id)[0].id == other;
    } else {
      assert timers[1..][i - 1].id == other;
      WithoutPending(timers[1..], id, other);
      var k :| 0 <= k < |rest| && rest[k].id == other;
      assert Without(timers, id)[|Without(timers, id)| - |rest| + k] == rest[k];
    }
  }

  lemma CancelMarked(s: State, id: nat, w: set<nat>)
    requires Marked(s, w)
    ensures Marked(Apply(s, Cancel(id)), w - {id})
  {
    var timers := Without(s.timers, id);
    WithoutSpec(s.timers, id);
    forall i | 0 <= i < |timers|
      ensures timers[i].id <= s.lastTimerId && timers[i].due < TWO_64
      ensures timers[i].id in w - {id} <==> timers[i].due < s.vtime
    {
      var k :| 0 <= k < |s.timers| && s.timers[k] == timers[i];
    }
    forall x | x in w - {id} ensures PendingId(timers, x) {
      WithoutPending(s.timers, id, x);
    }
  }

  lemma TimerMarked(s: State, a: Action, w: set<nat>)
    requires Marked(s, w) && Typed(a) && (a.SetTimer? || (a.Send? && a.delay > 0))
    ensures Marked(Apply(s, a), Mark(s, a, w)) && Apply(s, a).vtime == s.vtime
  {
    if a.Send? {
      AddMarked(s, a.delay, Enqueue(a.q), w, Apply(s, a));
    } else {
      AddMarked(s, a.ms, App(a.tag), w, Apply(s, a));
    }
  }

  lemma MarkKeeps(s: State, a: Action, w: set<nat>)
    requires Marked(s, w) && Typed(a)
    ensures Marked(Apply(s, a), Mark(s, a, w)) && Apply(s, a).vtime == s.vtime
  {
    if a.Cancel? {
      CancelMarked(s, a.id, w);
    } else if a.SetTimer? || (a.Send? && a.delay > 0) {
      TimerMarked(s, a, w);
    }
  }

  lemma {:induction false} MarkAllKeeps(s: State, acts: seq<Action>, w: set<nat>)
    requires Marked(s, w) && forall i | 0 <= i < |acts| :: Typed(acts[i])
    ensures Marked(ApplyAll(s, acts), MarkAll(s, acts, w)) && ApplyAll(s, acts).vtime == s.vtime
    decreases |acts|
  {
    if acts != [] {
      MarkKeeps(s, acts[0], w);
      MarkAllKeeps(Apply(s, acts[0]), acts[1..], Mark(s, acts[0], w));
    }
  }

  /** The loop fails on the timer it looks at exactly if some marked timer is pending. */
  lemma MarkStepKeeps(s: State, acts: seq<Action>, w: set<nat>)
    requires Marked(s, w) && forall i | 0 <= i < |acts| :: Typed(acts[i])
    ensures Step(s, acts) == Failed <==> s.queue == [] && s.processTimers && w != {}
    ensures Step(s, acts).Did? ==> Marked(Step(s, acts).s, MarkStep(s, acts, w))
  {
    if s.queue != [] {
      MarkAllKeeps(s, acts, w);
    } else if s.processTimers {
      if id :| id in w {
        assert PendingId(s.timers, id);
        var k :| 0 <= k < |s.timers| && s.timers[k].id == id;
        assert k > 0 ==> Before(s.timers[0], s.timers[k]);
      } else if s.timers != [] {
        var s1 := s.(vtime := s.timers[0].due, timers := s.timers[1..]);
        assert Marked(s1, w);
        MarkAllKeeps(s1, acts, w);
      }
    }
  }

  /** At some moment of the run the queue is empty, timers are processed, and a timer set out of range is
      still pending. */
  ghost predicate LooksAtMarked(s: State, script: seq<seq<Action>>, w: set<nat>)
    decreases |script|
  {
    && script != []
    && (|| (s.queue == [] && s.processTimers && w != {})
        || (Step(s, script[0]).Did? && LooksAtMarked(Step(s, script[0]).s, script[1..], MarkStep(s, script[0], w))))
  }

  lemma {:induction false} FailsIffMarked(s: State, script: seq<seq<Action>>, w: set<nat>)
    requires Marked(s, w) && forall i, j | 0 <= i < |script| && 0 <= j < |script[i]| :: Typed(script[i][j])
    ensures !RunFrom(s, script).ok <==> LooksAtMarked(s, script, w)
    decreases |script|
  {
    if script != [] {
      MarkStepKeeps(s, script[0], w);
      if Step(s, script[0]).Did? {
        FailsIffMarked(Step(s, script[0]).s, script[1..], MarkStep(s, script[0], w));
      }
    }
  }

  /** Every run, whatever its callbacks cancel, fails the assertion if and only if the queue runs empty while
      a timer set out of the 64-bit range is pending. */
  lemma RunFailsIff(s: State, script: seq<seq<Action>>)
    requires Inv(s) && forall i, j | 0 <= i < |script| && 0 <= j < |script[i]| :: Typed(script[i][j])
    ensures !RunFrom(s, script).ok <==> LooksAtMarked(s, script, {})
  {
    FailsIffMarked(s, script, {});
  }
}
