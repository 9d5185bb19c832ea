/** When timers fire: once, at the time they were set for, unless they are cancelled. */
module SimTimers {
  import opened Bytes
  import opened SimTransport
  import opened SimSchedule

  // ----- every timer that is set fires once, at the time it was set for -----

  /** What a timer is about, apart from its id: when it is due, and for what. */
  datatype Alarm = Alarm(at: nat, cb: Callback)

  /** How many pending timers are for this alarm. */
  function Pending(timers: seq<Timer>, x: Alarm): nat
  {
    if timers == [] then 0
    else (if Alarm(timers[0].due, timers[0].cb) == x then 1 else 0) + Pending(timers[1..], x)
  }

  /** Does an action at the given time set this alarm: as a timer, or by sending a message with a delay? */
  predicate Sets(now: nat, a: Action, x: Alarm)
  {
    match a
    case SetTimer(ms, tag) => x == Alarm((now + ms) % TWO_64, App(tag))
    case Send(q, delay) => delay > 0 && x == Alarm((now + delay) % TWO_64, Enqueue(q))
    case _ => false
  }

  function SetBy(now: nat, acts: seq<Action>, x: Alarm): nat
  {
    if acts == [] then 0 else (if Sets(now, acts[0], x) then 1 else 0) + SetBy(now, acts[1..], x)
  }

  /** How often the callbacks of a run set this alarm. */
  function SetAll(log: seq<Event>, x: Alarm): nat
  {
    if log == [] then 0 else SetBy(log[0].now, log[0].acts, x) + SetAll(log[1..], x)
  }

  /** How often it went off: a timer for this purpose fired at this very time. */
  function WentOff(log: seq<Event>, x: Alarm): nat
  {
    if log == [] then 0
    else (if log[0].Fired? && Alarm(log[0].now, log[0].t.cb) == x then 1 else 0) + WentOff(log[1..], x)
  }

  lemma {:induction false} PendingConcat(xs: seq<Timer>, ys: seq<Timer>, x: Alarm)
    ensures Pending(xs + ys, x) == Pending(xs, x) + Pending(ys, x)
  {
    if xs == [] {
      assert xs + ys == ys;
    } else {
      assert (xs + ys)[1..] == xs[1..] + ys;
      PendingConcat(xs[1..], ys, x);
    }
  }

  lemma InsertPending(timers: seq<Timer>, t: Timer, x: Alarm)
    ensures Pending(Insert(timers, t), x) == Pending(timers, x) + if Alarm(t.due, t.cb) == x then 1 else 0
  {
    var n := UpperBound(timers, t.due);
    var xs, ys := timers[..n], timers[n..];
    PendingConcat(xs + [t], ys, x);
    PendingConcat(xs, [t], x);
    PendingConcat(xs, ys, x);
    assert xs + ys == timers && [t][1..] == [];
  }

  lemma ApplyPending(s: State, a: Action, x: Alarm)
    requires !Cancels(a)
    ensures Pending(Apply(s, a).timers, x) == Pending(s.timers, x) + if Sets(s.vtime, a, x) then 1 else 0
    ensures Apply(s, a).vtime == s.vtime
  {
    if a.SetTimer? {
      InsertPending(s.timers, Timer((s.vtime + a.ms) % TWO_64, s.lastTimerId + 1, App(a.tag)), x);
    } else if a.Send? && a.delay > 0 {
      InsertPending(s.timers, Timer((s.vtime + a.delay) % TWO_64, s.lastTimerId + 1, Enqueue(a.q)), x);
    }
  }

  lemma {:induction false} ApplyAllPending(s: State, acts: seq<Action>, x: Alarm)
    requires forall i | 0 <= i < |acts| :: !Cancels(acts[i])
    ensures Pending(ApplyAll(s, acts).timers, x) == Pending(s.timers, x) + SetBy(s.vtime, acts, x)
    decreases |acts|
  {
    if acts != [] {
      ApplyPending(s, acts[0], x);
      ApplyAllPending(Apply(s, acts[0]), acts[1..], x);
    }
  }

  lemma StepPending(s: State, acts: seq<Action>, x: Alarm)
    requires Step(s, acts).Did? && NoCancel(Step(s, acts).e)
    ensures var Did(s', e) := Step(s, acts);
            Pending(s.timers, x) + SetBy(e.now, e.acts, x)
            == (if e.Fired? && Alarm(e.now, e.t.cb) == x then 1 else 0) + Pending(s'.timers, x)
  {
    if s.queue != [] {
      ApplyAllPending(s, acts, x);
    } else if s.timers[0].cb.App? {
      ApplyAllPending(s.(vtime := s.timers[0].due, timers := s.timers[1..]), acts, x);
    }
  }

  lemma FirstAlarms(e: Event, log: seq<Event>, x: Alarm)
    ensures SetAll([e] + log, x) == SetBy(e.now, e.acts, x) + SetAll(log, x)
    ensures WentOff([e] + log, x) == (if e.Fired? && Alarm(e.now, e.t.cb) == x then 1 else 0) + WentOff(log, x)
  {
    assert ([e] + log)[1..] == log;
  }

  /** In every run without cancellations, for every time and purpose: the timers pending at first or set by
      a callback for them are as many as fired for that purpose at that time or are pending still. */
  lemma {:induction false} TimersConserved(s: State, script: seq<seq<Action>>, x: Alarm)
    requires forall i | 0 <= i < |RunFrom(s, script).log| :: NoCancel(RunFrom(s, script).log[i])
    ensures var r := RunFrom(s, script);
            Pending(s.timers, x) + SetAll(r.log, x) == WentOff(r.log, x) + Pending(r.s.timers, x)
    decreases |script|
  {
    if script != [] && Step(s, script[0]).Did? {
      var Did(s', e) := Step(s, script[0]);
      var log, r := RunFrom(s, script).log, RunFrom(s', script[1..]);
      assert log == [e] + r.log && log[0] == e;
      assert forall i | 0 <= i < |r.log| :: r.log[i] == log[i + 1];
      StepPending(s, script[0], x);
      TimersConserved(s', script[1..], x);
      FirstAlarms(e, r.log, x);
    }
  }

  // ----- one timer followed by its id -----

  /** The timer with this id, if it is still pending, is t; no later timer gets the id. */
  ghost predicate Only(s: State, t: Timer)
  {
    t.id <= s.lastTimerId && forall i | 0 <= i < |s.timers| :: s.timers[i].id == t.id ==> s.timers[i] == t
  }

  lemma ApplyOnly(s: State, a: Action, t: Timer)
    requires Only(s, t)
    ensures Only(Apply(s, a), t)
  {
    match a
    case Cancel(id) => WithoutOnly(s.timers, id, t);
    case _ =>
  }

  lemma {:induction false} WithoutOnly(timers: seq<Timer>, id: nat, t: Timer)
    requires forall i | 0 <= i < |timers| :: timers[i].id == t.id ==> timers[i] == t
    ensures forall i | 0 <= i < |Without(timers, id)| ::
              Without(timers, id)[i].id == t.id ==> Without(timers, id)[i] == t
  {
    if timers != [] {
      WithoutOnly(timers[1..], id, t);
    }
  }

  lemma {:induction false} ApplyAllOnly(s: State, acts: seq<Action>, t: Timer)
    requires Only(s, t)
    ensures Only(ApplyAll(s, acts), t)
    decreases |acts|
  {
    if acts != [] {
      ApplyOnly(s, acts[0], t);
      ApplyAllOnly(Apply(s, acts[0]), acts[1..], t);
    }
  }

  predicate FiresAs(e: Event, t: Timer)
  {
    e.Fired? && e.t.id == t.id ==> e.t == t && e.now == t.due
  }

  lemma StepOnly(s: State, acts: seq<Action>, t: Timer)
    requires Only(s, t) && Step(s, acts).Did?
    ensures Only(Step(s, acts).s, t) && FiresAs(Step(s, acts).e, t)
  {
    if s.queue != [] {
      ApplyAllOnly(s, acts, t);
    } else {
      ApplyAllOnly(s.(vtime := s.timers[0].due, timers := s.timers[1..]), acts, t);
    }
  }

  lemma {:induction false} OnlyFires(s: State, script: seq<seq<Action>>, t: Timer)
    requires Only(s, t)
    ensures forall i | 0 <= i < |RunFrom(s, script).log| :: FiresAs(RunFrom(s, script).log[i], t)
    decreases |script|
  {
    if script != [] && Step(s, script[0]).Did? {
      var Did(s', e) := Step(s, script[0]);
      StepOnly(s, script[0], t);
      OnlyFires(s', script[1..], t);
      var log, rest := RunFrom(s, script).log, RunFrom(s', script[1..]).log;
      assert log == [e] + rest;
      forall i | 0 <= i < |log| ensures FiresAs(log[i], t) {
        if i > 0 {
          assert log[i] == rest[i - 1];
        }
      }
    }
  }

  /** Whatever else happens, cancellations included: a timer set for ms fires, if it does, exactly ms later
      and for what it was set. */
  lemma FiresAfterDelay(s: State, ms: nat, cb: Callback, script: seq<seq<Action>>)
    requires Inv(s) && s.vtime + ms < TWO_64
    ensures var log := RunFrom(AddTimer(s, ms, cb), script).log;
            forall i | 0 <= i < |log| && log[i].Fired? && log[i].t.id == s.lastTimerId + 1 ::
              log[i].now == s.vtime + ms && log[i].t.cb == cb
  {
    var t := Timer(s.vtime + ms, s.lastTimerId + 1, cb);
    assert (s.vtime + ms) % TWO_64 == s.vtime + ms;
    InsertSorted(s.timers, t);
    assert Only(AddTimer(s, ms, cb), t);
    OnlyFires(AddTimer(s, ms, cb), script, t);
    var log := RunFrom(AddTimer(s, ms, cb), script).log;
    forall i | 0 <= i < |log| && log[i].Fired? && log[i].t.id == t.id ensures log[i].now == t.due && log[i].t.cb == cb {
      assert FiresAs(log[i], t);
    }
  }

  /** A message sent with a delay enters the queue at exactly that time, and in no other way. */
  lemma DelayedMessageQueued(s: State, q: Msg, delay: nat, script: seq<seq<Action>>)
    requires Inv(s) && 0 < delay && s.vtime + delay < TWO_64
    ensures Apply(s, Send(q, delay)).queue == s.queue
    ensures var log := RunFrom(Apply(s, Send(q, delay)), script).log;
            forall i | 0 <= i < |log| && log[i].Fired? && log[i].t.id == s.lastTimerId + 1 ::
              log[i].now == s.vtime + delay && Pushed(log[i]) == [q]
  {
    FiresAfterDelay(s, delay, Enqueue(q), script);
  }

  lemma {:induction false} NoneSet(s: State, acts: seq<Action>)
    requires !s.processTimers
    ensures !ApplyAll(s, acts).processTimers
    decreases |acts|
  {
    if acts != [] {
      NoneSet(Apply(s, acts[0]), acts[1..]);
    }
  }

  /** After all timers are cancelled, none fires any more, not even one set later. */
  lemma {:induction false} CancelAllSilences(s: State, script: seq<seq<Action>>)
    requires !s.processTimers
    ensures forall i | 0 <= i < |RunFrom(s, script).log| :: !RunFrom(s, script).log[i].Fired?
    decreases |script|
  {
    if script != [] && Step(s, script[0]).Did? {
      NoneSet(s, script[0]);
      CancelAllSilences(Step(s, script[0]).s, script[1..]);
    }
  }

  lemma CancelAllIsFinal(s: State, script: seq<seq<Action>>)
    ensures var log := RunFrom(Apply(s, CancelAll), script).log; forall i | 0 <= i < |log| :: !log[i].Fired?
  {
    CancelAllSilences(Apply(s, CancelAll), script);
  }
}
