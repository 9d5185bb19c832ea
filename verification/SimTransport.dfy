/** The simulated network: a message queue, a timer table over virtual time, and the loop that runs
    the receivers' callbacks. A callback is arbitrary application code; what it does to the transport is
    a list of actions. */
module SimTransport {
  import opened Bytes

  datatype Msg = Msg(dst: int, src: int, kind: string, data: string)

  /** What a timer does when it fires: run application code, or put a delayed message in the queue. */
  datatype Callback = App(tag: nat) | Enqueue(q: Msg)

  datatype Timer = Timer(due: nat, id: nat, cb: Callback)

  /** The filters' joint verdict on a message is its delay, or that it is dropped. */
  datatype Action =
    | Send(q: Msg, delay: nat)
    | Drop(q: Msg)
    | SetTimer(ms: nat, tag: nat)
    | Cancel(id: nat)
    | CancelAll

  datatype State = State(queue: seq<Msg>, timers: seq<Timer>, lastTimerId: nat, vtime: nat, processTimers: bool)

  const INIT := State([], [], 0, 0, true)

  // ----- the operations on the timer table -----

  /** Position behind all timers due at or before the given time. */
  function UpperBound(timers: seq<Timer>, due: nat): (n: nat)
    ensures n <= |timers|
  {
    if timers == [] || due < timers[0].due then 0 else 1 + UpperBound(timers[1..], due)
  }

  function Insert(timers: seq<Timer>, t: Timer): seq<Timer>
  {
    var n := UpperBound(timers, t.due);
    timers[..n] + [t] + timers[n..]
  }

  /** 64-bit arithmetic: the due time wraps around. */
  function AddTimer(s: State, ms: nat, cb: Callback): State
  {
    var id := s.lastTimerId + 1;
    s.(lastTimerId := id, timers := Insert(s.timers, Timer((s.vtime + ms) % TWO_64, id, cb)))
  }

  function Without(timers: seq<Timer>, id: nat): seq<Timer>
  {
    if timers == [] then []
    else (if timers[0].id == id then [] else [timers[0]]) + Without(timers[1..], id)
  }

  lemma WithoutStep(kept: seq<Timer>, timers: seq<Timer>, i: nat, id: nat)
    requires i < |timers|
    ensures kept + Without(timers[i..], id) ==
            (if timers[i].id == id then kept else kept + [timers[i]]) + Without(timers[i + 1..], id)
  {
    assert timers[i..][1..] == timers[i + 1..];
  }

  function Apply(s: State, a: Action): State
  {
    match a
    case Send(q, delay) => if delay == 0 then s.(queue := s.queue + [q]) else AddTimer(s, delay, Enqueue(q))
    case Drop(q) => s
    case SetTimer(ms, tag) => AddTimer(s, ms, App(tag))
    case Cancel(id) => s.(timers := Without(s.timers, id))
    case CancelAll => s.(timers := [], processTimers := false)
  }

  /** A callback only ever appends to the queue. */
  function ApplyAll(s: State, acts: seq<Action>): (r: State)
    ensures s.queue <= r.queue
    decreases |acts|
  {
    if acts == [] then s else ApplyAll(Apply(s, acts[0]), acts[1..])
  }

  // ----- one callback of the loop -----

  /** A callback that ran, at which virtual time, and what it did. */
  datatype Event =
    | Delivered(q: Msg, now: nat, acts: seq<Action>)
    | Fired(t: Timer, now: nat, acts: seq<Action>)

  datatype Outcome = Quiet | Failed | Did(s: State, e: Event)

  /** The next callback: the front message if there is one, otherwise the earliest timer. */
  function Step(s: State, acts: seq<Action>): Outcome
  {
    if s.queue != [] then
      var s' := ApplyAll(s, acts);
      Did(s'.(queue := s'.queue[1..]), Delivered(s.queue[0], s.vtime, acts))
    else if s.processTimers && s.timers != [] then
      var t := s.timers[0];
      if t.due < s.vtime then Failed
      else
        var s' := s.(vtime := t.due, timers := s.timers[1..]);
        if t.cb.Enqueue? then Did(s'.(queue := s'.queue + [t.cb.q]), Fired(t, t.due, []))
        else Did(ApplyAll(s', acts), Fired(t, t.due, acts))
    else Quiet
  }

  datatype Run = Run(s: State, log: seq<Event>, ok: bool)

  /** The loop, for as many callbacks as the script describes or until nothing is left to do. */
  function RunFrom(s: State, script: seq<seq<Action>>): Run
    decreases |script|
  {
    if script == [] then Run(s, [], true)
    else match Step(s, script[0])
      case Quiet => Run(s, [], true)
      case Failed => Run(s, [], false)
      case Did(s', e) => Then(e, RunFrom(s', script[1..]))
  }

  function Then(e: Event, r: Run): Run
  {
    r.(log := [e] + r.log)
  }

  // ----- the transport object -----

  class SimulatedTransport {
    var queue: seq<Msg>
    var timers: seq<Timer>
    var lastTimerId: nat
    var vtime: nat
    var processTimers: bool

    constructor ()
      ensures Now() == INIT
    {
      queue, timers, lastTimerId, vtime, processTimers := [], [], 0, 0, true;
    }

    function Now(): State
      reads this
    {
      State(queue, timers, lastTimerId, vtime, processTimers)
    }

    method SetTimer(ms: nat, cb: Callback) returns (id: nat)
      modifies this
      ensures Now() == AddTimer(old(Now()), ms, cb) && id == lastTimerId
    {
      lastTimerId := lastTimerId + 1;
      id := lastTimerId;
      var t := Timer((vtime + ms) % TWO_64, id, cb);
      var n := 0;
      while n < |timers| && timers[n].due <= t.due
        invariant n <= |timers| && n + UpperBound(timers[n..], t.due) == UpperBound(timers, t.due)
      {
        n := n + 1;
      }
      timers := timers[..n] + [t] + timers[n..];
    }

    method CancelTimer(id: nat) returns (found: bool)
      modifies this
      ensures Now() == Apply(old(Now()), Cancel(id))
      ensures found <==> exists k | 0 <= k < |old(timers)| :: old(timers)[k].id == id
    {
      found := false;
      var i, kept := 0, [];
      assert timers[0..] == timers;
      while i < |timers|
        invariant unchanged(this)
        invariant i <= |timers| && kept + Without(timers[i..], id) == Without(timers, id)
        invariant found <==> exists k | 0 <= k < i :: timers[k].id == id
      {
        WithoutStep(kept, timers, i, id);
        if timers[i].id == id {
          found := true;
        } else {
          kept := kept + [timers[i]];
        }
        i := i + 1;
      }
      assert timers[i..] == [] && kept + [] == kept;
      timers := kept;
    }

    method Perform(a: Action)
      modifies this
      ensures Now() == Apply(old(Now()), a)
    {
      match a
      case Send(q, delay) =>
        if delay == 0 {
          queue := queue + [q];
        } else {
          var id := SetTimer(delay, Enqueue(q));
        }
      case Drop(q) =>
      case SetTimer(ms, tag) => var id := SetTimer(ms, App(tag));
      case Cancel(id) => var found := CancelTimer(id);
      case CancelAll => timers, processTimers := [], false;
    }

    /** A callback: application code doing one action after the other. */
    method RunCallback(acts: seq<Action>)
      modifies this
      ensures Now() == ApplyAll(old(Now()), acts)
    {
      for i := 0 to |acts|
        invariant ApplyAll(Now(), acts[i..]) == ApplyAll(old(Now()), acts)
      {
        Perform(acts[i]);
      }
    }

    /** Runs the receiver of the front message, which stays in the queue meanwhile. */
    method DeliverFront(acts: seq<Action>) returns (e: Event)
      requires queue != []
      modifies this
      ensures Step(old(Now()), acts) == Did(Now(), e)
    {
      e := Delivered(queue[0], vtime, acts);
      RunCallback(acts);
      queue := queue[1..];
    }

    method FireEarliest(acts: seq<Action>) returns (ok: bool, e: Event)
      requires queue == [] && processTimers && timers != []
      modifies this
      ensures if ok then Step(old(Now()), acts) == Did(Now(), e)
              else Step(old(Now()), acts) == Failed && Now() == old(Now())
    {
      var t := timers[0];
      e := Fired(t, t.due, if t.cb.Enqueue? then [] else acts);
      ok := t.due >= vtime;
      if ok {
        vtime := t.due;
        timers := timers[1..];
        if t.cb.Enqueue? {
          queue := queue + [t.cb.q];
        } else {
          RunCallback(acts);
        }
      }
    }

    /** The inner loop: delivers until the queue is empty. */
    method DrainQueue(script: seq<seq<Action>>, i0: nat) returns (i: nat, log: seq<Event>)
      requires i0 <= |script|
      modifies this
      ensures i0 <= i <= |script| && (queue == [] || i == |script|)
      ensures RunFrom(old(Now()), script[i0..]) == Behind(log, RunFrom(Now(), script[i..]))
    {
      i, log := i0, [];
      ghost var all := RunFrom(Now(), script[i0..]);
      while queue != [] && i < |script|
        invariant i0 <= i <= |script| && all == Behind(log, RunFrom(Now(), script[i..]))
        decreases |script| - i
      {
        Grow(log, Now(), script, i);
        var e := DeliverFront(script[i]);
        log := log + [e];
        i := i + 1;
      }
    }

    method DrainInto(script: seq<seq<Action>>, i0: nat, log0: seq<Event>, ghost all: Run)
      returns (i: nat, log: seq<Event>)
      requires i0 <= |script| && all == Behind(log0, RunFrom(Now(), script[i0..]))
      modifies this
      ensures i0 <= i <= |script| && (queue == [] || i == |script|)
      ensures all == Behind(log, RunFrom(Now(), script[i..]))
    {
      var more;
      i, more := DrainQueue(script, i0);
      log := log0 + more;
      Joined(log0, more, RunFrom(Now(), script[i..]));
    }

    method FireInto(script: seq<seq<Action>>, i: nat, log0: seq<Event>, ghost all: Run)
      returns (ok: bool, log: seq<Event>)
      requires i < |script| && all == Behind(log0, RunFrom(Now(), script[i..]))
      requires queue == [] && processTimers && timers != []
      modifies this
      ensures all == if ok then Behind(log, RunFrom(Now(), script[i + 1..])) else Run(Now(), log, false)
    {
      Grow(log0, Now(), script, i);
      var e;
      ok, e := FireEarliest(script[i]);
      log := if ok then log0 + [e] else log0;
    }

    /** The loop: drain the queue, then fire the earliest timer only, and look again. */
    method Loop(script: seq<seq<Action>>) returns (ok: bool, log: seq<Event>)
      modifies this
      ensures RunFrom(old(Now()), script) == Run(Now(), log, ok)
    {
      log, ok := [], true;
      ghost var all := RunFrom(Now(), script);
      var i := 0;
      while i < |script|
        invariant i <= |script| && ok && all == Behind(log, RunFrom(Now(), script[i..]))
        decreases |script| - i
      {
        i, log := DrainInto(script, i, log, all);
        if i == |script| {
          break;
        }
        if !(processTimers && timers != []) {
          AtRest(log, Now(), script, i);
          return;
        }
        ok, log := FireInto(script, i, log, all);
        if !ok {
          return;
        }
        i := i + 1;
      }
      AtEnd(log, Now(), script, i);
    }
  }

  lemma AtEnd(log: seq<Event>, s: State, script: seq<seq<Action>>, i: nat)
    requires i == |script|
    ensures Behind(log, RunFrom(s, script[i..])) == Run(s, log, true)
  {
    assert script[i..] == [] && log + [] == log;
  }

  lemma AtRest(log: seq<Event>, s: State, script: seq<seq<Action>>, i: nat)
    requires i < |script| && Step(s, script[i]) == Quiet
    ensures Behind(log, RunFrom(s, script[i..])) == Run(s, log, true)
  {
    assert log + [] == log;
  }

  lemma Joined(x: seq<Event>, y: seq<Event>, r: Run)
    ensures Behind(x, Behind(y, r)) == Behind(x + y, r)
  {
  }

  function Behind(log: seq<Event>, r: Run): Run
  {
    r.(log := log + r.log)
  }

  lemma Grow(log: seq<Event>, s: State, script: seq<seq<Action>>, i: nat)
    requires i < |script|
    ensures match Step(s, script[i])
            case Quiet => RunFrom(s, script[i..]) == Run(s, [], true)
            case Failed => RunFrom(s, script[i..]) == Run(s, [], false)
            case Did(s', e) =>
              Behind(log, RunFrom(s, script[i..])) == Behind(log + [e], RunFrom(s', script[i + 1..]))
  {
    assert script[i..][0] == script[i] && script[i..][1..] == script[i + 1..];
    match Step(s, script[i])
    case Quiet =>
    case Failed =>
    case Did(s', e) =>
      var r := RunFrom(s', script[i + 1..]);
      assert log + ([e] + r.log) == log + [e] + r.log;
  }
}
