/** The thread pool's callback records. Dispatching threads, workers and event loops share recycled
    EventInfo records and libevent events; each step below is one lock-protected or thread-private
    stretch of one thread, and steps of different threads interleave freely. */
module ThreadPool {
  type Job = nat
  type Value = int

  /** An EventInfo object: the callback (named by its job), the job's result, its event. */
  datatype Info = Info(cb: Job, r: Value, ev: nat)

  /** What a dispatching thread holds: its record, and whether the record has its event yet. */
  datatype Draft = Draft(info: nat, hasEvent: bool)

  datatype Stage = Prep | Ready | Queued | Running | Active | Called | Freeing

  /** Bookkeeping of the model: what a record is being used for. */
  datatype Place = Free | Busy(j: Job, stage: Stage) | Leaked

  /** Bookkeeping of the model: where a job is. */
  datatype Status = InFlight(i: nat) | Done | Dropped

  datatype State = State(
    infos: seq<Info>,              // all EventInfo objects ever allocated
    events: seq<nat>,              // all events ever allocated; the record each was assigned to
    freeInfos: seq<nat>,           // eventInfos
    freeEvents: seq<nat>,          // events
    drafts: map<Job, Draft>,       // dispatch calls under way
    queue: set<(Job, nat)>,        // worker_thread_request_list: function and record
    workers: set<(Job, nat)>,      // jobs taken by a worker
    active: set<nat>,              // events marked active
    calling: set<nat>,             // records whose callback is being run by an event loop
    freeing: set<nat>,             // records whose event has been given back
    stopped: bool,
    log: seq<(Job, Value)>,        // callbacks run, with the argument each was given
    place: seq<Place>,
    status: map<Job, Status>)

  const INIT := State([], [], [], [], map[], {}, {}, {}, {}, {}, false, [], [], map[])

  datatype Step =
    | Begin(j: Job)
    | AssignEvent(j: Job)
    | Submit(j: Job)
    | Issue(j: Job)
    | Dequeue(j: Job, i: nat)
    | Finish(j: Job, i: nat)
    | Callback(e: nat)
    | ReleaseEvent(i: nat)
    | ReleaseInfo(i: nat)
    | Stop
    | Discard(j: Job, i: nat)

  predicate Enabled(s: State, x: Step)
  {
    match x
    case Begin(j) => j !in s.status && |s.place| == |s.infos|
    case AssignEvent(j) =>
      && j in s.drafts && !s.drafts[j].hasEvent && s.drafts[j].info < |s.infos| == |s.place|
      && (s.freeEvents != [] ==> s.freeEvents[|s.freeEvents| - 1] < |s.events|)
    case Submit(j) => j in s.drafts && s.drafts[j].hasEvent && s.drafts[j].info < |s.infos| == |s.place|
    case Issue(j) => j in s.drafts && s.drafts[j].hasEvent && s.drafts[j].info < |s.infos| == |s.place|
    case Dequeue(j, i) => (j, i) in s.queue && i < |s.infos| == |s.place|
    case Finish(j, i) => (j, i) in s.workers && i < |s.infos| == |s.place|
    case Callback(e) => e in s.active && e < |s.events| && s.events[e] < |s.infos| == |s.place|
    case ReleaseEvent(i) => i in s.calling && i < |s.infos| == |s.place|
    case ReleaseInfo(i) => i in s.freeing && i < |s.infos| == |s.place|
    case Stop => true
    case Discard(j, i) => s.stopped && (j, i) in s.queue && i < |s.infos| == |s.place|
  }

  function SetStage(s: State, i: nat, j: Job, stage: Stage): seq<Place>
    requires i < |s.place|
  {
    s.place[i := Busy(j, stage)]
  }

  /** F(j) is what the function of job j returns, or the argument given to issueCallback. */
  function Next(F: Job -> Value, s: State, x: Step): State
    requires Enabled(s, x)
  {
    match x
    case Begin(j) =>
      if s.freeInfos != [] && s.freeInfos[|s.freeInfos| - 1] < |s.infos| then
        var i := s.freeInfos[|s.freeInfos| - 1];
        s.(freeInfos := s.freeInfos[..|s.freeInfos| - 1], drafts := s.drafts[j := Draft(i, false)],
           place := SetStage(s, i, j, Prep), status := s.status[j := InFlight(i)])
      else
        var i := |s.infos|;
        s.(infos := s.infos + [Info(0, 0, 0)], drafts := s.drafts[j := Draft(i, false)],
           place := s.place + [Busy(j, Prep)], status := s.status[j := InFlight(i)])
    case AssignEvent(j) =>
      var i := s.drafts[j].info;
      if s.freeEvents != [] then
        var e := s.freeEvents[|s.freeEvents| - 1];
        s.(freeEvents := s.freeEvents[..|s.freeEvents| - 1], events := s.events[e := i],
           infos := s.infos[i := s.infos[i].(cb := j, ev := e)], drafts := s.drafts[j := Draft(i, true)],
           place := SetStage(s, i, j, Ready))
      else
        var e := |s.events|;
        s.(events := s.events + [i],
           infos := s.infos[i := s.infos[i].(cb := j, ev := e)], drafts := s.drafts[j := Draft(i, true)],
           place := SetStage(s, i, j, Ready))
    case Submit(j) =>
      var i := s.drafts[j].info;
      s.(drafts := s.drafts - {j}, queue := s.queue + {(j, i)}, place := SetStage(s, i, j, Queued))
    case Issue(j) =>
      var i := s.drafts[j].info;
      s.(drafts := s.drafts - {j}, infos := s.infos[i := s.infos[i].(r := F(j))],
         active := s.active + {s.infos[i].ev}, place := SetStage(s, i, j, Active))
    case Dequeue(j, i) =>
      s.(queue := s.queue - {(j, i)}, workers := s.workers + {(j, i)}, place := SetStage(s, i, j, Running))
    case Finish(j, i) =>
      s.(workers := s.workers - {(j, i)}, infos := s.infos[i := s.infos[i].(r := F(j))],
         active := s.active + {s.infos[i].ev}, place := SetStage(s, i, j, Active))
    case Callback(e) =>
      var i := s.events[e];
      var j := s.infos[i].cb;
      s.(active := s.active - {e}, calling := s.calling + {i}, log := s.log + [(j, s.infos[i].r)],
         place := SetStage(s, i, j, Called), status := s.status[j := Done])
    case ReleaseEvent(i) =>
      s.(calling := s.calling - {i}, freeing := s.freeing + {i}, active := s.active - {s.infos[i].ev},
         freeEvents := s.freeEvents + [s.infos[i].ev], place := SetStage(s, i, s.infos[i].cb, Freeing))
    case ReleaseInfo(i) =>
      s.(freeing := s.freeing - {i}, freeInfos := s.freeInfos + [i], place := s.place[i := Free])
    case Stop => s.(stopped := true)
    case Discard(j, i) =>
      s.(queue := s.queue - {(j, i)}, place := s.place[i := Leaked], status := s.status[j := Dropped])
  }

  // ----- the invariant, one part of the state at a time -----

  predicate Distinct(s: seq<nat>)
  {
    forall a, b | 0 <= a < b < |s| :: s[a] != s[b]
  }

  predicate In(p: Place, stage: Stage)
  {
    p.Busy? && p.stage == stage
  }

  /** The free list holds exactly the free records, each once. */
  ghost predicate FreeOk(place: seq<Place>, free: seq<nat>)
  {
    Distinct(free) && forall i: nat :: i in free <==> i < |place| && place[i] == Free
  }

  /** A queue holds exactly the records at its stage, each with its own job. */
  ghost predicate PairsOk(place: seq<Place>, q: set<(Job, nat)>, stage: Stage)
  {
    forall i: nat, j: Job :: (j, i) in q <==> i < |place| && place[i] == Busy(j, stage)
  }

  ghost predicate SetOk(place: seq<Place>, c: set<nat>, stage: Stage)
  {
    forall i: nat :: i in c <==> i < |place| && In(place[i], stage)
  }

  function DraftPlace(j: Job, d: Draft): Place
  {
    Busy(j, if d.hasEvent then Ready else Prep)
  }

  ghost predicate DraftsOk(place: seq<Place>, drafts: map<Job, Draft>)
  {
    && (forall j | j in drafts :: drafts[j].info < |place| && place[drafts[j].info] == DraftPlace(j, drafts[j]))
    && (forall i: nat | i < |place| && (In(place[i], Prep) || In(place[i], Ready)) ::
          place[i].j in drafts && drafts[place[i].j].info == i)
  }

  predicate HasEvent(stage: Stage)
  {
    stage != Prep && stage != Freeing
  }

  /** A record in use carries its own job's callback and, once finished, its own job's result; its event
      points back to it and is not free. */
  predicate RecordOk(F: Job -> Value, p: Place, i: nat, info: Info, events: seq<nat>, freeEvents: seq<nat>)
  {
    p.Busy? ==>
      && (p.stage != Prep ==> info.cb == p.j)
      && (p.stage == Active ==> info.r == F(p.j))
      && (HasEvent(p.stage) ==> info.ev < |events| && events[info.ev] == i && info.ev !in freeEvents)
  }

  ghost predicate RecordsOk(F: Job -> Value, place: seq<Place>, infos: seq<Info>, events: seq<nat>,
      freeEvents: seq<nat>)
  {
    && |place| == |infos|
    && Distinct(freeEvents)
    && (forall k | 0 <= k < |freeEvents| :: freeEvents[k] < |events|)
    && (forall i | 0 <= i < |place| :: RecordOk(F, place[i], i, infos[i], events, freeEvents))
  }

  /** An event is active exactly if the record it points to is, through this event. */
  ghost predicate ActiveOk(place: seq<Place>, infos: seq<Info>, events: seq<nat>, active: set<nat>)
  {
    && |place| == |infos|
    && forall e: nat :: e in active <==>
         e < |events| && events[e] < |place| && In(place[events[e]], Active) && infos[events[e]].ev == e
  }

  /** A job not called back yet owns one record, and a record in use serves one job. */
  ghost predicate StatusOk(place: seq<Place>, status: map<Job, Status>, stopped: bool)
  {
    && (forall i: nat | i < |place| && place[i].Busy? ::
          && place[i].j in status
          && status[place[i].j] == if place[i].stage == Called || place[i].stage == Freeing then Done else InFlight(i))
    && (forall j | j in status && status[j].InFlight? ::
          status[j].i < |place| && place[status[j].i].Busy? && place[status[j].i].j == j)
    && (forall j | j in status && status[j] == Dropped :: stopped)
    && (forall i: nat | i < |place| && place[i] == Leaked :: stopped)
  }

  ghost predicate Logged(log: seq<(Job, Value)>, j: Job)
  {
    exists k | 0 <= k < |log| :: log[k].0 == j
  }

  /** The log lists exactly the finished jobs, each once, with its own result. */
  ghost predicate LogOk(F: Job -> Value, log: seq<(Job, Value)>, status: map<Job, Status>)
  {
    && (forall j :: Logged(log, j) <==> j in status && status[j] == Done)
    && (forall k | 0 <= k < |log| :: log[k].1 == F(log[k].0))
    && (forall a, b | 0 <= a < b < |log| :: log[a].0 != log[b].0)
  }

  /** Every container holds exactly the records whose place says so. */
  ghost predicate Shelves(s: State)
  {
    && FreeOk(s.place, s.freeInfos) && DraftsOk(s.place, s.drafts)
    && PairsOk(s.place, s.queue, Queued) && PairsOk(s.place, s.workers, Running)
    && SetOk(s.place, s.calling, Called) && SetOk(s.place, s.freeing, Freeing)
  }

  /** The records and events in use belong together, and to one job each. */
  ghost predicate Contents(F: Job -> Value, s: State)
  {
    && RecordsOk(F, s.place, s.infos, s.events, s.freeEvents)
    && ActiveOk(s.place, s.infos, s.events, s.active)
    && StatusOk(s.place, s.status, s.stopped) && LogOk(F, s.log, s.status)
  }

  ghost predicate Inv(F: Job -> Value, s: State)
  {
    Shelves(s) && Contents(F, s)
  }

  // ----- how each part follows a record that changes its place -----

  function PairAt(p: Place, i: nat, stage: Stage): set<(Job, nat)>
  {
    if In(p, stage) then {(p.j, i)} else {}
  }

  lemma PairsMove(place: seq<Place>, q: set<(Job, nat)>, stage: Stage, i: nat, p: Place)
    requires PairsOk(place, q, stage) && i < |place|
    ensures PairsOk(place[i := p], q - PairAt(place[i], i, stage) + PairAt(p, i, stage), stage)
  {
  }

  lemma SetMove(place: seq<Place>, c: set<nat>, stage: Stage, i: nat, p: Place)
    requires SetOk(place, c, stage) && i < |place|
    ensures SetOk(place[i := p], c - {i} + if In(p, stage) then {i} else {}, stage)
  {
  }

  lemma FreeStays(place: seq<Place>, free: seq<nat>, i: nat, p: Place)
    requires FreeOk(place, free) && i < |place| && place[i] != Free && p != Free
    ensures FreeOk(place[i := p], free)
  {
  }

  lemma FreePush(place: seq<Place>, free: seq<nat>, i: nat)
    requires FreeOk(place, free) && i < |place| && place[i] != Free
    ensures FreeOk(place[i := Free], free + [i])
  {
  }

  lemma FreeGrow(place: seq<Place>, free: seq<nat>)
    requires FreeOk(place, free)
    ensures FreeOk(place + [Free], free + [|place|])
  {
    var more, list := place + [Free], free + [|place|];
    assert |place| !in free;
    forall i: nat ensures i in list <==> i < |more| && more[i] == Free {
      assert i in list <==> i in free || i == |place|;
    }
  }

  lemma FreePop(place: seq<Place>, free: seq<nat>, p: Place)
    requires FreeOk(place, free) && free != [] && p != Free
    ensures var i := free[|free| - 1]; i < |place| && FreeOk(place[i := p], free[..|free| - 1])
  {
    var i, rest := free[|free| - 1], free[..|free| - 1];
    assert i in free && free == rest + [i];
    forall k: nat ensures k in rest <==> k < |place| && place[i := p][k] == Free {
      assert k in free <==> k in rest || k == i;
    }
  }

  lemma DraftsStay(place: seq<Place>, drafts: map<Job, Draft>, i: nat, p: Place)
    requires DraftsOk(place, drafts) && i < |place|
    requires !In(place[i], Prep) && !In(place[i], Ready) && !In(p, Prep) && !In(p, Ready)
    ensures DraftsOk(place[i := p], drafts)
  {
  }

  lemma DraftRemove(place: seq<Place>, drafts: map<Job, Draft>, j: Job, p: Place)
    requires DraftsOk(place, drafts) && j in drafts && !In(p, Prep) && !In(p, Ready)
    ensures drafts[j].info < |place| && DraftsOk(place[drafts[j].info := p], drafts - {j})
  {
  }

  lemma DraftUpgrade(place: seq<Place>, drafts: map<Job, Draft>, j: Job)
    requires DraftsOk(place, drafts) && j in drafts
    ensures var i := drafts[j].info;
            i < |place| && DraftsOk(place[i := Busy(j, Ready)], drafts[j := Draft(i, true)])
  {
  }

  lemma DraftAdd(place: seq<Place>, drafts: map<Job, Draft>, j: Job, i: nat)
    requires DraftsOk(place, drafts) && j !in drafts && i < |place| && place[i] == Free
    ensures DraftsOk(place[i := Busy(j, Prep)], drafts[j := Draft(i, false)])
  {
  }

  /** A record changes while events and their free list stay. */
  lemma RecordsMove(F: Job -> Value, place: seq<Place>, infos: seq<Info>, events: seq<nat>, freeEvents: seq<nat>,
                    i: nat, p: Place, info: Info)
    requires RecordsOk(F, place, infos, events, freeEvents) && i < |place|
    requires RecordOk(F, p, i, info, events, freeEvents)
    ensures RecordsOk(F, place[i := p], infos[i := info], events, freeEvents)
  {
  }

  /** Activity is untouched by a record that is not active before or after and keeps its event. */
  lemma ActiveStays(place: seq<Place>, infos: seq<Info>, events: seq<nat>, active: set<nat>, i: nat, p: Place,
      info: Info)
    requires ActiveOk(place, infos, events, active) && i < |place| && !In(place[i], Active) && !In(p, Active)
    ensures ActiveOk(place[i := p], infos[i := info], events, active)
  {
  }

  lemma ActiveAdd(place: seq<Place>, infos: seq<Info>, events: seq<nat>, active: set<nat>, i: nat, j: Job, info: Info)
    requires ActiveOk(place, infos, events, active) && i < |place| && !In(place[i], Active)
    requires info.ev < |events| && events[info.ev] == i
    ensures ActiveOk(place[i := Busy(j, Active)], infos[i := info], events, active + {info.ev})
  {
  }

  lemma ActiveRemove(place: seq<Place>, infos: seq<Info>, events: seq<nat>, active: set<nat>, e: nat, p: Place)
    requires ActiveOk(place, infos, events, active) && e in active && !In(p, Active)
    ensures events[e] < |place| && ActiveOk(place[events[e] := p], infos, events, active - {e})
  {
  }

  predicate Owning(p: Place)
  {
    p.Busy? && p.stage != Called && p.stage != Freeing
  }

  /** A job's record moves on before its callback. */
  lemma StatusMove(place: seq<Place>, status: map<Job, Status>, stopped: bool, i: nat, stage: Stage)
    requires StatusOk(place, status, stopped) && i < |place| && Owning(place[i]) && stage != Called && stage != Freeing
    ensures StatusOk(place[i := Busy(place[i].j, stage)], status, stopped)
  {
  }

  lemma StatusBegin(place: seq<Place>, status: map<Job, Status>, stopped: bool, i: nat, j: Job)
    requires StatusOk(place, status, stopped) && i < |place| && place[i] == Free && j !in status
    ensures StatusOk(place[i := Busy(j, Prep)], status[j := InFlight(i)], stopped)
  {
  }

  lemma StatusCall(place: seq<Place>, status: map<Job, Status>, stopped: bool, i: nat)
    requires StatusOk(place, status, stopped) && i < |place| && Owning(place[i])
    ensures StatusOk(place[i := Busy(place[i].j, Called)], status[place[i].j := Done], stopped)
  {
  }

  lemma StatusRelease(place: seq<Place>, status: map<Job, Status>, stopped: bool, i: nat, p: Place)
    requires StatusOk(place, status, stopped) && i < |place|
    requires In(place[i], Called) || In(place[i], Freeing)
    requires p == Free || p == Busy(place[i].j, Freeing)
    ensures StatusOk(place[i := p], status, stopped)
  {
  }

  lemma StatusDrop(place: seq<Place>, status: map<Job, Status>, i: nat)
    requires StatusOk(place, status, true) && i < |place| && Owning(place[i])
    ensures StatusOk(place[i := Leaked], status[place[i].j := Dropped], true)
  {
  }

  lemma LogAppend(F: Job -> Value, log: seq<(Job, Value)>, status: map<Job, Status>, j: Job)
    requires LogOk(F, log, status) && j in status && status[j] != Done
    ensures LogOk(F, log + [(j, F(j))], status[j := Done])
  {
    var log', status' := log + [(j, F(j))], status[j := Done];
    assert !Logged(log, j);
    forall k ensures Logged(log', k) <==> k in status' && status'[k] == Done {
      if Logged(log, k) {
        var n :| 0 <= n < |log| && log[n].0 == k;
        assert log'[n].0 == k;
      }
      assert log'[|log|].0 == j;
      assert Logged(log', k) ==> k == j || Logged(log, k);
    }
  }

  lemma LogStays(F: Job -> Value, log: seq<(Job, Value)>, status: map<Job, Status>, j: Job, st: Status)
    requires LogOk(F, log, status) && st != Done && (j in status ==> status[j] != Done)
    ensures LogOk(F, log, status[j := st])
  {
  }

  // ----- every step keeps the invariant -----

  /** The four stage containers follow record i to its new place. */
  lemma StagesFollow(s: State, i: nat, p: Place)
    requires Shelves(s) && i < |s.place|
    ensures var place := s.place[i := p]; var q := s.place[i];
            && PairsOk(place, s.queue - PairAt(q, i, Queued) + PairAt(p, i, Queued), Queued)
            && PairsOk(place, s.workers - PairAt(q, i, Running) + PairAt(p, i, Running), Running)
            && SetOk(place, s.calling - {i} + (if In(p, Called) then {i} else {}), Called)
            && SetOk(place, s.freeing - {i} + (if In(p, Freeing) then {i} else {}), Freeing)
  {
    PairsMove(s.place, s.queue, Queued, i, p);
    PairsMove(s.place, s.workers, Running, i, p);
    SetMove(s.place, s.calling, Called, i, p);
    SetMove(s.place, s.freeing, Freeing, i, p);
  }

  /** A record is about to be allocated: the longer table with one more free record. */
  lemma Allocate(F: Job -> Value, s: State)
    requires Inv(F, s)
    ensures Inv(F, Grown(s))
  {
    var s' := Grown(s);
    assert forall i: nat | i < |s.place| :: s'.place[i] == s.place[i] && s'.infos[i] == s.infos[i];
    assert s'.place[|s.place|] == Free;
    FreeGrow(s.place, s.freeInfos);
  }

  function Grown(s: State): State
  {
    s.(infos := s.infos + [Info(0, 0, 0)], place := s.place + [Free], freeInfos := s.freeInfos + [|s.infos|])
  }

  lemma PopShelves(F: Job -> Value, s: State, j: Job)
    requires Shelves(s) && |s.place| == |s.infos| && j !in s.status && j !in s.drafts && s.freeInfos != []
    ensures Enabled(s, Begin(j)) && Shelves(Next(F, s, Begin(j)))
  {
    var i := s.freeInfos[|s.freeInfos| - 1];
    assert i in s.freeInfos;
    FreePop(s.place, s.freeInfos, Busy(j, Prep));
    DraftAdd(s.place, s.drafts, j, i);
    StagesFollow(s, i, Busy(j, Prep));
  }

  lemma PopContents(F: Job -> Value, s: State, j: Job)
    requires Inv(F, s) && j !in s.status && s.freeInfos != []
    ensures Enabled(s, Begin(j)) && Contents(F, Next(F, s, Begin(j)))
  {
    var i, p := s.freeInfos[|s.freeInfos| - 1], Busy(j, Prep);
    assert i in s.freeInfos;
    RecordsMove(F, s.place, s.infos, s.events, s.freeEvents, i, p, s.infos[i]);
    ActiveStays(s.place, s.infos, s.events, s.active, i, p, s.infos[i]);
    StatusBegin(s.place, s.status, s.stopped, i, j);
    LogStays(F, s.log, s.status, j, InFlight(i));
    assert s.infos[i := s.infos[i]] == s.infos;
  }

  lemma BeginKeeps(F: Job -> Value, s: State, j: Job)
    requires Inv(F, s) && Enabled(s, Begin(j))
    ensures Inv(F, Next(F, s, Begin(j)))
  {
    NewJobHasNoDraft(F, s, j);
    if s.freeInfos != [] {
      PopShelves(F, s, j);
      PopContents(F, s, j);
    } else {
      Allocate(F, s);
      PopShelves(F, Grown(s), j);
      PopContents(F, Grown(s), j);
      SameAsPop(F, s, j);
    }
  }

  lemma NewJobHasNoDraft(F: Job -> Value, s: State, j: Job)
    requires Inv(F, s) && j !in s.status
    ensures j !in s.drafts
  {
  }

  /** Allocating a record is popping it from a free list that has just received it. */
  lemma SameAsPop(F: Job -> Value, s: State, j: Job)
    requires Inv(F, s) && Enabled(s, Begin(j)) && s.freeInfos == []
    ensures Enabled(Grown(s), Begin(j)) && Next(F, s, Begin(j)) == Next(F, Grown(s), Begin(j))
  {
    assert Grown(s).place[|s.place| := Busy(j, Prep)] == s.place + [Busy(j, Prep)];
    assert Grown(s).freeInfos[..0] == [];
  }

  lemma AssignShelves(F: Job -> Value, s: State, j: Job)
    requires Shelves(s) && Enabled(s, AssignEvent(j))
    ensures Shelves(Next(F, s, AssignEvent(j)))
  {
    var i := s.drafts[j].info;
    DraftUpgrade(s.place, s.drafts, j);
    FreeStays(s.place, s.freeInfos, i, Busy(j, Ready));
    StagesFollow(s, i, Busy(j, Ready));
  }

  /** The event handed out belongs to no record in use. */
  lemma EventUnused(F: Job -> Value, s: State, e: nat, i: nat)
    requires RecordsOk(F, s.place, s.infos, s.events, s.freeEvents) && i < |s.place|
    requires e in s.freeEvents
    ensures s.place[i].Busy? && HasEvent(s.place[i].stage) ==> s.infos[i].ev != e
  {
    assert RecordOk(F, s.place[i], i, s.infos[i], s.events, s.freeEvents);
  }

  lemma AssignRecords(F: Job -> Value, s: State, j: Job)
    requires Inv(F, s) && Enabled(s, AssignEvent(j))
    ensures var s' := Next(F, s, AssignEvent(j));
            RecordsOk(F, s'.place, s'.infos, s'.events, s'.freeEvents)
  {
    var s' := Next(F, s, AssignEvent(j));
    var i := s.drafts[j].info;
    forall k | 0 <= k < |s'.place| ensures RecordOk(F, s'.place[k], k, s'.infos[k], s'.events, s'.freeEvents) {
      assert RecordOk(F, s.place[k], k, s.infos[k], s.events, s.freeEvents);
      if s.freeEvents != [] {
        var e := s.freeEvents[|s.freeEvents| - 1];
        EventUnused(F, s, e, k);
        assert s.freeEvents == s'.freeEvents + [e];
      }
    }
  }

  lemma AssignActive(F: Job -> Value, s: State, j: Job)
    requires Inv(F, s) && Enabled(s, AssignEvent(j))
    ensures var s' := Next(F, s, AssignEvent(j)); ActiveOk(s'.place, s'.infos, s'.events, s'.active)
  {
    var s' := Next(F, s, AssignEvent(j));
    var i := s.drafts[j].info;
    forall e: nat ensures e in s'.active <==>
        e < |s'.events| && s'.events[e] < |s'.place| && In(s'.place[s'.events[e]], Active)
            && s'.infos[s'.events[e]].ev == e
    {
      if e < |s.events| && s.events[e] < |s.place| {
        assert RecordOk(F, s.place[s.events[e]], s.events[e], s.infos[s.events[e]], s.events, s.freeEvents);
      }
    }
  }

  lemma AssignKeeps(F: Job -> Value, s: State, j: Job)
    requires Inv(F, s) && Enabled(s, AssignEvent(j))
    ensures Inv(F, Next(F, s, AssignEvent(j)))
  {
    AssignShelves(F, s, j);
    AssignRecords(F, s, j);
    AssignActive(F, s, j);
    StatusMove(s.place, s.status, s.stopped, s.drafts[j].info, Ready);
  }

  /** A dispatch call lets go of its record. */
  lemma LeaveDraft(s: State, j: Job, stage: Stage)
    requires Shelves(s) && j in s.drafts && (stage == Queued || stage == Active)
    ensures var i := s.drafts[j].info;
            && i < |s.place|
            && Shelves(s.(drafts := s.drafts - {j}, place := s.place[i := Busy(j, stage)],
                          queue := s.queue + PairAt(Busy(j, stage), i, Queued)))
  {
    var i, p := s.drafts[j].info, Busy(j, stage);
    DraftRemove(s.place, s.drafts, j, p);
    FreeStays(s.place, s.freeInfos, i, p);
    StagesFollow(s, i, p);
  }

  lemma SubmitKeeps(F: Job -> Value, s: State, j: Job)
    requires Inv(F, s) && Enabled(s, Submit(j))
    ensures Inv(F, Next(F, s, Submit(j)))
  {
    LeaveDraft(s, j, Queued);
    MoveContents(F, s, s.drafts[j].info, j, Queued);
  }

  /** A record moves on, unchanged and inactive, before its callback. */
  lemma MoveContents(F: Job -> Value, s: State, i: nat, j: Job, stage: Stage)
    requires Contents(F, s) && i < |s.place| && Owning(s.place[i]) && s.place[i].j == j
    requires HasEvent(s.place[i].stage) && s.place[i].stage != Active
    requires stage == Queued || stage == Running
    ensures Contents(F, s.(place := s.place[i := Busy(j, stage)]))
  {
    assert RecordOk(F, s.place[i], i, s.infos[i], s.events, s.freeEvents);
    RecordsMove(F, s.place, s.infos, s.events, s.freeEvents, i, Busy(j, stage), s.infos[i]);
    ActiveStays(s.place, s.infos, s.events, s.active, i, Busy(j, stage), s.infos[i]);
    StatusMove(s.place, s.status, s.stopped, i, stage);
    assert s.infos[i := s.infos[i]] == s.infos;
  }

  lemma DequeueKeeps(F: Job -> Value, s: State, j: Job, i: nat)
    requires Inv(F, s) && Enabled(s, Dequeue(j, i))
    ensures Inv(F, Next(F, s, Dequeue(j, i)))
  {
    var p := Busy(j, Running);
    DraftsStay(s.place, s.drafts, i, p);
    FreeStays(s.place, s.freeInfos, i, p);
    StagesFollow(s, i, p);
    MoveContents(F, s, i, j, Running);
  }

  /** A record gets its result and its event is marked active. */
  lemma ActivateContents(F: Job -> Value, s: State, i: nat, j: Job)
    requires Contents(F, s) && i < |s.place| && Owning(s.place[i]) && s.place[i].j == j
    requires HasEvent(s.place[i].stage) && s.place[i].stage != Active
    ensures i < |s.infos|
    ensures Contents(F, s.(place := s.place[i := Busy(j, Active)], infos := s.infos[i := s.infos[i].(r := F(j))],
                           active := s.active + {s.infos[i].ev}))
  {
    assert RecordOk(F, s.place[i], i, s.infos[i], s.events, s.freeEvents);
    var info := s.infos[i].(r := F(j));
    RecordsMove(F, s.place, s.infos, s.events, s.freeEvents, i, Busy(j, Active), info);
    ActiveAdd(s.place, s.infos, s.events, s.active, i, j, info);
    StatusMove(s.place, s.status, s.stopped, i, Active);
  }

  lemma IssueKeeps(F: Job -> Value, s: State, j: Job)
    requires Inv(F, s) && Enabled(s, Issue(j))
    ensures Inv(F, Next(F, s, Issue(j)))
  {
    LeaveDraft(s, j, Active);
    ActivateContents(F, s, s.drafts[j].info, j);
  }

  lemma FinishKeeps(F: Job -> Value, s: State, j: Job, i: nat)
    requires Inv(F, s) && Enabled(s, Finish(j, i))
    ensures Inv(F, Next(F, s, Finish(j, i)))
  {
    var p := Busy(j, Active);
    DraftsStay(s.place, s.drafts, i, p);
    FreeStays(s.place, s.freeInfos, i, p);
    StagesFollow(s, i, p);
    ActivateContents(F, s, i, j);
  }

  /** The event loop reaches, through the event, the record of a finished job, its callback and its result. */
  lemma CallbackFinds(F: Job -> Value, s: State, e: nat)
    requires Inv(F, s) && e in s.active
    ensures e < |s.events| && s.events[e] < |s.infos| == |s.place|
    ensures var i := s.events[e];
            && In(s.place[i], Active) && s.infos[i].ev == e
            && s.infos[i].cb == s.place[i].j && s.infos[i].r == F(s.infos[i].cb)
            && s.infos[i].cb in s.status && s.status[s.infos[i].cb] == InFlight(i)
  {
    var i := s.events[e];
    assert RecordOk(F, s.place[i], i, s.infos[i], s.events, s.freeEvents);
  }

  lemma CallbackShelves(F: Job -> Value, s: State, e: nat)
    requires Inv(F, s) && Enabled(s, Callback(e))
    ensures Shelves(Next(F, s, Callback(e)))
  {
    CallbackFinds(F, s, e);
    var i := s.events[e];
    var p := Busy(s.infos[i].cb, Called);
    DraftsStay(s.place, s.drafts, i, p);
    FreeStays(s.place, s.freeInfos, i, p);
    StagesFollow(s, i, p);
  }

  lemma CallbackContents(F: Job -> Value, s: State, e: nat)
    requires Inv(F, s) && Enabled(s, Callback(e))
    ensures Contents(F, Next(F, s, Callback(e)))
  {
    CallbackFinds(F, s, e);
    var i := s.events[e];
    var j := s.infos[i].cb;
    assert RecordOk(F, s.place[i], i, s.infos[i], s.events, s.freeEvents);
    RecordsMove(F, s.place, s.infos, s.events, s.freeEvents, i, Busy(j, Called), s.infos[i]);
    ActiveRemove(s.place, s.infos, s.events, s.active, e, Busy(j, Called));
    StatusCall(s.place, s.status, s.stopped, i);
    LogAppend(F, s.log, s.status, j);
    assert s.infos[i := s.infos[i]] == s.infos;
  }

  lemma ReleaseEventShelves(F: Job -> Value, s: State, i: nat)
    requires Inv(F, s) && Enabled(s, ReleaseEvent(i))
    ensures Shelves(Next(F, s, ReleaseEvent(i)))
  {
    assert RecordOk(F, s.place[i], i, s.infos[i], s.events, s.freeEvents);
    var p := Busy(s.infos[i].cb, Freeing);
    DraftsStay(s.place, s.drafts, i, p);
    FreeStays(s.place, s.freeInfos, i, p);
    StagesFollow(s, i, p);
  }

  lemma ReleaseEventRecords(F: Job -> Value, s: State, i: nat)
    requires Inv(F, s) && Enabled(s, ReleaseEvent(i))
    ensures var s' := Next(F, s, ReleaseEvent(i)); RecordsOk(F, s'.place, s'.infos, s'.events, s'.freeEvents)
  {
    var s' := Next(F, s, ReleaseEvent(i));
    assert RecordOk(F, s.place[i], i, s.infos[i], s.events, s.freeEvents);
    forall k | 0 <= k < |s'.place| ensures RecordOk(F, s'.place[k], k, s'.infos[k], s'.events, s'.freeEvents) {
      assert RecordOk(F, s.place[k], k, s.infos[k], s.events, s.freeEvents);
    }
  }

  lemma ReleaseEventContents(F: Job -> Value, s: State, i: nat)
    requires Inv(F, s) && Enabled(s, ReleaseEvent(i))
    ensures Contents(F, Next(F, s, ReleaseEvent(i)))
  {
    ReleaseEventRecords(F, s, i);
    assert RecordOk(F, s.place[i], i, s.infos[i], s.events, s.freeEvents);
    var p := Busy(s.infos[i].cb, Freeing);
    ActiveStays(s.place, s.infos, s.events, s.active, i, p, s.infos[i]);
    assert s.infos[i].ev !in s.active && s.active - {s.infos[i].ev} == s.active;
    assert s.infos[i := s.infos[i]] == s.infos;
    StatusRelease(s.place, s.status, s.stopped, i, p);
  }

  lemma ReleaseInfoKeeps(F: Job -> Value, s: State, i: nat)
    requires Inv(F, s) && Enabled(s, ReleaseInfo(i))
    ensures Inv(F, Next(F, s, ReleaseInfo(i)))
  {
    DraftsStay(s.place, s.drafts, i, Free);
    FreePush(s.place, s.freeInfos, i);
    StagesFollow(s, i, Free);
    RecordsMove(F, s.place, s.infos, s.events, s.freeEvents, i, Free, s.infos[i]);
    ActiveStays(s.place, s.infos, s.events, s.active, i, Free, s.infos[i]);
    StatusRelease(s.place, s.status, s.stopped, i, Free);
    assert s.infos[i := s.infos[i]] == s.infos;
  }

  lemma DiscardKeeps(F: Job -> Value, s: State, j: Job, i: nat)
    requires Inv(F, s) && Enabled(s, Discard(j, i))
    ensures Inv(F, Next(F, s, Discard(j, i)))
  {
    DraftsStay(s.place, s.drafts, i, Leaked);
    FreeStays(s.place, s.freeInfos, i, Leaked);
    StagesFollow(s, i, Leaked);
    RecordsMove(F, s.place, s.infos, s.events, s.freeEvents, i, Leaked, s.infos[i]);
    ActiveStays(s.place, s.infos, s.events, s.active, i, Leaked, s.infos[i]);
    StatusDrop(s.place, s.status, i);
    LogStays(F, s.log, s.status, j, Dropped);
    assert s.infos[i := s.infos[i]] == s.infos;
  }

  lemma StepKeepsInv(F: Job -> Value, s: State, x: Step)
    requires Inv(F, s) && Enabled(s, x)
    ensures Inv(F, Next(F, s, x))
  {
    match x
    case Begin(j) => BeginKeeps(F, s, j);
    case AssignEvent(j) => AssignKeeps(F, s, j);
    case Submit(j) => SubmitKeeps(F, s, j);
    case Issue(j) => IssueKeeps(F, s, j);
    case Dequeue(j, i) => DequeueKeeps(F, s, j, i);
    case Finish(j, i) => FinishKeeps(F, s, j, i);
    case Callback(e) => CallbackShelves(F, s, e); CallbackContents(F, s, e);
    case ReleaseEvent(i) => ReleaseEventShelves(F, s, i); ReleaseEventContents(F, s, i);
    case ReleaseInfo(i) => ReleaseInfoKeeps(F, s, i);
    case Stop =>
    case Discard(j, i) => DiscardKeeps(F, s, j, i);
  }

  // ----- whole runs -----

  /** The steps can be taken one after the other from s. */
  predicate Runs(F: Job -> Value, s: State, xs: seq<Step>)
    decreases |xs|
  {
    xs != [] ==> Enabled(s, xs[0]) && Runs(F, Next(F, s, xs[0]), xs[1..])
  }

  function Final(F: Job -> Value, s: State, xs: seq<Step>): State
    requires Runs(F, s, xs)
    decreases |xs|
  {
    if xs == [] then s else Final(F, Next(F, s, xs[0]), xs[1..])
  }

  /** Running on by one step. */
  lemma {:induction false} ThenStep(F: Job -> Value, s: State, xs: seq<Step>, x: Step)
    requires Runs(F, s, xs) && Enabled(Final(F, s, xs), x)
    ensures Runs(F, s, xs + [x]) && Final(F, s, xs + [x]) == Next(F, Final(F, s, xs), x)
    decreases |xs|
  {
    var ys := xs + [x];
    if xs == [] {
      assert ys == [x] && ys[1..] == [];
    } else {
      assert ys[0] == xs[0] && ys[1..] == xs[1..] + [x];
      ThenStep(F, Next(F, s, xs[0]), xs[1..], x);
    }
  }

  /** What a thread has to find to take the step. */
  predicate Possible(s: State, x: Step)
  {
    match x
    case Begin(j) => j !in s.status
    case AssignEvent(j) => j in s.drafts && !s.drafts[j].hasEvent
    case Submit(j) => j in s.drafts && s.drafts[j].hasEvent
    case Issue(j) => j in s.drafts && s.drafts[j].hasEvent
    case Dequeue(j, i) => (j, i) in s.queue
    case Finish(j, i) => (j, i) in s.workers
    case Callback(e) => e in s.active
    case ReleaseEvent(i) => i in s.calling
    case ReleaseInfo(i) => i in s.freeing
    case Stop => true
    case Discard(j, i) => s.stopped && (j, i) in s.queue
  }

  /** The index bounds in Enabled hold by themselves: no step a thread could take is left out. */
  lemma NothingBlocked(F: Job -> Value, s: State, x: Step)
    requires Inv(F, s)
    ensures Enabled(s, x) <==> Possible(s, x)
  {
  }

  lemma {:induction false} RunKeepsInv(F: Job -> Value, s: State, xs: seq<Step>)
    requires Inv(F, s) && Runs(F, s, xs)
    ensures Inv(F, Final(F, s, xs))
    decreases |xs|
  {
    if xs != [] {
      StepKeepsInv(F, s, xs[0]);
      RunKeepsInv(F, Next(F, s, xs[0]), xs[1..]);
    }
  }

  // ----- events come back -----

  /** A record in this place keeps its event. */
  predicate Keeps(p: Place)
  {
    p == Leaked || (p.Busy? && HasEvent(p.stage))
  }

  /** The event is free, or the record it points to keeps it. */
  predicate EventOk(s: State, e: nat)
    requires e < |s.events|
  {
    || e in s.freeEvents
    || (s.events[e] < |s.infos| == |s.place| && s.infos[s.events[e]].ev == e && Keeps(s.place[s.events[e]]))
  }

  ghost predicate EventsOk(s: State)
  {
    forall e: nat | e < |s.events| :: EventOk(s, e)
  }

  lemma AssignKeepsEvent(F: Job -> Value, s: State, j: Job, e: nat)
    requires Inv(F, s) && Enabled(s, AssignEvent(j)) && EventsOk(s)
    ensures var s' := Next(F, s, AssignEvent(j)); e < |s'.events| ==> EventOk(s', e)
  {
    var s' := Next(F, s, AssignEvent(j));
    if e < |s.events| {
      assert EventOk(s, e);
      assert s.freeEvents != [] ==> s.freeEvents == s'.freeEvents + [s.freeEvents[|s.freeEvents| - 1]];
    }
  }

  lemma ReleaseKeepsEvent(F: Job -> Value, s: State, i: nat, e: nat)
    requires Inv(F, s) && Enabled(s, ReleaseEvent(i)) && EventsOk(s)
    ensures var s' := Next(F, s, ReleaseEvent(i)); e < |s'.events| ==> EventOk(s', e)
  {
    if e < |s.events| {
      assert EventOk(s, e);
    }
  }

  /** A record moves on and keeps its event if it had one. */
  lemma MovedKeeps(s: State, s': State, i: nat, e: nat)
    requires e < |s.events| && EventOk(s, e) && s'.events == s.events && s'.freeEvents == s.freeEvents
    requires i < |s.infos| == |s.place| == |s'.infos| && |s'.place| == |s.place|
    requires s'.infos[i].ev == s.infos[i].ev && (Keeps(s.place[i]) ==> Keeps(s'.place[i]))
    requires forall k: nat | k < |s.place| && k != i :: s'.place[k] == s.place[k] && s'.infos[k] == s.infos[k]
    ensures EventOk(s', e)
  {
  }

  lemma BeginKeepsEvent(F: Job -> Value, s: State, j: Job, e: nat)
    requires FreeOk(s.place, s.freeInfos) && Enabled(s, Begin(j)) && e < |s.events| && EventOk(s, e)
    ensures EventOk(Next(F, s, Begin(j)), e)
  {
    if s.freeInfos != [] {
      assert s.freeInfos[|s.freeInfos| - 1] in s.freeInfos;
    }
  }

  lemma ReturnKeepsEvent(F: Job -> Value, s: State, i: nat, e: nat)
    requires SetOk(s.place, s.freeing, Freeing) && Enabled(s, ReleaseInfo(i)) && e < |s.events| && EventOk(s, e)
    ensures EventOk(Next(F, s, ReleaseInfo(i)), e)
  {
    MovedKeeps(s, Next(F, s, ReleaseInfo(i)), i, e);
  }

  /** The record the remaining steps move. */
  function Moved(s: State, x: Step): nat
    requires Enabled(s, x) && (x.Submit? || x.Issue? || x.Dequeue? || x.Finish? || x.Callback? || x.Discard?)
  {
    match x
    case Submit(j) => s.drafts[j].info
    case Issue(j) => s.drafts[j].info
    case Dequeue(_, i) => i
    case Finish(_, i) => i
    case Callback(a) => s.events[a]
    case Discard(_, i) => i
  }

  lemma MoveKeepsEvent(F: Job -> Value, s: State, x: Step, e: nat)
    requires Enabled(s, x) && (x.Submit? || x.Issue? || x.Dequeue? || x.Finish? || x.Callback? || x.Discard?)
    requires e < |s.events| && EventOk(s, e)
    ensures e < |Next(F, s, x).events| && EventOk(Next(F, s, x), e)
  {
    MovedKeeps(s, Next(F, s, x), Moved(s, x), e);
  }

  lemma StepKeepsEvent(F: Job -> Value, s: State, x: Step, e: nat)
    requires Inv(F, s) && Enabled(s, x) && EventsOk(s) && e < |Next(F, s, x).events|
    ensures EventOk(Next(F, s, x), e)
  {
    match x
    case AssignEvent(j) => AssignKeepsEvent(F, s, j, e);
    case ReleaseEvent(i) => ReleaseKeepsEvent(F, s, i, e);
    case Begin(j) => BeginKeepsEvent(F, s, j, e);
    case ReleaseInfo(i) => ReturnKeepsEvent(F, s, i, e);
    case Stop => assert EventOk(s, e);
    case _ => MoveKeepsEvent(F, s, x, e);
  }

  lemma {:induction false} RunKeepsEvents(F: Job -> Value, s: State, xs: seq<Step>)
    requires Inv(F, s) && EventsOk(s) && Runs(F, s, xs)
    ensures EventsOk(Final(F, s, xs))
    decreases |xs|
  {
    if xs != [] {
      var next := Next(F, s, xs[0]);
      StepKeepsInv(F, s, xs[0]);
      forall e: nat | e < |next.events| ensures EventOk(next, e) {
        StepKeepsEvent(F, s, xs[0], e);
      }
      RunKeepsEvents(F, next, xs[1..]);
    }
  }

  lemma InitInv(F: Job -> Value)
    ensures Inv(F, INIT)
  {
  }

  /** The job was handed to the pool. */
  predicate Dispatched(s: State, j: Job)
  {
    j in s.status
  }

  /** Nothing is under way in any thread. */
  predicate Drained(s: State)
  {
    && !s.stopped && s.drafts == map[] && s.queue == {} && s.workers == {}
    && s.active == {} && s.calling == {} && s.freeing == {}
  }

  /** In every interleaving, each callback that ran belongs to a dispatched job, ran once, and got that
      job's own result; and once everything has drained without a stop, every dispatched job's callback
      has run, and every record and every event ever allocated is free again. */
  lemma CallbacksNeverCross(F: Job -> Value, xs: seq<Step>)
    requires Runs(F, INIT, xs)
    ensures var s := Final(F, INIT, xs);
            && (forall k | 0 <= k < |s.log| :: Dispatched(s, s.log[k].0) && s.log[k].1 == F(s.log[k].0))
            && (forall a, b | 0 <= a < b < |s.log| :: s.log[a].0 != s.log[b].0)
            && (Drained(s) ==>
                  && (forall j | Dispatched(s, j) :: Logged(s.log, j))
                  && (forall i: nat | i < |s.infos| :: i in s.freeInfos)
                  && (forall e: nat | e < |s.events| :: e in s.freeEvents))
  {
    InitInv(F);
    RunKeepsInv(F, INIT, xs);
    RunKeepsEvents(F, INIT, xs);
    var s := Final(F, INIT, xs);
    forall k | 0 <= k < |s.log| ensures Dispatched(s, s.log[k].0) {
      assert Logged(s.log, s.log[k].0);
    }
    if Drained(s) {
      forall i: nat | i < |s.infos| ensures s.place[i] == Free {
        NothingBusy(F, s, i);
      }
      forall e: nat | e < |s.events| ensures e in s.freeEvents {
        assert EventOk(s, e);
      }
      forall j | Dispatched(s, j) ensures Logged(s.log, j) {
        assert s.status[j] == Done;
      }
    }
  }

  /** The steps of one job on its own, by a worker. */
  function OneJob(j: Job): seq<Step>
  {
    [Begin(j), AssignEvent(j), Submit(j), Dequeue(j, 0)] + [Finish(j, 0), Callback(0), ReleaseEvent(0), ReleaseInfo(0)]
  }

  /** Dispatched alone, a job is run, called back with its result, and its record and event are given back. */
  lemma OneJobRuns(F: Job -> Value, j: Job)
    ensures Runs(F, INIT, OneJob(j))
    ensures var s := Final(F, INIT, OneJob(j));
            Drained(s) && s.log == [(j, F(j))] && s.freeInfos == [0] && s.freeEvents == [0]
  {
    var s := State([Info(j, 0, 0)], [0], [], [], map[], {}, {(j, 0)}, {}, {}, {}, false, [],
                   [Busy(j, Running)], map[j := InFlight(0)]);
    FirstHalf(F, j, s);
    SecondHalf(F, j, s);
    Chain(F, INIT, [Begin(j), AssignEvent(j), Submit(j), Dequeue(j, 0)],
          [Finish(j, 0), Callback(0), ReleaseEvent(0), ReleaseInfo(0)]);
  }

  lemma {:induction false} Chain(F: Job -> Value, s: State, xs: seq<Step>, ys: seq<Step>)
    requires Runs(F, s, xs) && Runs(F, Final(F, s, xs), ys)
    ensures Runs(F, s, xs + ys) && Final(F, s, xs + ys) == Final(F, Final(F, s, xs), ys)
    decreases |xs|
  {
    if xs == [] {
      assert xs + ys == ys;
    } else {
      assert (xs + ys)[0] == xs[0] && (xs + ys)[1..] == xs[1..] + ys;
      Chain(F, Next(F, s, xs[0]), xs[1..], ys);
    }
  }

  lemma TwoSteps(F: Job -> Value, s: State, a: Step, b: Step, t: State)
    requires Enabled(s, a) && Next(F, s, a) == t && Enabled(t, b)
    ensures Runs(F, s, [a, b]) && Final(F, s, [a, b]) == Next(F, t, b)
  {
    ThenStep(F, s, [], a);
    ThenStep(F, s, [a], b);
    assert [] + [a] == [a] && [a] + [b] == [a, b];
  }

  lemma FourSteps(F: Job -> Value, s: State, a: Step, b: Step, c: Step, d: Step, t: State, u: State, v: State)
    requires Enabled(s, a) && Next(F, s, a) == t && Enabled(t, b) && Next(F, t, b) == u
    requires Enabled(u, c) && Next(F, u, c) == v && Enabled(v, d)
    ensures Runs(F, s, [a, b, c, d]) && Final(F, s, [a, b, c, d]) == Next(F, v, d)
  {
    TwoSteps(F, s, a, b, t);
    TwoSteps(F, u, c, d, v);
    Chain(F, s, [a, b], [c, d]);
    assert [a, b] + [c, d] == [a, b, c, d];
  }

  lemma FirstHalf(F: Job -> Value, j: Job, s: State)
    requires s == State([Info(j, 0, 0)], [0], [], [], map[], {}, {(j, 0)}, {}, {}, {}, false, [],
                        [Busy(j, Running)], map[j := InFlight(0)])
    ensures var xs := [Begin(j), AssignEvent(j), Submit(j), Dequeue(j, 0)]; Runs(F, INIT, xs) && Final(F, INIT, xs) == s
  {
    var t := Next(F, INIT, Begin(j));
    var u := Next(F, t, AssignEvent(j));
    var v := Next(F, u, Submit(j));
    FourSteps(F, INIT, Begin(j), AssignEvent(j), Submit(j), Dequeue(j, 0), t, u, v);
  }

  lemma SecondHalf(F: Job -> Value, j: Job, s: State)
    requires s == State([Info(j, 0, 0)], [0], [], [], map[], {}, {(j, 0)}, {}, {}, {}, false, [],
                        [Busy(j, Running)], map[j := InFlight(0)])
    ensures var xs := [Finish(j, 0), Callback(0), ReleaseEvent(0), ReleaseInfo(0)];
            && Runs(F, s, xs)
            && var t := Final(F, s, xs); Drained(t) && t.log == [(j, F(j))] && t.freeInfos == [0] && t.freeEvents == [0]
  {
    var t := Next(F, s, Finish(j, 0));
    var u := Next(F, t, Callback(0));
    var v := Next(F, u, ReleaseEvent(0));
    FourSteps(F, s, Finish(j, 0), Callback(0), ReleaseEvent(0), ReleaseInfo(0), t, u, v);
  }

  lemma NothingBusy(F: Job -> Value, s: State, i: nat)
    requires Inv(F, s) && Drained(s) && i < |s.infos|
    ensures s.place[i] == Free
  {
    BusySomewhere(F, s, i);
  }

  lemma BusySomewhere(F: Job -> Value, s: State, i: nat)
    requires Inv(F, s) && i < |s.infos| == |s.place|
    ensures s.place[i].Busy? ==>
              || (s.place[i].j, i) in s.queue || (s.place[i].j, i) in s.workers || s.place[i].j in s.drafts
              || s.infos[i].ev in s.active || i in s.calling || i in s.freeing
  {
    assert RecordOk(F, s.place[i], i, s.infos[i], s.events, s.freeEvents);
  }

  function RecordsOf(q: set<(Job, nat)>): set<nat>
  {
    set p | p in q :: p.1
  }

  function ActiveRecords(s: State): set<nat>
  {
    set e | e in s.active && e < |s.events| :: s.events[e]
  }

  /** At no moment is a record in two places at once: free, queued, running, activated, in its callback
      or being given back. */
  lemma RecordsNeverShared(F: Job -> Value, xs: seq<Step>)
    requires Runs(F, INIT, xs)
    ensures var s := Final(F, INIT, xs);
            && Distinct(s.freeInfos)
            && (set i | i in s.freeInfos) !! RecordsOf(s.queue) !! RecordsOf(s.workers) !! ActiveRecords(s)
               !! s.calling !! s.freeing
            && (forall p, q | p in s.queue && q in s.queue && p.1 == q.1 :: p == q)
            && (forall e, e' | e in s.active && e' in s.active && e != e' ::
                  e < |s.events| && e' < |s.events| && s.events[e] != s.events[e'])
  {
    InitInv(F);
    RunKeepsInv(F, INIT, xs);
    var s := Final(F, INIT, xs);
    QueueRecords(s.place, s.queue, Queued);
    QueueRecords(s.place, s.workers, Running);
    assert forall i | i in ActiveRecords(s) :: i < |s.place| && In(s.place[i], Active);
    assert forall i | i in s.freeInfos :: i < |s.place| && s.place[i] == Free;
  }

  lemma QueueRecords(place: seq<Place>, q: set<(Job, nat)>, stage: Stage)
    requires PairsOk(place, q, stage)
    ensures forall i | i in RecordsOf(q) :: i < |place| && In(place[i], stage)
    ensures forall p, p' | p in q && p' in q && p.1 == p'.1 :: p == p'
  {
    forall p | p in q ensures p.1 < |place| && place[p.1] == Busy(p.0, stage) {
      assert (p.0, p.1) in q;
    }
  }
}
