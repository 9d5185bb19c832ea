/** Fragments over a network that drops, duplicates and reorders packets. */
module UdpNetwork {
  import opened Bytes
  import opened Wire
  import opened UdpTransport

  // ----- the fragments of one message -----

  function NumFragments(body: seq<byte>): nat
    requires body != []
  {
    (|body| - 1) / MAX + 1
  }

  lemma {:induction false} FragmentsAt(id: nat, body: seq<byte>, n: nat, k: nat)
    requires body != [] && n <= k < NumFragments(body)
    ensures k * MAX < |body| && k - n < |FragmentsFrom(id, body, n * MAX)|
    ensures FragmentsFrom(id, body, n * MAX)[k - n] == Fragment(id, body, k * MAX)
    decreases k - n
  {
    if n < k {
      FragmentsAt(id, body, n + 1, k);
    }
  }

  lemma {:induction false} FragmentCount(id: nat, body: seq<byte>, n: nat)
    requires body != [] && n <= NumFragments(body)
    ensures |FragmentsFrom(id, body, n * MAX)| == NumFragments(body) - n
    decreases NumFragments(body) - n
  {
    if n < NumFragments(body) {
      FragmentCount(id, body, n + 1);
    }
  }

  /** What the sender hands to the socket for a large message is exactly its numbered fragments, in order. */
  lemma PacketsAreFragments(id: nat, body: seq<byte>)
    requires body != []
    ensures |FragmentsFrom(id, body, 0)| == NumFragments(body)
    ensures forall k: nat | k < NumFragments(body) ::
              k * MAX < |body| && FragmentsFrom(id, body, 0)[k] == Fragment(id, body, k * MAX)
  {
    FragmentCount(id, body, 0);
    forall k: nat | k < NumFragments(body)
      ensures k * MAX < |body| && FragmentsFrom(id, body, 0)[k] == Fragment(id, body, k * MAX)
    {
      FragmentsAt(id, body, 0, k);
    }
  }

  /** The first n pieces, put together. */
  function Joined(body: seq<byte>, n: nat): seq<byte>
    requires body != [] && n <= NumFragments(body)
  {
    if n == 0 then [] else Joined(body, n - 1) + Piece(body, (n - 1) * MAX)
  }

  /** The pieces partition the body: none overlaps, none is missing. */
  lemma {:induction false} PiecesPartition(body: seq<byte>, n: nat)
    requires body != [] && n <= NumFragments(body)
    ensures Joined(body, n) == body[..if n == NumFragments(body) then |body| else n * MAX]
  {
    if n > 0 {
      PiecesPartition(body, n - 1);
    }
  }

  // ----- one sender's packets, in arrival order -----

  datatype Run = Stopped | Ran(info: FragInfo, outs: seq<Message>)

  function RunOne(info: FragInfo, pkts: seq<seq<byte>>): Run
    decreases |pkts|
  {
    if pkts == [] then Ran(info, [])
    else match Process(info, pkts[0])
      case Dead => Stopped
      case Alive(info', out) =>
        match RunOne(info', pkts[1..])
        case Stopped => Stopped
        case Ran(last, outs) => Ran(last, (if out.Some? then [out.value] else []) + outs)
  }

  /** Fragment numbers in sending order up to the last, with any others of the message between. */
  predicate InOrder(ks: seq<nat>, n: nat, total: nat)
    requires n < total
    decreases |ks|
  {
    && ks != []
    && (if ks[0] == n then (if n + 1 == total then |ks| == 1 else InOrder(ks[1..], n + 1, total))
        else ks[0] < total && InOrder(ks[1..], n, total))
  }

  function Numbered(id: nat, body: seq<byte>, ks: seq<nat>): (pkts: seq<seq<byte>>)
    requires forall i | 0 <= i < |ks| :: ks[i] * MAX < |body|
    ensures |pkts| == |ks|
  {
    if ks == [] then [] else [Fragment(id, body, ks[0] * MAX)] + Numbered(id, body, ks[1..])
  }

  /** The buffer after the first n pieces of message id. */
  ghost predicate Collected(info: FragInfo, id: nat, body: seq<byte>, n: nat)
  {
    if n == 0 then info.id == 0 || info.id < id || info == FragInfo(id, [])
    else n * MAX < |body| && info == FragInfo(id, body[..n * MAX])
  }

  /** The next piece in order extends the buffer, or completes the message. */
  lemma NextPiece(info: FragInfo, id: nat, body: seq<byte>, m: Message, n: nat)
    requires 0 < id < TWO_64 && 0 < |body| < TWO_64 && Decode(body) == Some(m)
    requires n < NumFragments(body) && Collected(info, id, body, n)
    ensures n * MAX < |body|
    ensures n + 1 == NumFragments(body) ==> Process(info, Fragment(id, body, n * MAX)) == Alive(IDLE, Some(m))
    ensures n + 1 < NumFragments(body) ==>
              && (n + 1) * MAX < |body|
              && Process(info, Fragment(id, body, n * MAX)) == Alive(FragInfo(id, body[..(n + 1) * MAX]), None)
  {
    PieceEnds(body, n);
    ProcessFragment(info, id, body, n * MAX);
    TakePiece(info, id, body, n, m);
  }

  lemma TakePiece(info: FragInfo, id: nat, body: seq<byte>, n: nat, m: Message)
    requires 0 < id && body != [] && n < NumFragments(body) && Collected(info, id, body, n) && Decode(body) == Some(m)
    ensures n * MAX < |body|
    ensures n + 1 == NumFragments(body) ==>
              Reassemble(info, id, n * MAX, |body|, Piece(body, n * MAX)) == Alive(IDLE, Some(m))
    ensures n + 1 < NumFragments(body) ==>
              && (n + 1) * MAX < |body|
              && Reassemble(info, id, n * MAX, |body|, Piece(body, n * MAX))
                 == Alive(FragInfo(id, body[..(n + 1) * MAX]), None)
  {
    PieceEnds(body, n);
    NextData(info, id, body, n);
    assert body[..|body|] == body;
  }

  /** Where piece n of a body ends. */
  lemma PieceEnds(body: seq<byte>, n: nat)
    requires body != [] && n < NumFragments(body)
    ensures n * MAX < |body|
    ensures n + 1 == NumFragments(body) ==> Piece(body, n * MAX) == body[n * MAX..]
    ensures n + 1 < NumFragments(body) ==>
              (n + 1) * MAX < |body| && Piece(body, n * MAX) == body[n * MAX..(n + 1) * MAX]
  {
  }

  lemma NextData(info: FragInfo, id: nat, body: seq<byte>, n: nat)
    requires 0 < id && body != [] && n < NumFragments(body) && Collected(info, id, body, n)
    ensures n * MAX < |body| && Begin(info, id).id == id && Begin(info, id).data == body[..n * MAX]
    ensures Begin(info, id).data + Piece(body, n * MAX) ==
            body[..if n + 1 < NumFragments(body) && (n + 1) * MAX < |body| then (n + 1) * MAX else |body|]
  {
    PieceEnds(body, n);
  }

  /** A fragment of the message in progress that does not continue it, early or repeated, is ignored: the
      data collected so far stays. */
  lemma OtherPieceIgnored(info: FragInfo, id: nat, body: seq<byte>, start: nat)
    requires 0 < id < TWO_64 && start < |body| < TWO_64 && info.id == id && start != |info.data|
    ensures Process(info, Fragment(id, body, start)) == Alive(info, None)
  {
    ProcessFragment(info, id, body, start);
  }

  /** At most it makes the buffer turn from an older message to this one. */
  lemma OtherPiece(info: FragInfo, id: nat, body: seq<byte>, n: nat, k: nat)
    requires 0 < id < TWO_64 && 0 < |body| < TWO_64 && k != n && k < NumFragments(body)
    requires n < NumFragments(body) && Collected(info, id, body, n)
    ensures k * MAX < |body|
    ensures Process(info, Fragment(id, body, k * MAX)) == Alive(Begin(info, id), None)
    ensures Collected(Begin(info, id), id, body, n)
  {
    PieceEnds(body, k);
    NextData(info, id, body, n);
    ProcessFragment(info, id, body, k * MAX);
  }

  lemma {:induction false} DeliverFrom(info: FragInfo, id: nat, body: seq<byte>, m: Message, ks: seq<nat>, n: nat)
    requires 0 < id < TWO_64 && 0 < |body| < TWO_64 && Decode(body) == Some(m)
    requires n < NumFragments(body) && Collected(info, id, body, n) && InOrder(ks, n, NumFragments(body))
    ensures Delivers(info, id, body, ks, m)
    decreases |ks|
  {
    if ks[0] != n {
      OtherPiece(info, id, body, n, ks[0]);
      DeliverFrom(Begin(info, id), id, body, m, ks[1..], n);
      RunFirst(info, id, body, ks, Begin(info, id), None, IDLE, [m]);
    } else if n + 1 < NumFragments(body) {
      PieceEnds(body, n);
      DeliverFrom(FragInfo(id, body[..(n + 1) * MAX]), id, body, m, ks[1..], n + 1);
      DeliverNext(info, id, body, m, ks, n);
    } else {
      DeliverLast(info, id, body, m, ks, n);
    }
  }

  ghost predicate Delivers(info: FragInfo, id: nat, body: seq<byte>, ks: seq<nat>, m: Message)
  {
    && (forall i | 0 <= i < |ks| :: ks[i] * MAX < |body|)
    && RunOne(info, Numbered(id, body, ks)) == Ran(IDLE, [m])
  }

  lemma DeliverNext(info: FragInfo, id: nat, body: seq<byte>, m: Message, ks: seq<nat>, n: nat)
    requires 0 < id < TWO_64 && 0 < |body| < TWO_64 && Decode(body) == Some(m) && Collected(info, id, body, n)
    requires ks != [] && ks[0] == n && n + 1 < NumFragments(body) && (n + 1) * MAX < |body|
    requires Delivers(FragInfo(id, body[..(n + 1) * MAX]), id, body, ks[1..], m)
    ensures Delivers(info, id, body, ks, m)
  {
    NextPiece(info, id, body, m, n);
    RunFirst(info, id, body, ks, FragInfo(id, body[..(n + 1) * MAX]), None, IDLE, [m]);
  }

  lemma DeliverLast(info: FragInfo, id: nat, body: seq<byte>, m: Message, ks: seq<nat>, n: nat)
    requires 0 < id < TWO_64 && 0 < |body| < TWO_64 && Decode(body) == Some(m) && Collected(info, id, body, n)
    requires ks == [n] && n + 1 == NumFragments(body)
    ensures Delivers(info, id, body, ks, m)
  {
    NextPiece(info, id, body, m, n);
    RunFirst(info, id, body, ks, IDLE, Some(m), IDLE, []);
  }

  lemma RunFirst(info: FragInfo, id: nat, body: seq<byte>, ks: seq<nat>,
                 info': FragInfo, out: Option<Message>, last: FragInfo, outs: seq<Message>)
    requires ks != [] && ks[0] * MAX < |body| && forall i | 0 <= i < |ks[1..]| :: ks[1..][i] * MAX < |body|
    requires Process(info, Fragment(id, body, ks[0] * MAX)) == Alive(info', out)
    requires RunOne(info', Numbered(id, body, ks[1..])) == Ran(last, outs)
    ensures forall i | 0 <= i < |ks| :: ks[i] * MAX < |body|
    ensures RunOne(info, Numbered(id, body, ks)) == Ran(last, (if out.Some? then [out.value] else []) + outs)
  {
    Unfold(info, id, body, ks);
  }

  /** If the fragments of one message arrive in sending order, with any others of its own fragments
      between, repeated or early, at a buffer that is idle or busy with an older message, the message is
      decoded once, at the last fragment, to what was sent. */
  lemma InOrderDelivery(info: FragInfo, id: nat, m: Message, ks: seq<nat>, n: nat)
    requires Sendable(m) && 0 < id < TWO_64 && n < NumFragments(Body(m))
    requires Collected(info, id, Body(m), n) && InOrder(ks, n, NumFragments(Body(m)))
    ensures forall i | 0 <= i < |ks| :: ks[i] * MAX < |Body(m)|
    ensures RunOne(info, Numbered(id, Body(m), ks)) == Ran(IDLE, [m])
  {
    DecodeBody(m);
    DeliverFrom(info, id, Body(m), m, ks, n);
  }

  lemma Unfold(info: FragInfo, id: nat, body: seq<byte>, ks: seq<nat>)
    requires ks != [] && ks[0] * MAX < |body| && forall i | 0 <= i < |ks[1..]| :: ks[1..][i] * MAX < |body|
    ensures forall i | 0 <= i < |ks| :: ks[i] * MAX < |body|
    ensures var pkts := Numbered(id, body, ks);
            pkts[0] == Fragment(id, body, ks[0] * MAX) && pkts[1..] == Numbered(id, body, ks[1..])
  {
    forall i | 0 <= i < |ks| ensures ks[i] * MAX < |body| {
      if i > 0 {
        assert ks[i] == ks[1..][i - 1];
      }
    }
  }

  // ----- all senders at once -----

  datatype Arrival = Arrival(sender: Addr, pkt: seq<byte>)
  datatype RunAll = AllStopped | AllRan(infos: map<Addr, FragInfo>, log: seq<(Addr, Message)>)

  function InfoOf(infos: map<Addr, FragInfo>, a: Addr): FragInfo
  {
    if a in infos then infos[a] else IDLE
  }

  function Receive(infos: map<Addr, FragInfo>, arrivals: seq<Arrival>): RunAll
    decreases |arrivals|
  {
    if arrivals == [] then AllRan(infos, [])
    else
      var a := arrivals[0].sender;
      match Process(InfoOf(infos, a), arrivals[0].pkt)
      case Dead => AllStopped
      case Alive(info, out) =>
        match Receive(infos[a := info], arrivals[1..])
        case AllStopped => AllStopped
        case AllRan(last, log) => AllRan(last, (if out.Some? then [(a, out.value)] else []) + log)
  }

  function PacketsOf(arrivals: seq<Arrival>, a: Addr): seq<seq<byte>>
  {
    if arrivals == [] then []
    else (if arrivals[0].sender == a then [arrivals[0].pkt] else []) + PacketsOf(arrivals[1..], a)
  }

  function MessagesOf(log: seq<(Addr, Message)>, a: Addr): seq<Message>
  {
    if log == [] then [] else (if log[0].0 == a then [log[0].1] else []) + MessagesOf(log[1..], a)
  }

  /** Senders do not affect each other: for every sender, whatever the others send and however it is
      interleaved, buffer and messages are those of its own packets alone. */
  lemma {:induction false} SendersIndependent(infos: map<Addr, FragInfo>, arrivals: seq<Arrival>, a: Addr)
    requires Receive(infos, arrivals).AllRan?
    ensures var r := Receive(infos, arrivals);
            RunOne(InfoOf(infos, a), PacketsOf(arrivals, a)) == Ran(InfoOf(r.infos, a), MessagesOf(r.log, a))
    decreases |arrivals|
  {
    if arrivals != [] {
      var b := arrivals[0].sender;
      var step := Process(InfoOf(infos, b), arrivals[0].pkt);
      var infos' := infos[b := step.info];
      SendersIndependent(infos', arrivals[1..], a);
      var rest := Receive(infos', arrivals[1..]);
      FirstMessage(b, step.out, rest.log, a);
      if b == a {
        FirstPacket(arrivals, a);
      } else {
        assert [] + PacketsOf(arrivals[1..], a) == PacketsOf(arrivals[1..], a);
      }
    }
  }

  lemma FirstPacket(arrivals: seq<Arrival>, a: Addr)
    requires arrivals != [] && arrivals[0].sender == a
    ensures var pkts := PacketsOf(arrivals, a);
            pkts != [] && pkts[0] == arrivals[0].pkt && pkts[1..] == PacketsOf(arrivals[1..], a)
  {
  }

  lemma FirstMessage(b: Addr, out: Option<Message>, log: seq<(Addr, Message)>, a: Addr)
    ensures var first := if out.Some? then [(b, out.value)] else [];
            MessagesOf(first + log, a) == (if b == a && out.Some? then [out.value] else []) + MessagesOf(log, a)
  {
    if out.Some? {
      assert ([(b, out.value)] + log)[1..] == log;
    } else {
      assert [] + log == log;
    }
  }

  // ----- whole runs: senders send, the network delivers anything ever sent, any number of times -----

  datatype State = State(
    large: map<(Addr, nat), Message>,    // messages sent in fragments, by sender and id
    small: set<(Addr, Message)>,         // messages sent in one packet
    infos: map<Addr, FragInfo>,          // the receiver's buffers
    log: seq<(Addr, Message)>)           // messages the receiver has decoded

  datatype Action =
    | SendSmall(a: Addr, m: Message)
    | SendLarge(a: Addr, id: nat, m: Message)
    | DeliverSmall(a: Addr, m: Message)
    | DeliverFragment(a: Addr, id: nat, k: nat)

  const INIT := State(map[], {}, map[], [])

  /** A sender numbers its fragmented messages upwards from 1. */
  predicate Enabled(s: State, x: Action)
  {
    match x
    case SendSmall(a, m) => Sendable(m) && |Packet(m)| <= MAX
    case SendLarge(a, id, m) =>
      && Sendable(m) && |Packet(m)| > MAX && 0 < id < TWO_64
      && forall key | key in s.large :: key.0 == a ==> key.1 < id
    case DeliverSmall(a, m) => (a, m) in s.small
    case DeliverFragment(a, id, k) => (a, id) in s.large && k < NumFragments(Body(s.large[(a, id)]))
  }

  /** None if an assertion of the receiver fails. */
  function Next(s: State, x: Action): Option<State>
    requires Enabled(s, x)
  {
    match x
    case SendSmall(a, m) => Some(s.(small := s.small + {(a, m)}))
    case SendLarge(a, id, m) => Some(s.(large := s.large[(a, id) := m]))
    case DeliverSmall(a, m) => Delivered(s, a, Process(InfoOf(s.infos, a), Packet(m)))
    case DeliverFragment(a, id, k) =>
      var body := Body(s.large[(a, id)]);
      Delivered(s, a, Process(InfoOf(s.infos, a), Fragment(id, body, k * MAX)))
  }

  function Delivered(s: State, a: Addr, r: Result): Option<State>
  {
    match r
    case Dead => None
    case Alive(info, out) =>
      Some(s.(infos := s.infos[a := info], log := s.log + if out.Some? then [(a, out.value)] else []))
  }

  /** The message was sent by that sender. */
  ghost predicate WasSent(s: State, a: Addr, m: Message)
  {
    (a, m) in s.small || exists key | key in s.large :: key.0 == a && s.large[key] == m
  }

  /** A busy buffer is a proper prefix of the body its sender sent under the current id. */
  ghost predicate GoodBuffer(s: State, a: Addr)
  {
    var info := InfoOf(s.infos, a);
    if info.id == 0 then info.data == []
    else (a, info.id) in s.large && info.data < Body(s.large[(a, info.id)])
  }

  ghost predicate Inv(s: State)
  {
    && (forall key | key in s.large :: 0 < key.1 < TWO_64 && Sendable(s.large[key]))
    && (forall p | p in s.small :: Sendable(p.1))
    && (forall a :: GoodBuffer(s, a))
    && (forall i | 0 <= i < |s.log| :: WasSent(s, s.log[i].0, s.log[i].1))
  }

  /** A genuine fragment that reaches a good buffer: it stops the receiver exactly if it is older than
      the message in progress; otherwise the buffer stays good, and what comes out is what was sent. */
  lemma FragmentStep(info: FragInfo, id: nat, m: Message, k: nat)
    requires Sendable(m) && 0 < id < TWO_64 && k < NumFragments(Body(m))
    requires info.id == 0 ==> info.data == []
    requires info.id == id ==> info.data < Body(m)
    ensures k * MAX < |Body(m)|
    ensures var r := Process(info, Fragment(id, Body(m), k * MAX));
            && (r.Dead? <==> id < info.id)
            && (r.Alive? ==>
                  && (r.out.Some? ==> r.out.value == m)
                  && (r.info.id == 0 ==> r.info.data == [])
                  && (r.info.id != 0 ==> r.info.id == id && r.info.data < Body(m)))
  {
    ProcessFragment(info, id, Body(m), k * MAX);
    DecodeBody(m);
    ReassembleStep(info, id, Body(m), k * MAX, m);
  }

  lemma ReassembleStep(info: FragInfo, id: nat, body: seq<byte>, start: nat, m: Message)
    requires id > 0 && start < |body| && Decode(body) == Some(m)
    requires info.id == 0 ==> info.data == []
    requires info.id == id ==> info.data < body
    ensures var r := Reassemble(info, id, start, |body|, Piece(body, start));
            && (r.Dead? <==> id < info.id)
            && (r.Alive? ==>
                  && (r.out.Some? ==> r.out.value == m)
                  && (r.info.id == 0 ==> r.info.data == [])
                  && (r.info.id != 0 ==> r.info.id == id && r.info.data < body))
  {
    var now := Begin(info, id);
    if id >= info.id && start == |now.data| {
      var data := now.data + Piece(body, start);
      assert data == body[..|data|];
      if |data| == |body| {
        assert data == body;
      }
    }
  }

  lemma StepKeepsInv(s: State, x: Action)
    requires Inv(s) && Enabled(s, x) && Next(s, x).Some?
    ensures Inv(Next(s, x).value)
  {
    match x
    case SendSmall(a, m) => Carry(s, Next(s, x).value);
    case SendLarge(a, id, m) => Carry(s, Next(s, x).value);
    case DeliverSmall(a, m) =>
      var info := InfoOf(s.infos, a);
      ProcessSmall(info, m);
      assert GoodBuffer(s, a);
      DeliveryKeepsInv(s, a, info, Some(m));
    case DeliverFragment(a, id, k) =>
      var info, m := InfoOf(s.infos, a), s.large[(a, id)];
      assert GoodBuffer(s, a);
      FragmentStep(info, id, m, k);
      var r := Process(info, Fragment(id, Body(m), k * MAX));
      DeliveryKeepsInv(s, a, r.info, r.out);
  }

  /** A delivery that leaves the sender's own buffer good and hands out one of its messages. */
  lemma DeliveryKeepsInv(s: State, a: Addr, info: FragInfo, out: Option<Message>)
    requires Inv(s) && (out.Some? ==> WasSent(s, a, out.value))
    requires if info.id == 0 then info.data == []
             else (a, info.id) in s.large && info.data < Body(s.large[(a, info.id)])
    ensures Inv(Delivered(s, a, Alive(info, out)).value)
  {
    var s' := Delivered(s, a, Alive(info, out)).value;
    forall b ensures GoodBuffer(s', b) {
      assert GoodBuffer(s, b);
    }
    forall i | 0 <= i < |s'.log| ensures WasSent(s', s'.log[i].0, s'.log[i].1) {
      if i < |s.log| {
        assert WasSent(s, s.log[i].0, s.log[i].1);
      } else {
        assert WasSent(s, a, out.value);
      }
    }
  }

  /** Sending more keeps everything that was true of buffers and log. */
  lemma Carry(s: State, s': State)
    requires Inv(s) && s'.infos == s.infos && s'.log == s.log && s.small <= s'.small
    requires forall key | key in s.large :: key in s'.large && s'.large[key] == s.large[key]
    ensures forall a :: GoodBuffer(s', a)
    ensures forall i | 0 <= i < |s'.log| :: WasSent(s', s'.log[i].0, s'.log[i].1)
  {
    forall a ensures GoodBuffer(s', a) {
      assert GoodBuffer(s, a);
    }
    forall i | 0 <= i < |s'.log| ensures WasSent(s', s'.log[i].0, s'.log[i].1) {
      assert WasSent(s, s.log[i].0, s.log[i].1);
    }
  }

  /** The state after a run, unless an action was impossible or the receiver stopped. */
  function Exec(s: State, xs: seq<Action>): Option<State>
    decreases |xs|
  {
    if xs == [] then Some(s)
    else if !Enabled(s, xs[0]) then None
    else match Next(s, xs[0])
      case None => None
      case Some(s') => Exec(s', xs[1..])
  }

  lemma {:induction false} ExecKeepsInv(s: State, xs: seq<Action>)
    requires Inv(s) && Exec(s, xs).Some?
    ensures Inv(Exec(s, xs).value)
    decreases |xs|
  {
    if xs != [] {
      StepKeepsInv(s, xs[0]);
      ExecKeepsInv(Next(s, xs[0]).value, xs[1..]);
    }
  }

  /** In every run that does not stop, each sender's buffer is a proper prefix of the body it sent under
      the current id, and every message decoded was sent by that very sender. */
  lemma ReassemblySafe(xs: seq<Action>)
    requires Exec(INIT, xs).Some?
    ensures var s := Exec(INIT, xs).value;
            && (forall a :: GoodBuffer(s, a))
            && (forall i | 0 <= i < |s.log| :: WasSent(s, s.log[i].0, s.log[i].1))
  {
    ExecKeepsInv(INIT, xs);
  }

  /** The packet an action brings to the receiver, if any. */
  function Brings(s: State, x: Action): seq<Arrival>
    requires Enabled(s, x)
  {
    match x
    case DeliverSmall(a, m) => [Arrival(a, Packet(m))]
    case DeliverFragment(a, id, k) => [Arrival(a, Fragment(id, Body(s.large[(a, id)]), k * MAX))]
    case _ => []
  }

  function Arrivals(s: State, xs: seq<Action>): seq<Arrival>
    requires Exec(s, xs).Some?
    decreases |xs|
  {
    if xs == [] then [] else Brings(s, xs[0]) + Arrivals(Next(s, xs[0]).value, xs[1..])
  }

  lemma {:induction false} RunReceives(s: State, xs: seq<Action>)
    requires Exec(s, xs).Some?
    ensures var r := Receive(s.infos, Arrivals(s, xs));
            r.AllRan? && r.infos == Exec(s, xs).value.infos && Exec(s, xs).value.log == s.log + r.log
    decreases |xs|
  {
    if xs != [] {
      var s' := Next(s, xs[0]).value;
      RunReceives(s', xs[1..]);
      FirstArrival(s, xs[0], Arrivals(s', xs[1..]));
    }
  }

  lemma FirstArrival(s: State, x: Action, rest: seq<Arrival>)
    requires Enabled(s, x) && Next(s, x).Some?
    ensures var s' := Next(s, x).value;
            var r, r' := Receive(s.infos, Brings(s, x) + rest), Receive(s'.infos, rest);
            r'.AllRan? ==> r.AllRan? && r.infos == r'.infos && s.log + r.log == s'.log + r'.log
  {
    match x
    case DeliverSmall(a, m) => ReceiveFirst(s, a, Packet(m), Next(s, x).value, rest);
    case DeliverFragment(a, id, k) =>
      ReceiveFirst(s, a, Fragment(id, Body(s.large[(a, id)]), k * MAX), Next(s, x).value, rest);
    case _ => assert [] + rest == rest;
  }

  lemma ReceiveFirst(s: State, a: Addr, pkt: seq<byte>, s': State, rest: seq<Arrival>)
    requires Delivered(s, a, Process(InfoOf(s.infos, a), pkt)) == Some(s')
    ensures var r, r' := Receive(s.infos, [Arrival(a, pkt)] + rest), Receive(s'.infos, rest);
            r'.AllRan? ==> r.AllRan? && r.infos == r'.infos && s.log + r.log == s'.log + r'.log
  {
    var all := [Arrival(a, pkt)] + rest;
    assert all[0] == Arrival(a, pkt) && all[1..] == rest;
  }

  /** In every run that does not stop, what the receiver has decoded from a sender is what the packets that
      came from that sender decode to, in the order in which they came. */
  lemma LogIsDecoded(xs: seq<Action>, a: Addr)
    requires Exec(INIT, xs).Some?
    ensures var s := Exec(INIT, xs).value;
            RunOne(IDLE, PacketsOf(Arrivals(INIT, xs), a)) == Ran(InfoOf(s.infos, a), MessagesOf(s.log, a))
  {
    RunReceives(INIT, xs);
    SendersIndependent(INIT.infos, Arrivals(INIT, xs), a);
    var r := Receive(INIT.infos, Arrivals(INIT, xs));
    assert [] + r.log == r.log;
  }

  /** On a network that only delivers what was sent, the receiver stops exactly when a fragment arrives
      that is older than the message in progress. */
  lemma StopsIff(s: State, x: Action)
    requires Inv(s) && Enabled(s, x)
    ensures Next(s, x).None? <==> x.DeliverFragment? && x.id < InfoOf(s.infos, x.a).id
  {
    match x
    case SendSmall(a, m) =>
    case SendLarge(a, id, m) =>
    case DeliverSmall(a, m) =>
      ProcessSmall(InfoOf(s.infos, a), m);
    case DeliverFragment(a, id, k) =>
      assert GoodBuffer(s, a);
      FragmentStep(InfoOf(s.infos, a), id, s.large[(a, id)], k);
  }

  /** The run goes up to its last action, and that one stops the receiver. */
  ghost predicate StopsLast(s: State, xs: seq<Action>)
  {
    && xs != []
    && var before := Exec(s, xs[..|xs| - 1]);
       before.Some? && Enabled(before.value, xs[|xs| - 1]) && Next(before.value, xs[|xs| - 1]).None?
  }

  lemma StopsLater(s: State, x: Action, xs: seq<Action>)
    requires Inv(s) && Enabled(s, x) && Next(s, x).Some? && StopsLast(Next(s, x).value, xs)
    ensures StopsLast(s, [x] + xs)
  {
    ExecStep(s, x, xs[..|xs| - 1]);
    assert ([x] + xs)[..|xs|] == [x] + xs[..|xs| - 1];
  }

  /** Plain reordering of two fragmented messages of one sender is enough: a fragment of the newer one,
      then one of the older. */
  lemma LateFragmentStops(s: State, a: Addr, id: nat, id': nat)
    requires Inv(s) && (a, id) in s.large && (a, id') in s.large && id < id'
    requires a !in s.infos && NumFragments(Body(s.large[(a, id')])) > 1
    ensures StopsLast(s, [DeliverFragment(a, id', 0), DeliverFragment(a, id, 0)])
  {
    var x, y := DeliverFragment(a, id', 0), DeliverFragment(a, id, 0);
    DecodeBody(s.large[(a, id')]);
    NextPiece(IDLE, id', Body(s.large[(a, id')]), s.large[(a, id')], 0);
    StepKeepsInv(s, x);
    StopsIff(Next(s, x).value, y);
    assert [y][..0] == [];
    StopsLater(s, x, [y]);
    assert [x] + [y] == [x, y];
  }

  /** From the start: one sender sends two messages in fragments, and the network delivers the first
      fragment of the second one before the first fragment of the first. */
  lemma ReorderedRunStops(a: Addr, m: Message, m': Message)
    requires Sendable(m) && Sendable(m') && |Body(m)| > MAX && |Body(m')| > MAX
    ensures StopsLast(INIT, [SendLarge(a, 1, m), SendLarge(a, 2, m'), DeliverFragment(a, 2, 0), DeliverFragment(a,
              1, 0)])
  {
    TwoSentInv(a, m, m');
    LateFragmentStops(TwoSent(a, m, m'), a, 1, 2);
    AfterSending(a, m, m', [DeliverFragment(a, 2, 0), DeliverFragment(a, 1, 0)]);
    FourActions(SendLarge(a, 1, m), SendLarge(a, 2, m'), DeliverFragment(a, 2, 0), DeliverFragment(a, 1, 0));
  }

  lemma AfterSending(a: Addr, m: Message, m': Message, xs: seq<Action>)
    requires Sendable(m) && Sendable(m') && |Body(m)| > MAX && |Body(m')| > MAX && StopsLast(TwoSent(a, m, m'), xs)
    ensures StopsLast(INIT, [SendLarge(a, 1, m)] + ([SendLarge(a, 2, m')] + xs))
  {
    TwoSentInv(a, m, m');
    StopsLater(INIT.(large := map[(a, 1) := m]), SendLarge(a, 2, m'), xs);
    StopsLater(INIT, SendLarge(a, 1, m), [SendLarge(a, 2, m')] + xs);
  }

  lemma FourActions(x: Action, y: Action, z: Action, w: Action)
    ensures [x] + ([y] + [z, w]) == [x, y, z, w]
  {
  }

  function TwoSent(a: Addr, m: Message, m': Message): State
  {
    INIT.(large := map[(a, 1) := m, (a, 2) := m'])
  }

  lemma TwoSentInv(a: Addr, m: Message, m': Message)
    requires Sendable(m) && Sendable(m') && |Body(m)| > MAX && |Body(m')| > MAX
    ensures var s := INIT.(large := map[(a, 1) := m]);
            && Inv(INIT) && Inv(s) && Inv(TwoSent(a, m, m'))
            && Enabled(INIT, SendLarge(a, 1, m)) && Next(INIT, SendLarge(a, 1, m)) == Some(s)
            && Enabled(s, SendLarge(a, 2, m')) && Next(s, SendLarge(a, 2, m')) == Some(TwoSent(a, m, m'))
    ensures NumFragments(Body(m')) > 1
  {
    assert |Packet(m)| == 4 + |Body(m)| && |Packet(m')| == 4 + |Body(m')|;
  }

  lemma ExecStep(s: State, x: Action, xs: seq<Action>)
    requires Inv(s) && Enabled(s, x) && Next(s, x).Some?
    ensures Inv(Next(s, x).value) && Exec(s, [x] + xs) == Exec(Next(s, x).value, xs)
  {
    StepKeepsInv(s, x);
    assert ([x] + xs)[1..] == xs;
  }
}
