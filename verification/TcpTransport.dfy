/** Message framing over a byte stream: the frame writer and the reader that drains whatever has
    arrived so far. */
module TcpTransport {
  import opened Bytes
  import opened Wire

  const MAGIC := 0x06121983
  const MAX_FRAME := 1073741826
  const HEADER := 28

  function FrameSize(m: Message): nat
  {
    HEADER + |m.kind| + |m.data|
  }

  /** magic, total length, type length, type, data length, data. */
  function Frame(m: Message): (f: seq<byte>)
    ensures |f| == FrameSize(m)
  {
    Le(MAGIC, 4) + Le(FrameSize(m), 8) + Le(|m.kind|, 8) + m.kind + Le(|m.data|, 8) + m.data
  }

  /** What the writer's and the reader's assertions let through. */
  predicate Sendable(m: Message)
  {
    m.data != [] && FrameSize(m) < MAX_FRAME
  }

  /** The writer: fills the buffer field by field through a moving pointer. It stops on its assertion
      if the payload is empty. */
  method WriteFrame(m: Message) returns (ok: bool, out: seq<byte>)
    ensures ok <==> m.data != []
    ensures ok ==> out == Frame(m)
  {
    var total := |m.kind| + 8 + |m.data| + 8 + 8 + 4;
    var buf := new byte[total];
    var ptr := Append(buf, 0, Le(MAGIC, 4));
    ptr := Append(buf, ptr, Le(total, 8));
    ptr := Append(buf, ptr, Le(|m.kind|, 8));
    ptr := Append(buf, ptr, m.kind);
    ptr := Append(buf, ptr, Le(|m.data|, 8));
    if !(ptr < total) {
      return false, [];
    }
    ptr := Append(buf, ptr, m.data);
    assert [] + Le(MAGIC, 4) == Le(MAGIC, 4);
    return true, buf[..ptr];
  }

  // ----- one turn of the reader -----

  /** Wait for more bytes, stop on an assertion, or take one message of the given size. */
  datatype Turn = Wait | Stop | Take(msg: Message, size: nat)

  function Parse(buf: seq<byte>): Turn
  {
    if |buf| < 4 then Wait
    else if Val(buf[..4]) != MAGIC then Stop
    else if |buf| < 12 then Wait
    else
      var total := Val(buf[4..12]);
      if total >= MAX_FRAME then Stop
      else if |buf| < total then Wait
      else ParseBody(buf, total)
  }

  function ParseBody(buf: seq<byte>, total: nat): Turn
    requires total <= |buf|
  {
    if 20 >= total then Stop
    else
      var typeLen := Val(buf[12..20]);
      if 20 + typeLen >= total || 28 + typeLen >= total then Stop
      else
        var msgLen := Val(buf[20 + typeLen..28 + typeLen]);
        if 28 + typeLen + msgLen > total then Stop
        else Take(Message(buf[20..20 + typeLen], buf[28 + typeLen..28 + typeLen + msgLen]), total)
  }

  /** A turn that takes a message consumes at least one byte, and none that is not there. */
  lemma TakeSize(buf: seq<byte>)
    requires Parse(buf).Take?
    ensures 0 < Parse(buf).size <= |buf|
  {
  }

  /** Once a turn is decided, later bytes do not change it. */
  lemma ParseStable(x: seq<byte>, y: seq<byte>)
    requires !Parse(x).Wait?
    ensures Parse(x + y) == Parse(x)
  {
    var z := x + y;
    assert z[..4] == x[..4];
    if Val(x[..4]) == MAGIC {
      assert z[4..12] == x[4..12];
      var total := Val(x[4..12]);
      if total < MAX_FRAME && 20 < total {
        assert z[12..20] == x[12..20];
        var typeLen := Val(x[12..20]);
        if 28 + typeLen < total {
          assert z[20 + typeLen..28 + typeLen] == x[20 + typeLen..28 + typeLen];
          var msgLen := Val(x[20 + typeLen..28 + typeLen]);
          if 28 + typeLen + msgLen <= total {
            assert z[20..20 + typeLen] == x[20..20 + typeLen];
            assert z[28 + typeLen..28 + typeLen + msgLen] == x[28 + typeLen..28 + typeLen + msgLen];
          }
        }
      }
    }
  }

  // ----- draining the buffer -----

  /** Messages delivered so far and, unless an assertion stopped the process, the bytes kept. */
  datatype Reader = Reader(delivered: seq<Message>, stopped: bool, kept: seq<byte>)

  function Drain(r: Reader): Reader
    decreases |r.kept|
  {
    if r.stopped then r
    else match Parse(r.kept)
      case Wait => r
      case Stop => Reader(r.delivered, true, [])
      case Take(msg, size) =>
        TakeSize(r.kept);
        Drain(Reader(r.delivered + [msg], false, r.kept[size..]))
  }

  function Arrive(r: Reader, chunk: seq<byte>): Reader
  {
    if r.stopped then r else Drain(r.(kept := r.kept + chunk))
  }

  function ArriveAll(r: Reader, chunks: seq<seq<byte>>): Reader
    decreases |chunks|
  {
    if chunks == [] then r else ArriveAll(Arrive(r, chunks[0]), chunks[1..])
  }

  function Concat(chunks: seq<seq<byte>>): seq<byte>
  {
    if chunks == [] then [] else chunks[0] + Concat(chunks[1..])
  }

  /** The reader's callback. */
  class Connection {
    var input: seq<byte>
    var received: seq<Message>
    var stopped: bool

    constructor ()
      ensures State() == Reader([], false, [])
    {
      input, received, stopped := [], [], false;
    }

    function State(): Reader
      reads this
    {
      Reader(received, stopped, if stopped then [] else input)
    }

    /** Bytes arrive and the callback drains what it can. */
    method Readable(chunk: seq<byte>)
      modifies this
      ensures State() == Arrive(old(State()), chunk)
    {
      if stopped {
        return;
      }
      input := input + chunk;
      ghost var goal := Drain(State());
      while |input| > 0 && !stopped
        invariant Drain(State()) == goal
        decreases |input|, !stopped
      {
        if |input| < 4 {
          return;
        }
        if Val(input[..4]) != MAGIC {
          stopped := true;
          return;
        }
        if |input| < 12 {
          return;
        }
        var total := Val(input[4..12]);
        if total >= MAX_FRAME {
          stopped := true;
          return;
        }
        if |input| < total {
          return;
        }
        var turn := ParseBody(input, total);
        if turn.Stop? {
          stopped := true;
          return;
        }
        received := received + [turn.msg];
        input := input[total..];
      }
    }
  }

  // ----- the outcome depends only on the bytes, not on how they are cut -----

  lemma {:induction false} DrainThenArrive(r: Reader, y: seq<byte>)
    requires !r.stopped
    ensures Arrive(Drain(r), y) == Drain(r.(kept := r.kept + y))
    decreases |r.kept|
  {
    match Parse(r.kept)
    case Wait =>
    case Stop => ParseStable(r.kept, y);
    case Take(msg, size) =>
      TakeSize(r.kept);
      ParseStable(r.kept, y);
      assert (r.kept + y)[size..] == r.kept[size..] + y;
      DrainThenArrive(Reader(r.delivered + [msg], false, r.kept[size..]), y);
  }

  lemma {:induction false} DrainIdempotent(r: Reader)
    ensures Drain(Drain(r)) == Drain(r)
    decreases |r.kept|
  {
    if !r.stopped && Parse(r.kept).Take? {
      TakeSize(r.kept);
      DrainIdempotent(Reader(r.delivered + [Parse(r.kept).msg], false, r.kept[Parse(r.kept).size..]));
    }
  }

  /** Nothing is left to do in the reader. */
  ghost predicate Settled(r: Reader)
  {
    Drain(r) == r
  }

  lemma TwoArrivals(r: Reader, x: seq<byte>, y: seq<byte>)
    requires Settled(r)
    ensures Settled(Arrive(r, x)) && Arrive(Arrive(r, x), y) == Arrive(r, x + y)
  {
    if !r.stopped {
      var s := r.(kept := r.kept + x);
      DrainIdempotent(s);
      DrainThenArrive(s, y);
      assert r.kept + (x + y) == s.kept + y;
    }
  }

  lemma NoArrival(r: Reader)
    requires Settled(r)
    ensures Arrive(r, []) == r
  {
    assert r.kept + [] == r.kept;
  }

  /** For every byte stream, well-formed or not, and every way of cutting it into arrivals, the
      reader ends exactly as if all bytes had come at once. */
  lemma {:induction false} ChunkingIrrelevant(r: Reader, chunks: seq<seq<byte>>)
    requires Settled(r)
    ensures ArriveAll(r, chunks) == Arrive(r, Concat(chunks))
    decreases |chunks|
  {
    if chunks == [] {
      NoArrival(r);
    } else {
      var x, y := chunks[0], Concat(chunks[1..]);
      TwoArrivals(r, x, y);
      ChunkingIrrelevant(Arrive(r, x), chunks[1..]);
    }
  }

  // ----- frames are read back -----

  /** The frames of a list of messages, and the stream they form. */
  function FrameList(ms: seq<Message>): seq<seq<byte>>
  {
    seq(|ms|, i requires 0 <= i < |ms| => Frame(ms[i]))
  }

  function Frames(ms: seq<Message>): seq<byte>
  {
    Concat(FrameList(ms))
  }

  lemma FrameFields(m: Message, rest: seq<byte>)
    requires Sendable(m)
    ensures var s := Frame(m) + rest; var k := |m.kind|;
            && Val(s[..4]) == MAGIC && Val(s[4..12]) == FrameSize(m) && Val(s[12..20]) == k
            && s[20..20 + k] == m.kind && Val(s[20 + k..28 + k]) == |m.data| && s[28 + k..28 + k + |m.data|] == m.data
  {
    Ranges();
    ValLe(MAGIC, 4);
    ValLe(FrameSize(m), 8);
    ValLe(|m.kind|, 8);
    ValLe(|m.data|, 8);
    Layout(Le(MAGIC, 4), Le(FrameSize(m), 8), Le(|m.kind|, 8), m.kind, Le(|m.data|, 8), m.data, rest);
  }

  lemma Layout(f1: seq<byte>, f2: seq<byte>, f3: seq<byte>, kind: seq<byte>, f4: seq<byte>, data: seq<byte>,
      rest: seq<byte>)
    requires |f1| == 4 && |f2| == 8 && |f3| == 8 && |f4| == 8
    ensures var s, k := f1 + f2 + f3 + kind + f4 + data + rest, |kind|;
            && s[..4] == f1 && s[4..12] == f2 && s[12..20] == f3
            && s[20..20 + k] == kind && s[20 + k..28 + k] == f4 && s[28 + k..28 + k + |data|] == data
  {
  }

  /** A whole frame in front is taken, whatever follows it. */
  lemma ParseFrame(m: Message, rest: seq<byte>)
    requires Sendable(m)
    ensures Parse(Frame(m) + rest) == Take(m, FrameSize(m))
  {
    FrameFields(m, rest);
    ParseFields(Frame(m) + rest, m, FrameSize(m));
  }

  lemma ParseFields(s: seq<byte>, m: Message, total: nat)
    requires 28 + |m.kind| + |m.data| == total <= |s| && m.data != [] && total < MAX_FRAME
    requires Val(s[..4]) == MAGIC && Val(s[4..12]) == total && Val(s[12..20]) == |m.kind|
    requires s[20..20 + |m.kind|] == m.kind && Val(s[20 + |m.kind|..28 + |m.kind|]) == |m.data|
    requires s[28 + |m.kind|..28 + |m.kind| + |m.data|] == m.data
    ensures Parse(s) == Take(m, total)
  {
  }

  /** A proper prefix of a frame is kept until the rest arrives. */
  lemma ParsePartial(m: Message, part: seq<byte>)
    requires Sendable(m) && part < Frame(m)
    ensures Parse(part) == Wait
  {
    var rest := Frame(m)[|part|..];
    assert Frame(m) + [] == Frame(m) == part + rest;
    ParseFrame(m, []);
    if !Parse(part).Wait? {
      ParseStable(part, rest);
      if Parse(part).Take? {
        TakeSize(part);
      }
    }
  }

  function Idle(done: seq<Message>): Reader
  {
    Reader(done, false, [])
  }

  /** The bytes f are exactly one whole message. */
  predicate Encodes(f: seq<byte>, m: Message)
  {
    Parse(f) == Take(m, |f|)
  }

  /** An idle reader that gets one frame delivers it and is idle again. */
  lemma ArriveFrame(done: seq<Message>, f: seq<byte>, m: Message)
    requires Encodes(f, m)
    ensures Arrive(Idle(done), f) == Idle(done + [m])
  {
    assert [] + f == f && f[|f|..] == [];
    assert Drain(Idle(done + [m])) == Idle(done + [m]);
  }

  lemma ArrivePartial(done: seq<Message>, tail: seq<byte>)
    requires Parse(tail) == Wait
    ensures Arrive(Idle(done), tail) == Reader(done, false, tail)
  {
    assert [] + tail == tail;
  }

  lemma LastArrival(done: seq<Message>, tail: seq<byte>)
    requires Parse(tail) == Wait
    ensures ArriveAll(Idle(done), [tail]) == Reader(done, false, tail)
  {
    ArrivePartial(done, tail);
    assert [tail][1..] == [];
  }

  lemma FirstArrival(r: Reader, fs: seq<seq<byte>>, tail: seq<byte>)
    requires fs != []
    ensures ArriveAll(r, fs + [tail]) == ArriveAll(Arrive(r, fs[0]), fs[1..] + [tail])
  {
    assert (fs + [tail])[1..] == fs[1..] + [tail];
  }

  /** Frames arriving one at a time, then an incomplete one. */
  lemma {:induction false} ArriveFrames(done: seq<Message>, ms: seq<Message>, fs: seq<seq<byte>>, tail: seq<byte>)
    requires |fs| == |ms| && forall i | 0 <= i < |ms| :: Encodes(fs[i], ms[i])
    requires Parse(tail) == Wait
    ensures ArriveAll(Idle(done), fs + [tail]) == Reader(done + ms, false, tail)
    decreases |ms|
  {
    if ms == [] {
      assert fs + [tail] == [tail] && done + ms == done;
      LastArrival(done, tail);
    } else {
      ArriveFirst(done, ms[0], fs, tail);
      ArriveFrames(done + [ms[0]], ms[1..], fs[1..], tail);
      assert done + [ms[0]] + ms[1..] == done + ms;
    }
  }

  lemma ArriveFirst(done: seq<Message>, m: Message, fs: seq<seq<byte>>, tail: seq<byte>)
    requires fs != [] && Encodes(fs[0], m)
    ensures ArriveAll(Idle(done), fs + [tail]) == ArriveAll(Idle(done + [m]), fs[1..] + [tail])
  {
    ArriveFrame(done, fs[0], m);
    FirstArrival(Idle(done), fs, tail);
  }

  lemma {:induction false} ConcatLast(fs: seq<seq<byte>>, tail: seq<byte>)
    ensures Concat(fs + [tail]) == Concat(fs) + tail
    decreases |fs|
  {
    if fs == [] {
      assert fs + [tail] == [tail] && [tail][1..] == [];
    } else {
      assert (fs + [tail])[1..] == fs[1..] + [tail];
      ConcatLast(fs[1..], tail);
    }
  }

  /** How many whole frames lie within the first t bytes. */
  function Complete(fs: seq<seq<byte>>, t: nat): (n: nat)
    ensures n <= |fs|
  {
    if fs == [] || t < |fs[0]| then 0 else 1 + Complete(fs[1..], t - |fs[0]|)
  }

  /** Any prefix of the stream is some whole frames and a proper prefix of the next one. */
  lemma {:induction false} CompleteCut(fs: seq<seq<byte>>, part: seq<byte>) returns (tail: seq<byte>)
    requires part <= Concat(fs)
    ensures var n := Complete(fs, |part|);
            && part == Concat(fs[..n]) + tail
            && (if n == |fs| then tail == [] else tail < fs[n])
    decreases |fs|
  {
    if fs == [] {
      tail := [];
    } else {
      PrefixSplit(part, fs[0], Concat(fs[1..]));
      if |part| < |fs[0]| {
        tail := part;
      } else {
        tail := CompleteCut(fs[1..], part[|fs[0]|..]);
        ConcatTake(fs, Complete(fs, |part|));
      }
    }
  }

  lemma PrefixSplit(part: seq<byte>, x: seq<byte>, y: seq<byte>)
    requires part <= x + y
    ensures |part| < |x| ==> part < x
    ensures |part| >= |x| ==> part == x + part[|x|..] && part[|x|..] <= y
  {
    if |part| >= |x| {
      assert (x + y)[..|x|] == x && (x + y)[|x|..] == y;
    }
  }

  lemma ConcatTake(fs: seq<seq<byte>>, n: nat)
    requires 0 < n <= |fs|
    ensures Concat(fs[..n]) == fs[0] + Concat(fs[1..][..n - 1])
  {
    assert fs[..n][1..] == fs[1..][..n - 1];
  }

  /** However the stream of frames is cut into arrivals, and however much of it has come, the reader
      has delivered exactly the messages whose frames are complete, in order, and keeps a proper
      prefix of the next frame. */
  lemma Delivery(ms: seq<Message>, chunks: seq<seq<byte>>)
    requires forall i | 0 <= i < |ms| :: ms[i].data != [] && |Frame(ms[i])| < 1073741826
    requires Concat(chunks) <= Frames(ms)
    ensures var n := Complete(FrameList(ms), |Concat(chunks)|);
            var r := ArriveAll(Idle([]), chunks);
            && r.delivered == ms[..n] && !r.stopped
            && Concat(chunks) == Frames(ms[..n]) + r.kept
            && (if n == |ms| then r.kept == [] else r.kept < Frame(ms[n]))
  {
    var all, fs := Concat(chunks), FrameList(ms);
    var n := Complete(fs, |all|);
    var tail := CompleteCut(fs, all);
    if n < |ms| {
      ParsePartial(ms[n], tail);
    }
    forall i | 0 <= i < n ensures Encodes(fs[..n][i], ms[..n][i]) {
      FrameEncodes(ms[i]);
    }
    assert fs[..n] == FrameList(ms[..n]);
    ConcatLast(fs[..n], tail);
    SettledIdle();
    ChunkingIrrelevant(Idle([]), chunks);
    ChunkingIrrelevant(Idle([]), fs[..n] + [tail]);
    ArriveFrames([], ms[..n], fs[..n], tail);
    assert [] + ms[..n] == ms[..n];
  }

  lemma FrameEncodes(m: Message)
    requires Sendable(m)
    ensures Encodes(Frame(m), m)
  {
    ParseFrame(m, []);
    assert Frame(m) + [] == Frame(m);
  }

  lemma SettledIdle()
    ensures Settled(Idle([]))
  {
    assert Parse([]) == Wait;
  }

  /** A frame with an empty payload, which no writer produces, would stop the reader. */
  lemma EmptyPayloadStops(m: Message)
    requires m.data == [] && FrameSize(m) < MAX_FRAME
    ensures Parse(Frame(m)) == Stop
  {
    var s, k := Frame(m), |m.kind|;
    Ranges();
    ValLe(MAGIC, 4);
    ValLe(FrameSize(m), 8);
    ValLe(k, 8);
    assert s[..4] == Le(MAGIC, 4) && s[4..12] == Le(FrameSize(m), 8) && s[12..20] == Le(k, 8);
  }

  // ----- what the reader does not take -----

  /** Other bytes at the start of a frame stop the reader at once, and so does a frame of 1073741826 bytes
      or more, however little of it has come. */
  lemma ForeignBytesStop(buf: seq<byte>)
    requires |buf| >= 4
    ensures Val(buf[..4]) != 0x06121983 ==> Parse(buf) == Stop
    ensures |buf| >= 12 && Val(buf[4..12]) >= 1073741826 ==> Parse(buf) == Stop
  {
  }

  /** A type that leaves no room for a payload, or a payload longer than the frame, stops it when the frame
      has come. */
  lemma BadLengthsStop(buf: seq<byte>)
    requires |buf| >= 28 && Val(buf[..4]) == 0x06121983 && 28 <= Val(buf[4..12]) <= |buf|
    requires var total, k := Val(buf[4..12]), Val(buf[12..20]);
             28 + k >= total || 28 + k + Val(buf[20 + k..28 + k]) > total
    ensures Parse(buf) == Stop
  {
  }

  /** What makes the loop end stopped. */
  lemma StopIsFinal(r: Reader)
    requires !r.stopped && Parse(r.kept) == Stop
    ensures Drain(r).stopped && Drain(r).delivered == r.delivered
  {
  }

  /** A frame starts with the magic number, lowest byte first, and its own length, headers included; and
      every frame below 1073741826 bytes with a payload can be sent. */
  lemma FrameBytes(m: Message)
    ensures Frame(m)[..4] == [0x83, 0x19, 0x12, 0x06] && |Frame(m)| == 28 + |m.kind| + |m.data|
    ensures Sendable(m) <==> m.data != [] && |Frame(m)| < 1073741826
  {
    FourBytes(MAGIC);
  }
}
