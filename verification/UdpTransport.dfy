/** Datagram transport: messages that do not fit one packet are cut into numbered fragments and put
    together again by the receiver, one reassembly buffer per sender. */
module UdpTransport {
  import opened Bytes
  import opened Wire

  const MAX := 9000
  const NONFRAG_MAGIC := 0x20050318
  const FRAG_MAGIC := 0x20101010

  type Addr = nat

  datatype Option<T> = None | Some(value: T)

  /** Everything after the magic number: an empty meta field, type and data. */
  function Body(m: Message): (s: seq<byte>)
    ensures |s| == 20 + |m.kind| + |m.data|
  {
    Le(0, 4) + Le(|m.kind|, 8) + m.kind + Le(|m.data|, 8) + m.data
  }

  function Packet(m: Message): seq<byte>
  {
    Le(NONFRAG_MAGIC, 4) + Body(m)
  }

  /** The piece of the body that starts at the given offset. */
  function Piece(body: seq<byte>, start: nat): seq<byte>
    requires start <= |body|
  {
    body[start..if |body| - start < MAX then |body| else start + MAX]
  }

  function Fragment(id: nat, body: seq<byte>, start: nat): seq<byte>
    requires start <= |body|
  {
    Le(FRAG_MAGIC, 4) + Le(id, 8) + Le(start, 8) + Le(|body|, 8) + Piece(body, start)
  }

  /** What can be sent: a payload, and lengths and ids a 64-bit word can hold. */
  predicate Sendable(m: Message)
  {
    m.data != [] && 24 + |m.kind| + |m.data| < TWO_64
  }

  // ----- sending -----

  /** The packets for the fragments from offset start on. */
  function FragmentsFrom(id: nat, body: seq<byte>, start: nat): seq<seq<byte>>
    requires start <= |body| + MAX
    decreases |body| + MAX - start
  {
    if start >= |body| then [] else [Fragment(id, body, start)] + FragmentsFrom(id, body, start + MAX)
  }

  class Sender {
    var lastFragMsgId: nat

    constructor ()
      ensures lastFragMsgId == 0
    {
      lastFragMsgId := 0;
    }

    /** One packet if the message fits, otherwise all fragments under the next id. Stops on its
        assertion if the payload is empty. */
    method Send(m: Message) returns (ok: bool, packets: seq<seq<byte>>)
      modifies this
      ensures ok <==> m.data != []
      ensures ok && |Packet(m)| <= MAX ==> packets == [Packet(m)] && lastFragMsgId == old(lastFragMsgId)
      ensures ok && |Packet(m)| > MAX ==>
                && lastFragMsgId == old(lastFragMsgId) + 1
                && packets == FragmentsFrom(lastFragMsgId, Body(m), 0)
    {
      var buf;
      ok, buf := Serialize(m);
      packets := [];
      if !ok {
        return;
      }
      if |buf| <= MAX {
        packets := [buf];
      } else {
        lastFragMsgId := lastFragMsgId + 1;
        BodyAfterMagic(m);
        packets := CutFragments(lastFragMsgId, buf[4..]);
      }
    }
  }

  lemma BodyAfterMagic(m: Message)
    ensures Packet(m)[4..] == Body(m)
  {
  }

  /** The fragment loop. */
  method CutFragments(id: nat, body: seq<byte>) returns (packets: seq<seq<byte>>)
    ensures packets == FragmentsFrom(id, body, 0)
  {
    packets := [];
    var start := 0;
    while start < |body|
      invariant 0 <= start <= |body| + MAX
      invariant packets + FragmentsFrom(id, body, start) == FragmentsFrom(id, body, 0)
    {
      var len := if |body| - start < MAX then |body| - start else MAX;
      var pkt := Le(FRAG_MAGIC, 4) + Le(id, 8) + Le(start, 8) + Le(|body|, 8) + body[start..start + len];
      assert pkt == Fragment(id, body, start);
      packets := packets + [pkt];
      start := start + MAX;
    }
  }

  /** Writes the packet field by field into a fresh buffer. */
  method Serialize(m: Message) returns (ok: bool, out: seq<byte>)
    ensures ok <==> m.data != []
    ensures ok ==> out == Packet(m)
  {
    var total := 4 + 4 + |m.kind| + 8 + |m.data| + 8;
    var buf := new byte[total];
    var ptr := Append(buf, 0, Le(NONFRAG_MAGIC, 4));
    ptr := Append(buf, ptr, Le(0, 4));
    ptr := Append(buf, ptr, Le(|m.kind|, 8));
    ptr := Append(buf, ptr, m.kind);
    ptr := Append(buf, ptr, Le(|m.data|, 8));
    if !(ptr < total) {
      return false, [];
    }
    ptr := Append(buf, ptr, m.data);
    SixParts(Le(NONFRAG_MAGIC, 4), Le(0, 4), Le(|m.kind|, 8), m.kind, Le(|m.data|, 8), m.data);
    return true, buf[..ptr];
  }

  lemma SixParts(a: seq<byte>, b: seq<byte>, c: seq<byte>, d: seq<byte>, e: seq<byte>, f: seq<byte>)
    ensures [] + a + b + c + d + e + f == a + (b + c + d + e + f)
  {
  }

  // ----- receiving -----

  /** Reads a packet body; None stands for a failed assertion. */
  function Decode(s: seq<byte>): Option<Message>
  {
    if |s| < 4 then None
    else
      var p := 4 + Val(s[..4]);
      if p + 8 >= |s| then None
      else
        var typeLen := Val(s[p..p + 8]);
        if p + 16 + typeLen >= |s| then None
        else
          var q := p + 8 + typeLen;
          var msgLen := Val(s[q..q + 8]);
          if q + 8 + msgLen > |s| then None
          else Some(Message(s[p + 8..q], s[q + 8..q + 8 + msgLen]))
  }

  /** The reassembly buffer of one sender; id 0 means idle. */
  datatype FragInfo = FragInfo(id: nat, data: seq<byte>)

  const IDLE := FragInfo(0, [])

  /** A failed assertion stops the process; otherwise the buffer changes and a message may come out. */
  datatype Result = Dead | Alive(info: FragInfo, out: Option<Message>)

  /** The buffer once it is about message id. */
  function Begin(info: FragInfo, id: nat): FragInfo
  {
    if info.id == 0 || info.id != id then FragInfo(id, []) else info
  }

  function Reassemble(info: FragInfo, id: nat, start: nat, len: nat, piece: seq<byte>): Result
  {
    if info.id != 0 && id < info.id then Dead
    else
      var now := Begin(info, id);
      if start != |now.data| then Alive(now, None)
      else
        var data := now.data + piece;
        if |data| == len then
          match Decode(data)
          case None => Dead
          case Some(m) => Alive(IDLE, Some(m))
        else Alive(FragInfo(id, data), None)
  }

  function Process(info: FragInfo, pkt: seq<byte>): Result
  {
    if |pkt| <= 4 then Dead
    else if Val(pkt[..4]) == NONFRAG_MAGIC then
      match Decode(pkt[4..])
      case None => Dead
      case Some(m) => Alive(info, Some(m))
    else if Val(pkt[..4]) == FRAG_MAGIC then
      if |pkt| <= 28 then Dead
      else
        var id, start, len := Val(pkt[4..12]), Val(pkt[12..20]), Val(pkt[20..28]);
        var left := (len - start) % TWO_64;
        if |pkt| - 28 != (if left < MAX then left else MAX) then Dead
        else Reassemble(info, id, start, len, pkt[28..])
    else Alive(info, None)
  }

  class Receiver {
    var frags: map<Addr, FragInfo>

    constructor ()
      ensures frags == map[]
    {
      frags := map[];
    }

    function InfoOf(a: Addr): FragInfo
      reads this
    {
      if a in frags then frags[a] else IDLE
    }

    /** Handles one packet; touches no other sender's buffer. */
    method ProcessPacket(a: Addr, pkt: seq<byte>) returns (alive: bool, out: Option<Message>)
      modifies this
      ensures alive <==> Process(old(InfoOf(a)), pkt).Alive?
      ensures alive ==> Process(old(InfoOf(a)), pkt) == Alive(InfoOf(a), out)
      ensures forall b | b != a :: InfoOf(b) == old(InfoOf(b))
    {
      out, alive := None, false;
      if |pkt| <= 4 {
        return;
      }
      var magic := Val(pkt[..4]);
      if magic == NONFRAG_MAGIC {
        out := Decode(pkt[4..]);
        alive := out.Some?;
      } else if magic == FRAG_MAGIC {
        if |pkt| <= 28 {
          return;
        }
        var id, start, len := Val(pkt[4..12]), Val(pkt[12..20]), Val(pkt[20..28]);
        var left := (len - start) % TWO_64;
        if |pkt| - 28 != (if left < MAX then left else MAX) {
          return;
        }
        var info := if a in frags then frags[a] else IDLE;
        if info.id == 0 {
          info := FragInfo(id, []);
        }
        if info.id != id {
          if !(id > info.id) {
            return;
          }
          info := FragInfo(id, []);
        }
        alive := true;
        if start != |info.data| {
          frags := frags[a := info];
          return;
        }
        info := FragInfo(info.id, info.data + pkt[28..]);
        if |info.data| == len {
          out := Decode(info.data);
          if out.None? {
            alive := false;
            return;
          }
          info := FragInfo(0, []);
        }
        frags := frags[a := info];
      } else {
        alive := true;
      }
    }
  }

  // ----- packets are read back -----

  lemma DecodeBody(m: Message)
    requires Sendable(m)
    ensures Decode(Body(m)) == Some(m)
  {
    Ranges();
    ValLe(0, 4);
    ValLe(|m.kind|, 8);
    ValLe(|m.data|, 8);
    BodyLayout(Le(0, 4), Le(|m.kind|, 8), m.kind, Le(|m.data|, 8), m.data);
    DecodeParsed(Body(m), m);
  }

  lemma DecodeParsed(s: seq<byte>, m: Message)
    requires |s| == 20 + |m.kind| + |m.data| && m.data != []
    requires var k := |m.kind|;
             && Val(s[..4]) == 0 && Val(s[4..12]) == k && s[12..12 + k] == m.kind
             && Val(s[12 + k..20 + k]) == |m.data| && s[20 + k..20 + k + |m.data|] == m.data
    ensures Decode(s) == Some(m)
  {
  }

  lemma BodyLayout(f1: seq<byte>, f2: seq<byte>, kind: seq<byte>, f3: seq<byte>, data: seq<byte>)
    requires |f1| == 4 && |f2| == 8 && |f3| == 8
    ensures var s, k := f1 + f2 + kind + f3 + data, |kind|;
            && s[..4] == f1 && s[4..12] == f2 && s[12..12 + k] == kind
            && s[12 + k..20 + k] == f3 && s[20 + k..20 + k + |data|] == data
  {
  }

  lemma ProcessSmall(info: FragInfo, m: Message)
    requires Sendable(m)
    ensures Process(info, Packet(m)) == Alive(info, Some(m))
  {
    DecodeBody(m);
    Ranges();
    ValLe(NONFRAG_MAGIC, 4);
    assert Packet(m)[..4] == Le(NONFRAG_MAGIC, 4) && Packet(m)[4..] == Body(m);
  }

  lemma HeaderLayout(f1: seq<byte>, f2: seq<byte>, f3: seq<byte>, f4: seq<byte>, piece: seq<byte>)
    requires |f1| == 4 && |f2| == 8 && |f3| == 8 && |f4| == 8
    ensures var s := f1 + f2 + f3 + f4 + piece;
            && s[..4] == f1 && s[4..12] == f2 && s[12..20] == f3 && s[20..28] == f4 && s[28..] == piece
  {
  }

  /** The receiver sees in a fragment exactly what the sender put there. */
  lemma ProcessFragment(info: FragInfo, id: nat, body: seq<byte>, start: nat)
    requires id < TWO_64 && start < |body| < TWO_64
    ensures Process(info, Fragment(id, body, start)) == Reassemble(info, id, start, |body|, Piece(body, start))
  {
    Ranges();
    ValLe(FRAG_MAGIC, 4);
    ValLe(id, 8);
    ValLe(start, 8);
    ValLe(|body|, 8);
    HeaderLayout(Le(FRAG_MAGIC, 4), Le(id, 8), Le(start, 8), Le(|body|, 8), Piece(body, start));
    ProcessParsed(info, Fragment(id, body, start), id, start, |body|);
  }

  lemma ProcessParsed(info: FragInfo, pkt: seq<byte>, id: nat, start: nat, len: nat)
    requires |pkt| > 28 && start < len < TWO_64
    requires Val(pkt[..4]) == FRAG_MAGIC && Val(pkt[4..12]) == id && Val(pkt[12..20]) == start
              && Val(pkt[20..28]) == len
    requires |pkt| == 28 + if len - start < MAX then len - start else MAX
    ensures Process(info, pkt) == Reassemble(info, id, start, len, pkt[28..])
  {
    assert (len - start) % TWO_64 == len - start;
  }

  // ----- packets nobody sent -----

  /** A packet of another protocol is ignored. */
  lemma BadMagicIgnored(info: FragInfo, pkt: seq<byte>)
    requires |pkt| > 4 && Val(pkt[..4]) != 0x20050318 && Val(pkt[..4]) != 0x20101010
    ensures Process(info, pkt) == Alive(info, None)
  {
  }

  /** Every proper prefix of a packet stops the receiver on one of the assertions. */
  lemma CutPacketStops(info: FragInfo, m: Message, pkt: seq<byte>)
    requires Sendable(m) && pkt < Packet(m)
    ensures Process(info, pkt) == Dead
  {
    if |pkt| > 4 {
      Ranges();
      ValLe(NONFRAG_MAGIC, 4);
      assert Packet(m)[..4] == Le(NONFRAG_MAGIC, 4) && Packet(m)[4..] == Body(m);
      assert pkt[..4] == Packet(m)[..4];
      assert pkt[4..] < Body(m);
      CutBody(m, pkt[4..]);
    }
  }

  lemma CutBody(m: Message, s: seq<byte>)
    requires Sendable(m) && s < Body(m)
    ensures Decode(s) == None
  {
    Ranges();
    ValLe(0, 4);
    ValLe(|m.kind|, 8);
    ValLe(|m.data|, 8);
    BodyLayout(Le(0, 4), Le(|m.kind|, 8), m.kind, Le(|m.data|, 8), m.data);
    CutDecode(Body(m), s, |m.kind|, |m.data|);
  }

  lemma CutDecode(whole: seq<byte>, s: seq<byte>, k: nat, d: nat)
    requires s < whole && |whole| == 20 + k + d
    requires Val(whole[..4]) == 0 && Val(whole[4..12]) == k && Val(whole[12 + k..20 + k]) == d
    ensures Decode(s) == None
  {
    if |s| >= 12 {
      assert s[..4] == whole[..4] && s[4..12] == whole[4..12];
      if 20 + k < |s| {
        assert s[12 + k..20 + k] == whole[12 + k..20 + k];
      }
    } else if |s| >= 4 {
      assert s[..4] == whole[..4];
    }
  }

  /** So does every proper prefix of a fragment, whatever the buffer holds: its length is wrong. */
  lemma CutFragmentStops(info: FragInfo, id: nat, body: seq<byte>, start: nat, pkt: seq<byte>)
    requires id < TWO_64 && start < |body| < TWO_64 && pkt < Fragment(id, body, start)
    ensures Process(info, pkt) == Dead
  {
    Ranges();
    ValLe(FRAG_MAGIC, 4);
    ValLe(start, 8);
    ValLe(|body|, 8);
    HeaderLayout(Le(FRAG_MAGIC, 4), Le(id, 8), Le(start, 8), Le(|body|, 8), Piece(body, start));
    CutHeader(info, Fragment(id, body, start), pkt, start, |body|);
  }

  lemma CutHeader(info: FragInfo, whole: seq<byte>, pkt: seq<byte>, start: nat, len: nat)
    requires pkt < whole && start < len < TWO_64
    requires |whole| == 28 + if len - start < MAX then len - start else MAX
    requires Val(whole[..4]) == FRAG_MAGIC && Val(whole[12..20]) == start && Val(whole[20..28]) == len
    ensures Process(info, pkt) == Dead
  {
    if |pkt| > 4 {
      assert pkt[..4] == whole[..4];
    }
    if |pkt| > 28 {
      assert pkt[12..20] == whole[12..20] && pkt[20..28] == whole[20..28];
      assert (len - start) % TWO_64 == len - start;
    }
  }

  // ----- the bytes on the wire -----

  /** A packet starts with the magic number, lowest byte first, and an empty meta field; a fragment with its
      own magic number, and it carries 9000 bytes of the body, or what is left of it. */
  lemma WireBytes(m: Message, id: nat, body: seq<byte>, start: nat)
    requires start <= |body|
    ensures Packet(m)[..8] == [0x18, 0x03, 0x05, 0x20, 0, 0, 0, 0] && |Packet(m)| == 24 + |m.kind| + |m.data|
    ensures Fragment(id, body, start)[..4] == [0x10, 0x10, 0x10, 0x20]
    ensures |Fragment(id, body, start)| == 28 + if |body| - start < 9000 then |body| - start else 9000
  {
    FourBytes(NONFRAG_MAGIC);
    FourBytes(FRAG_MAGIC);
    FourBytes(0);
  }
}
