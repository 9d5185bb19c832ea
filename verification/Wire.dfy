/** Little-endian integers as the transports store them, and the messages they carry. */
module Wire {
  import opened Arithmetic
  import opened Bytes

  /** A message on the wire: its protobuf type name and its serialized payload. */
  datatype Message = Message(kind: seq<byte>, data: seq<byte>)

  /** The w lowest bytes of x, lowest first. */
  function Le(x: nat, w: nat): (s: seq<byte>)
    ensures |s| == w
  {
    if w == 0 then [] else [x % 256] + Le(x / 256, w - 1)
  }

  function Val(s: seq<byte>): nat
  {
    if s == [] then 0 else s[0] + 256 * Val(s[1..])
  }

  function Range(w: nat): nat
  {
    if w == 0 then 1 else 256 * Range(w - 1)
  }

  lemma {:induction false} ValLe(x: nat, w: nat)
    requires x < Range(w)
    ensures Val(Le(x, w)) == x
  {
    if w > 0 {
      ValLe(x / 256, w - 1);
      assert Le(x, w)[1..] == Le(x / 256, w - 1);
    }
  }

  lemma Ranges()
    ensures Range(4) == TWO_32 && Range(8) == TWO_64
  {
    assert Range(1) == 256 && Range(2) == 0x1_0000 && Range(3) == 0x100_0000;
    assert Range(5) == 256 * Range(4) && Range(6) == 256 * Range(5) && Range(7) == 256 * Range(6);
  }

  /** Byte k of a stored integer has the weight 256 to the power k. */
  lemma {:induction false} LeAt(x: nat, w: nat, k: nat)
    requires k < w
    ensures Range(k) > 0 && Le(x, w)[k] == x / Range(k) % 256
    decreases w
  {
    RangePositive(k);
    if k > 0 {
      LeAt(x / 256, w - 1, k - 1);
      RangePositive(k - 1);
      DivideTwice(x, 256, Range(k - 1));
    }
  }

  lemma {:induction false} RangePositive(w: nat)
    ensures Range(w) > 0
  {
    if w > 0 {
      RangePositive(w - 1);
    }
  }

  lemma DivideTwice(x: nat, d: nat, e: nat)
    requires d > 0 && e > 0
    ensures d * e > 0 && x / d / e == x / (d * e)
  {
    MulMono(1, e, d);
    DivBounds(x, d);
    DivBounds(x / d, e);
    var q := x / d / e;
    MulMono(q * e, x / d, d);
    MulMono(x / d + 1, q * e + e, d);
    assert q * (d * e) == q * e * d && q * (d * e) + d * e == (q * e + e) * d;
    DivUnique(x, d * e, q);
  }

  lemma FourBytes(x: nat)
    requires x < TWO_32
    ensures Le(x, 4) == [x % 256, x / 256 % 256, x / 0x1_0000 % 256, x / 0x100_0000]
  {
    assert x / 256 / 256 == x / 0x1_0000 && x / 0x1_0000 / 256 == x / 0x100_0000;
    assert Le(x / 0x100_0000, 1) == [x / 0x100_0000 % 256] + Le(x / 0x100_0000 / 256, 0);
    assert Le(x / 0x1_0000, 2) == [x / 0x1_0000 % 256] + Le(x / 0x100_0000, 1);
    assert Le(x / 256, 3) == [x / 256 % 256] + Le(x / 0x1_0000, 2);
  }

  /** The integers in batched signatures have the opposite byte order. */
  lemma PackIsReversed(x: nat)
    requires x < TWO_32
    ensures forall k | 0 <= k < 4 :: Pack(x)[k] == Le(x, 4)[3 - k]
  {
    FourBytes(x);
  }
}
