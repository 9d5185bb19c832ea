/** Byte strings and the fixed-width integers the repository stores in them. */
module Bytes {
  type byte = x: int | 0 <= x < 256

  /** A BLAKE3 digest. */
  type Digest = d: seq<byte> | |d| == 32 witness seq(32, i => 0)

  const TWO_32 := 0x1_0000_0000
  const TWO_64 := 0x1_0000_0000_0000_0000

  /** Big-endian 32-bit value, most significant byte first. */
  function Pack(i: nat): (r: seq<byte>)
    requires i < TWO_32
    ensures |r| == 4
  {
    [i / 0x100_0000, i / 0x1_0000 % 0x100, i / 0x100 % 0x100, i % 0x100]
  }

  function Unpack(s: seq<byte>): (r: nat)
    requires |s| == 4
    ensures r < TWO_32
  {
    0x100_0000 * s[0] as int + 0x1_0000 * s[1] as int + 0x100 * s[2] as int + s[3]
  }

  /** packInt and unpackInt are mutually inverse. */
  lemma PackUnpack(i: nat)
    requires i < TWO_32
    ensures Unpack(Pack(i)) == i
  {
    assert i / 0x100 == i / 0x1_0000 * 0x100 + i / 0x100 % 0x100;
    assert i / 0x1_0000 == i / 0x100_0000 * 0x100 + i / 0x1_0000 % 0x100;
  }

  lemma UnpackPack(s: seq<byte>)
    requires |s| == 4
    ensures Pack(Unpack(s)) == s
  {
    var a, b, c: int := s[0] as int, s[1] as int, s[2] as int;
    var r := Unpack(s);
    assert r / 0x100 == 0x1_0000 * a + 0x100 * b + c;
    assert r / 0x1_0000 == 0x100 * a + b && r / 0x100_0000 == a;
  }

  /** The buffer after src has been copied over it at offset off. */
  function Overwrite(t: seq<byte>, off: nat, src: seq<byte>): (r: seq<byte>)
    requires off + |src| <= |t|
    ensures |r| == |t|
  {
    t[..off] + src + t[off + |src|..]
  }

  method Memcpy(dst: array<byte>, off: nat, src: seq<byte>)
    requires off + |src| <= dst.Length
    modifies dst
    ensures dst[..] == Overwrite(old(dst[..]), off, src)
  {
    ghost var before := dst[..];
    forall k | 0 <= k < |src| {
      dst[off + k] := src[k];
    }
    assert dst[..] == Overwrite(before, off, src);
  }

  /** Writes src at the moving pointer. */
  method Append(dst: array<byte>, ptr: nat, src: seq<byte>) returns (next: nat)
    requires ptr + |src| <= dst.Length
    modifies dst
    ensures next == ptr + |src| && dst[..next] == old(dst[..ptr]) + src
  {
    Memcpy(dst, ptr, src);
    next := ptr + |src|;
  }

  lemma SliceOfSlice(s: seq<byte>, from: nat, to: nat, a: nat, c: nat)
    requires from <= to <= |s| && a <= c <= to - from
    ensures s[from..to][a..c] == s[from + a..from + c]
  {
    var slice := s[from..to];
    var inner, outer := slice[a..c], s[from + a..from + c];
    forall k | 0 <= k < c - a ensures inner[k] == outer[k] {
      assert slice[a + k] == s[from + (a + k)];
    }
  }
}
