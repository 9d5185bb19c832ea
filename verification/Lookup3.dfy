/** The lookup3 hash: one bytewise definition, and the implementation that reads the key in words,
    half-words or bytes depending on its alignment.

    Unsigned 32-bit values are numbers below two to the thirty-second.  A left shift of a value that
    fits is a multiplication by a power of two, and masking with one less than a power of two is a
    remainder.  The two mixing macros, which rotate and combine bits, work on 32-bit words. */
module Lookup3 {
  import opened Bytes

  type u32 = x: int | 0 <= x < 0x1_0000_0000

  /** The internal state. */
  datatype Abc = Abc(a: u32, b: u32, c: u32)

  function Add(x: u32, y: u32): u32
  {
    (x + y) % TWO_32
  }

  /** The same state as bit patterns, which is what the mixing macros work on. */
  datatype Bits = Bits(a: bv32, b: bv32, c: bv32)

  function ToBits(s: Abc): Bits
  {
    Bits(s.a as bv32, s.b as bv32, s.c as bv32)
  }

  function MixBits(s: Bits): Bits
  {
    var Bits(a, b, c) := s;
    var a := a - c; var a := a ^ c.RotateLeft(4); var c := c + b;
    var b := b - a; var b := b ^ a.RotateLeft(6); var a := a + c;
    var c := c - b; var c := c ^ b.RotateLeft(8); var b := b + a;
    var a := a - c; var a := a ^ c.RotateLeft(16); var c := c + b;
    var b := b - a; var b := b ^ a.RotateLeft(19); var a := a + c;
    var c := c - b; var c := c ^ b.RotateLeft(4); var b := b + a;
    Bits(a, b, c)
  }

  function FinalBits(s: Bits): bv32
  {
    var Bits(a, b, c) := s;
    var c := c ^ b; var c := c - b.RotateLeft(14);
    var a := a ^ c; var a := a - c.RotateLeft(11);
    var b := b ^ a; var b := b - a.RotateLeft(25);
    var c := c ^ b; var c := c - b.RotateLeft(16);
    var a := a ^ c; var a := a - c.RotateLeft(4);
    var b := b ^ a; var b := b - a.RotateLeft(14);
    var c := c ^ b; var c := c - b.RotateLeft(24);
    c
  }

  function FromBits(s: Bits): Abc
  {
    Abc(s.a as int, s.b as int, s.c as int)
  }

  function Mix(s: Abc): Abc
  {
    FromBits(MixBits(ToBits(s)))
  }

  function Final(s: Abc): u32
  {
    FinalBits(ToBits(s)) as int
  }

  /** The two mixing macros.  Nothing about the branches below depends on what they compute. */
  datatype Mixer = Mixer(mix: Abc -> Abc, final: Abc -> u32)

  // ----- the definition, independent of alignment -----

  /** Byte i of the key; zero beyond the end. */
  function Digit(key: seq<byte>, i: nat): byte
  {
    if i < |key| then key[i] else 0
  }

  /** The little-endian number in the (up to) four bytes from position i. */
  function Part(key: seq<byte>, i: nat): u32
  {
    Digit(key, i) + 0x100 * Digit(key, i + 1) + 0x1_0000 * Digit(key, i + 2) + 0x100_0000 * Digit(key, i + 3)
  }

  function Absorb(s: Abc, key: seq<byte>): Abc
  {
    Abc(Add(s.a, Part(key, 0)), Add(s.b, Part(key, 4)), Add(s.c, Part(key, 8)))
  }

  function HashFrom(m: Mixer, s: Abc, key: seq<byte>): u32
    decreases |key|
  {
    if |key| > 12 then HashFrom(m, m.mix(Absorb(s, key)), key[12..])
    else if |key| == 0 then s.c
    else m.final(Absorb(s, key))
  }

  function Seed(length: nat, initval: u32): Abc
  {
    var v := Add(Add(0xdead_beef, length % TWO_32), initval);
    Abc(v, v, v)
  }

  function Hash(m: Mixer, key: seq<byte>, initval: u32): u32
  {
    HashFrom(m, Seed(|key|, initval), key)
  }

  // ----- loads on a little-endian machine -----

  function Load16(mem: seq<byte>, at: nat): u32
    requires at + 2 <= |mem|
  {
    mem[at] + 0x100 * mem[at + 1] as int
  }

  function Load32(mem: seq<byte>, at: nat): u32
    requires at + 4 <= |mem|
  {
    mem[at] + 0x100 * mem[at + 1] as int + 0x1_0000 * mem[at + 2] as int + 0x100_0000 * mem[at + 3] as int
  }

  /** Memory from address k on starts with the bytes of key. */
  ghost predicate Holds(mem: seq<byte>, k: nat, key: seq<byte>)
  {
    k + |key| <= |mem| && forall i :: 0 <= i < |key| ==> key[i] == mem[k + i]
  }

  lemma Masked(p: byte, q: byte, r: byte, s: byte)
    ensures var w := p as int + 0x100 * q as int + 0x1_0000 * r as int + 0x100_0000 * s as int;
            && w % 0x100 == p as int && w % 0x1_0000 == p as int + 0x100 * q as int
            && w % 0x100_0000 == p as int + 0x100 * q as int + 0x1_0000 * r as int
  {
  }

  /** A whole word read from memory is the number the definition adds; a masked last word keeps only
      the bytes that belong to the key, whatever follows them in memory. */
  lemma WordIsPart(mem: seq<byte>, k: nat, key: seq<byte>, i: nat)
    requires Holds(mem, k, key) && i < |key| && k + i + 4 <= |mem|
    ensures i + 4 <= |key| ==> Load32(mem, k + i) == Part(key, i)
    ensures i + 3 == |key| ==> Load32(mem, k + i) % 0x100_0000 == Part(key, i)
    ensures i + 2 == |key| ==> Load32(mem, k + i) % 0x1_0000 == Part(key, i)
    ensures i + 1 == |key| ==> Load32(mem, k + i) % 0x100 == Part(key, i)
  {
    Masked(mem[k + i], mem[k + i + 1], mem[k + i + 2], mem[k + i + 3]);
    assert key[i] == mem[k + i];
    if i + 1 < |key| { assert key[i + 1] == mem[k + i + 1]; }
    if i + 2 < |key| { assert key[i + 2] == mem[k + i + 2]; }
    if i + 3 < |key| { assert key[i + 3] == mem[k + i + 3]; }
  }

  /** Two half-words read from memory make the number the definition adds. */
  lemma HalvesArePart(mem: seq<byte>, k: nat, key: seq<byte>, i: nat)
    requires Holds(mem, k, key) && i + 4 <= |key|
    ensures Load16(mem, k + i) + 0x1_0000 * Load16(mem, k + i + 2) == Part(key, i)
  {
    assert key[i] == mem[k + i];
    assert key[i + 1] == mem[k + i + 1];
    assert key[i + 2] == mem[k + i + 2];
    assert key[i + 3] == mem[k + i + 3];
  }

  /** Nothing is added beyond the end. */
  lemma NoPart(key: seq<byte>, i: nat, x: u32)
    requires |key| <= i
    ensures Add(x, Part(key, i)) == x
  {
  }

  /** Adding in two steps wraps to the same value as adding once. */
  lemma AddTwice(x: u32, y: u32, z: u32)
    requires y + z < TWO_32
    ensures Add(Add(x, y), z) == Add(x, y + z)
  {
  }

  lemma NextBlock(m: Mixer, key: seq<byte>, k: nat, s: Abc)
    requires k + 12 < |key|
    ensures HashFrom(m, s, key[k..]) == HashFrom(m, m.mix(Absorb(s, key[k..])), key[k + 12..])
  {
    assert key[k..][12..] == key[k + 12..];
  }

  lemma LastBlock(m: Mixer, key: seq<byte>, s: Abc)
    requires |key| <= 12
    ensures HashFrom(m, s, key) == if key == [] then s.c else m.final(Absorb(s, key))
  {
  }

  // ----- the branch for an address that is a multiple of four -----

  method AddWords(mem: seq<byte>, k: nat, s: Abc, ghost key: seq<byte>) returns (t: Abc)
    requires Holds(mem, k, key) && |key| >= 12
    ensures t == Absorb(s, key)
  {
    WordIsPart(mem, k, key, 0);
    WordIsPart(mem, k, key, 4);
    WordIsPart(mem, k, key, 8);
    t := Abc(Add(s.a, Load32(mem, k)), Add(s.b, Load32(mem, k + 4)), Add(s.c, Load32(mem, k + 8)));
  }

  method AddLastWords(mem: seq<byte>, k: nat, n: nat, s: Abc, ghost key: seq<byte>, ghost words: nat) returns (t: Abc)
    requires Holds(mem, k, key) && 0 < n == |key| <= 12
    requires n <= 4 * words && k + 4 * words <= |mem|
    ensures t == Absorb(s, key)
  {
    WordIsPart(mem, k, key, 0);
    if n > 4 { WordIsPart(mem, k, key, 4); } else { NoPart(key, 4, s.b); }
    if n > 8 { WordIsPart(mem, k, key, 8); } else { NoPart(key, 8, s.c); }
    var a, b, c := s.a, s.b, s.c;
    match n {
      case 12 =>
        c := Add(c, Load32(mem, k + 8)); b := Add(b, Load32(mem, k + 4)); a := Add(a, Load32(mem, k));
      case 11 =>
        c := Add(c, Load32(mem, k + 8) % 0x100_0000); b := Add(b, Load32(mem, k + 4)); a := Add(a, Load32(mem, k));
      case 10 =>
        c := Add(c, Load32(mem, k + 8) % 0x1_0000); b := Add(b, Load32(mem, k + 4)); a := Add(a, Load32(mem, k));
      case 9 =>
        c := Add(c, Load32(mem, k + 8) % 0x100); b := Add(b, Load32(mem, k + 4)); a := Add(a, Load32(mem, k));
      case 8 => b := Add(b, Load32(mem, k + 4)); a := Add(a, Load32(mem, k));
      case 7 => b := Add(b, Load32(mem, k + 4) % 0x100_0000); a := Add(a, Load32(mem, k));
      case 6 => b := Add(b, Load32(mem, k + 4) % 0x1_0000); a := Add(a, Load32(mem, k));
      case 5 => b := Add(b, Load32(mem, k + 4) % 0x100); a := Add(a, Load32(mem, k));
      case 4 => a := Add(a, Load32(mem, k));
      case 3 => a := Add(a, Load32(mem, k) % 0x100_0000);
      case 2 => a := Add(a, Load32(mem, k) % 0x1_0000);
      case _ => a := Add(a, Load32(mem, k) % 0x100);
    }
    t := Abc(a, b, c);
  }

  method HashWords(m: Mixer, mem: seq<byte>, length: nat, initval: u32, ghost words: nat) returns (h: u32)
    requires length <= 4 * words <= |mem|
    ensures h == Hash(m, mem[..length], initval)
  {
    ghost var key := mem[..length];
    var s := Seed(length, initval);
    var k, n := 0, length;
    assert key[0..] == key;
    ghost var w := words;
    while n > 12
      invariant 0 <= k <= k + n == length && k + 4 * w == 4 * words
      invariant HashFrom(m, s, key[k..]) == Hash(m, key, initval)
    {
      NextBlock(m, key, k, s);
      s := AddWords(mem, k, s, key[k..]);
      s := m.mix(s);
      k, n, w := k + 12, n - 12, w - 3;
    }
    LastBlock(m, key[k..], s);
    if n == 0 {
      return s.c;
    }
    s := AddLastWords(mem, k, n, s, key[k..], w);
    h := m.final(s);
  }

  // ----- the branch for an even address -----

  function Halves(mem: seq<byte>, at: nat): u32
    requires at + 4 <= |mem|
  {
    Load16(mem, at) + 0x1_0000 * Load16(mem, at + 2) as int
  }

  /** The tail of the key read as half-words and a last byte. */
  lemma HalfTail(mem: seq<byte>, k: nat, key: seq<byte>, i: nat, x: u32)
    requires Holds(mem, k, key) && i < |key|
    ensures i + 3 == |key| ==> Add(Add(x, 0x1_0000 * mem[k + i + 2] as int), Load16(mem, k + i)) == Add(x, Part(key, i))
    ensures i + 2 == |key| ==> Load16(mem, k + i) == Part(key, i)
    ensures i + 1 == |key| ==> mem[k + i] == Part(key, i)
  {
    assert key[i] == mem[k + i];
    if i + 1 < |key| { assert key[i + 1] == mem[k + i + 1]; }
    if i + 3 == |key| {
      assert key[i + 2] == mem[k + i + 2];
      AddTwice(x, 0x1_0000 * mem[k + i + 2] as int, Load16(mem, k + i));
    }
  }

  method AddHalves(mem: seq<byte>, k: nat, s: Abc, ghost key: seq<byte>) returns (t: Abc)
    requires Holds(mem, k, key) && |key| >= 12
    ensures t == Absorb(s, key)
  {
    HalvesArePart(mem, k, key, 0);
    HalvesArePart(mem, k, key, 4);
    HalvesArePart(mem, k, key, 8);
    t := Abc(Add(s.a, Halves(mem, k)), Add(s.b, Halves(mem, k + 4)), Add(s.c, Halves(mem, k + 8)));
  }

  method AddLastHalves(mem: seq<byte>, k: nat, n: nat, s: Abc, ghost key: seq<byte>) returns (t: Abc)
    requires Holds(mem, k, key) && 0 < n == |key| <= 12
    ensures t == Absorb(s, key)
  {
    HalfTails(mem, k, key, s);
    var a, b, c := s.a, s.b, s.c;
    match n {
      case 12 => c := Add(c, Halves(mem, k + 8)); b := Add(b, Halves(mem, k + 4)); a := Add(a, Halves(mem, k));
      case 11 =>
        c := Add(c, 0x1_0000 * mem[k + 10] as int); c := Add(c, Load16(mem, k + 8));
        b := Add(b, Halves(mem, k + 4)); a := Add(a, Halves(mem, k));
      case 10 => c := Add(c, Load16(mem, k + 8)); b := Add(b, Halves(mem, k + 4)); a := Add(a, Halves(mem, k));
      case 9 => c := Add(c, mem[k + 8]); b := Add(b, Halves(mem, k + 4)); a := Add(a, Halves(mem, k));
      case 8 => b := Add(b, Halves(mem, k + 4)); a := Add(a, Halves(mem, k));
      case 7 =>
        b := Add(b, 0x1_0000 * mem[k + 6] as int); b := Add(b, Load16(mem, k + 4)); a := Add(a, Halves(mem, k));
      case 6 => b := Add(b, Load16(mem, k + 4)); a := Add(a, Halves(mem, k));
      case 5 => b := Add(b, mem[k + 4]); a := Add(a, Halves(mem, k));
      case 4 => a := Add(a, Halves(mem, k));
      case 3 => a := Add(a, 0x1_0000 * mem[k + 2] as int); a := Add(a, Load16(mem, k));
      case 2 => a := Add(a, Load16(mem, k));
      case _ => a := Add(a, mem[k]);
    }
    t := Abc(a, b, c);
  }

  /** What each of the three values takes in from the last block. */
  ghost predicate HalfPart(mem: seq<byte>, at: nat, left: int, x: u32, part: u32)
    requires at + left <= |mem|
  {
    if left <= 0 then Add(x, part) == x
    else if left == 1 then mem[at] == part
    else if left == 2 then Load16(mem, at) == part
    else if left == 3 then Add(Add(x, 0x1_0000 * mem[at + 2] as int), Load16(mem, at)) == Add(x, part)
    else Halves(mem, at) == part
  }

  lemma HalfPartAt(mem: seq<byte>, k: nat, key: seq<byte>, i: nat, x: u32)
    requires Holds(mem, k, key)
    ensures k + i + (|key| - i) <= |mem| && HalfPart(mem, k + i, |key| - i, x, Part(key, i))
  {
    if i + 4 <= |key| {
      HalvesArePart(mem, k, key, i);
    } else if i < |key| {
      HalfTail(mem, k, key, i, x);
    } else {
      NoPart(key, i, x);
    }
  }

  lemma HalfTails(mem: seq<byte>, k: nat, key: seq<byte>, s: Abc)
    requires Holds(mem, k, key)
    ensures HalfPart(mem, k, |key|, s.a, Part(key, 0))
    ensures HalfPart(mem, k + 4, |key| - 4, s.b, Part(key, 4))
    ensures HalfPart(mem, k + 8, |key| - 8, s.c, Part(key, 8))
  {
    HalfPartAt(mem, k, key, 0, s.a);
    HalfPartAt(mem, k, key, 4, s.b);
    HalfPartAt(mem, k, key, 8, s.c);
  }

  method HashHalves(m: Mixer, mem: seq<byte>, length: nat, initval: u32) returns (h: u32)
    requires length <= |mem|
    ensures h == Hash(m, mem[..length], initval)
  {
    ghost var key := mem[..length];
    var s := Seed(length, initval);
    var k, n := 0, length;
    assert key[0..] == key;
    while n > 12
      invariant 0 <= k <= k + n == length
      invariant HashFrom(m, s, key[k..]) == Hash(m, key, initval)
    {
      NextBlock(m, key, k, s);
      s := AddHalves(mem, k, s, key[k..]);
      s := m.mix(s);
      k, n := k + 12, n - 12;
    }
    LastBlock(m, key[k..], s);
    if n == 0 {
      return s.c;
    }
    s := AddLastHalves(mem, k, n, s, key[k..]);
    h := m.final(s);
  }

  // ----- the branch that reads single bytes -----

  /** Four bytes added one by one, lowest first or highest first, add their little-endian number. */
  lemma AddFour(x: u32, p: byte, q: byte, r: byte, s: byte)
    ensures Add(Add(Add(Add(x, p), 0x100 * q as int), 0x1_0000 * r as int), 0x100_0000 * s as int)
         == Add(x, p + 0x100 * q as int + 0x1_0000 * r as int + 0x100_0000 * s as int)
    ensures Add(Add(Add(Add(x, 0x100_0000 * s as int), 0x1_0000 * r as int), 0x100 * q as int), p)
         == Add(x, p + 0x100 * q as int + 0x1_0000 * r as int + 0x100_0000 * s as int)
  {
    AddTwice(x, p, 0x100 * q as int);
    AddTwice(x, p + 0x100 * q as int, 0x1_0000 * r as int);
    AddTwice(x, p + 0x100 * q as int + 0x1_0000 * r as int, 0x100_0000 * s as int);
    AddTwice(x, 0x100_0000 * s as int, 0x1_0000 * r as int);
    AddTwice(x, 0x100_0000 * s as int + 0x1_0000 * r as int, 0x100 * q as int);
    AddTwice(x, 0x100_0000 * s as int + 0x1_0000 * r as int + 0x100 * q as int, p);
  }

  method AddFourBytes(mem: seq<byte>, at: nat, x: u32, ghost part: u32) returns (y: u32)
    requires at + 4 <= |mem| && part == Load32(mem, at)
    ensures y == Add(x, part)
  {
    AddFour(x, mem[at], mem[at + 1], mem[at + 2], mem[at + 3]);
    y := Add(x, mem[at]);
    y := Add(y, 0x100 * mem[at + 1] as int);
    y := Add(y, 0x1_0000 * mem[at + 2] as int);
    y := Add(y, 0x100_0000 * mem[at + 3] as int);
  }

  method AddBytes(mem: seq<byte>, k: nat, s: Abc, ghost key: seq<byte>) returns (t: Abc)
    requires Holds(mem, k, key) && |key| >= 12
    ensures t == Absorb(s, key)
  {
    WordIsPart(mem, k, key, 0);
    WordIsPart(mem, k, key, 4);
    WordIsPart(mem, k, key, 8);
    var a := AddFourBytes(mem, k, s.a, Part(key, 0));
    var b := AddFourBytes(mem, k + 4, s.b, Part(key, 4));
    var c := AddFourBytes(mem, k + 8, s.c, Part(key, 8));
    t := Abc(a, b, c);
  }

  /** Adding one byte of the key, when the switch reaches its case. */
  method AddTailByte(mem: seq<byte>, at: nat, present: bool, scale: nat, x: u32, ghost key: seq<byte>, ghost i: nat)
    returns (y: u32)
    requires scale <= 0x100_0000 && present == (i < |key|)
    requires present ==> at < |mem| && mem[at] == key[i]
    ensures scale * Digit(key, i) as int < TWO_32 && y == Add(x, scale * Digit(key, i) as int)
  {
    y := x;
    Scaled(scale, Digit(key, i));
    if present {
      y := Add(y, scale * mem[at] as int);
    }
  }

  lemma Scaled(scale: nat, d: byte)
    requires scale <= 0x100_0000
    ensures 0 <= scale * d as int < TWO_32 && scale * 0 == 0
  {
  }

  /** The cases of the last block for one of the three values, each falling through to the next:
      left is how many bytes of the key are not before it. */
  method AddTailBytes(mem: seq<byte>, at: nat, left: int, x: u32, ghost k: nat, ghost key: seq<byte>, ghost i: nat)
    returns (y: u32)
    requires Holds(mem, k, key) && at == k + i && left == |key| - i
    ensures y == Add(x, Part(key, i))
  {
    AddFour(x, Digit(key, i), Digit(key, i + 1), Digit(key, i + 2), Digit(key, i + 3));
    y := AddTailByte(mem, at + 3, left >= 4, 0x100_0000, x, key, i + 3);
    y := AddTailByte(mem, at + 2, left >= 3, 0x1_0000, y, key, i + 2);
    y := AddTailByte(mem, at + 1, left >= 2, 0x100, y, key, i + 1);
    y := AddTailByte(mem, at, left >= 1, 1, y, key, i);
  }

  method AddLastBytes(mem: seq<byte>, k: nat, n: nat, s: Abc, ghost key: seq<byte>) returns (t: Abc)
    requires Holds(mem, k, key) && 0 < n == |key| <= 12
    ensures t == Absorb(s, key)
  {
    var c := AddTailBytes(mem, k + 8, n - 8, s.c, k, key, 8);
    var b := AddTailBytes(mem, k + 4, n - 4, s.b, k, key, 4);
    var a := AddTailBytes(mem, k, n, s.a, k, key, 0);
    t := Abc(a, b, c);
  }

  method HashBytes(m: Mixer, mem: seq<byte>, length: nat, initval: u32) returns (h: u32)
    requires length <= |mem|
    ensures h == Hash(m, mem[..length], initval)
  {
    ghost var key := mem[..length];
    var s := Seed(length, initval);
    var k, n := 0, length;
    assert key[0..] == key;
    while n > 12
      invariant 0 <= k <= k + n == length
      invariant HashFrom(m, s, key[k..]) == Hash(m, key, initval)
    {
      NextBlock(m, key, k, s);
      s := AddBytes(mem, k, s, key[k..]);
      s := m.mix(s);
      k, n := k + 12, n - 12;
    }
    LastBlock(m, key[k..], s);
    if n == 0 {
      return s.c;
    }
    s := AddLastBytes(mem, k, n, s, key[k..]);
    h := m.final(s);
  }

  /** How many words the key touches. */
  function Words(length: nat): (w: nat)
    ensures 4 * w - 4 < length <= 4 * w
  {
    (length + 3) / 4
  }

  /** Every branch computes the same hash of the key: it does not depend on where the key lies, nor on
      the bytes after it that the word branch reads.  Only that branch needs the last word to be
      readable as a whole. */
  method HashLittle(mem: seq<byte>, address: nat, littleEndian: bool, length: nat, initval: u32) returns (h: u32)
    requires length <= |mem|
    requires littleEndian && address % 4 == 0 ==> 4 * Words(length) <= |mem|
    ensures h == Hash(Mixer(Mix, Final), mem[..length], initval)
  {
    if littleEndian && address % 4 == 0 {
      h := HashWords(Mixer(Mix, Final), mem, length, initval, Words(length));
    } else if littleEndian && address % 2 == 0 {
      h := HashHalves(Mixer(Mix, Final), mem, length, initval);
    } else {
      h := HashBytes(Mixer(Mix, Final), mem, length, initval);
    }
  }

  // ----- known answers -----

  /** A key without bytes is not mixed at all. */
  lemma NoBytes(initval: u32)
    ensures Hash(Mixer(Mix, Final), [], initval) == (0xdead_beef + initval) % 0x1_0000_0000
  {
  }

  /** Mixing numbers is mixing the words that hold them. */
  lemma MixWords(a: bv32, b: bv32, c: bv32)
    ensures Mix(Abc(a as int, b as int, c as int)) == FromBits(MixBits(Bits(a, b, c)))
  {
    AsWord(a);
    AsWord(b);
    AsWord(c);
  }

  lemma FinalWords(a: bv32, b: bv32, c: bv32)
    ensures Final(Abc(a as int, b as int, c as int)) == FinalBits(Bits(a, b, c)) as int
  {
    AsWord(a);
    AsWord(b);
    AsWord(c);
  }

  lemma AsWord(x: bv32)
    ensures (x as int) as bv32 == x
  {
  }

  lemma OneByteFinal()
    ensures FinalBits(Bits(0xdead_bf51, 0xdead_bef0, 0xdead_bef0)) == 0x58d6_8708
  {
  }

  lemma OneByteShape(m: Mixer)
    ensures Hash(m, [0x61], 0) == m.final(Abc(0xdead_bf51, 0xdead_bef0, 0xdead_bef0))
  {
    assert Absorb(Seed(1, 0), [0x61]) == Abc(0xdead_bf51, 0xdead_bef0, 0xdead_bef0);
  }

  /** The hash of one byte. */
  lemma OneByte()
    ensures Hash(Mixer(Mix, Final), [0x61], 0) == 0x58d6_8708
  {
    OneByteShape(Mixer(Mix, Final));
    OneByteFinal();
    FinalWords(0xdead_bf51, 0xdead_bef0, 0xdead_bef0);
  }

  /** "Four score and seven years ago". */
  function FourScore(): seq<byte>
  {
    [0x46, 0x6f, 0x75, 0x72, 0x20, 0x73, 0x63, 0x6f, 0x72, 0x65, 0x20, 0x61]
    + [0x6e, 0x64, 0x20, 0x73, 0x65, 0x76, 0x65, 0x6e, 0x20, 0x79, 0x65, 0x61]
    + [0x72, 0x73, 0x20, 0x61, 0x67, 0x6f]
  }

  lemma FourScoreBlocks()
    ensures Absorb(Seed(30, 0), FourScore()) == Abc(0x5123_2e53, 0x4e11_322d, 0x3fce_247f)
    ensures Absorb(Abc(0xf859_ad7a, 0x04bc_57ae, 0x40dd_dd7e), FourScore()[12..]) ==
            Abc(0x6b7a_11e8, 0x7321_ce13, 0xa243_569e)
    ensures Absorb(Abc(0x336a_ded2, 0x059f_2642, 0xbd02_ebd5), FourScore()[24..]) ==
            Abc(0x948b_5244, 0x059f_95a9, 0xbd02_ebd5)
  {
  }

  lemma FourScoreBits()
    ensures MixBits(Bits(0x5123_2e53, 0x4e11_322d, 0x3fce_247f)) == Bits(0xf859_ad7a, 0x04bc_57ae, 0x40dd_dd7e)
    ensures MixBits(Bits(0x6b7a_11e8, 0x7321_ce13, 0xa243_569e)) == Bits(0x336a_ded2, 0x059f_2642, 0xbd02_ebd5)
    ensures FinalBits(Bits(0x948b_5244, 0x059f_95a9, 0xbd02_ebd5)) == 0x1777_0551
  {
  }

  lemma FourScoreMixes()
    ensures Mix(Abc(0x5123_2e53, 0x4e11_322d, 0x3fce_247f)) == Abc(0xf859_ad7a, 0x04bc_57ae, 0x40dd_dd7e)
    ensures Mix(Abc(0x6b7a_11e8, 0x7321_ce13, 0xa243_569e)) == Abc(0x336a_ded2, 0x059f_2642, 0xbd02_ebd5)
    ensures Final(Abc(0x948b_5244, 0x059f_95a9, 0xbd02_ebd5)) == 0x1777_0551
  {
    FourScoreBits();
    MixWords(0x5123_2e53, 0x4e11_322d, 0x3fce_247f);
    MixWords(0x6b7a_11e8, 0x7321_ce13, 0xa243_569e);
    FinalWords(0x948b_5244, 0x059f_95a9, 0xbd02_ebd5);
  }

  /** The hash of a key of two whole blocks and a rest of six bytes. */
  lemma ThreeBlocks()
    ensures Hash(Mixer(Mix, Final), FourScore(), 0) == 0x1777_0551
  {
    var m, key := Mixer(Mix, Final), FourScore();
    FourScoreBlocks();
    FourScoreMixes();
    assert key[0..] == key;
    NextBlock(m, key, 0, Seed(30, 0));
    NextBlock(m, key, 12, Abc(0xf859_ad7a, 0x04bc_57ae, 0x40dd_dd7e));
    LastBlock(m, key[24..], Abc(0x336a_ded2, 0x059f_2642, 0xbd02_ebd5));
  }
}
