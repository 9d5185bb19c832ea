/** Sizes as text: a printer that picks the largest binary suffix, and a reader of '+'-joined sizes.
    A text is what precedes the terminating NUL. */
module MemorySize {
  import opened Arithmetic
  import opened Bytes

  // ----- the C library's conversions -----

  /** Value of a digit character in the largest base; 36 for any other character. */
  function DigitValue(c: char): (d: nat)
    ensures d <= 36
  {
    if '0' <= c <= '9' then c as int - '0' as int
    else if 'a' <= c <= 'z' then c as int - 'a' as int + 10
    else if 'A' <= c <= 'Z' then c as int - 'A' as int + 10
    else 36
  }

  /** How many digits of the base the text starts with. */
  function Digits(base: nat, s: string): (k: nat)
    ensures k <= |s|
  {
    if s != [] && DigitValue(s[0]) < base then 1 + Digits(base, s[1..]) else 0
  }

  function Value(base: nat, s: string): nat
  {
    if s == [] then 0 else Value(base, s[..|s| - 1]) * base + DigitValue(s[|s| - 1])
  }

  predicate IsBlank(c: char)
  {
    c == ' ' || '\t' <= c <= '\r'
  }

  function Spaces(s: string): (k: nat)
    ensures k <= |s|
  {
    if s != [] && IsBlank(s[0]) then 1 + Spaces(s[1..]) else 0
  }

  /** A number and how much text was taken. */
  datatype Read = Read(value: nat, taken: nat)

  predicate Hex(s: string)
  {
    |s| >= 3 && s[0] == '0' && (s[1] == 'x' || s[1] == 'X') && DigitValue(s[2]) < 16
  }

  /** strtoull with base 0 on a text without blanks and sign. */
  function Unsigned(s: string): (r: Read)
    ensures r.taken <= |s|
  {
    if Hex(s) then Read(Value(16, s[2..2 + Digits(16, s[2..])]), 2 + Digits(16, s[2..]))
    else if s != [] && s[0] == '0' then Read(Value(8, s[..Digits(8, s)]), Digits(8, s))
    else Read(Value(10, s[..Digits(10, s)]), Digits(10, s))
  }

  /** strtoull with base 0: blanks, a sign, then a number; a value too large is the largest one, and a
      negative one is taken modulo the word.  Without a digit nothing is taken at all. */
  function Strtoull(s: string): (r: Read)
    ensures r.value < TWO_64 && r.taken <= |s|
  {
    var k := Spaces(s);
    if k < |s| && (s[k] == '+' || s[k] == '-') then Limited(s[k] == '-', k + 1, Unsigned(s[k + 1..]))
    else Limited(false, k, Unsigned(s[k..]))
  }

  function Limited(negative: bool, from: nat, u: Read): (r: Read)
    ensures r.value < TWO_64 && r.taken <= from + u.taken
  {
    if u.taken == 0 then Read(0, 0)
    else if u.value >= TWO_64 then Read(TWO_64 - 1, from + u.taken)
    else if negative then Read(if u.value == 0 then 0 else TWO_64 - u.value, from + u.taken)
    else Read(u.value, from + u.taken)
  }

  /** %llu. */
  function Decimal(n: nat): (s: string)
    ensures s != []
  {
    if n < 10 then ["0123456789"[n]] else Decimal(n / 10) + ["0123456789"[n % 10]]
  }

  // ----- printing -----

  const KILO := 0x400
  const MEGA := 0x10_0000
  const GIGA := 0x4000_0000

  /** The text of a size: the number of the largest of the units that measure it exactly. */
  function Text(n: nat): string
  {
    if n % GIGA == 0 then Decimal(n / GIGA) + "G"
    else if n % MEGA == 0 then Decimal(n / MEGA) + "M"
    else if n % KILO == 0 then Decimal(n / KILO) + "K"
    else Decimal(n)
  }

  const FMTSIZE_BUF := 22

  method Sprintf(buf: array<char>, text: string)
    requires |text| < buf.Length
    modifies buf
    ensures buf[..|text| + 1] == text + ['\0']
    ensures buf[|text| + 1..] == old(buf[|text| + 1..])
  {
    for i := 0 to |text|
      invariant buf[..i] == text[..i]
      invariant buf[|text| + 1..] == old(buf[|text| + 1..])
    {
      buf[i] := text[i];
    }
    buf[|text|] := '\0';
  }

  /** The larger units divide a size exactly when the repeated shifts do. */
  lemma UnitsNest(n: nat)
    ensures n % MEGA == 0 <==> n % KILO == 0 && n / KILO % KILO == 0
    ensures n % GIGA == 0 <==> n % KILO == 0 && n / KILO % KILO == 0 && n / KILO / KILO % KILO == 0
    ensures n / MEGA == n / KILO / KILO && n / GIGA == n / KILO / KILO / KILO
  {
    var q1 := n / KILO;
    var q2 := q1 / KILO;
    ModUnique(n, MEGA, q2, KILO * (q1 % KILO) + n % KILO);
    ModUnique(n, GIGA, q2 / KILO, MEGA * (q2 % KILO) + KILO * (q1 % KILO) + n % KILO);
  }

  /** The text and its terminator fit a buffer of the advertised size. */
  method FmtSize(buf: array<char>, size: nat)
    requires size < TWO_64 && FMTSIZE_BUF <= buf.Length
    modifies buf
    ensures |Text(size)| < FMTSIZE_BUF && buf[..|Text(size)| + 1] == Text(size) + ['\0']
    ensures buf[FMTSIZE_BUF..] == old(buf[FMTSIZE_BUF..])
  {
    UnitsNest(size);
    TextFits(size);
    var n, suffix := size, '\0';
    if n % KILO == 0 {
      n, suffix := n / KILO, 'K';
    }
    if n % KILO == 0 {
      n, suffix := n / KILO, 'M';
    }
    if n % KILO == 0 {
      n, suffix := n / KILO, 'G';
    }
    var text := if suffix != '\0' then Decimal(n) + [suffix] else Decimal(n);
    assert text == Text(size);
    Sprintf(buf, text);
    assert buf[FMTSIZE_BUF..] == buf[|text| + 1..][FMTSIZE_BUF - |text| - 1..];
    assert old(buf[FMTSIZE_BUF..]) == old(buf[|text| + 1..])[FMTSIZE_BUF - |text| - 1..];
  }

  function Tens(k: nat): nat
  {
    if k == 0 then 1 else 10 * Tens(k - 1)
  }

  lemma {:induction false} DecimalFits(n: nat, k: nat)
    requires k > 0 && n < Tens(k)
    ensures |Decimal(n)| <= k
  {
    if n >= 10 {
      assert Tens(1) == 10;
      DecimalFits(n / 10, k - 1);
    }
  }

  lemma TwentyDigits()
    ensures Tens(20) > TWO_64
  {
    assert Tens(5) == 100000 && Tens(10) == 10000000000;
    assert Tens(15) == 1000000000000000 && Tens(20) == 100000000000000000000;
  }

  lemma TextFits(n: nat)
    requires n < TWO_64
    ensures |Text(n)| < FMTSIZE_BUF
  {
    TwentyDigits();
    DecimalFits(n, 20);
    DecimalFits(n / KILO, 20);
    DecimalFits(n / MEGA, 20);
    DecimalFits(n / GIGA, 20);
  }

  // ----- reading -----

  /** A conversion of the number a text starts with, never taking more text than there is. */
  type Conversion = f: string -> Read | forall s :: f(s).taken <= |s| && f(s).value < TWO_64 witness s => Read(0, 0)

  /** Unsigned 64-bit arithmetic. */
  function Wrap(x: nat): nat
  {
    x % TWO_64
  }

  predicate IsSuffix(c: char)
  {
    c == 'G' || c == 'g' || c == 'M' || c == 'm' || c == 'K' || c == 'k'
  }

  /** A value in the unit of a suffix character. */
  function Scaled(v: nat, c: char): nat
    requires IsSuffix(c)
  {
    if c == 'G' || c == 'g' then v * GIGA
    else if c == 'M' || c == 'm' then v * MEGA
    else v * KILO
  }

  /** The size the text starts with, as a number of any magnitude. */
  function Size(strtoull: Conversion, s: string): (r: Read)
    ensures r.taken <= |s|
  {
    var u := strtoull(s);
    if u.taken < |s| && IsSuffix(s[u.taken]) then Read(Scaled(u.value, s[u.taken]), u.taken + 1) else u
  }

  /** The size at a position: its value, and the position after it. */
  function SizeAt(strtoull: Conversion, s: string, at: nat): (r: Read)
    requires at <= |s|
    ensures at <= r.taken <= |s|
  {
    var r := Size(strtoull, s[at..]);
    Read(r.value, at + r.taken)
  }

  predicate Continues(s: string, at: nat)
  {
    at + 1 < |s| && s[at] == '+'
  }

  /** The sum of the sizes from a position on, and the position after them: they are joined by '+', and
      the last is the one after which no '+' stands that something follows. */
  function SizesFrom(strtoull: Conversion, s: string, at: nat): (r: Read)
    requires at <= |s|
    ensures at <= r.taken <= |s|
    decreases |s| - at
  {
    var first := SizeAt(strtoull, s, at);
    if Continues(s, first.taken) then
      var others := SizesFrom(strtoull, s, first.taken + 1);
      Read(first.value + others.value, others.taken)
    else first
  }

  /** Shifts of wrapped values amount to one wrapped product. */
  lemma ShiftWraps(v: nat)
    ensures Wrap(Wrap(v) * KILO) == Wrap(v * KILO)
  {
    var w := v % TWO_64;
    ModUnique(v * KILO, TWO_64, v / TWO_64 * KILO + w * KILO / TWO_64, w * KILO % TWO_64);
  }

  method ReadSize1(strtoull: Conversion, s: string) returns (r: Read)
    ensures r == Read(Wrap(Size(strtoull, s).value), Size(strtoull, s).taken)
  {
    var u := strtoull(s);
    ShiftWraps(u.value * KILO);
    ShiftWraps(u.value * MEGA);
    var res, end := u.value, u.taken;
    if end < |s| {
      var c := s[end];
      if c == 'G' || c == 'g' {
        res := Wrap(res * KILO);
      }
      if c == 'G' || c == 'g' || c == 'M' || c == 'm' {
        res := Wrap(res * KILO);
      }
      if c == 'G' || c == 'g' || c == 'M' || c == 'm' || c == 'K' || c == 'k' {
        res := Wrap(res * KILO);
        end := end + 1;
      }
    }
    r := Read(res, end);
  }

  /** Adds the size at a position to what was read before; the sum wraps. */
  method AddSizeAt(strtoull: Conversion, s: string, at: nat, ret: nat, ghost sum: nat, ghost one: Read)
    returns (r: Read)
    requires at <= |s| && one == SizeAt(strtoull, s, at) && ret == Wrap(sum)
    ensures r == Read(Wrap(sum + one.value), one.taken)
  {
    SumWraps(sum, one.value);
    var size := ReadSize1(strtoull, s[at..]);
    r := Read(Wrap(ret + size.value), at + size.taken);
  }

  /** One turn of the loop: the sum so far and what is still ahead make the goal. */
  method ReadNext(strtoull: Conversion, s: string, at: nat, ret: nat, ghost sum: nat, ghost goal: Read)
    returns (r: Read, more: bool, ghost sum': nat)
    requires at <= |s| && ret == Wrap(sum) && goal == Ahead(sum, SizesFrom(strtoull, s, at))
    ensures r.value == Wrap(sum') && at <= r.taken <= |s| && (more ==> at < r.taken)
    ensures goal == if more then Ahead(sum', SizesFrom(strtoull, s, r.taken)) else Read(sum', r.taken)
  {
    ghost var one := SizeAt(strtoull, s, at);
    NextSize(strtoull, s, at, sum, one);
    r := AddSizeAt(strtoull, s, at, ret, sum, one);
    sum' := sum + one.value;
    more := r.taken + 1 < |s| && s[r.taken] == '+';
    if more {
      r := Read(r.value, r.taken + 1);
    }
  }

  /** The sum wraps to 64 bits. */
  method ReadSize(strtoull: Conversion, s: string) returns (r: Read)
    ensures r == Read(Wrap(SizesFrom(strtoull, s, 0).value), SizesFrom(strtoull, s, 0).taken)
  {
    var ret, at, more := 0, 0, true;
    ghost var goal, sum: nat := SizesFrom(strtoull, s, 0), 0;
    while more
      invariant 0 <= at <= |s| && ret == Wrap(sum)
      invariant goal == if more then Ahead(sum, SizesFrom(strtoull, s, at)) else Read(sum, at)
      decreases more, |s| - at
    {
      var next, again, sum' := ReadNext(strtoull, s, at, ret, sum, goal);
      ret, at, more, sum := next.value, next.taken, again, sum';
    }
    r := Read(ret, at);
  }

  /** One turn of the loop keeps what the whole text adds up to. */
  lemma NextSize(strtoull: Conversion, s: string, at: nat, sum: nat, one: Read)
    requires at <= |s| && one == SizeAt(strtoull, s, at)
    ensures Ahead(sum, SizesFrom(strtoull, s, at)) ==
            if Continues(s, one.taken) then Ahead(sum + one.value, SizesFrom(strtoull, s, one.taken + 1))
            else Read(sum + one.value, one.taken)
  {
  }

  ghost function Ahead(sum: nat, rest: Read): Read
  {
    Read(sum + rest.value, rest.taken)
  }

  // ----- reading back what was printed -----

  lemma {:induction false} DecimalShape(n: nat)
    ensures Value(10, Decimal(n)) == n
    ensures forall c :: c in Decimal(n) ==> '0' <= c <= '9'
    ensures n > 0 ==> Decimal(n)[0] != '0'
    ensures n == 0 ==> Decimal(n) == "0"
  {
    DigitBack(n % 10);
    if n < 10 {
      assert Decimal(n)[..0] == [];
      assert Value(10, []) == 0;
    } else {
      DecimalShape(n / 10);
      assert Decimal(n)[..|Decimal(n)| - 1] == Decimal(n / 10);
    }
  }

  lemma DigitBack(d: nat)
    requires d < 10
    ensures DigitValue("0123456789"[d]) == d && '0' <= "0123456789"[d] <= '9' && (d > 0 ==> "0123456789"[d] != '0')
  {
  }

  lemma {:induction false} DigitsThen(s: string, rest: string, base: nat)
    requires forall c :: c in s ==> DigitValue(c) < base
    requires rest == [] || DigitValue(rest[0]) >= base
    ensures Digits(base, s + rest) == |s|
  {
    if s == [] {
      assert s + rest == rest;
    } else {
      assert (s + rest)[1..] == s[1..] + rest;
      DigitsThen(s[1..], rest, base);
    }
  }

  // ----- the unit that is printed -----

  lemma SameText(u: nat, d: char, v: nat, c: char)
    requires Decimal(u) + [d] == Decimal(v) + [c]
    ensures u == v && d == c
  {
    var s := Decimal(u) + [d];
    DecimalShape(u);
    DecimalShape(v);
    assert s[..|s| - 1] == Decimal(u) && s[..|s| - 1] == Decimal(v);
    assert s[|s| - 1] == d && s[|s| - 1] == c;
  }

  lemma NotANumber(n: nat, v: nat, c: char)
    requires IsSuffix(c)
    ensures Decimal(n) != Decimal(v) + [c]
  {
    DecimalShape(n);
    var s := Decimal(v) + [c];
    assert s[|s| - 1] == c && c in s;
  }

  /** The unit whose number does not divide by 1024 any more measures the size, and no larger one does. */
  lemma UnitFound(n: nat, v: nat, c: char)
    requires c == 'G' || c == 'M' || c == 'K'
    requires Scaled(v, c) == n && (c == 'G' || v % KILO != 0)
    ensures Text(n) == Decimal(v) + [c]
  {
    UnitsNest(n);
    ModUnique(n, if c == 'G' then GIGA else if c == 'M' then MEGA else KILO, v, 0);
  }

  lemma UnitsExact(n: nat)
    ensures n % GIGA == 0 ==> Scaled(n / GIGA, 'G') == n
    ensures n % MEGA == 0 ==> Scaled(n / MEGA, 'M') == n && (n % GIGA != 0 ==> n / MEGA % KILO != 0)
    ensures n % KILO == 0 ==> Scaled(n / KILO, 'K') == n && (n % MEGA != 0 ==> n / KILO % KILO != 0)
  {
    UnitsNest(n);
  }

  /** A size is printed with a suffix exactly if the number is the size in that unit and, short of the
      largest unit, does not divide by 1024; and without one exactly if the size does not. */
  lemma LargestUnit(n: nat, v: nat, c: char)
    requires c == 'G' || c == 'M' || c == 'K'
    ensures Text(n) == Decimal(v) + [c] <==> Scaled(v, c) == n && (c == 'G' || v % KILO != 0)
    ensures Text(n) == Decimal(n) <==> n % 1024 != 0
  {
    if Scaled(v, c) == n && (c == 'G' || v % KILO != 0) {
      UnitFound(n, v, c);
    }
    UnitsExact(n);
    UnitsNest(n);
    if n % GIGA == 0 {
      Suffixed(n, n / GIGA, 'G', v, c);
    } else if n % MEGA == 0 {
      Suffixed(n, n / MEGA, 'M', v, c);
    } else if n % KILO == 0 {
      Suffixed(n, n / KILO, 'K', v, c);
    } else {
      NotANumber(n, v, c);
    }
  }

  lemma Suffixed(n: nat, u: nat, d: char, v: nat, c: char)
    requires Text(n) == Decimal(u) + [d] && IsSuffix(d)
    ensures Text(n) == Decimal(v) + [c] ==> u == v && d == c
    ensures Text(n) != Decimal(n)
  {
    NotANumber(n, u, d);
    if Decimal(u) + [d] == Decimal(v) + [c] {
      SameText(u, d, v, c);
    }
  }

  /** What can follow a number without continuing it. */
  predicate Stops(rest: string)
  {
    rest == [] || (DigitValue(rest[0]) >= 10 && rest[0] != 'x' && rest[0] != 'X')
  }

  /** A printed number is read back, up to whatever does not continue it. */
  lemma ReadDecimal(n: nat, rest: string)
    requires n < TWO_64 && Stops(rest)
    ensures Strtoull(Decimal(n) + rest) == Read(n, |Decimal(n)|)
  {
    DecimalShape(n);
    var s := Decimal(n) + rest;
    assert Decimal(n)[0] in Decimal(n);
    assert Spaces(s) == 0 && s[0..] == s;
    UnsignedDecimal(n, rest);
  }

  lemma UnsignedDecimal(n: nat, rest: string)
    requires Stops(rest)
    ensures Unsigned(Decimal(n) + rest) == Read(n, |Decimal(n)|)
  {
    DecimalShape(n);
    var s := Decimal(n) + rest;
    DigitsThen(Decimal(n), rest, 10);
    assert s[..|Decimal(n)|] == Decimal(n);
    if n == 0 {
      DigitsThen("0", rest, 8);
      assert "0"[..0] == [] && Value(8, "0") == 0;
    }
  }

  // ----- the other forms of a number -----

  /** Which characters are digits of which base, and which are blanks. */
  lemma Characters(c: char)
    ensures DigitValue(c) < 16 <==> c in "0123456789abcdefABCDEF"
    ensures DigitValue(c) < 8 <==> c in "01234567"
    ensures IsBlank(c) <==> c in " \t\n\U{B}\U{C}\r"
  {
  }

  lemma HexForm(s: string, t: string, n: nat)
    requires Hex(s) && s[2..] == t && Digits(16, t) == n
    ensures Unsigned(s) == Read(Value(16, t[..n]), 2 + n)
  {
    assert s[2..2 + n] == t[..n];
  }

  /** After 0x or 0X every hexadecimal digit is taken. */
  lemma ReadHex(x: char, d: string, rest: string)
    requires (x == 'x' || x == 'X') && d != [] && forall c :: c in d ==> DigitValue(c) < 16
    requires rest == [] || DigitValue(rest[0]) >= 16
    ensures Unsigned(['0', x] + (d + rest)) == Read(Value(16, d), 2 + |d|)
  {
    DigitsThen(d, rest, 16);
    assert d[0] in d && (d + rest)[..|d|] == d;
    HexLayout(x, d + rest);
    HexForm(['0', x] + (d + rest), d + rest, |d|);
  }

  lemma HexLayout(x: char, t: string)
    requires (x == 'x' || x == 'X') && t != [] && DigitValue(t[0]) < 16
    ensures Hex(['0', x] + t) && (['0', x] + t)[2..] == t
  {
  }

  /** A number that starts with 0 and not with 0x is octal. */
  lemma ReadOctal(d: string, rest: string)
    requires d != [] && d[0] == '0' && forall c :: c in d ==> DigitValue(c) < 8
    requires rest == [] || (DigitValue(rest[0]) >= 8 && rest[0] != 'x' && rest[0] != 'X')
    ensures Unsigned(d + rest) == Read(Value(8, d), |d|)
  {
    var s := d + rest;
    DigitsThen(d, rest, 8);
    assert s[..|d|] == d && s[0] == '0';
    if |s| > 1 {
      assert s[1] == (if |d| > 1 then d[1] else rest[0]) && (|d| > 1 ==> d[1] in d);
    }
  }

  lemma {:induction false} SpacesThen(b: string, t: string)
    requires (forall c :: c in b ==> IsBlank(c)) && t != [] && !IsBlank(t[0])
    ensures Spaces(b + t) == |b|
  {
    if b == [] {
      assert b + t == t;
    } else {
      assert b[0] in b && (b + t)[1..] == b[1..] + t;
      SpacesThen(b[1..], t);
    }
  }

  /** The value of a number behind a sign: one too large counts as the largest, a negative one modulo 2^64. */
  function Signed(sign: string, n: nat): nat
  {
    if n >= TWO_64 then TWO_64 - 1 else if sign == "-" && n > 0 then TWO_64 - n else n
  }

  lemma WithSign(s: string, k: nat, t: string)
    requires Spaces(s) == k < |s| && (s[k] == '+' || s[k] == '-') && s[k + 1..] == t
    ensures Strtoull(s) == Limited(s[k] == '-', k + 1, Unsigned(t))
  {
  }

  lemma WithoutSign(s: string, k: nat, t: string)
    requires Spaces(s) == k < |s| && s[k] != '+' && s[k] != '-' && s[k..] == t
    ensures Strtoull(s) == Limited(false, k, Unsigned(t))
  {
  }

  lemma SignLayout(b: string, sign: string, t: string)
    requires t != [] && |sign| <= 1
    ensures var s := b + (sign + t);
            s[|b| + |sign|..] == t && s[|b|] == if sign == [] then t[0] else sign[0]
  {
  }

  /** Blanks and a sign may precede a number. */
  lemma SignedRead(b: string, sign: string, n: nat, rest: string)
    requires (forall c :: c in b ==> IsBlank(c)) && (sign == [] || sign == "+" || sign == "-") && Stops(rest)
    ensures Strtoull(b + (sign + (Decimal(n) + rest))) == Read(Signed(sign, n), |b| + |sign| + |Decimal(n)|)
  {
    var t := Decimal(n) + rest;
    DecimalShape(n);
    UnsignedDecimal(n, rest);
    assert Decimal(n)[0] in Decimal(n);
    SpacesThen(b, sign + t);
    SignLayout(b, sign, t);
    if sign == [] {
      WithoutSign(b + (sign + t), |b|, t);
    } else {
      WithSign(b + (sign + t), |b|, t);
    }
  }

  ghost predicate ReadsBack(strtoull: Conversion, n: nat)
  {
    forall rest :: Stops(rest) ==> strtoull(Decimal(n) + rest) == Read(n, |Decimal(n)|)
  }

  /** A printed size is read back exactly, alone or before a '+'. */
  lemma ReadText(strtoull: Conversion, n: nat, rest: string)
    requires n < TWO_64 && (rest == [] || rest[0] == '+')
    requires forall v: nat :: v < TWO_64 ==> ReadsBack(strtoull, v)
    ensures Size(strtoull, Text(n) + rest) == Read(n, |Text(n)|)
  {
    var text := Text(n) + rest;
    if n % GIGA == 0 {
      assert text == Decimal(n / GIGA) + ['G'] + rest;
      ReadUnit(strtoull, n, n / GIGA, 'G', rest);
    } else if n % MEGA == 0 {
      assert text == Decimal(n / MEGA) + ['M'] + rest;
      ReadUnit(strtoull, n, n / MEGA, 'M', rest);
    } else if n % KILO == 0 {
      assert text == Decimal(n / KILO) + ['K'] + rest;
      ReadUnit(strtoull, n, n / KILO, 'K', rest);
    } else {
      assert ReadsBack(strtoull, n);
    }
  }

  lemma ReadUnit(strtoull: Conversion, n: nat, v: nat, c: char, rest: string)
    requires IsSuffix(c) && Scaled(v, c) == n && ReadsBack(strtoull, v)
    ensures Size(strtoull, Decimal(v) + [c] + rest) == Read(n, |Decimal(v)| + 1)
  {
    assert Decimal(v) + [c] + rest == Decimal(v) + ([c] + rest);
    assert Stops([c] + rest);
  }

  function Texts(ns: seq<nat>): (ts: seq<string>)
    ensures |ts| == |ns|
  {
    seq(|ns|, i requires 0 <= i < |ns| => Text(ns[i]))
  }

  function Join(ts: seq<string>): string
  {
    if ts == [] then [] else if |ts| == 1 then ts[0] else ts[0] + (['+'] + Join(ts[1..]))
  }

  function Total(ns: seq<nat>): nat
  {
    if ns == [] then 0 else ns[0] + Total(ns[1..])
  }

  ghost predicate Fit(ns: seq<nat>)
  {
    forall n :: n in ns ==> n < TWO_64
  }

  /** From a position on, the text is exactly these sizes joined by '+'. */
  ghost predicate Lists(strtoull: Conversion, s: string, at: nat, ns: seq<nat>)
    requires at <= |s|
    decreases |ns|
  {
    var first := SizeAt(strtoull, s, at);
    && ns != []
    && first.value == ns[0]
    && if |ns| == 1 then first.taken == |s|
       else Continues(s, first.taken) && Lists(strtoull, s, first.taken + 1, ns[1..])
  }

  lemma {:induction false} ListsTotal(strtoull: Conversion, s: string, at: nat, ns: seq<nat>)
    requires at <= |s| && Lists(strtoull, s, at, ns)
    ensures SizesFrom(strtoull, s, at) == Read(Total(ns), |s|)
    decreases |ns|
  {
    var first := SizeAt(strtoull, s, at);
    NextSize(strtoull, s, at, 0, first);
    if |ns| == 1 {
      assert Total(ns[1..]) == 0;
    } else {
      ListsTotal(strtoull, s, first.taken + 1, ns[1..]);
    }
  }

  /** The text reads as this size, whatever it is joined with. */
  ghost predicate ReadsAs(strtoull: Conversion, text: string, n: nat)
  {
    && text != []
    && Size(strtoull, text) == Read(n, |text|)
    && forall rest :: Size(strtoull, text + (['+'] + rest)) == Read(n, |text|)
  }

  lemma JoinStep(strtoull: Conversion, s: string, at: nat, n: nat, text: string, others: string)
    requires at <= |s| && s[at..] == text + (['+'] + others) && others != []
    requires Size(strtoull, s[at..]) == Read(n, |text|)
    ensures SizeAt(strtoull, s, at) == Read(n, at + |text|) && Continues(s, at + |text|)
    ensures s[at + |text| + 1..] == others
  {
    assert s[at + |text|] == s[at..][|text|];
    assert s[at + |text| + 1..] == s[at..][|text| + 1..];
  }

  lemma {:induction false} JoinLists(strtoull: Conversion, s: string, at: nat, ts: seq<string>, ns: seq<nat>)
    requires at <= |s| && ns != [] && |ts| == |ns| && s[at..] == Join(ts)
    requires forall k :: 0 <= k < |ns| ==> ReadsAs(strtoull, ts[k], ns[k])
    ensures Lists(strtoull, s, at, ns)
    decreases |ns|
  {
    assert ReadsAs(strtoull, ts[0], ns[0]);
    if |ns| > 1 {
      assert ReadsAs(strtoull, ts[1], ns[1]);
      JoinStep(strtoull, s, at, ns[0], ts[0], Join(ts[1..]));
      JoinLists(strtoull, s, at + |ts[0]| + 1, ts[1..], ns[1..]);
    }
  }

  lemma TextReads(strtoull: Conversion, n: nat)
    requires n < TWO_64
    requires forall v: nat :: v < TWO_64 ==> ReadsBack(strtoull, v)
    ensures ReadsAs(strtoull, Text(n), n)
  {
    ReadText(strtoull, n, []);
    assert Text(n) + [] == Text(n);
    forall rest
      ensures Size(strtoull, Text(n) + (['+'] + rest)) == Read(n, |Text(n)|)
    {
      ReadText(strtoull, n, ['+'] + rest);
    }
  }

  lemma JoinedAll(strtoull: Conversion, ns: seq<nat>)
    requires ns != [] && Fit(ns)
    requires forall v: nat :: v < TWO_64 ==> ReadsBack(strtoull, v)
    ensures SizesFrom(strtoull, Join(Texts(ns)), 0) == Read(Total(ns), |Join(Texts(ns))|)
  {
    var ts := Texts(ns);
    forall k | 0 <= k < |ns|
      ensures ReadsAs(strtoull, ts[k], ns[k])
    {
      assert ns[k] in ns;
      TextReads(strtoull, ns[k]);
    }
    assert Join(ts)[0..] == Join(ts);
    JoinLists(strtoull, Join(ts), 0, ts, ns);
    ListsTotal(strtoull, Join(ts), 0, ns);
  }

  lemma StrtoullReadsBack(v: nat)
    requires v < TWO_64
    ensures ReadsBack(Strtoull, v)
  {
    forall rest | Stops(rest)
      ensures Strtoull(Decimal(v) + rest) == Read(v, |Decimal(v)|)
    {
      ReadDecimal(v, rest);
    }
  }

  /** Reading formatted sizes joined by '+' gives their sum and takes the whole text. */
  lemma JoinedSum(ns: seq<nat>)
    requires ns != [] && Fit(ns)
    ensures SizesFrom(Strtoull, Join(Texts(ns)), 0) == Read(Total(ns), |Join(Texts(ns))|)
  {
    forall v: nat | v < TWO_64
      ensures ReadsBack(Strtoull, v)
    {
      StrtoullReadsBack(v);
    }
    JoinedAll(Strtoull, ns);
  }

  /** Reading a formatted size gives the size and takes the whole text. */
  lemma RoundTrip(n: nat)
    requires n < TWO_64
    ensures SizesFrom(Strtoull, Text(n), 0) == Read(n, |Text(n)|)
  {
    JoinedSum([n]);
    assert Total([n]) == n && Texts([n]) == [Text(n)];
  }

  lemma SuffixAfter(strtoull: Conversion, v: nat, c: char, rest: string)
    requires c in "GgMmKk" && ReadsBack(strtoull, v)
    ensures Size(strtoull, Decimal(v) + [c] + rest) ==
            Read(v * (if c in "Gg" then 1073741824 else if c in "Mm" then 1048576 else 1024), |Decimal(v)| + 1)
  {
    ReadUnit(strtoull, Scaled(v, c), v, c, rest);
  }

  /** A number before a suffix letter of either case, whatever follows the letter. */
  lemma SuffixRead(v: nat, c: char, rest: string)
    requires v < TWO_64 && c in "GgMmKk"
    ensures Size(Strtoull, Decimal(v) + [c] + rest) ==
            Read(v * (if c in "Gg" then 1073741824 else if c in "Mm" then 1048576 else 1024), |Decimal(v)| + 1)
  {
    StrtoullReadsBack(v);
    SuffixAfter(Strtoull, v, c, rest);
  }

  /** A '+' that ends the text is not taken. */
  lemma TrailingPlus(n: nat)
    requires n < TWO_64
    ensures SizesFrom(Strtoull, Text(n) + ['+'], 0) == Read(n, |Text(n)|)
  {
    forall v: nat | v < TWO_64
      ensures ReadsBack(Strtoull, v)
    {
      StrtoullReadsBack(v);
    }
    StopsAfter(Strtoull, Text(n) + ['+'], n);
  }

  lemma StopsAfter(strtoull: Conversion, s: string, n: nat)
    requires n < TWO_64 && s == Text(n) + ['+']
    requires forall v: nat :: v < TWO_64 ==> ReadsBack(strtoull, v)
    ensures SizesFrom(strtoull, s, 0) == Read(n, |Text(n)|)
  {
    ReadText(strtoull, n, ['+']);
    assert s[0..] == s;
    assert SizeAt(strtoull, s, 0) == Read(n, |Text(n)|);
    NextSize(strtoull, s, 0, 0, SizeAt(strtoull, s, 0));
  }

  /** Wrapped additions amount to one wrapped sum. */
  lemma SumWraps(x: nat, y: nat)
    ensures Wrap(Wrap(x) + Wrap(y)) == Wrap(x + y)
  {
    var w := x % TWO_64 + y % TWO_64;
    ModUnique(x + y, TWO_64, w / TWO_64 + x / TWO_64 + y / TWO_64, w % TWO_64);
  }
}
