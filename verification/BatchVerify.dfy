/** The independent check of one batched signature: it re-derives the index arithmetic from the
    n and i stored in the signature and climbs from the message's leaf to the root. */
module BatchVerify {
  import opened Bytes
  import opened MerkleIndex
  import opened BatchedSigs

  /** Accepted yields the recomputed root and the root signature; OutOfRange is a read past the
      end of the signature or message. */
  datatype Verdict = Accepted(root: Digest, rootSig: seq<byte>) | Rejected | OutOfRange

  datatype Climbed = Reached(root: Digest) | Mismatch | Outside

  // ----- the C++ integer conversions of the loop header -----

  /** Conversion to a 32-bit int keeps the low 32 bits. */
  function Int32(x: int): int
  {
    var r := x % TWO_32;
    if r < 0x8000_0000 then r else r - TWO_32
  }

  function FirstLeaf64(n: nat, m: nat): int
    requires n < TWO_32 && 2 <= m < TWO_64
  {
    ((n - 1) % TWO_32 + (m - 2)) % TWO_64 / (m - 1)
  }

  function MaxLeaf(n: nat, m: nat): int
    requires n < TWO_32 && 2 <= m < TWO_64
  {
    Int32((FirstLeaf64(n, m) + n - 1) % TWO_64)
  }

  function StartNode(n: nat, i: nat, m: nat): int
    requires n < TWO_32 && i < TWO_32 && 2 <= m < TWO_64
  {
    Int32((FirstLeaf64(n, m) + i) % TWO_64)
  }

  function Rightmost(l: nat, m: nat, maxLeaf: int): int
  {
    var r := Int32((l + m - 1) % TWO_64);
    if r > maxLeaf then maxLeaf else r
  }

  // ----- the climb -----

  /** The levels the verifier passes on the climb from node j. */
  function ClimbRoute(j: int, m: nat, maxLeaf: int): seq<Level>
    requires m >= 2
    decreases j
  {
    if j < 1 then []
    else
      ParentSmaller(j, m);
      [Level(LeftSib(j, m), Rightmost(LeftSib(j, m), m, maxLeaf), j)] + ClimbRoute(Parent(j, m), m, maxLeaf)
  }

  /** One level of the climb: a failure, or the sibling block to hash into the parent. */
  datatype LevelRead = Fail(verdict: Climbed) | Block(bytes: seq<byte>)

  /** The hashes of the level start at position pos. */
  function ReadLevel(sig: seq<byte>, pos: nat, v: Level, cur: Digest): LevelRead
  {
    var own := pos + 32 * (v.j - v.l);
    if own < 0 || own + 32 > |sig| then Fail(Outside)
    else if sig[own..own + 32] != cur then Fail(Mismatch)
    else if v.r - v.l + 1 < 0 || pos >= |sig| || pos + 32 * (v.r - v.l + 1) > |sig| then Fail(Outside)
    else Block(sig[pos..pos + 32 * (v.r - v.l + 1)])
  }

  /** Climbs the given levels from a node whose hash is cur. */
  function Climb(hash: HashFn, sig: seq<byte>, pos: nat, route: seq<Level>, cur: Digest): Climbed
    decreases |route|
  {
    if route == [] then Reached(cur)
    else match ReadLevel(sig, pos, route[0], cur)
      case Fail(v) => v
      case Block(bytes) => Climb(hash, sig, pos + |bytes|, route[1..], hash(bytes))
  }

  function Verify(hash: HashFn, m: nat, sigSize: nat, sig: seq<byte>, msg: seq<byte>): Verdict
    requires 2 <= m < TWO_64
  {
    if |sig| < sigSize + 8 || msg == [] then OutOfRange
    else
      var n, i := Unpack(sig[sigSize..sigSize + 4]), Unpack(sig[sigSize + 4..sigSize + 8]);
      Outcome(Climb(hash, sig, sigSize + 8, ClimbRoute(StartNode(n, i, m), m, MaxLeaf(n, m)), hash(msg)),
          sig[..sigSize])
  }

  function Outcome(c: Climbed, rootSig: seq<byte>): Verdict
  {
    match c
    case Reached(root) => Accepted(root, rootSig)
    case Mismatch => Rejected
    case Outside => OutOfRange
  }

  /** The verifier's loop. */
  method ComputeBatchedSignatureHash(hash: HashFn, m: nat, sigSize: nat, sig: seq<byte>, msg: seq<byte>)
    returns (v: Verdict)
    requires 2 <= m < TWO_64
    ensures v == Verify(hash, m, sigSize, sig, msg)
  {
    if |sig| < sigSize + 8 || msg == [] {
      return OutOfRange;
    }
    var n, i := Unpack(sig[sigSize..sigSize + 4]), Unpack(sig[sigSize + 4..sigSize + 8]);
    var c := ClimbLoop(hash, sig, sigSize + 8, m, MaxLeaf(n, m), StartNode(n, i, m), hash(msg));
    v := Outcome(c, sig[..sigSize]);
  }

  method ClimbLoop(hash: HashFn, sig: seq<byte>, start: nat, m: nat, maxLeaf: int, j0: int, leaf: Digest)
    returns (c: Climbed)
    requires m >= 2
    ensures c == Climb(hash, sig, start, ClimbRoute(j0, m, maxLeaf), leaf)
  {
    var pos, j, cur := start, j0, leaf;
    ghost var left := ClimbRoute(j0, m, maxLeaf);
    ghost var answer := Climb(hash, sig, start, left, leaf);
    while j >= 1
      invariant pos >= 0 && left == ClimbRoute(j, m, maxLeaf)
      invariant Climb(hash, sig, pos, left, cur) == answer
      decreases j
    {
      var failure;
      failure, pos, j, cur := ClimbTurn(hash, sig, pos, m, maxLeaf, j, cur, left, answer);
      if !failure.Reached? {
        return failure;
      }
      left := left[1..];
    }
    return Reached(cur);
  }

  /** One level: compare, hash the block, go to the parent. */
  method ClimbTurn(hash: HashFn, sig: seq<byte>, pos: nat, m: nat, maxLeaf: int, j: nat, cur: Digest,
                   ghost left: seq<Level>, ghost answer: Climbed)
    returns (failure: Climbed, pos': nat, j': nat, cur': Digest)
    requires m >= 2 && j >= 1 && left == ClimbRoute(j, m, maxLeaf) && Climb(hash, sig, pos, left, cur) == answer
    ensures !failure.Reached? ==> failure == answer
    ensures failure.Reached? ==>
              && left != [] && j' < j && left[1..] == ClimbRoute(j', m, maxLeaf)
              && Climb(hash, sig, pos', left[1..], cur') == answer
  {
    var v, p := LevelAt(j, m, maxLeaf);
    var block;
    failure, block := HashLevel(hash, sig, pos, v, cur, left);
    pos', j', cur' := pos + |block|, p, hash(block);
    assert left[1..] == ClimbRoute(p, m, maxLeaf);
  }

  lemma ClimbOne(hash: HashFn, sig: seq<byte>, pos: nat, route: seq<Level>, v: Level, cur: Digest)
    requires route != [] && route[0] == v
    ensures match ReadLevel(sig, pos, v, cur)
            case Fail(c) => Climb(hash, sig, pos, route, cur) == c
            case Block(bytes) =>
              && |bytes| == 32 * (v.r - v.l + 1)
              && Climb(hash, sig, pos, route, cur) == Climb(hash, sig, pos + |bytes|, route[1..], hash(bytes))
  {
  }

  method LevelAt(j: nat, m: nat, maxLeaf: int) returns (v: Level, p: nat)
    requires m >= 2 && j >= 1
    ensures p < j && ClimbRoute(j, m, maxLeaf) == [v] + ClimbRoute(p, m, maxLeaf)
  {
    ParentSmaller(j, m);
    var l := (j - 1) / m * m + 1;
    v, p := Level(l, Rightmost(l, m, maxLeaf), j), (j - 1) / m;
  }

  method HashLevel(hash: HashFn, sig: seq<byte>, pos: nat, v: Level, cur: Digest, ghost route: seq<Level>)
    returns (failure: Climbed, block: seq<byte>)
    requires route != [] && route[0] == v
    ensures !failure.Reached? ==> Climb(hash, sig, pos, route, cur) == failure
    ensures failure.Reached? ==>
              Climb(hash, sig, pos, route, cur) == Climb(hash, sig, pos + |block|, route[1..], hash(block))
  {
    ClimbOne(hash, sig, pos, route, v, cur);
    failure, block := Outside, [];
    var own := pos + 32 * (v.j - v.l);
    if own < 0 || own + 32 > |sig| {
      return;
    }
    if sig[own..own + 32] != cur {
      failure := Mismatch;
      return;
    }
    if v.r - v.l + 1 < 0 || pos >= |sig| || pos + 32 * (v.r - v.l + 1) > |sig| {
      return;
    }
    failure, block := Reached(cur), sig[pos..pos + 32 * (v.r - v.l + 1)];
  }

  // ----- agreement of the two index computations -----

  lemma IndicesAgree(b: Batch, i: nat)
    requires Signable(b) && i < |b.msgs|
    ensures |b.msgs| < TWO_32 && b.m < TWO_64
    ensures MaxLeaf(|b.msgs|, b.m) == Top(b)
    ensures StartNode(|b.msgs|, i, b.m) == First(|b.msgs|, b.m) + i
  {
    assert (|b.msgs| - 1) % TWO_32 == |b.msgs| - 1;
    assert (|b.msgs| - 1 + (b.m - 2)) % TWO_64 == |b.msgs| - 1 + (b.m - 2);
    assert FirstLeaf64(|b.msgs|, b.m) == First(|b.msgs|, b.m);
    Unwrapped(Top(b));
    Unwrapped(First(|b.msgs|, b.m) + i);
  }

  lemma Unwrapped(x: nat)
    requires x < 0x8000_0000
    ensures Int32(x % TWO_64) == x
  {
  }

  /** Signer and verifier, each with its own arithmetic, follow the same route. */
  lemma {:induction false} RoutesAgree(b: Batch, j: nat)
    requires Signable(b) && j <= Top(b)
    ensures ClimbRoute(j, b.m, Top(b)) == RouteOf(b, j)
    decreases j
  {
    if j > 0 {
      ParentShape(|b.msgs|, b.m, j);
      Unwrapped(LeftSib(j, b.m) + b.m - 1);
      RouteStep(b, j);
      RoutesAgree(b, Parent(j, b.m));
    }
  }

  /** The node whose hash a level produces. */
  function Above(route: seq<Level>): int
  {
    if |route| <= 1 then 0 else route[1].j
  }

  /** A route that starts at node j and whose every block is what the next node hashes. */
  ghost predicate Linked(b: Batch, j: int, route: seq<Level>)
    requires |b.msgs| >= 1 && b.m >= 2
    decreases |route|
  {
    && InTree(b, route)
    && 0 <= j <= Top(b)
    && (route == [] ==> j == 0)
    && (route != [] ==>
          && route[0] in route && route[0].j == j
          && 0 <= Above(route) <= Top(b)
          && NodeHash(b, Above(route)) == b.hash(Hashes(b, route[0].l, route[0].r))
          && Linked(b, Above(route), route[1..]))
  }

  lemma {:induction false} RouteLinked(b: Batch, j: nat)
    requires |b.msgs| >= 1 && b.m >= 2 && j <= Top(b)
    ensures Linked(b, j, RouteOf(b, j))
    decreases j
  {
    if j > 0 {
      ParentShape(|b.msgs|, b.m, j);
      RouteStep(b, j);
      RouteLinked(b, Parent(j, b.m));
      ParentHash(b, j);
    }
  }

  lemma ParentHash(b: Batch, j: nat)
    requires |b.msgs| >= 1 && b.m >= 2 && 1 <= j <= Top(b)
    ensures Parent(j, b.m) <= Top(b) && 0 <= LeftSib(j, b.m) <= RightSib(j, |b.msgs|, b.m) <= Top(b)
    ensures NodeHash(b, Parent(j, b.m)) == b.hash(Hashes(b, LeftSib(j, b.m), RightSib(j, |b.msgs|, b.m)))
  {
    ParentShape(|b.msgs|, b.m, j);
    assert RightSib(j, |b.msgs|, b.m) == LastChild(b, Parent(j, b.m));
  }

  lemma {:induction false} HashesAt(b: Batch, l: nat, r: nat, k: nat)
    requires |b.msgs| >= 1 && b.m >= 2 && l <= k <= r <= Top(b)
    ensures Hashes(b, l, r)[32 * (k - l)..32 * (k - l) + 32] == NodeHash(b, k)
    decreases k - l
  {
    if l < k {
      HashesAt(b, l + 1, r, k);
      var rest := Hashes(b, l + 1, r);
      assert Hashes(b, l, r)[32..] == rest;
      assert Hashes(b, l, r)[32 * (k - l)..32 * (k - l) + 32] == rest[32 * (k - l) - 32..32 * (k - l)];
    }
  }

  // ----- completeness -----

  lemma {:induction false} HonestClimb(b: Batch, sig: seq<byte>, pos: nat, j: nat, route: seq<Level>)
    requires |b.msgs| >= 1 && b.m >= 2 && Linked(b, j, route) && pos <= |sig|
    requires sig[pos..] == PathBytes(b, route)
    ensures Climb(b.hash, sig, pos, route, NodeHash(b, j)) == Reached(Root(b))
    decreases |route|
  {
    if route != [] {
      HonestLevel(b, sig, pos, route[0], PathBytes(b, route[1..]));
      var next := pos + |Hashes(b, route[0].l, route[0].r)|;
      HonestClimb(b, sig, next, Above(route), route[1..]);
    }
  }

  lemma HonestLevel(b: Batch, sig: seq<byte>, pos: nat, v: Level, rest: seq<byte>)
    requires |b.msgs| >= 1 && b.m >= 2 && 0 <= v.l <= v.j <= v.r <= Top(b) && pos <= |sig|
    requires sig[pos..] == Hashes(b, v.l, v.r) + rest
    ensures ReadLevel(sig, pos, v, NodeHash(b, v.j)) == Block(Hashes(b, v.l, v.r))
    ensures pos + |Hashes(b, v.l, v.r)| <= |sig| && sig[pos + |Hashes(b, v.l, v.r)|..] == rest
  {
    HashesAt(b, v.l, v.r, v.j);
    SliceOfSuffix(sig, pos, Hashes(b, v.l, v.r), rest, 32 * (v.j - v.l));
  }

  lemma SliceOfSuffix(sig: seq<byte>, from: nat, block: seq<byte>, rest: seq<byte>, o: nat)
    requires from <= |sig| && sig[from..] == block + rest && o + 32 <= |block|
    ensures |sig| == from + |block| + |rest|
    ensures sig[from..from + |block|] == block && sig[from + |block|..] == rest
    ensures sig[from + o..from + o + 32] == block[o..o + 32]
  {
    assert sig[from..][..|block|] == block && sig[from..][|block|..] == rest;
    SliceOfSlice(sig, from, |sig|, o, o + 32);
  }

  /** Every signature the signer hands out is accepted for its message, and yields exactly the
      root that was signed together with its signature. */
  lemma Completeness(b: Batch, sign: Digest -> seq<byte>, sigSize: nat, i: nat)
    requires Signable(b) && i < |b.msgs|
    requires |sign(Root(b))| == sigSize
    ensures |b.msgs| < TWO_32 && b.m < TWO_64
    ensures Verify(b.hash, b.m, sigSize, SigOf(b, sign, i), b.msgs[i]) == Accepted(Root(b), sign(Root(b)))
  {
    IndicesAgree(b, i);
    var sig := SigOf(b, sign, i);
    HonestSignature(b, sign, sigSize, i);
    VerifyIsClimb(b, sigSize, i, sig, b.msgs[i]);
  }

  lemma HonestSignature(b: Batch, sign: Digest -> seq<byte>, sigSize: nat, i: nat)
    requires |b.msgs| >= 1 && b.m >= 2 && i < |b.msgs| < TWO_32 && |sign(Root(b))| == sigSize
    ensures var sig := SigOf(b, sign, i);
            && |sig| >= sigSize + 8 && sig[..sigSize] == sign(Root(b))
            && sig[sigSize..sigSize + 4] == Pack(|b.msgs|) && sig[sigSize + 4..sigSize + 8] == Pack(i)
            && Climb(b.hash, sig, sigSize + 8, LeafRoute(b, i), b.hash(b.msgs[i])) == Reached(Root(b))
  {
    LeafHash(b, i);
    RouteLinked(b, First(|b.msgs|, b.m) + i);
    HonestAt(b, sign(Root(b)), Pack(|b.msgs|), Pack(i), First(|b.msgs|, b.m) + i, LeafRoute(b, i));
  }

  lemma HonestAt(b: Batch, rootSig: seq<byte>, n: seq<byte>, i: seq<byte>, j: nat, route: seq<Level>)
    requires |b.msgs| >= 1 && b.m >= 2 && |n| == 4 && |i| == 4 && Linked(b, j, route)
    ensures var sig := rootSig + n + i + PathBytes(b, route); var p := |rootSig|;
            && sig[..p] == rootSig && sig[p..p + 4] == n && sig[p + 4..p + 8] == i
            && Climb(b.hash, sig, p + 8, route, NodeHash(b, j)) == Reached(Root(b))
  {
    Layout(rootSig, n, i, PathBytes(b, route));
    HonestClimb(b, rootSig + n + i + PathBytes(b, route), |rootSig| + 8, j, route);
  }

  function LeafRoute(b: Batch, i: nat): (route: seq<Level>)
    requires |b.msgs| >= 1 && b.m >= 2 && i < |b.msgs|
    ensures InTree(b, route)
  {
    RouteOf(b, First(|b.msgs|, b.m) + i)
  }

  lemma Layout(s: seq<byte>, n: seq<byte>, i: seq<byte>, path: seq<byte>)
    requires |n| == 4 && |i| == 4
    ensures var sig := s + n + i + path;
            && sig[..|s|] == s
            && sig[|s|..|s| + 4] == n && sig[|s| + 4..|s| + 8] == i && sig[|s| + 8..] == path
  {
  }

  // ----- the two ways of failing -----

  /** The signer's own path, read for a node whose hash is another: the first comparison fails. */
  lemma WrongStart(b: Batch, sig: seq<byte>, pos: nat, j: nat, route: seq<Level>, cur: Digest)
    requires |b.msgs| >= 1 && b.m >= 2 && route != [] && Linked(b, j, route) && pos <= |sig|
    requires sig[pos..] == PathBytes(b, route) && cur != NodeHash(b, j)
    ensures Climb(b.hash, sig, pos, route, cur) == Mismatch
  {
    var v, block := route[0], Hashes(b, route[0].l, route[0].r);
    HashesAt(b, v.l, v.r, v.j);
    SliceOfSuffix(sig, pos, block, PathBytes(b, route[1..]), 32 * (v.j - v.l));
  }

  /** Only a part of the signer's path is there: nothing differs, and the climb runs off the end. */
  lemma {:induction false} CutClimb(b: Batch, sig: seq<byte>, pos: nat, j: nat, route: seq<Level>)
    requires |b.msgs| >= 1 && b.m >= 2 && Linked(b, j, route) && pos <= |sig|
    requires sig[pos..] < PathBytes(b, route)
    ensures Climb(b.hash, sig, pos, route, NodeHash(b, j)) == Outside
    decreases |route|
  {
    var v, block, rest := route[0], Hashes(b, route[0].l, route[0].r), PathBytes(b, route[1..]);
    CutWhere(sig[pos..], block, rest);
    if |sig| - pos >= |block| {
      HonestLevel(b, sig, pos, v, sig[pos..][|block|..]);
      CutClimb(b, sig, pos + |block|, Above(route), route[1..]);
    } else {
      CutLevel(b, sig, pos, v);
    }
  }

  lemma CutWhere(part: seq<byte>, x: seq<byte>, y: seq<byte>)
    requires part < x + y
    ensures |part| < |x| ==> part < x
    ensures |part| >= |x| ==> part == x + part[|x|..] && part[|x|..] < y
  {
  }

  lemma CutLevel(b: Batch, sig: seq<byte>, pos: nat, v: Level)
    requires |b.msgs| >= 1 && b.m >= 2 && 0 <= v.l <= v.j <= v.r <= Top(b) && pos <= |sig|
    requires sig[pos..] < Hashes(b, v.l, v.r)
    ensures ReadLevel(sig, pos, v, NodeHash(b, v.j)) == Fail(Outside)
  {
    var o, block := 32 * (v.j - v.l), Hashes(b, v.l, v.r);
    HashesAt(b, v.l, v.r, v.j);
    if pos + o + 32 <= |sig| {
      SliceOfSlice(sig, pos, |sig|, o, o + 32);
      assert sig[pos..][o..o + 32] == block[o..o + 32];
    }
  }

  lemma WrongAt(b: Batch, rootSig: seq<byte>, n: seq<byte>, i: seq<byte>, j: nat, route: seq<Level>, cur: Digest)
    requires |b.msgs| >= 1 && b.m >= 2 && |n| == 4 && |i| == 4 && route != [] && Linked(b, j, route)
    requires cur != NodeHash(b, j)
    ensures Climb(b.hash, rootSig + n + i + PathBytes(b, route), |rootSig| + 8, route, cur) == Mismatch
  {
    Layout(rootSig, n, i, PathBytes(b, route));
    WrongStart(b, rootSig + n + i + PathBytes(b, route), |rootSig| + 8, j, route, cur);
  }

  lemma CutAt(b: Batch, rootSig: seq<byte>, n: seq<byte>, i: seq<byte>, j: nat, route: seq<Level>,
              whole: seq<byte>, sig: seq<byte>)
    requires |b.msgs| >= 1 && b.m >= 2 && |n| == 4 && |i| == 4 && Linked(b, j, route)
    requires whole == rootSig + n + i + PathBytes(b, route) && |rootSig| + 8 <= |sig| && sig < whole
    ensures var p := |rootSig|;
            && sig[..p] == rootSig && sig[p..p + 4] == n && sig[p + 4..p + 8] == i
            && Climb(b.hash, sig, p + 8, route, NodeHash(b, j)) == Outside
  {
    var p, path := |rootSig|, PathBytes(b, route);
    Layout(rootSig, n, i, path);
    CutLayout(whole, sig, rootSig, n, i, path);
    CutClimb(b, sig, p + 8, j, route);
  }

  lemma CutLayout(whole: seq<byte>, sig: seq<byte>, s: seq<byte>, n: seq<byte>, i: seq<byte>, path: seq<byte>)
    requires |n| == 4 && |i| == 4 && whole == s + n + i + path && |s| + 8 <= |sig| && sig < whole
    ensures sig[..|s|] == s && sig[|s|..|s| + 4] == n && sig[|s| + 4..|s| + 8] == i && sig[|s| + 8..] < path
  {
    Layout(s, n, i, path);
    assert sig == whole[..|sig|];
    assert sig[|s| + 8..] == whole[|s| + 8..][..|sig| - |s| - 8];
  }

  lemma LeafRouteNonempty(b: Batch, i: nat)
    requires |b.msgs| >= 2 && b.m >= 2 && i < |b.msgs|
    ensures LeafRoute(b, i) != []
  {
    FirstBounds(|b.msgs|, b.m);
  }

  lemma SignatureParts(b: Batch, sign: Digest -> seq<byte>, i: nat)
    requires |b.msgs| < TWO_32 && b.m >= 2 && i < |b.msgs|
    ensures SigOf(b, sign, i) == sign(Root(b)) + Pack(|b.msgs|) + Pack(i) + PathBytes(b, LeafRoute(b, i))
  {
  }

  lemma LeafLinked(b: Batch, i: nat)
    requires i < |b.msgs| && b.m >= 2
    ensures Linked(b, First(|b.msgs|, b.m) + i, LeafRoute(b, i))
    ensures NodeHash(b, First(|b.msgs|, b.m) + i) == b.hash(b.msgs[i])
  {
    RouteLinked(b, First(|b.msgs|, b.m) + i);
    LeafHash(b, i);
  }

  /** A message with another hash than the signed one is refused by comparison, not by a read past the
      end: the signature is complete. */
  lemma WrongMessageRejected(b: Batch, sign: Digest -> seq<byte>, i: nat, msg: seq<byte>)
    requires Signable(b) && 2 <= |b.msgs| && i < |b.msgs| && msg != [] && b.hash(msg) != b.hash(b.msgs[i])
    ensures |b.msgs| < TWO_32 && b.m < TWO_64
    ensures Verify(b.hash, b.m, |sign(Root(b))|, SigOf(b, sign, i), msg) == Rejected
  {
    IndicesAgree(b, i);
    var sig := SigOf(b, sign, i);
    SignatureParts(b, sign, i);
    LeafWrong(b, sign(Root(b)), Pack(|b.msgs|), Pack(i), i, sig, b.hash(msg));
    VerifyIsClimb(b, |sign(Root(b))|, i, sig, msg);
  }

  lemma LeafWrong(b: Batch, rootSig: seq<byte>, n: seq<byte>, ib: seq<byte>, i: nat, sig: seq<byte>, cur: Digest)
    requires i < |b.msgs| && |b.msgs| >= 2 && b.m >= 2 && |n| == 4 && |ib| == 4 && cur != b.hash(b.msgs[i])
    requires sig == rootSig + n + ib + PathBytes(b, LeafRoute(b, i))
    ensures var p := |rootSig|;
            && |sig| >= p + 8 && sig[p..p + 4] == n && sig[p + 4..p + 8] == ib
            && Climb(b.hash, sig, p + 8, LeafRoute(b, i), cur) == Mismatch
  {
    LeafLinked(b, i);
    LeafRouteNonempty(b, i);
    Layout(rootSig, n, ib, PathBytes(b, LeafRoute(b, i)));
    WrongAt(b, rootSig, n, ib, First(|b.msgs|, b.m) + i, LeafRoute(b, i), cur);
  }

  lemma LeafCut(b: Batch, rootSig: seq<byte>, n: seq<byte>, ib: seq<byte>, i: nat, whole: seq<byte>, sig: seq<byte>)
    requires i < |b.msgs| && b.m >= 2 && |n| == 4 && |ib| == 4
    requires whole == rootSig + n + ib + PathBytes(b, LeafRoute(b, i)) && |rootSig| + 8 <= |sig| && sig < whole
    ensures var p := |rootSig|;
            && sig[p..p + 4] == n && sig[p + 4..p + 8] == ib
            && Climb(b.hash, sig, p + 8, LeafRoute(b, i), b.hash(b.msgs[i])) == Outside
  {
    LeafLinked(b, i);
    CutAt(b, rootSig, n, ib, First(|b.msgs|, b.m) + i, LeafRoute(b, i), whole, sig);
  }

  /** Every proper prefix of a signature makes the verifier read past its end, for the very message it was
      made for. */
  lemma CutSignatureOutOfRange(b: Batch, sign: Digest -> seq<byte>, i: nat, sig: seq<byte>)
    requires Signable(b) && i < |b.msgs| < TWO_32 && b.m < TWO_64 && sig < SigOf(b, sign, i)
    ensures Verify(b.hash, b.m, |sign(Root(b))|, sig, b.msgs[i]) == OutOfRange
  {
    var size := |sign(Root(b))|;
    if |sig| >= size + 8 {
      SignatureParts(b, sign, i);
      LeafCut(b, sign(Root(b)), Pack(|b.msgs|), Pack(i), i, SigOf(b, sign, i), sig);
      VerifyIsClimb(b, size, i, sig, b.msgs[i]);
    }
  }

  /** An empty message has no first byte to read. */
  lemma EmptyMessageOutOfRange(hash: HashFn, m: nat, sigSize: nat, sig: seq<byte>)
    requires 2 <= m < TWO_64
    ensures Verify(hash, m, sigSize, sig, []) == OutOfRange
  {
  }

  // ----- binding -----

  ghost predicate Collision(hash: HashFn, x: seq<byte>, y: seq<byte>)
  {
    x != y && hash(x) == hash(y)
  }

  /** Some level at which the two lists of hashed strings collide. */
  ghost predicate CollisionAlong(hash: HashFn, xs: seq<seq<byte>>, ys: seq<seq<byte>>)
  {
    exists k | 0 <= k < |xs| && k < |ys| :: Collision(hash, xs[k], ys[k])
  }

  /** The blocks the verifier hashes while it climbs. */
  function ClimbBlocks(b: Batch, sig: seq<byte>, pos: nat, route: seq<Level>): seq<seq<byte>>
    requires |b.msgs| >= 1 && b.m >= 2 && InTree(b, route)
    decreases |route|
  {
    if route == [] then []
    else
      assert route[0] in route;
      var end := pos + 32 * (route[0].r + 1 - route[0].l);
      if end > |sig| then [] else [sig[pos..end]] + ClimbBlocks(b, sig, end, route[1..])
  }

  /** The blocks the signer hashed on the same route. */
  function SignerBlocks(b: Batch, route: seq<Level>): seq<seq<byte>>
    requires |b.msgs| >= 1 && b.m >= 2 && InTree(b, route)
  {
    if route == [] then []
    else assert route[0] in route; [Hashes(b, route[0].l, route[0].r)] + SignerBlocks(b, route[1..])
  }

  lemma CollisionLater(hash: HashFn, x: seq<byte>, xs: seq<seq<byte>>, y: seq<byte>, ys: seq<seq<byte>>)
    ensures CollisionAlong(hash, xs, ys) ==> CollisionAlong(hash, [x] + xs, [y] + ys)
    ensures Collision(hash, x, y) ==> CollisionAlong(hash, [x] + xs, [y] + ys)
  {
    if CollisionAlong(hash, xs, ys) {
      var k :| 0 <= k < |xs| && k < |ys| && Collision(hash, xs[k], ys[k]);
      assert Collision(hash, ([x] + xs)[k + 1], ([y] + ys)[k + 1]);
    }
    if Collision(hash, x, y) {
      assert Collision(hash, ([x] + xs)[0], ([y] + ys)[0]);
    }
  }

  /** Descending from an accepted root: the node's hash and all path bytes are the signer's, or
      two different strings hashed at the same level collide. */
  lemma {:induction false} BindingClimb(b: Batch, sig: seq<byte>, pos: nat, j: nat, route: seq<Level>, cur: Digest)
    requires |b.msgs| >= 1 && b.m >= 2 && Linked(b, j, route) && pos <= |sig|
    requires Climb(b.hash, sig, pos, route, cur) == Reached(Root(b))
    ensures || CollisionAlong(b.hash, ClimbBlocks(b, sig, pos, route), SignerBlocks(b, route))
            || (cur == NodeHash(b, j) && PathBytes(b, route) <= sig[pos..])
    decreases |route|
  {
    if route != [] {
      var v := route[0];
      AcceptedLevel(b, sig, pos, v, cur);
      var end := pos + 32 * (v.r + 1 - v.l);
      BindingClimb(b, sig, end, Above(route), route[1..], b.hash(sig[pos..end]));
      BindingStep(b, sig, pos, j, route, cur);
    }
  }

  /** A level the climb gets past reads exactly the sibling group, and finds its own hash there. */
  lemma AcceptedLevel(b: Batch, sig: seq<byte>, pos: nat, v: Level, cur: Digest)
    requires |b.msgs| >= 1 && b.m >= 2 && 0 <= v.l <= v.j <= v.r <= Top(b)
    requires ReadLevel(sig, pos, v, cur).Block?
    ensures var end := pos + 32 * (v.r + 1 - v.l);
            && end <= |sig|
            && ReadLevel(sig, pos, v, cur) == Block(sig[pos..end])
            && (sig[pos..end] == Hashes(b, v.l, v.r) ==> cur == NodeHash(b, v.j))
  {
    var end, o := pos + 32 * (v.r + 1 - v.l), 32 * (v.j - v.l);
    HashesAt(b, v.l, v.r, v.j);
    SliceOfSlice(sig, pos, end, o, o + 32);
  }

  lemma BindingStep(b: Batch, sig: seq<byte>, pos: nat, j: nat, route: seq<Level>, cur: Digest)
    requires |b.msgs| >= 1 && b.m >= 2 && route != [] && Linked(b, j, route)
    requires pos + 32 * (route[0].r + 1 - route[0].l) <= |sig|
    requires var end := pos + 32 * (route[0].r + 1 - route[0].l);
             && (sig[pos..end] == Hashes(b, route[0].l, route[0].r) ==> cur == NodeHash(b, j))
             && (|| CollisionAlong(b.hash, ClimbBlocks(b, sig, end, route[1..]), SignerBlocks(b, route[1..]))
                 || (b.hash(sig[pos..end]) == NodeHash(b, Above(route)) && PathBytes(b, route[1..]) <= sig[end..]))
    ensures || CollisionAlong(b.hash, ClimbBlocks(b, sig, pos, route), SignerBlocks(b, route))
            || (cur == NodeHash(b, j) && PathBytes(b, route) <= sig[pos..])
  {
    var end := pos + 32 * (route[0].r + 1 - route[0].l);
    var block, honest, rest := sig[pos..end], Hashes(b, route[0].l, route[0].r), route[1..];
    CollisionLater(b.hash, block, ClimbBlocks(b, sig, end, rest), honest, SignerBlocks(b, rest));
    if block == honest {
      assert sig[pos..] == block + sig[end..];
    }
  }

  /** A signature that carries the batch's own n and an index i < n and is accepted with the
      batch's root belongs to message i, and its path is the one the signer wrote; otherwise the
      strings hashed by the two sides contain an explicit collision at the same level. */
  lemma Binding(b: Batch, sigSize: nat, i: nat, sig: seq<byte>, msg: seq<byte>)
    requires Signable(b) && i < |b.msgs| < TWO_32 && b.m < TWO_64
    requires |sig| >= sigSize + 8
    requires sig[sigSize..sigSize + 4] == Pack(|b.msgs|) && sig[sigSize + 4..sigSize + 8] == Pack(i)
    requires var v := Verify(b.hash, b.m, sigSize, sig, msg); v.Accepted? && v.root == Root(b)
    ensures || (msg == b.msgs[i] && PathBytes(b, LeafRoute(b, i)) <= sig[sigSize + 8..])
            || CollisionAlong(b.hash, [msg] + ClimbBlocks(b, sig, sigSize + 8, LeafRoute(b, i)),
                              [b.msgs[i]] + SignerBlocks(b, LeafRoute(b, i)))
  {
    VerifyIsClimb(b, sigSize, i, sig, msg);
    RouteLinked(b, First(|b.msgs|, b.m) + i);
    LeafHash(b, i);
    BindingLeaf(b, sigSize + 8, First(|b.msgs|, b.m) + i, LeafRoute(b, i), sig, msg, b.msgs[i]);
  }

  lemma BindingLeaf(b: Batch, pos: nat, j: nat, route: seq<Level>, sig: seq<byte>, msg: seq<byte>, signed: seq<byte>)
    requires |b.msgs| >= 1 && b.m >= 2 && Linked(b, j, route) && pos <= |sig|
    requires NodeHash(b, j) == b.hash(signed)
    requires Climb(b.hash, sig, pos, route, b.hash(msg)) == Reached(Root(b))
    ensures || (msg == signed && PathBytes(b, route) <= sig[pos..])
            || CollisionAlong(b.hash, [msg] + ClimbBlocks(b, sig, pos, route), [signed] + SignerBlocks(b, route))
  {
    BindingClimb(b, sig, pos, j, route, b.hash(msg));
    CollisionLater(b.hash, msg, ClimbBlocks(b, sig, pos, route), signed, SignerBlocks(b, route));
  }

  lemma LeafHash(b: Batch, i: nat)
    requires |b.msgs| >= 1 && b.m >= 2 && i < |b.msgs|
    ensures NodeHash(b, First(|b.msgs|, b.m) + i) == b.hash(b.msgs[i])
  {
  }

  /** What checking a signature means for the n and i in its header. */
  lemma VerifyUnfold(hash: HashFn, m: nat, sigSize: nat, n: nat, i: nat, sig: seq<byte>, msg: seq<byte>)
    requires 2 <= m < TWO_64 && n < TWO_32 && i < TWO_32 && |sig| >= sigSize + 8 && msg != []
    requires sig[sigSize..sigSize + 4] == Pack(n) && sig[sigSize + 4..sigSize + 8] == Pack(i)
    ensures Verify(hash, m, sigSize, sig, msg) ==
            Outcome(Climb(hash, sig, sigSize + 8, ClimbRoute(StartNode(n, i, m), m, MaxLeaf(n, m)), hash(msg)),
                    sig[..sigSize])
  {
    PackUnpack(n);
    PackUnpack(i);
  }

  lemma LeafClimbRoute(b: Batch, i: nat)
    requires Signable(b) && i < |b.msgs| < TWO_32 && b.m < TWO_64
    ensures ClimbRoute(StartNode(|b.msgs|, i, b.m), b.m, MaxLeaf(|b.msgs|, b.m)) == LeafRoute(b, i)
  {
    IndicesAgree(b, i);
    RoutesAgree(b, First(|b.msgs|, b.m) + i);
  }

  /** With the batch's n and i in its header, checking a signature is the climb from leaf i. */
  lemma VerifyIsClimb(b: Batch, sigSize: nat, i: nat, sig: seq<byte>, msg: seq<byte>)
    requires Signable(b) && i < |b.msgs| && |b.msgs| < TWO_32 && b.m < TWO_64
    requires |sig| >= sigSize + 8 && msg != []
    requires sig[sigSize..sigSize + 4] == Pack(|b.msgs|) && sig[sigSize + 4..sigSize + 8] == Pack(i)
    ensures Verify(b.hash, b.m, sigSize, sig, msg) ==
            Outcome(Climb(b.hash, sig, sigSize + 8, LeafRoute(b, i), b.hash(msg)), sig[..sigSize])
  {
    VerifyUnfold(b.hash, b.m, sigSize, |b.msgs|, i, sig, msg);
    LeafClimbRoute(b, i);
  }
}
