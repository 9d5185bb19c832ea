/** What an accepted signature means when the n and i it carries are not the batch's own: neither is
    covered by the root signature, and leaves and inner nodes are hashed alike. */
module HeaderBinding {
  import opened Arithmetic
  import opened Bytes
  import opened MerkleIndex
  import opened BatchedSigs
  import opened BatchVerify

  // ----- the strings the signer hashed -----

  ghost predicate IsNodeHash(b: Batch, d: Digest)
    requires |b.msgs| >= 1 && b.m >= 2
  {
    exists q: nat | q <= Top(b) :: NodeHash(b, q) == d
  }

  /** The string hashed at node q: a message or the hashes of the children. */
  function Source(b: Batch, q: nat): seq<byte>
    requires |b.msgs| >= 1 && b.m >= 2 && q <= Top(b)
  {
    if q >= First(|b.msgs|, b.m) then b.msgs[q - First(|b.msgs|, b.m)]
    else TreeShape(|b.msgs|, b.m, q); Hashes(b, q * b.m + 1, LastChild(b, q))
  }

  lemma SourceHash(b: Batch, q: nat)
    requires |b.msgs| >= 1 && b.m >= 2 && q <= Top(b)
    ensures NodeHash(b, q) == b.hash(Source(b, q))
  {
  }

  /** The hashes of all children of some inner node. */
  ghost predicate IsChildBlock(b: Batch, x: seq<byte>)
    requires |b.msgs| >= 1 && b.m >= 2
  {
    exists q: nat | q < First(|b.msgs|, b.m) && q <= Top(b) :: x == Source(b, q)
  }

  /** The string collides with one the signer hashed. */
  ghost predicate Collides(b: Batch, x: seq<byte>)
    requires |b.msgs| >= 1 && b.m >= 2
  {
    exists q: nat | q <= Top(b) :: Collision(b.hash, x, Source(b, q))
  }

  /** A string whose hash is a node's hash is that node's string, or collides with it. */
  lemma FromNode(b: Batch, x: seq<byte>, q: nat)
    requires |b.msgs| >= 1 && b.m >= 2 && q <= Top(b) && b.hash(x) == NodeHash(b, q)
    ensures x == Source(b, q) || Collides(b, x)
    ensures x == Source(b, q) ==> x in b.msgs || IsChildBlock(b, x)
  {
    SourceHash(b, q);
    if x != Source(b, q) {
      assert Collision(b.hash, x, Source(b, q));
    }
  }

  lemma InsideBlock(b: Batch, x: seq<byte>, o: nat)
    requires |b.msgs| >= 1 && b.m >= 2 && IsChildBlock(b, x) && 32 * o + 32 <= |x|
    ensures IsNodeHash(b, x[32 * o..32 * o + 32])
  {
    var q: nat :| q < First(|b.msgs|, b.m) && q <= Top(b) && x == Source(b, q);
    TreeShape(|b.msgs|, b.m, q);
    HashesAt(b, q * b.m + 1, LastChild(b, q), q * b.m + 1 + o);
    assert NodeHash(b, q * b.m + 1 + o) == x[32 * o..32 * o + 32];
  }

  // ----- the strings the verifier hashed -----

  /** The blocks read along a route. */
  function Blocks(sig: seq<byte>, pos: nat, route: seq<Level>): seq<seq<byte>>
    decreases |route|
  {
    if route == [] then []
    else
      var end := pos + 32 * (route[0].r - route[0].l + 1);
      if pos <= end <= |sig| then [sig[pos..end]] + Blocks(sig, end, route[1..]) else []
  }

  /** A block the verifier hashed collides with a string of the signer, or is itself a message. */
  ghost predicate Telling(b: Batch, blocks: seq<seq<byte>>)
    requires |b.msgs| >= 1 && b.m >= 2
  {
    exists k | 0 <= k < |blocks| :: Tells(b, blocks[k])
  }

  ghost predicate Tells(b: Batch, x: seq<byte>)
    requires |b.msgs| >= 1 && b.m >= 2
  {
    Collides(b, x) || x in b.msgs
  }

  lemma TellingLater(b: Batch, x: seq<byte>, blocks: seq<seq<byte>>)
    requires |b.msgs| >= 1 && b.m >= 2
    ensures Telling(b, blocks) ==> Telling(b, [x] + blocks)
    ensures Tells(b, x) ==> Telling(b, [x] + blocks)
  {
    var all := [x] + blocks;
    if Telling(b, blocks) {
      var k :| 0 <= k < |blocks| && Tells(b, blocks[k]);
      assert all[k + 1] == blocks[k];
    }
    assert all[0] == x;
  }

  /** Why a message may have been accepted. */
  ghost predicate Explained(b: Batch, msg: seq<byte>, blocks: seq<seq<byte>>)
    requires |b.msgs| >= 1 && b.m >= 2
  {
    msg in b.msgs || IsChildBlock(b, msg) || Collides(b, msg) || Telling(b, blocks)
  }

  // ----- one level of an accepted climb -----

  /** The first level of a climb that reaches the root, and the climb above it. */
  lemma FirstLevel(hash: HashFn, sig: seq<byte>, pos: nat, j: nat, m: nat, maxLeaf: int, cur: Digest, root: Digest)
    requires m >= 2 && j >= 1 && Climb(hash, sig, pos, ClimbRoute(j, m, maxLeaf), cur) == Reached(root)
    ensures var l, p := LeftSib(j, m), Parent(j, m);
            var end := pos + 32 * (Rightmost(l, m, maxLeaf) - l + 1);
            && p < j && l <= j && pos <= end <= |sig| && pos + 32 * (j - l) + 32 <= |sig|
            && sig[pos + 32 * (j - l)..pos + 32 * (j - l) + 32] == cur
            && Blocks(sig, pos, ClimbRoute(j, m, maxLeaf)) ==
               [sig[pos..end]] + Blocks(sig, end, ClimbRoute(p, m, maxLeaf))
            && Climb(hash, sig, end, ClimbRoute(p, m, maxLeaf), hash(sig[pos..end])) == Reached(root)
  {
    ParentSmaller(j, m);
    DivBounds(j - 1, m);
    var route := ClimbRoute(j, m, maxLeaf);
    ClimbOne(hash, sig, pos, route, route[0], cur);
    assert route[1..] == ClimbRoute(Parent(j, m), m, maxLeaf);
  }

  /** The group of node j, unless the climb fails on it: it ends where it should, or at the last leaf. */
  lemma GroupOf(j: nat, m: nat, maxLeaf: int)
    requires 2 <= m < 0x8000_0000 && 1 <= j < 0x8000_0000
    requires LeftSib(j, m) <= Rightmost(LeftSib(j, m), m, maxLeaf) + 1
    ensures LeftSib(j, m) <= j <= LeftSib(j, m) + m - 1
    ensures Rightmost(LeftSib(j, m), m, maxLeaf) ==
            if LeftSib(j, m) + m - 1 > maxLeaf then maxLeaf else LeftSib(j, m) + m - 1
  {
    DivBounds(j - 1, m);
    Wrapped(LeftSib(j, m) + m - 1);
  }

  lemma Wrapped(x: nat)
    requires x < TWO_32
    ensures Int32(x % TWO_64) == if x < 0x8000_0000 then x else x - TWO_32
  {
  }

  // ----- from the root down -----

  /** The first level of a climb that starts inside its group: where the block ends, which hash of it is
      the node's own, and the parent. */
  lemma InsideLevel(hash: HashFn, sig: seq<byte>, pos: nat, j: nat, m: nat, maxLeaf: int, cur: Digest, root: Digest)
    returns (p: nat, end: nat, o: nat)
    requires 2 <= m < 0x8000_0000 && 1 <= j <= maxLeaf < 0x8000_0000
    requires Climb(hash, sig, pos, ClimbRoute(j, m, maxLeaf), cur) == Reached(root)
    ensures p < j && pos + 32 * o + 32 <= end <= |sig| && sig[pos + 32 * o..pos + 32 * o + 32] == cur
    ensures Blocks(sig, pos, ClimbRoute(j, m, maxLeaf)) == [sig[pos..end]] + Blocks(sig, end, ClimbRoute(p, m, maxLeaf))
    ensures Climb(hash, sig, end, ClimbRoute(p, m, maxLeaf), hash(sig[pos..end])) == Reached(root)
  {
    FirstLevel(hash, sig, pos, j, m, maxLeaf, cur, root);
    GroupOf(j, m, maxLeaf);
    var l := LeftSib(j, m);
    p, end, o := Parent(j, m), pos + 32 * (Rightmost(l, m, maxLeaf) - l + 1), j - l;
  }

  /** A climb that starts inside its group and reaches the batch's root started from a node's hash,
      unless one of its blocks is telling. */
  lemma {:induction false} Descend(b: Batch, sig: seq<byte>, pos: nat, j: int, maxLeaf: int, cur: Digest)
    requires |b.msgs| >= 1 && 2 <= b.m < 0x8000_0000 && j <= maxLeaf < 0x8000_0000
    requires Climb(b.hash, sig, pos, ClimbRoute(j, b.m, maxLeaf), cur) == Reached(Root(b))
    ensures Telling(b, Blocks(sig, pos, ClimbRoute(j, b.m, maxLeaf))) || IsNodeHash(b, cur)
    decreases j
  {
    if j < 1 {
      assert NodeHash(b, 0) == cur;
    } else {
      var p, end, o := InsideLevel(b.hash, sig, pos, j, b.m, maxLeaf, cur, Root(b));
      Descend(b, sig, end, p, maxLeaf, b.hash(sig[pos..end]));
      FromBlock(b, sig, pos, end, o, Blocks(sig, end, ClimbRoute(p, b.m, maxLeaf)), cur);
    }
  }

  /** A hash found in a block: if the block's own hash is a node's, then so is the one inside. */
  lemma FromBlock(b: Batch, sig: seq<byte>, pos: nat, end: nat, o: nat, later: seq<seq<byte>>, cur: Digest)
    requires |b.msgs| >= 1 && b.m >= 2 && pos + 32 * o + 32 <= end <= |sig|
    requires sig[pos + 32 * o..pos + 32 * o + 32] == cur
    requires Telling(b, later) || IsNodeHash(b, b.hash(sig[pos..end]))
    ensures Telling(b, [sig[pos..end]] + later) || IsNodeHash(b, cur)
  {
    var x := sig[pos..end];
    SliceOfSlice(sig, pos, end, 32 * o, 32 * o + 32);
    BlockTells(b, x, o, later);
  }

  lemma BlockTells(b: Batch, x: seq<byte>, o: nat, later: seq<seq<byte>>)
    requires |b.msgs| >= 1 && b.m >= 2 && 32 * o + 32 <= |x|
    requires Telling(b, later) || IsNodeHash(b, b.hash(x))
    ensures Telling(b, [x] + later) || IsNodeHash(b, x[32 * o..32 * o + 32])
  {
    TellingLater(b, x, later);
    if !Telling(b, later) {
      NodeString(b, x);
      if IsChildBlock(b, x) {
        InsideBlock(b, x, o);
      }
    }
  }

  lemma NodeString(b: Batch, x: seq<byte>)
    requires |b.msgs| >= 1 && b.m >= 2 && IsNodeHash(b, b.hash(x))
    ensures Collides(b, x) || x in b.msgs || IsChildBlock(b, x)
  {
    var q: nat :| q <= Top(b) && NodeHash(b, q) == b.hash(x);
    FromNode(b, x, q);
  }

  // ----- a start behind the last leaf -----

  /** The start lies behind the last leaf, inside the one group of a tree of a single level. */
  predicate Unbound(b: Batch, start: int, maxLeaf: int)
  {
    2 <= |b.msgs| == maxLeaf < start <= b.m
  }

  /** With all children of the root in a block of fewer than m hashes, the messages are those children. */
  lemma FlatTree(b: Batch, c: nat)
    requires |b.msgs| >= 2 && b.m >= 2 && c < b.m && LastChild(b, 0) == c
    ensures First(|b.msgs|, b.m) == 1 && Top(b) == c == |b.msgs|
  {
    FirstBounds(|b.msgs|, b.m);
    if First(|b.msgs|, b.m) > 1 {
      TreeShape(|b.msgs|, b.m, 1);
    }
  }

  lemma OnlyLevel(b: Batch, block: seq<byte>, c: nat, start: nat)
    requires Signable(b) && b.hash(block) == Root(b) && |block| == 32 * c && c < start <= b.m
    ensures Collides(b, block) || block in b.msgs || Unbound(b, start, c)
  {
    FromNode(b, block, 0);
    if !Collides(b, block) && |b.msgs| >= 2 {
      FirstBounds(|b.msgs|, b.m);
      TreeShape(|b.msgs|, b.m, 0);
      assert |Source(b, 0)| == 32 * LastChild(b, 0);
      FlatTree(b, c);
    } else if |b.msgs| == 1 {
      FirstBounds(|b.msgs|, b.m);
    }
  }

  /** The lowest level of a climb that starts behind the last leaf: its block ends at the last leaf, so
      the start's own hash lies behind it. */
  lemma LowerLevel(hash: HashFn, sig: seq<byte>, pos: nat, j: nat, m: nat, maxLeaf: int, cur: Digest, root: Digest)
    returns (p: nat, end: nat, o: nat)
    requires 2 <= m < 0x8000_0000 && maxLeaf < j < 0x8000_0000 && m < j
    requires Climb(hash, sig, pos, ClimbRoute(j, m, maxLeaf), cur) == Reached(root)
    ensures 1 <= p && p < j && p * m <= maxLeaf && pos <= end <= |sig| && o < m && end + 32 * o + 32 <= |sig|
    ensures sig[end + 32 * o..end + 32 * o + 32] == cur
    ensures Blocks(sig, pos, ClimbRoute(j, m, maxLeaf)) == [sig[pos..end]] + Blocks(sig, end, ClimbRoute(p, m, maxLeaf))
    ensures Climb(hash, sig, end, ClimbRoute(p, m, maxLeaf), hash(sig[pos..end])) == Reached(root)
  {
    FirstLevel(hash, sig, pos, j, m, maxLeaf, cur, root);
    GroupOf(j, m, maxLeaf);
    ParentPositive(j, m);
    var l := LeftSib(j, m);
    p, end, o := Parent(j, m), pos + 32 * (maxLeaf - l + 1), j - maxLeaf - 1;
  }

  /** The level above it is a full group. */
  lemma UpperLevel(hash: HashFn, sig: seq<byte>, pos: nat, p: nat, m: nat, maxLeaf: int, cur: Digest, root: Digest)
    returns (p': nat)
    requires 2 <= m < 0x8000_0000 && 1 <= p < 0x8000_0000 && p * m <= maxLeaf
    requires Climb(hash, sig, pos, ClimbRoute(p, m, maxLeaf), cur) == Reached(root)
    ensures p' < p && pos + 32 * m <= |sig|
    ensures Blocks(sig, pos, ClimbRoute(p, m, maxLeaf)) ==
            [sig[pos..pos + 32 * m]] + Blocks(sig, pos + 32 * m, ClimbRoute(p', m, maxLeaf))
    ensures Climb(hash, sig, pos + 32 * m, ClimbRoute(p', m, maxLeaf), hash(sig[pos..pos + 32 * m])) == Reached(root)
  {
    FirstLevel(hash, sig, pos, p, m, maxLeaf, cur, root);
    GroupOf(p, m, maxLeaf);
    FullAbove(p, m);
    p' := Parent(p, m);
  }

  lemma ParentPositive(j: nat, m: nat)
    requires m >= 2 && m < j
    ensures Parent(j, m) >= 1 && LeftSib(j, m) == Parent(j, m) * m + 1
  {
    DivBounds(j - 1, m);
    if Parent(j, m) < 1 {
      MulMono(Parent(j, m), 0, m);
    }
  }

  lemma FullAbove(p: nat, m: nat)
    requires m >= 2 && p >= 1
    ensures LeftSib(p, m) + m - 1 <= p * m
  {
    ParentSmaller(p, m);
    MulMono(Parent(p, m) + 1, p, m);
    assert (Parent(p, m) + 1) * m == Parent(p, m) * m + m;
  }

  /** A climb that starts behind the last leaf and reaches the batch's root: the same holds, except for
      the one-level climb of a flat tree. */
  lemma DescendOutside(b: Batch, sig: seq<byte>, pos: nat, j: nat, maxLeaf: int, cur: Digest)
    requires Signable(b) && maxLeaf < j < 0x8000_0000 && j >= 1
    requires Climb(b.hash, sig, pos, ClimbRoute(j, b.m, maxLeaf), cur) == Reached(Root(b))
    ensures || Telling(b, Blocks(sig, pos, ClimbRoute(j, b.m, maxLeaf))) || IsNodeHash(b, cur)
            || Unbound(b, j, maxLeaf)
  {
    if b.m < j {
      var p, end, o := LowerLevel(b.hash, sig, pos, j, b.m, maxLeaf, cur, Root(b));
      var p' := UpperLevel(b.hash, sig, end, p, b.m, maxLeaf, b.hash(sig[pos..end]), Root(b));
      var end' := end + 32 * b.m;
      MulMono(1, b.m, p);
      Descend(b, sig, end', p', maxLeaf, b.hash(sig[end..end']));
      var later := Blocks(sig, end', ClimbRoute(p', b.m, maxLeaf));
      FromBlock(b, sig, end, end', o, later, cur);
      TellingLater(b, sig[pos..end], [sig[end..end']] + later);
    } else {
      LowestLevel(b, sig, pos, j, maxLeaf, cur);
    }
  }

  lemma LowestLevel(b: Batch, sig: seq<byte>, pos: nat, j: nat, maxLeaf: int, cur: Digest)
    requires Signable(b) && maxLeaf < j <= b.m && j >= 1
    requires Climb(b.hash, sig, pos, ClimbRoute(j, b.m, maxLeaf), cur) == Reached(Root(b))
    ensures Telling(b, Blocks(sig, pos, ClimbRoute(j, b.m, maxLeaf))) || Unbound(b, j, maxLeaf)
  {
    FirstLevel(b.hash, sig, pos, j, b.m, maxLeaf, cur, Root(b));
    DivUnique(j - 1, b.m, 0);
    GroupOf(j, b.m, maxLeaf);
    var block := sig[pos..pos + 32 * maxLeaf];
    TellingLater(b, block, []);
    OnlyLevel(b, block, maxLeaf, j);
  }

  /** Whatever n and i a signature carries: if it is accepted with the batch's root, the message is one
      that was signed, or the hashes of an inner node's children, or a string of the verifier's climb
      collides with one of the signer's, or a signed message is itself a block of the climb.  The only
      headers this leaves out put the start behind the last leaf of a flat tree. */
  lemma AcceptedIsExplained(b: Batch, sigSize: nat, n: nat, i: nat, sig: seq<byte>, msg: seq<byte>)
    requires Signable(b) && b.m < TWO_64 && n < TWO_32 && i < TWO_32 && |sig| >= sigSize + 8
    requires sig[sigSize..sigSize + 4] == Pack(n) && sig[sigSize + 4..sigSize + 8] == Pack(i)
    requires !Unbound(b, StartNode(n, i, b.m), MaxLeaf(n, b.m))
    requires var v := Verify(b.hash, b.m, sigSize, sig, msg); v.Accepted? && v.root == Root(b)
    ensures Explained(b, msg, Blocks(sig, sigSize + 8, ClimbRoute(StartNode(n, i, b.m), b.m, MaxLeaf(n, b.m))))
  {
    PackUnpack(n);
    PackUnpack(i);
    var j, maxLeaf := StartNode(n, i, b.m), MaxLeaf(n, b.m);
    ExplainedFrom(b, sig, sigSize + 8, j, maxLeaf, msg);
  }

  lemma ExplainedFrom(b: Batch, sig: seq<byte>, pos: nat, j: int, maxLeaf: int, msg: seq<byte>)
    requires Signable(b) && j < 0x8000_0000 && maxLeaf < 0x8000_0000 && !Unbound(b, j, maxLeaf)
    requires Climb(b.hash, sig, pos, ClimbRoute(j, b.m, maxLeaf), b.hash(msg)) == Reached(Root(b))
    ensures Explained(b, msg, Blocks(sig, pos, ClimbRoute(j, b.m, maxLeaf)))
  {
    if j < 1 {
      assert NodeHash(b, 0) == b.hash(msg);
    } else if j <= maxLeaf {
      Descend(b, sig, pos, j, maxLeaf, b.hash(msg));
    } else {
      DescendOutside(b, sig, pos, j, maxLeaf, b.hash(msg));
    }
    if IsNodeHash(b, b.hash(msg)) {
      NodeString(b, msg);
    }
  }

  // ----- both exceptions occur -----

  /** One level is enough when the block it reads hashes to the root and the start's own hash stands where
      the level looks for it. */
  lemma OneLevel(b: Batch, rootSig: seq<byte>, n: nat, i: nat, j: nat, c: nat, path: seq<byte>, msg: seq<byte>)
    requires |b.msgs| >= 1 && 2 <= b.m < TWO_64 && n < TWO_32 && i < TWO_32 && msg != []
    requires StartNode(n, i, b.m) == j && 1 <= j <= b.m && 1 <= c == Rightmost(1, b.m, MaxLeaf(n, b.m))
    requires 32 * c <= |path| && b.hash(path[..32 * c]) == Root(b)
    requires 32 * j <= |path| && path[32 * (j - 1)..32 * j] == b.hash(msg)
    ensures Verify(b.hash, b.m, |rootSig|, rootSig + Pack(n) + Pack(i) + path, msg) == Accepted(Root(b), rootSig)
  {
    var sig, pos := rootSig + Pack(n) + Pack(i) + path, |rootSig| + 8;
    Layout(rootSig, Pack(n), Pack(i), path);
    PackUnpack(n);
    PackUnpack(i);
    DivUnique(j - 1, b.m, 0);
    var v := Level(1, c, j);
    var route := ClimbRoute(j, b.m, MaxLeaf(n, b.m));
    assert ClimbRoute(0, b.m, MaxLeaf(n, b.m)) == [];
    assert route == [v];
    SuffixLevel(sig, pos, path, v, path[..32 * c], b.hash(msg));
    ClimbOne(b.hash, sig, pos, route, v, b.hash(msg));
  }

  lemma RootBlock(b: Batch)
    requires |b.msgs| >= 2 && b.m >= 2
    ensures 1 <= LastChild(b, 0) <= Top(b) && Root(b) == b.hash(Hashes(b, 1, LastChild(b, 0)))
  {
    FirstBounds(|b.msgs|, b.m);
    TreeShape(|b.msgs|, b.m, 0);
  }

  lemma SuffixLevel(sig: seq<byte>, pos: nat, path: seq<byte>, v: Level, block: seq<byte>, cur: Digest)
    requires pos <= |sig| && sig[pos..] == path && block <= path && v.l == 1 <= v.j
    requires |block| == 32 * v.r && v.r >= 1 && 32 * v.j <= |path| && path[32 * (v.j - 1)..32 * v.j] == cur
    ensures ReadLevel(sig, pos, v, cur) == Block(block)
  {
    SliceOfSlice(sig, pos, |sig|, 0, |block|);
    SliceOfSlice(sig, pos, |sig|, 32 * (v.j - 1), 32 * v.j);
  }

  /** Two messages hashed together are accepted as one message under a header for a smaller batch. */
  lemma ChildBlockAccepted(b: Batch, sign: Digest -> seq<byte>)
    requires Signable(b) && |b.msgs| == 4 && b.m == 2
    ensures Top(b) == 6
    ensures var sig := sign(Root(b)) + Pack(2) + Pack(0) + Hashes(b, 1, 2);
            Verify(b.hash, 2, |sign(Root(b))|, sig, Hashes(b, 3, 4)) == Accepted(Root(b), sign(Root(b)))
  {
    assert NodeHash(b, 1) == b.hash(Hashes(b, 3, 4));
    HashesAt(b, 1, 2, 1);
    Unwrapped(1);
    Unwrapped(2);
    assert Hashes(b, 1, 2)[..64] == Hashes(b, 1, 2);
    OneLevel(b, sign(Root(b)), 2, 0, 1, 2, Hashes(b, 1, 2), Hashes(b, 3, 4));
  }

  /** The one message of a batch, if it is made of two digests, is a block under a header for two messages:
      then whatever has the first digest as its hash is accepted. */
  lemma SignedBlockAccepted(b: Batch, sign: Digest -> seq<byte>, x: seq<byte>, d: Digest)
    requires Signable(b) && b.m == 2 && b.msgs == [b.hash(x) + d] && x != []
    ensures var sig := sign(Root(b)) + Pack(2) + Pack(0) + b.msgs[0];
            Verify(b.hash, 2, |sign(Root(b))|, sig, x) == Accepted(Root(b), sign(Root(b)))
  {
    Unwrapped(1);
    Unwrapped(2);
    LeafHash(b, 0);
    assert b.msgs[0][..64] == b.msgs[0];
    OneLevel(b, sign(Root(b)), 2, 0, 1, 2, b.msgs[0], x);
  }

  /** The header that names index n of a batch of n < m messages puts the start behind the last leaf. */
  lemma IndexBehindLast(b: Batch)
    requires Signable(b) && 2 <= |b.msgs| < b.m
    ensures |b.msgs| < TWO_32 && b.m < TWO_64
    ensures Unbound(b, StartNode(|b.msgs|, |b.msgs|, b.m), MaxLeaf(|b.msgs|, b.m))
  {
    IndicesAgree(b, 0);
    FlatFirst(|b.msgs|, b.m);
    Unwrapped(1 + |b.msgs|);
  }

  lemma FlatFirst(n: nat, m: nat)
    requires 2 <= n < m < 0x8000_0000
    ensures First(n, m) == 1 && FirstLeaf64(n, m) == 1
  {
    DivUnique(n - 1 + (m - 2), m - 1, 1);
    assert (n - 1) % TWO_32 == n - 1 && (n - 1 + (m - 2)) % TWO_64 == n - 1 + (m - 2);
  }

  /** Under such a header nothing ties the message to the root: for every message there is a signature
      that is accepted with the batch's root. */
  lemma UnboundAcceptsAll(b: Batch, sign: Digest -> seq<byte>, n: nat, i: nat, msg: seq<byte>) returns (sig: seq<byte>)
    requires Signable(b) && b.m < TWO_64 && n < TWO_32 && i < TWO_32 && msg != []
    requires Unbound(b, StartNode(n, i, b.m), MaxLeaf(n, b.m))
    ensures var at := |sign(Root(b))|;
            |sig| >= at + 8 && sig[at..at + 4] == Pack(n) && sig[at + 4..at + 8] == Pack(i)
    ensures Verify(b.hash, b.m, |sign(Root(b))|, sig, msg) == Accepted(Root(b), sign(Root(b)))
  {
    var j, c := StartNode(n, i, b.m), |b.msgs|;
    FlatFirst(c, b.m);
    Unwrapped(b.m);
    RootBlock(b);
    var path := Padded(Hashes(b, 1, c), j - 1, b.hash(msg));
    sig := sign(Root(b)) + Pack(n) + Pack(i) + path;
    Layout(sign(Root(b)), Pack(n), Pack(i), path);
    assert path[..32 * c] == Hashes(b, 1, c);
    OneLevel(b, sign(Root(b)), n, i, j, c, path, msg);
  }

  /** The block, anything up to place k, and there the digest. */
  function Padded(block: seq<byte>, k: nat, d: Digest): (path: seq<byte>)
    requires |block| <= 32 * k
    ensures block <= path && |path| == 32 * k + 32 && path[32 * k..32 * k + 32] == d
  {
    block + seq(32 * k - |block|, _ => 0) + d
  }
}
