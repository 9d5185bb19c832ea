/** Batched signatures: one signature over the root of an m-ary Merkle tree, and for every
    message of the batch the sibling hashes on its path to that root. */
module BatchedSigs {
  import opened Arithmetic
  import opened Bytes
  import opened MerkleIndex

  type HashFn = seq<byte> -> Digest

  /** One batch: the hash function, the messages, and the branching factor. */
  datatype Batch = Batch(hash: HashFn, msgs: seq<seq<byte>>, m: nat)

  /** What the signer demands: a message to sign, no empty message, two children or more, and
      node indices that fit a 32-bit int. */
  ghost predicate Signable(b: Batch)
  {
    && |b.msgs| >= 1
    && b.m >= 2
    && (forall i | 0 <= i < |b.msgs| :: b.msgs[i] != [])
    && Last(|b.msgs|, b.m) + b.m < 0x8000_0000
  }

  function Top(b: Batch): nat
    requires |b.msgs| >= 1 && b.m >= 2
  {
    Last(|b.msgs|, b.m)
  }

  // ----- the tree, defined recursively from the root down -----

  /** Hash of node j: of the message for a leaf, of the children's hashes otherwise. */
  function NodeHash(b: Batch, j: nat): Digest
    requires |b.msgs| >= 1 && b.m >= 2 && j <= Top(b)
    decreases Top(b) + 1 - j, 0
  {
    if j >= First(|b.msgs|, b.m) then b.hash(b.msgs[j - First(|b.msgs|, b.m)])
    else TreeShape(|b.msgs|, b.m, j); b.hash(Hashes(b, j * b.m + 1, LastChild(b, j)))
  }

  function LastChild(b: Batch, p: nat): nat
    requires |b.msgs| >= 1 && b.m >= 2
  {
    if p * b.m + b.m > Top(b) then Top(b) else p * b.m + b.m
  }

  /** The hashes of nodes l..r, one after the other. */
  function Hashes(b: Batch, l: nat, r: nat): (s: seq<byte>)
    requires |b.msgs| >= 1 && b.m >= 2 && l <= r + 1 && r <= Top(b)
    ensures |s| == 32 * (r + 1 - l)
    decreases Top(b) + 1 - l, 1
  {
    if l > r then [] else NodeHash(b, l) + Hashes(b, l + 1, r)
  }

  function Root(b: Batch): Digest
    requires |b.msgs| >= 1 && b.m >= 2
  {
    NodeHash(b, 0)
  }

  /** All levels of a route lie inside the tree and hold at most m nodes. */
  predicate InTree(b: Batch, route: seq<Level>)
    requires |b.msgs| >= 1 && b.m >= 2
  {
    forall v | v in route :: 0 <= v.l <= v.j <= v.r <= Top(b) && v.r - v.l < b.m
  }

  /** All hashes a signature carries: a node's own and its siblings', level by level. */
  function PathBytes(b: Batch, route: seq<Level>): seq<byte>
    requires |b.msgs| >= 1 && b.m >= 2 && InTree(b, route)
  {
    if route == [] then []
    else Hashes(b, route[0].l, route[0].r) + PathBytes(b, route[1..])
  }

  /** The levels above node j. */
  function RouteOf(b: Batch, j: nat): (route: seq<Level>)
    requires |b.msgs| >= 1 && b.m >= 2 && j <= Top(b)
    ensures InTree(b, route)
  {
    RouteInTree(b, j);
    Route(j, |b.msgs|, b.m)
  }

  lemma {:induction false} RouteInTree(b: Batch, j: nat)
    requires |b.msgs| >= 1 && b.m >= 2 && j <= Top(b)
    ensures InTree(b, Route(j, |b.msgs|, b.m))
  {
    if j > 0 {
      ParentShape(|b.msgs|, b.m, j);
      RouteInTree(b, Parent(j, b.m));
    }
  }

  /** How many nodes the levels of a route hold. */
  function Nodes(route: seq<Level>): int
  {
    if route == [] then 0 else route[0].r + 1 - route[0].l + Nodes(route[1..])
  }

  /** A path carries one hash a node, at most m a level. */
  lemma {:induction false} PathLength(b: Batch, route: seq<Level>)
    requires |b.msgs| >= 1 && b.m >= 2 && InTree(b, route)
    ensures |PathBytes(b, route)| == 32 * Nodes(route) && Nodes(route) <= b.m * |route|
  {
    if route != [] {
      PathLength(b, route[1..]);
      Distribute(b.m, |route| - 1);
      assert route[0] in route;
    }
  }

  lemma Distribute(m: nat, d: nat)
    ensures m * (1 + d) == m + m * d
  {
  }

  /** The signature handed out for message i. */
  function SigOf(b: Batch, sign: Digest -> seq<byte>, i: nat): seq<byte>
    requires i < |b.msgs| < TWO_32 && b.m >= 2
  {
    sign(Root(b)) + Pack(|b.msgs|) + Pack(i) + LeafPath(b, i)
  }

  function LeafPath(b: Batch, i: nat): seq<byte>
    requires i < |b.msgs| && b.m >= 2
  {
    PathBytes(b, RouteOf(b, First(|b.msgs|, b.m) + i))
  }

  // ----- building the tree in place -----

  /** Slot k of the flat tree buffer holds the hash of node k. */
  ghost predicate SlotDone(b: Batch, t: seq<byte>, k: nat)
    requires |b.msgs| >= 1 && b.m >= 2 && k <= Top(b)
  {
    32 * k + 32 <= |t| && t[32 * k..32 * k + 32] == NodeHash(b, k)
  }

  lemma OverwriteSlot(t: seq<byte>, k: nat, d: Digest, q: nat)
    requires 32 * k + 32 <= |t| && 32 * q + 32 <= |t|
    ensures var t' := Overwrite(t, 32 * k, d);
            t'[32 * q..32 * q + 32] == if q == k then d else t[32 * q..32 * q + 32]
  {
    var t' := Overwrite(t, 32 * k, d);
    if q < k {
      assert forall x | 32 * q <= x < 32 * q + 32 :: t'[x] == t[x];
    } else if q > k {
      assert forall x | 32 * q <= x < 32 * q + 32 :: t'[x] == t[x];
    }
  }

  lemma {:induction false} SlotsAreHashes(b: Batch, t: seq<byte>, l: nat, r: nat)
    requires |b.msgs| >= 1 && b.m >= 2 && l <= r + 1 && r <= Top(b) && 32 * (r + 1) <= |t|
    requires forall k | l <= k <= r :: SlotDone(b, t, k)
    ensures t[32 * l..32 * (r + 1)] == Hashes(b, l, r)
    decreases r + 1 - l
  {
    if l <= r {
      SlotsAreHashes(b, t, l + 1, r);
      assert SlotDone(b, t, l);
      assert t[32 * l..32 * (r + 1)] == t[32 * l..32 * l + 32] + t[32 * (l + 1)..32 * (r + 1)];
    }
  }

  method HashLeaves(b: Batch, tree: array<byte>)
    requires Signable(b) && tree.Length == 32 * (Top(b) + 1)
    modifies tree
    ensures DoneFrom(b, tree[..], First(|b.msgs|, b.m))
  {
    var first := (|b.msgs| - 1 + (b.m - 2)) / (b.m - 1);
    for i := 0 to |b.msgs|
      invariant forall k | first <= k < first + i :: SlotDone(b, tree[..], k)
    {
      ghost var before := tree[..];
      Memcpy(tree, 32 * (first + i), b.hash(b.msgs[i]));
      forall k | first <= k < first + i + 1 ensures SlotDone(b, tree[..], k) {
        OverwriteSlot(before, first + i, b.hash(b.msgs[i]), k);
        assert k < first + i ==> SlotDone(b, before, k);
      }
    }
  }

  /** Every slot from p on holds its node's hash. */
  ghost predicate DoneFrom(b: Batch, t: seq<byte>, p: nat)
    requires |b.msgs| >= 1 && b.m >= 2
  {
    |t| == 32 * (Top(b) + 1) && forall k | p <= k <= Top(b) :: SlotDone(b, t, k)
  }

  /** The tree after the siblings p*m+1..i have been hashed into slot p. */
  function AfterNode(hash: HashFn, t: seq<byte>, m: nat, p: nat, i: nat): seq<byte>
    requires p < p * m + 1 <= i && 32 * (i + 1) <= |t|
  {
    Overwrite(t, 32 * p, hash(t[32 * (p * m + 1)..32 * (i + 1)]))
  }

  /** The bottom-up loop. The ghost result lists the internal slots in the order they are
      written: each exactly once, from the last internal node down to the root. */
  method HashInternal(b: Batch, tree: array<byte>) returns (ghost writes: seq<nat>)
    requires Signable(b) && DoneFrom(b, tree[..], First(|b.msgs|, b.m))
    modifies tree
    ensures DoneFrom(b, tree[..], 0)
    ensures |writes| == First(|b.msgs|, b.m)
    ensures forall w | 0 <= w < |writes| :: writes[w] == First(|b.msgs|, b.m) - 1 - w
  {
    ghost var F := First(|b.msgs|, b.m);
    var i := (|b.msgs| - 1 + (b.m - 2)) / (b.m - 1) + |b.msgs| - 1;
    writes := [];
    ghost var next := F;   // the internal nodes next..F-1 are final
    while i > 1
      invariant 0 <= i && 0 <= next <= F
      invariant i == if next == F then Top(b) else next * b.m
      invariant DoneFrom(b, tree[..], next)
      invariant |writes| == F - next && forall w | 0 <= w < |writes| :: writes[w] == F - 1 - w
      decreases next
    {
      Turn(b, tree[..], i, next);
      i := HashNode(b.hash, tree, i, b.m);
      next := next - 1;
      writes := writes + [next];
    }
    LoopEnd(b, i, next);
  }

  /** One turn: hash the group of siblings that ends at i into their parent's slot. */
  method HashNode(hash: HashFn, tree: array<byte>, i: nat, m: nat) returns (i': int)
    requires m >= 2 && i > 1 && 32 * (i + 1) <= tree.Length
    requires 0 <= (i - 1) / m < (i - 1) / m * m + 1 <= i
    modifies tree
    ensures i' == (i - 1) / m * m
    ensures tree[..] == AfterNode(hash, old(tree[..]), m, (i - 1) / m, i)
  {
    var l := (i - 1) / m * m + 1;
    var d := hash(tree[..][32 * l..32 * (i + 1)]);
    Memcpy(tree, 32 * ((i - 1) / m), d);
    i' := i - (i - l) - 1;
  }

  lemma NodeStep(b: Batch, t: seq<byte>, p: nat, i: nat)
    requires |b.msgs| >= 1 && b.m >= 2 && DoneFrom(b, t, p + 1)
    requires p < First(|b.msgs|, b.m) && i == LastChild(b, p) && p < p * b.m + 1 <= i
    ensures DoneFrom(b, AfterNode(b.hash, t, b.m, p, i), p)
  {
    var l := p * b.m + 1;
    SlotsAreHashes(b, t, l, i);
    var d := b.hash(t[32 * l..32 * (i + 1)]);
    forall k | p <= k <= Top(b) ensures SlotDone(b, Overwrite(t, 32 * p, d), k) {
      OverwriteSlot(t, p, d, k);
      assert k > p ==> SlotDone(b, t, k);
    }
  }

  /** One turn finishes the slot of node next-1 and leaves i at the last child of the node before it. */
  lemma Turn(b: Batch, t: seq<byte>, i: nat, next: nat)
    requires |b.msgs| >= 1 && b.m >= 2 && i > 1 && next <= First(|b.msgs|, b.m)
    requires i == if next == First(|b.msgs|, b.m) then Top(b) else next * b.m
    requires DoneFrom(b, t, next)
    ensures next >= 1 && (i - 1) / b.m == next - 1 && (i - 1) / b.m * b.m == (next - 1) * b.m
    ensures i <= Top(b) && next - 1 < (next - 1) * b.m + 1 <= i
    ensures DoneFrom(b, AfterNode(b.hash, t, b.m, (i - 1) / b.m, i), next - 1)
  {
    LoopStep(b, i, next);
    NodeStep(b, t, next - 1, i);
  }

  /** One turn of the loop handles exactly the children of node next-1. */
  lemma LoopStep(b: Batch, i: nat, next: nat)
    requires |b.msgs| >= 1 && b.m >= 2 && i > 1 && next <= First(|b.msgs|, b.m)
    requires i == if next == First(|b.msgs|, b.m) then Top(b) else next * b.m
    ensures next >= 1 && (i - 1) / b.m == next - 1
    ensures i <= Top(b) && i == LastChild(b, next - 1)
    ensures next - 1 < (next - 1) * b.m + 1 <= i
  {
    FirstBounds(|b.msgs|, b.m);
    if next == 0 {
      assert false;
    }
    TreeShape(|b.msgs|, b.m, next - 1);
    Distribute(b.m, next - 1);
    if next < First(|b.msgs|, b.m) {
      TreeShape(|b.msgs|, b.m, next);
    } else {
      LastBelow(|b.msgs|, b.m);
    }
    GroupEnd(b.m, next, i);
  }

  lemma GroupEnd(m: nat, next: nat, i: nat)
    requires m >= 2 && next >= 1 && (next - 1) * m + 1 <= i <= (next - 1) * m + m
    ensures (i - 1) / m == next - 1
  {
    DivUnique(i - 1, m, next - 1);
  }

  lemma LoopEnd(b: Batch, i: nat, next: nat)
    requires |b.msgs| >= 1 && b.m >= 2 && i <= 1 && next <= First(|b.msgs|, b.m)
    requires i == if next == First(|b.msgs|, b.m) then Top(b) else next * b.m
    ensures next == 0
  {
    FirstBounds(|b.msgs|, b.m);
    if next >= 1 {
      TreeShape(|b.msgs|, b.m, next - 1);
      MulMono(1, next, b.m);
    }
  }

  // ----- the memoised tree height -----

  /** The thread-local table of heights, indexed by batch size alone. */
  class TreeHeights {
    var heights: seq<nat>

    /** Every entry is unset or right for branching factor m. */
    ghost predicate Valid(m: nat)
      reads this
      requires m >= 2
    {
      forall k | 0 <= k < |heights| :: heights[k] == 0 || heights[k] == Digits(k, m)
    }

    constructor ()
      ensures heights == []
    {
      heights := [];
    }

    /** What the table will say: a height it remembers for n, under any m, or else the digit count. */
    function Answer(n: nat, m: nat): (r: nat)
      reads this
      requires m >= 2
      ensures Valid(m) ==> r == Digits(n, m)
    {
      if n < |heights| && heights[n] != 0 then heights[n] else Digits(n, m)
    }

    /** With one fixed m the answer is the digit count, whatever was asked before. Resizing
        drops the entries above n. */
    method GetTreeHeight(n: nat, m: nat) returns (r: nat)
      requires m >= 2
      modifies this
      ensures |heights| == n + 1 && r == heights[n]
      ensures r == old(Answer(n, m))
      ensures forall k | 0 <= k < n :: heights[k] == if k < |old(heights)| then old(heights)[k] else 0
      ensures old(Valid(m)) ==> Valid(m) && r == Digits(n, m)
    {
      heights := if n + 1 <= |heights| then heights[..n + 1] else heights + seq(n + 1 - |heights|, _ => 0);
      if heights[n] == 0 {
        var k := n;
        ghost var rest := heights[..n];
        while k > 0
          invariant k >= 0 && |heights| == n + 1 && heights[..n] == rest
          invariant heights[n] + Digits(k, m) == Digits(n, m)
        {
          QuotientSmaller(k, m);
          k := k / m;
          heights := heights[n := heights[n] + 1];
        }
        assert forall i | 0 <= i < n :: heights[i] == rest[i];
      }
      assert forall i | 0 <= i < n :: heights[i] == if i < |old(heights)| then old(heights)[i] else 0;
      return heights[n];
    }
  }

  /** How many hashes the signature of message i carries. */
  function LeafNodes(n: nat, m: nat, i: nat): int
    requires n >= 1 && m >= 2
  {
    Nodes(Route(First(n, m) + i, n, m))
  }

  /** The table is keyed on n alone: asked for 8 messages first with m = 9 and then with m = 2 it
      repeats the height of the flat tree, which is less than the binary tree is deep. */
  method HeightIgnoresBranching() returns (stale: nat)
    ensures stale == Digits(8, 9) == 1 && Depth(8, 2) == 3
  {
    var table := new TreeHeights();
    var first := table.GetTreeHeight(8, 9);
    assert Digits(8, 9) == 1 + Digits(0, 9);
    stale := table.GetTreeHeight(8, 2);
    DeepPath();
  }

  lemma DeepPath()
    ensures Last(8, 2) == 14 && |Route(14, 8, 2)| == 3
  {
    assert |Route(2, 8, 2)| == 1 + |Route(0, 8, 2)|;
    assert |Route(6, 8, 2)| == 1 + |Route(2, 8, 2)|;
  }

  // ----- flattening the tree into signatures -----

  /** Copies the path of node j0 behind position start; h counts the hashes copied. */
  method AppendPath(b: Batch, tree: array<byte>, sig: array<byte>, start: nat, j0: nat) returns (h: nat)
    requires Signable(b) && DoneFrom(b, tree[..], 0) && j0 <= Top(b)
    requires start + |PathBytes(b, RouteOf(b, j0))| <= sig.Length && sig != tree
    modifies sig
    ensures start + 32 * h <= sig.Length
    ensures sig[..start + 32 * h] == old(sig[..start]) + PathBytes(b, RouteOf(b, j0))
  {
    var j, maxLeaf := j0, (|b.msgs| - 1 + (b.m - 2)) / (b.m - 1) + |b.msgs| - 1;
    h := 0;
    ghost var whole, left := old(sig[..start]) + PathBytes(b, RouteOf(b, j0)), RouteOf(b, j0);
    while j >= 1
      invariant 0 <= j <= Top(b) && start + 32 * h <= sig.Length
      invariant left == RouteOf(b, j)
      invariant sig[..start + 32 * h] + PathBytes(b, left) == whole
      decreases j
    {
      RouteStep(b, j);
      var l := (j - 1) / b.m * b.m + 1;
      var r := l + b.m - 1;
      if r > maxLeaf {
        r := maxLeaf;
      }
      h := CopyLevel(b, tree, sig, start, h, l, r, left, whole);
      left := left[1..];
      j := (j - 1) / b.m;
    }
    assert PathBytes(b, left) == [];
  }

  lemma RouteStep(b: Batch, j: nat)
    requires |b.msgs| >= 1 && b.m >= 2 && 1 <= j <= Top(b)
    ensures Parent(j, b.m) < j
    ensures RouteOf(b, j) == [Level(LeftSib(j, b.m), RightSib(j, |b.msgs|, b.m), j)] + RouteOf(b, Parent(j, b.m))
  {
    ParentSmaller(j, b.m);
  }

  /** Copies the hashes of nodes l..r, the first level of the route still to be written. */
  method CopyLevel(b: Batch, tree: array<byte>, sig: array<byte>, start: nat, h: nat, l: int, r: int,
                   ghost left: seq<Level>, ghost whole: seq<byte>)
    returns (h': nat)
    requires |b.msgs| >= 1 && b.m >= 2 && DoneFrom(b, tree[..], 0) && sig != tree
    requires InTree(b, left) && left != [] && l == left[0].l && r == left[0].r
    requires start + 32 * h <= sig.Length && |whole| <= sig.Length
    requires sig[..start + 32 * h] + PathBytes(b, left) == whole
    modifies sig
    ensures start + 32 * h' <= sig.Length
    ensures sig[..start + 32 * h'] + PathBytes(b, left[1..]) == whole
  {
    assert left[0] in left;
    SlotsAreHashes(b, tree[..], l, r);
    var block := tree[..][32 * l..32 * (r + 1)];
    ghost var done, rest := sig[..start + 32 * h], PathBytes(b, left[1..]);
    assert done + (block + rest) == done + block + rest;
    assert |done| + |block| <= |whole|;
    Memcpy(sig, start + 32 * h, block);
    h' := h + (r - l) + 1;
    assert sig[..start + 32 * h'] == done + block;
  }

  /** Allocates the flat buffer and fills every slot. */
  method BuildTree(b: Batch) returns (tree: array<byte>)
    requires Signable(b)
    ensures fresh(tree) && DoneFrom(b, tree[..], 0)
  {
    NumNodesIsLastPlusOne(|b.msgs|, b.m);
    var numNodes := (b.m * (|b.msgs| - 1) + (b.m - 2)) / (b.m - 1) + 1;
    tree := new byte[32 * numNodes];
    HashLeaves(b, tree);
    ghost var writes := HashInternal(b, tree);
  }

  /** Cuts one signature after the other out of the same buffer. */
  method FlattenSignatures(b: Batch, tree: array<byte>, sig: array<byte>, rootSig: seq<byte>)
    returns (sigs: seq<seq<byte>>)
    requires Signable(b) && DoneFrom(b, tree[..], 0) && sig != tree
    requires forall i: nat | i < |b.msgs| :: |rootSig| + 8 + |LeafPath(b, i)| <= sig.Length
    requires |rootSig| + 4 <= sig.Length
    requires sig[..|rootSig| + 4] == rootSig + Pack(|b.msgs|)
    modifies sig
    ensures |sigs| == |b.msgs|
    ensures forall i | 0 <= i < |sigs| :: sigs[i] == rootSig + Pack(|b.msgs|) + Pack(i) + LeafPath(b, i)
  {
    var n, sigSize := |b.msgs|, |rootSig|;
    sigs := [];
    for i := 0 to n
      invariant |sigs| == i
      invariant forall k | 0 <= k < i :: sigs[k] == rootSig + Pack(n) + Pack(k) + LeafPath(b, k)
      invariant sig[..sigSize + 4] == rootSig + Pack(n)
    {
      var cut := CutSignature(b, tree, sig, sigSize + 4, rootSig + Pack(n), i);
      sigs := sigs + [cut];
    }
  }

  /** Writes index and path behind the head that all signatures share, and copies the result out. */
  method CutSignature(b: Batch, tree: array<byte>, sig: array<byte>, pos: nat, ghost head: seq<byte>, i: nat)
    returns (cut: seq<byte>)
    requires Signable(b) && DoneFrom(b, tree[..], 0) && sig != tree && i < |b.msgs| < TWO_32 && pos == |head|
    requires pos + 4 + |LeafPath(b, i)| <= sig.Length && sig[..pos] == head
    modifies sig
    ensures cut == head + Pack(i) + LeafPath(b, i) && sig[..pos] == head
  {
    var start := Append(sig, pos, Pack(i));
    var j := (|b.msgs| - 1 + (b.m - 2)) / (b.m - 1) + i;
    var h := AppendPath(b, tree, sig, start, j);
    cut := sig[..start + 32 * h];
    Reassociate(head, Pack(i), LeafPath(b, i));
    SamePrefix(sig[..], cut, head, Pack(i) + LeafPath(b, i));
  }

  lemma Reassociate(x: seq<byte>, y: seq<byte>, z: seq<byte>)
    ensures x + (y + z) == x + y + z
  {
  }

  lemma SamePrefix(sig: seq<byte>, cut: seq<byte>, head: seq<byte>, tail: seq<byte>)
    requires cut <= sig && cut == head + tail
    ensures sig[..|head|] == head
  {
  }

  /** The signer, buffers included: if the height the table gives is at least the depth of the tree,
      every copy stays inside the buffer sized from it, and the i-th signature is the one SigOf
      describes. */
  method GenerateBatchedSignatures(b: Batch, sign: Digest -> seq<byte>, sigSize: nat, table: TreeHeights)
    returns (sigs: seq<seq<byte>>)
    requires Signable(b) && Depth(|b.msgs|, b.m) <= table.Answer(|b.msgs|, b.m)
    requires forall d: Digest :: |sign(d)| == sigSize
    modifies table
    ensures old(table.Valid(b.m)) ==> table.Valid(b.m)
    ensures |sigs| == |b.msgs|
    ensures forall i | 0 <= i < |sigs| :: sigs[i] == SigOf(b, sign, i)
  {
    var tree := BuildTree(b);
    RootFromTree(b, tree[..]);
    var rootHash: Digest := tree[..][..32];
    var rootSig := sign(rootHash);
    var height := table.GetTreeHeight(|b.msgs|, b.m);
    var sig := NewBuffer(b, rootSig, height);
    sigs := FlattenSignatures(b, tree, sig, rootSig);
  }

  method WriteHead(sig: array<byte>, rootSig: seq<byte>, n: nat)
    requires |rootSig| + 4 <= sig.Length && n < TWO_32
    modifies sig
    ensures sig[..|rootSig| + 4] == rootSig + Pack(n)
  {
    var pos := Append(sig, 0, rootSig);
    pos := Append(sig, pos, Pack(n));
  }

  /** The buffer all signatures are written to, with what they share in front. */
  method NewBuffer(b: Batch, rootSig: seq<byte>, height: nat) returns (sig: array<byte>)
    requires Signable(b) && |b.msgs| < TWO_32 && Depth(|b.msgs|, b.m) <= height
    ensures fresh(sig) && |rootSig| + 4 <= sig.Length && sig[..|rootSig| + 4] == rootSig + Pack(|b.msgs|)
    ensures forall i: nat | i < |b.msgs| :: |rootSig| + 8 + |LeafPath(b, i)| <= sig.Length
  {
    var sigSize := |rootSig|;
    var maxSize := BufferSize(sigSize, b.m, height);
    PathsFit(b, height);
    sig := new byte[maxSize];
    WriteHead(sig, rootSig, |b.msgs|);
  }

  lemma RootFromTree(b: Batch, t: seq<byte>)
    requires |b.msgs| >= 1 && b.m >= 2 && DoneFrom(b, t, 0)
    ensures t[..32] == Root(b)
  {
    assert SlotDone(b, t, 0);
  }

  lemma LeafPathLength(b: Batch, i: nat)
    requires i < |b.msgs| && b.m >= 2
    ensures |LeafPath(b, i)| == 32 * LeafNodes(|b.msgs|, b.m, i)
  {
    PathLength(b, RouteOf(b, First(|b.msgs|, b.m) + i));
  }

  /** The size the signer allocates for a signature. */
  function BufferSize(sigSize: nat, m: nat, height: nat): nat
  {
    sigSize + 4 + 4 + (m * height + 1) * 32
  }

  /** Below the deepest level every group of siblings is full. */
  lemma {:induction false} InnerNodes(n: nat, m: nat, p: nat)
    requires n >= 1 && m >= 2 && p < First(n, m)
    ensures Nodes(Route(p, n, m)) == m * |Route(p, n, m)|
    decreases p
  {
    if p > 0 {
      ParentSmaller(p, m);
      FullGroup(n, m, p);
      InnerNodes(n, m, Parent(p, m));
      NodesStep(n, m, p);
      Distribute(m, |Route(Parent(p, m), n, m)|);
    }
  }

  lemma NodesStep(n: nat, m: nat, j: nat)
    requires n >= 1 && m >= 2 && j >= 1
    ensures |Route(j, n, m)| == 1 + |Route(Parent(j, m), n, m)|
    ensures Nodes(Route(j, n, m)) == RightSib(j, n, m) + 1 - LeftSib(j, m) + Nodes(Route(Parent(j, m), n, m))
  {
    ParentSmaller(j, m);
    assert Route(j, n, m)[1..] == Route(Parent(j, m), n, m);
  }

  /** A leaf at depth d carries more than m*(d-1)+1 and at most m*d hashes. */
  lemma LeafNodesBounds(n: nat, m: nat, j: nat)
    requires n >= 1 && m >= 2 && 1 <= j <= Last(n, m)
    ensures var d := |Route(j, n, m)|; d >= 1 && m * (d - 1) + 2 <= Nodes(Route(j, n, m)) <= m * d
  {
    var above := |Route(Parent(j, m), n, m)|;
    ParentShape(n, m, j);
    InnerNodes(n, m, Parent(j, m));
    NodesStep(n, m, j);
    Distribute(m, above);
  }

  lemma LeafFits(n: nat, m: nat, i: nat, height: nat)
    requires i < n && m >= 2 && Depth(n, m) <= height
    ensures LeafNodes(n, m, i) <= m * height + 1
  {
    var j := First(n, m) + i;
    if j > 0 {
      LeafNodesBounds(n, m, j);
      DeepestLast(n, m, j, Last(n, m));
      ScaleLe(|Route(j, n, m)|, height, m);
    }
  }

  lemma LastDoesNotFit(n: nat, m: nat, height: nat)
    requires n >= 1 && m >= 2 && height < Depth(n, m)
    ensures LeafNodes(n, m, n - 1) > m * height + 1
  {
    LeafNodesBounds(n, m, Last(n, m));
    ScaleLe(height, Depth(n, m) - 1, m);
  }

  lemma PathsFit(b: Batch, height: nat)
    requires |b.msgs| >= 1 && b.m >= 2 && Depth(|b.msgs|, b.m) <= height
    ensures forall i: nat | i < |b.msgs| :: |LeafPath(b, i)| <= (b.m * height + 1) * 32
  {
    forall i: nat | i < |b.msgs| ensures |LeafPath(b, i)| <= (b.m * height + 1) * 32 {
      LeafPathLength(b, i);
      LeafFits(|b.msgs|, b.m, i, height);
    }
  }

  lemma SignatureLength(b: Batch, sign: Digest -> seq<byte>, i: nat)
    requires i < |b.msgs| < TWO_32 && b.m >= 2
    ensures |SigOf(b, sign, i)| == |sign(Root(b))| + 8 + 32 * LeafNodes(|b.msgs|, b.m, i)
  {
    LeafPathLength(b, i);
  }

  /** A buffer sized from a height holds every signature if and only if the height is at least the
      depth of the last leaf. */
  lemma RoomIff(b: Batch, sign: Digest -> seq<byte>, height: nat)
    requires 1 <= |b.msgs| < TWO_32 && b.m >= 2
    ensures (forall i: nat | i < |b.msgs| :: |SigOf(b, sign, i)| <= BufferSize(|sign(Root(b))|, b.m, height))
            <==> Depth(|b.msgs|, b.m) <= height
  {
    if Depth(|b.msgs|, b.m) <= height {
      forall i: nat | i < |b.msgs| ensures |SigOf(b, sign, i)| <= BufferSize(|sign(Root(b))|, b.m, height) {
        SignatureLength(b, sign, i);
        LeafFits(|b.msgs|, b.m, i, height);
      }
    } else {
      SignatureLength(b, sign, |b.msgs| - 1);
      LastDoesNotFit(|b.msgs|, b.m, height);
    }
  }

  /** So a call is safe if and only if the table has no height for n that is less than the depth. */
  lemma TableRoomIff(b: Batch, sign: Digest -> seq<byte>, table: TreeHeights)
    requires 1 <= |b.msgs| < TWO_32 && b.m >= 2
    ensures (forall i: nat | i < |b.msgs| ::
               |SigOf(b, sign, i)| <= BufferSize(|sign(Root(b))|, b.m, table.Answer(|b.msgs|, b.m)))
            <==> |table.heights| <= |b.msgs| || table.heights[|b.msgs|] == 0 ||
                 Depth(|b.msgs|, b.m) <= table.heights[|b.msgs|]
  {
    RoomIff(b, sign, table.Answer(|b.msgs|, b.m));
    HeightLeavesRoom(|b.msgs|, b.m);
  }

  /** The height computed for this branching factor is enough. */
  lemma HeightLeavesRoom(n: nat, m: nat)
    requires n >= 1 && m >= 2
    ensures Depth(n, m) <= Digits(n, m)
  {
    DepthWithinHeight(n, m, Last(n, m));
  }

  /** As long as all calls use one branching factor, the signer can always be called. */
  lemma OneBranchingIsSafe(table: TreeHeights, n: nat, m: nat)
    requires n >= 1 && m >= 2 && table.Valid(m)
    ensures Depth(n, m) <= table.Answer(n, m)
  {
    HeightLeavesRoom(n, m);
  }

  lemma ScaleLe(x: nat, y: nat, c: nat)
    requires x <= y
    ensures c * x <= c * y
  {
    MulMono(x, y, c);
  }
}
