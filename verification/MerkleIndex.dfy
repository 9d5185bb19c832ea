/** Index arithmetic of the m-ary Merkle tree kept in a flat heap array.
    Node 0 is the root, the children of node p are p*m+1 .. p*m+m, and the n leaves
    occupy the last n slots. */
module MerkleIndex {
  import opened Arithmetic

  /** Index of the first leaf, which is also the number of internal nodes. */
  function First(n: nat, m: nat): nat
    requires n >= 1 && m >= 2
  {
    (n - 1 + (m - 2)) / (m - 1)
  }

  /** Index of the last leaf. */
  function Last(n: nat, m: nat): nat
    requires n >= 1 && m >= 2
  {
    First(n, m) + n - 1
  }

  /** The closed form the allocator uses. */
  function NumNodes(n: nat, m: nat): nat
    requires n >= 1 && m >= 2
  {
    (m * (n - 1) + (m - 2)) / (m - 1) + 1
  }

  function Parent(j: nat, m: nat): nat
    requires j >= 1 && m >= 2
  {
    (j - 1) / m
  }

  function LeftSib(j: nat, m: nat): nat
    requires j >= 1 && m >= 2
  {
    (j - 1) / m * m + 1
  }

  function RightSib(j: nat, n: nat, m: nat): int
    requires j >= 1 && n >= 1 && m >= 2
  {
    if LeftSib(j, m) + m - 1 > Last(n, m) then Last(n, m) else LeftSib(j, m) + m - 1
  }

  lemma FirstBounds(n: nat, m: nat)
    requires n >= 1 && m >= 2
    ensures First(n, m) * (m - 1) >= n - 1
    ensures n >= 2 ==> First(n, m) >= 1 && (First(n, m) - 1) * (m - 1) < n - 1
    ensures n == 1 ==> First(n, m) == 0
  {
    DivBounds(n - 1 + (m - 2), m - 1);
    if n == 1 {
      DivUnique(m - 2, m - 1, 0);
    }
  }

  /** The allocation is exact: one slot for every index up to the last leaf. */
  lemma NumNodesIsLastPlusOne(n: nat, m: nat)
    requires n >= 1 && m >= 2
    ensures NumNodes(n, m) == Last(n, m) + 1
  {
    var F := First(n, m);
    DivBounds(n - 1 + (m - 2), m - 1);
    assert m * (n - 1) + (m - 2) == (n - 1) * (m - 1) + (n - 1 + (m - 2));
    assert (F + (n - 1)) * (m - 1) == F * (m - 1) + (n - 1) * (m - 1);
    DivUnique(m * (n - 1) + (m - 2), m - 1, F + (n - 1));
  }

  lemma LastBelow(n: nat, m: nat)
    requires n >= 1 && m >= 2
    ensures Last(n, m) <= First(n, m) * m
  {
    FirstBounds(n, m);
    var F := First(n, m);
    assert F * m == F * (m - 1) + F;
  }

  /** Every internal node has at least two children inside the array, behind it. */
  lemma TreeShape(n: nat, m: nat, p: nat)
    requires n >= 1 && m >= 2 && p < First(n, m)
    ensures p * m + 2 <= Last(n, m) <= First(n, m) * m
    ensures p < p * m + 1
  {
    FirstBounds(n, m);
    LastBelow(n, m);
    var F := First(n, m);
    assert (F - 1) * m == (F - 1) * (m - 1) + (F - 1);
    MulMono(p, F - 1, m);
    MulMono(1, m, p);
  }

  /** Every node but the root has an internal parent of smaller index, and lies in a group of two to m
      siblings. */
  lemma ParentShape(n: nat, m: nat, j: nat)
    requires n >= 1 && m >= 2 && 1 <= j <= Last(n, m)
    ensures Parent(j, m) < First(n, m) && Parent(j, m) < j
    ensures LeftSib(j, m) <= j <= RightSib(j, n, m) <= Last(n, m)
    ensures 1 <= RightSib(j, n, m) - LeftSib(j, m) <= m - 1
  {
    FirstBounds(n, m);
    var F, p := First(n, m), Parent(j, m);
    DivBounds(j - 1, m);
    LastBelow(n, m);
    MulCancel(p, F, m);
    TreeShape(n, m, p);
  }

  // ----- depth of a node against the digit count of the batch size -----

  function Pow(b: nat, e: nat): nat
  {
    if e == 0 then 1 else b * Pow(b, e - 1)
  }

  /** One level of a climb: node j and its siblings l..r. */
  datatype Level = Level(l: int, r: int, j: int)

  /** The levels passed on the climb from node j to the root. */
  function Route(j: nat, n: nat, m: nat): seq<Level>
    requires n >= 1 && m >= 2
  {
    if j == 0 then []
    else ParentSmaller(j, m); [Level(LeftSib(j, m), RightSib(j, n, m), j)] + Route(Parent(j, m), n, m)
  }

  lemma ParentSmaller(j: nat, m: nat)
    requires j >= 1 && m >= 2
    ensures Parent(j, m) < j
  {
    DivBounds(j - 1, m);
    var p := Parent(j, m);
    assert p * 2 <= p * m;
  }

  /** Number of base-m digits of k; zero has none. */
  function Digits(k: nat, m: nat): nat
    requires m >= 2
  {
    if k == 0 then 0 else QuotientSmaller(k, m); 1 + Digits(k / m, m)
  }

  lemma QuotientSmaller(k: nat, m: nat)
    requires k >= 1 && m >= 2
    ensures k / m < k
  {
    DivBounds(k, m);
    var q := k / m;
    assert q * 2 <= q * m;
  }

  lemma {:induction false} DepthBelowPower(j: nat, n: nat, m: nat, d: nat)
    requires n >= 1 && m >= 2 && j * (m - 1) < Pow(m, d + 1) - 1
    ensures |Route(j, n, m)| <= d
    decreases d
  {
    if j > 0 {
      if d == 0 {
        assert Pow(m, 1) == m * Pow(m, 0) == m;
        MulMono(1, j, m - 1);
      } else {
        ParentSmaller(j, m);
        ParentBelowPower(j, m, Pow(m, d));
        DepthBelowPower(Parent(j, m), n, m, d - 1);
      }
    }
  }

  lemma ParentBelowPower(j: nat, m: nat, P: nat)
    requires j >= 1 && m >= 2 && j * (m - 1) < m * P - 1
    ensures Parent(j, m) * (m - 1) < P - 1
  {
    var p := Parent(j, m);
    DivBounds(j - 1, m);
    MulMono(p * m, j - 1, m - 1);
    ScaleDown(p, m, j, P);
  }

  lemma ScaleDown(p: nat, m: nat, j: nat, P: nat)
    requires j >= 1 && m >= 2
    requires p * m * (m - 1) <= (j - 1) * (m - 1) && j * (m - 1) < m * P - 1
    ensures p * (m - 1) < P - 1
  {
    assert (p * (m - 1)) * m == p * m * (m - 1);
    assert (j - 1) * (m - 1) == j * (m - 1) - (m - 1);
    assert (P - 1) * m == m * P - m;
    MulCancel(p * (m - 1), P - 1, m);
  }

  lemma {:induction false} DigitsBound(k: nat, m: nat)
    requires m >= 2
    ensures k < Pow(m, Digits(k, m))
  {
    if k > 0 {
      QuotientSmaller(k, m);
      DigitsBound(k / m, m);
      BelowProduct(k, m, Pow(m, Digits(k / m, m)));
    }
  }

  /** The digit count is exact: the power just below it does not exceed the number. */
  lemma {:induction false} DigitsExact(k: nat, m: nat)
    requires m >= 2 && k >= 1
    ensures Digits(k, m) >= 1 && Pow(m, Digits(k, m) - 1) <= k < Pow(m, Digits(k, m))
  {
    QuotientSmaller(k, m);
    DigitsBound(k, m);
    if k >= m {
      DivBounds(k, m);
      QuotientPositive(k, m);
      DigitsExact(k / m, m);
      MulMono(Pow(m, Digits(k / m, m) - 1), k / m, m);
    } else {
      DivUnique(k, m, 0);
    }
  }

  lemma QuotientPositive(k: nat, m: nat)
    requires m >= 2 && k >= m
    ensures k / m >= 1
  {
    DivBounds(k, m);
    if k / m < 1 {
      MulMono(k / m, 0, m);
    }
  }

  lemma BelowProduct(k: nat, m: nat, P: nat)
    requires m >= 2 && k / m < P
    ensures k < m * P
  {
    DivBounds(k, m);
    MulMono(k / m + 1, P, m);
  }

  /** How deep the last leaf lies; no node lies deeper. */
  function Depth(n: nat, m: nat): nat
    requires n >= 1 && m >= 2
  {
    |Route(Last(n, m), n, m)|
  }

  lemma {:induction false} DeepestLast(n: nat, m: nat, j: nat, k: nat)
    requires n >= 1 && m >= 2 && j <= k
    ensures |Route(j, n, m)| <= |Route(k, n, m)|
    decreases j
  {
    if j > 0 {
      ParentSmaller(j, m);
      ParentSmaller(k, m);
      ParentMono(j, k, m);
      DeepestLast(n, m, Parent(j, m), Parent(k, m));
    }
  }

  lemma ParentMono(j: nat, k: nat, m: nat)
    requires 1 <= j <= k && m >= 2
    ensures Parent(j, m) <= Parent(k, m)
  {
    DivBounds(j - 1, m);
    DivBounds(k - 1, m);
    if Parent(j, m) > Parent(k, m) {
      MulMono(Parent(k, m) + 1, Parent(j, m), m);
    }
  }

  /** Only the last group of siblings can have fewer than m nodes, and its nodes are leaves. */
  lemma FullGroup(n: nat, m: nat, p: nat)
    requires n >= 1 && m >= 2 && 1 <= p < First(n, m)
    ensures RightSib(p, n, m) == LeftSib(p, m) + m - 1
  {
    var q := Parent(p, m);
    ParentSmaller(p, m);
    TreeShape(n, m, q + 1);
    assert (q + 1) * m == q * m + m;
  }

  /** No leaf lies deeper than the base-m digit count of the batch size. */
  lemma DepthWithinHeight(n: nat, m: nat, j: nat)
    requires n >= 1 && m >= 2 && j <= Last(n, m)
    ensures |Route(j, n, m)| <= Digits(n, m)
  {
    DigitsBound(n, m);
    LastBelowPower(n, m, Pow(m, Digits(n, m)));
    MulMono(j, Last(n, m), m - 1);
    DepthBelowPower(j, n, m, Digits(n, m));
  }

  lemma LastBelowPower(n: nat, m: nat, P: nat)
    requires n >= 1 && m >= 2 && n < P
    ensures Last(n, m) * (m - 1) < m * P - 1
  {
    var F := First(n, m);
    DivBounds(n - 1 + (m - 2), m - 1);
    assert (F + (n - 1)) * (m - 1) == F * (m - 1) + (n - 1) * (m - 1);
    assert (n - 1) * (m - 1) == n * m - n - m + 1;
    MulMono(n, P - 1, m);
  }
}
