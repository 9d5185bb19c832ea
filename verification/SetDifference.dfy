/** The merge-walk behind std::set_difference, run as Sync runs it: on the iteration orders of two
    unordered sets, which need not be sorted. */
module SetDifference {

  /** The walk from positions p of a and q of b. */
  function Walk(a: seq<nat>, b: seq<nat>, p: nat, q: nat): seq<nat>
    requires p <= |a| && q <= |b|
    decreases |a| - p + |b| - q
  {
    if p == |a| then []
    else if q == |b| then a[p..]
    else if a[p] < b[q] then [a[p]] + Walk(a, b, p + 1, q)
    else if b[q] < a[p] then Walk(a, b, p, q + 1)
    else Walk(a, b, p + 1, q + 1)
  }

  method Difference(a: seq<nat>, b: seq<nat>) returns (out: seq<nat>)
    ensures out == Walk(a, b, 0, 0)
  {
    var p, q := 0, 0;
    out := [];
    while p < |a| && q < |b|
      invariant p <= |a| && q <= |b| && out + Walk(a, b, p, q) == Walk(a, b, 0, 0)
      decreases |a| - p + |b| - q
    {
      if a[p] < b[q] {
        out := out + [a[p]];
        p := p + 1;
      } else if b[q] < a[p] {
        q := q + 1;
      } else {
        p := p + 1;
        q := q + 1;
      }
    }
    out := out + a[p..];
  }

  // ----- lexicographic order -----

  predicate Less(s: seq<nat>, t: seq<nat>)
  {
    t != [] && (s == [] || s[0] < t[0] || (s[0] == t[0] && Less(s[1..], t[1..])))
  }

  lemma {:induction false} LessTrans(s: seq<nat>, t: seq<nat>, u: seq<nat>)
    requires Less(s, t) && Less(t, u)
    ensures Less(s, u)
  {
    if s != [] && s[0] == t[0] == u[0] {
      LessTrans(s[1..], t[1..], u[1..]);
    }
  }

  lemma {:induction false} LessIrreflexive(s: seq<nat>)
    ensures !Less(s, s)
  {
    if s != [] {
      LessIrreflexive(s[1..]);
    }
  }

  lemma {:induction false} LessTotal(s: seq<nat>, t: seq<nat>)
    ensures Less(s, t) || s == t || Less(t, s)
  {
    if s != [] && t != [] && s[0] == t[0] {
      LessTotal(s[1..], t[1..]);
      assert s == [s[0]] + s[1..] && t == [t[0]] + t[1..];
    }
  }

  lemma {:induction false} LessAt(s: seq<nat>, t: seq<nat>, m: nat)
    requires m <= |s| && m < |t| && s[..m] == t[..m] && (m < |s| ==> s[m] < t[m])
    ensures Less(s, t)
  {
    if m > 0 {
      assert s[0] == s[..m][0] == t[..m][0] == t[0];
      assert s[1..][..m - 1] == s[..m][1..] && t[1..][..m - 1] == t[..m][1..];
      LessAt(s[1..], t[1..], m - 1);
    }
  }

  // ----- the key by which the walk really compares -----

  /** Drops everything smaller than x from the end and appends x. */
  function Push(s: seq<nat>, x: nat): seq<nat>
  {
    if s != [] && s[|s| - 1] < x then Push(s[..|s| - 1], x) else s + [x]
  }

  /** The elements up to position i that no later one up to i exceeds: element i under all the
      greater elements it is read behind. */
  function Key(a: seq<nat>, i: nat): seq<nat>
    requires i < |a|
  {
    Push(if i == 0 then [] else Key(a, i - 1), a[i])
  }

  lemma {:induction false} PushShape(s: seq<nat>, x: nat) returns (m: nat)
    ensures m <= |s| && Push(s, x) == s[..m] + [x]
    ensures m < |s| ==> s[m] < x
    ensures m > 0 ==> s[m - 1] >= x
  {
    if s != [] && s[|s| - 1] < x {
      m := PushShape(s[..|s| - 1], x);
      assert s[..|s| - 1][..m] == s[..m];
    } else {
      m := |s|;
      assert s[..m] == s;
    }
  }

  predicate NonIncreasing(s: seq<nat>)
  {
    forall i, j | 0 <= i < j < |s| :: s[i] >= s[j]
  }

  lemma {:induction false} PushKeepsOrder(s: seq<nat>, x: nat)
    requires NonIncreasing(s)
    ensures var t := Push(s, x); t != [] && NonIncreasing(t) && t[|t| - 1] == x
  {
    var m := PushShape(s, x);
    var t := s[..m] + [x];
    forall i, j | 0 <= i < j < |t| ensures t[i] >= t[j] {
      if j == m && i < m - 1 {
        assert s[i] >= s[m - 1];
      }
    }
  }

  lemma {:induction false} KeyShape(a: seq<nat>, i: nat)
    requires i < |a|
    ensures Key(a, i) != [] && NonIncreasing(Key(a, i)) && Key(a, i)[|Key(a, i)| - 1] == a[i]
  {
    if i > 0 {
      KeyShape(a, i - 1);
    }
    PushKeepsOrder(if i == 0 then [] else Key(a, i - 1), a[i]);
  }

  lemma {:induction false} KeysIncrease(a: seq<nat>, i: nat, j: nat)
    requires i < j < |a|
    ensures Less(Key(a, i), Key(a, j))
  {
    var s := Key(a, j - 1);
    var m := PushShape(s, a[j]);
    assert Key(a, j)[..m] == s[..m];
    LessAt(s, Key(a, j), m);
    if i < j - 1 {
      KeysIncrease(a, i, j - 1);
      LessTrans(Key(a, i), s, Key(a, j));
    }
  }

  /** Every proper prefix of a key is the key of an earlier element. */
  lemma {:induction false} PrefixIsEarlierKey(a: seq<nat>, i: nat, len: nat) returns (k: nat)
    requires i < |a| && 0 < len < |Key(a, i)|
    ensures k < i && Key(a, k) == Key(a, i)[..len]
  {
    var s := if i == 0 then [] else Key(a, i - 1);
    var m := PushShape(s, a[i]);
    assert Key(a, i)[..len] == s[..len];
    if len == |s| {
      k := i - 1;
      assert s[..len] == s;
    } else {
      k := PrefixIsEarlierKey(a, i - 1, len);
    }
  }

  /** If all proper prefixes of t come before s and s before t, comparing the last elements tells. */
  lemma {:induction false} LastTells(s: seq<nat>, t: seq<nat>)
    requires s != [] && t != [] && NonIncreasing(s) && Less(s, t)
    requires forall len | 0 < len < |t| :: Less(t[..len], s)
    ensures s[|s| - 1] < t[|t| - 1]
  {
    if |t| > 1 {
      assert t[..1][0] == t[0] && t[..1][1..] == [] && Less(t[..1], s);
      assert s[0] == t[0] && Less(t[..1][1..], s[1..]);
      forall len | 0 < len < |t[1..]| ensures Less(t[1..][..len], s[1..]) {
        assert Less(t[..len + 1], s);
        assert t[..len + 1][1..] == t[1..][..len];
      }
      LastTells(s[1..], t[1..]);
    }
  }

  // ----- the walk, exactly -----

  /** Everything already passed on one side lies before what is next on the other. */
  ghost predicate Ahead(a: seq<nat>, b: seq<nat>, p: nat, q: nat)
    requires p <= |a| && q <= |b|
  {
    && (0 < p && q < |b| ==> Less(Key(a, p - 1), Key(b, q)))
    && (0 < q && p < |a| ==> Less(Key(b, q - 1), Key(a, p)))
  }

  lemma {:induction false} ComparesKeys(a: seq<nat>, b: seq<nat>, p: nat, q: nat)
    requires p < |a| && q < |b| && Ahead(a, b, p, q) && Less(Key(a, p), Key(b, q))
    ensures a[p] < b[q]
  {
    var s, t := Key(a, p), Key(b, q);
    KeyShape(a, p);
    KeyShape(b, q);
    forall len | 0 < len < |t| ensures Less(t[..len], s) {
      var k := PrefixIsEarlierKey(b, q, len);
      if k < q - 1 {
        KeysIncrease(b, k, q - 1);
        LessTrans(Key(b, k), Key(b, q - 1), s);
      }
    }
    LastTells(s, t);
  }

  /** Element i of a meets an element of b under the same key. */
  ghost predicate Met(a: seq<nat>, b: seq<nat>, i: nat)
    requires i < |a|
  {
    exists j | 0 <= j < |b| :: Key(b, j) == Key(a, i)
  }

  lemma {:induction false} KeyOrder(a: seq<nat>, b: seq<nat>, p: nat, q: nat)
    requires p < |a| && q < |b| && Ahead(a, b, p, q)
    ensures a[p] < b[q] <==> Less(Key(a, p), Key(b, q))
    ensures a[p] == b[q] <==> Key(a, p) == Key(b, q)
  {
    KeyShape(a, p);
    KeyShape(b, q);
    LessTotal(Key(a, p), Key(b, q));
    if Less(Key(a, p), Key(b, q)) {
      ComparesKeys(a, b, p, q);
    } else if Less(Key(b, q), Key(a, p)) {
      ComparesKeys(b, a, q, p);
    }
  }

  lemma {:induction false} NotMet(a: seq<nat>, b: seq<nat>, p: nat, q: nat)
    requires p < |a| && q <= |b| && Ahead(a, b, p, q) && (q < |b| ==> Less(Key(a, p), Key(b, q)))
    ensures !Met(a, b, p)
  {
    forall j | 0 <= j < |b| ensures Key(b, j) != Key(a, p) {
      LessIrreflexive(Key(a, p));
      if j < q - 1 {
        KeysIncrease(b, j, q - 1);
        LessTrans(Key(b, j), Key(b, q - 1), Key(a, p));
      } else if j > q {
        KeysIncrease(b, q, j);
        LessTrans(Key(a, p), Key(b, q), Key(b, j));
      }
    }
  }

  lemma {:induction false} AheadSteps(a: seq<nat>, b: seq<nat>, p: nat, q: nat)
    requires p < |a| && q < |b| && Ahead(a, b, p, q)
    ensures Less(Key(a, p), Key(b, q)) ==> Ahead(a, b, p + 1, q)
    ensures Less(Key(b, q), Key(a, p)) ==> Ahead(a, b, p, q + 1)
    ensures Key(a, p) == Key(b, q) ==> Ahead(a, b, p + 1, q + 1)
  {
    if p + 1 < |a| {
      KeysIncrease(a, p, p + 1);
      if 0 < q {
        LessTrans(Key(b, q - 1), Key(a, p), Key(a, p + 1));
      }
    }
    if q + 1 < |b| {
      KeysIncrease(b, q, q + 1);
      if 0 < p {
        LessTrans(Key(a, p - 1), Key(b, q), Key(b, q + 1));
      }
    }
  }

  /** x occurs in a from p on, not meeting its key in b. */
  ghost predicate Kept(a: seq<nat>, b: seq<nat>, p: nat, x: nat)
    requires p <= |a|
  {
    exists i | p <= i < |a| :: a[i] == x && !Met(a, b, i)
  }

  lemma {:induction false} KeptFrom(a: seq<nat>, b: seq<nat>, p: nat, x: nat)
    requires p < |a|
    ensures Kept(a, b, p, x) <==> (a[p] == x && !Met(a, b, p)) || Kept(a, b, p + 1, x)
  {
  }

  lemma TakeStep(a: seq<nat>, b: seq<nat>, p: nat, q: nat, x: nat)
    requires p < |a| && q < |b| && Ahead(a, b, p, q) && a[p] < b[q]
    ensures Ahead(a, b, p + 1, q) && (Kept(a, b, p, x) <==> a[p] == x || Kept(a, b, p + 1, x))
  {
    KeyOrder(a, b, p, q);
    AheadSteps(a, b, p, q);
    NotMet(a, b, p, q);
    KeptFrom(a, b, p, x);
  }

  lemma SkipStep(a: seq<nat>, b: seq<nat>, p: nat, q: nat)
    requires p < |a| && q < |b| && Ahead(a, b, p, q) && b[q] < a[p]
    ensures Ahead(a, b, p, q + 1)
  {
    KeyOrder(a, b, p, q);
    LessTotal(Key(a, p), Key(b, q));
    AheadSteps(a, b, p, q);
  }

  lemma MatchStep(a: seq<nat>, b: seq<nat>, p: nat, q: nat, x: nat)
    requires p < |a| && q < |b| && Ahead(a, b, p, q) && a[p] == b[q]
    ensures Ahead(a, b, p + 1, q + 1) && (Kept(a, b, p, x) <==> Kept(a, b, p + 1, x))
  {
    KeyOrder(a, b, p, q);
    AheadSteps(a, b, p, q);
    MetHere(a, b, p, q);
    KeptFrom(a, b, p, x);
  }

  /** The walk keeps exactly the elements of a that do not meet their key in b. */
  lemma {:induction false} WalkKeeps(a: seq<nat>, b: seq<nat>, p: nat, q: nat, x: nat)
    requires p <= |a| && q <= |b| && Ahead(a, b, p, q)
    ensures x in Walk(a, b, p, q) <==> Kept(a, b, p, x)
    decreases |a| - p + |b| - q
  {
    if p < |a| && q < |b| {
      if a[p] < b[q] {
        TakeStep(a, b, p, q, x);
        WalkKeeps(a, b, p + 1, q, x);
      } else if b[q] < a[p] {
        SkipStep(a, b, p, q);
        WalkKeeps(a, b, p, q + 1, x);
      } else {
        MatchStep(a, b, p, q, x);
        WalkKeeps(a, b, p + 1, q + 1, x);
      }
    } else if q == |b| {
      RestKept(a, b, p, x);
    }
  }

  lemma {:induction false} MetHere(a: seq<nat>, b: seq<nat>, i: nat, j: nat)
    requires i < |a| && j < |b| && Key(a, i) == Key(b, j)
    ensures Met(a, b, i)
  {
  }

  lemma {:induction false} RestKept(a: seq<nat>, b: seq<nat>, p: nat, x: nat)
    requires p <= |a| && Ahead(a, b, p, |b|)
    ensures x in a[p..] <==> Kept(a, b, p, x)
  {
    forall i | p <= i < |a| ensures !Met(a, b, i) {
      if p < i && 0 < |b| {
        KeysIncrease(a, p, i);
        LessTrans(Key(b, |b| - 1), Key(a, p), Key(a, i));
      }
      NotMet(a, b, i, |b|);
    }
  }

  predicate Distinct(s: seq<nat>)
  {
    forall i, j | 0 <= i < j < |s| :: s[i] != s[j]
  }

  /** Every common element is read behind the same greater elements in both orders. */
  ghost predicate SameOrder(a: seq<nat>, b: seq<nat>)
  {
    forall i, j | 0 <= i < |a| && 0 <= j < |b| && a[i] == b[j] :: Key(a, i) == Key(b, j)
  }

  /** The walk computes the set difference if and only if the two orders agree on their common
      elements. */
  lemma {:induction false} DifferenceIff(a: seq<nat>, b: seq<nat>)
    requires Distinct(a) && Distinct(b)
    ensures (forall x :: x in Walk(a, b, 0, 0) <==> x in a && x !in b) <==> SameOrder(a, b)
  {
    if SameOrder(a, b) {
      forall x ensures x in Walk(a, b, 0, 0) <==> x in a && x !in b {
        WalkKeeps(a, b, 0, 0, x);
        KeptIsDifference(a, b, x);
      }
    } else {
      var i, j :| 0 <= i < |a| && 0 <= j < |b| && a[i] == b[j] && Key(a, i) != Key(b, j);
      WalkKeeps(a, b, 0, 0, a[i]);
      MeetsOnlyItself(a, b, i, j);
      assert a[i] in Walk(a, b, 0, 0) && a[i] in b;
    }
  }

  lemma {:induction false} SameKeySameElement(a: seq<nat>, b: seq<nat>, i: nat, j: nat)
    requires i < |a| && j < |b| && Key(a, i) == Key(b, j)
    ensures a[i] == b[j]
  {
    KeyShape(a, i);
    KeyShape(b, j);
  }

  lemma {:induction false} MeetsOnlyItself(a: seq<nat>, b: seq<nat>, i: nat, j: nat)
    requires Distinct(b) && i < |a| && j < |b| && a[i] == b[j]
    ensures Met(a, b, i) <==> Key(a, i) == Key(b, j)
  {
    if Met(a, b, i) {
      var k :| 0 <= k < |b| && Key(b, k) == Key(a, i);
      SameKeySameElement(a, b, i, k);
      assert k == j;
    }
  }

  lemma {:induction false} KeptIsDifference(a: seq<nat>, b: seq<nat>, x: nat)
    requires Distinct(a) && Distinct(b) && SameOrder(a, b)
    ensures Kept(a, b, 0, x) <==> x in a && x !in b
  {
    if x in a {
      var i :| 0 <= i < |a| && a[i] == x;
      if x in b {
        var j :| 0 <= j < |b| && b[j] == x;
        MeetsOnlyItself(a, b, i, j);
      } else {
        forall k | 0 <= k < |b| ensures Key(b, k) != Key(a, i) {
          if Key(b, k) == Key(a, i) {
            SameKeySameElement(a, b, i, k);
          }
        }
        assert !Met(a, b, i);
      }
    }
  }

  /** Sorted orders always satisfy the condition. */
  lemma {:induction false} SortedDifference(a: seq<nat>, b: seq<nat>)
    requires forall i, j | 0 <= i < j < |a| :: a[i] < a[j]
    requires forall i, j | 0 <= i < j < |b| :: b[i] < b[j]
    ensures forall x :: x in Walk(a, b, 0, 0) <==> x in a && x !in b
  {
    forall i | 0 <= i < |a| ensures Key(a, i) == [a[i]] {
      SortedKey(a, i);
    }
    forall i | 0 <= i < |b| ensures Key(b, i) == [b[i]] {
      SortedKey(b, i);
    }
    DifferenceIff(a, b);
  }

  lemma {:induction false} SortedKey(a: seq<nat>, i: nat)
    requires i < |a| && forall i, j | 0 <= i < j < |a| :: a[i] < a[j]
    ensures Key(a, i) == [a[i]]
  {
    if i > 0 {
      SortedKey(a, i - 1);
      var s := [a[i - 1]];
      assert s[..|s| - 1] == [];
      assert Push([], a[i]) == [] + [a[i]];
    }
  }

  /** Client 1 locked and unlocked, client 2 locked; read as 2, 1 the walk keeps both clients, and
      the assertion that at most one holder remains fails. */
  lemma {:induction false} UnsortedKeepsReleased()
    ensures Walk([2, 1], [1], 0, 0) == [2, 1]
  {
    assert Walk([2, 1], [1], 0, 1) == [2, 1][0..];
  }

  /** Clients 1 and 2 both locked and unlocked; read as 2, 1 and as 1, 2 the walk keeps client 1 alone. A
      table that still holds the key for client 1 is then rebuilt as it is, by accident. */
  lemma OppositeOrdersKeepOne()
    ensures Walk([2, 1], [1, 2], 0, 0) == [1] && !SameOrder([2, 1], [1, 2])
  {
    assert Walk([2, 1], [1, 2], 1, 2) == [2, 1][1..];
    assert Walk([2, 1], [1, 2], 0, 1) == Walk([2, 1], [1, 2], 1, 2);
    assert 1 in Walk([2, 1], [1, 2], 0, 0);
    assert [1, 2][0] == 1;
    DifferenceIff([2, 1], [1, 2]);
  }
}
