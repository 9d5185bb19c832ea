/** Quorum sizes of a group of n = 2f+1 replicas and how quorums overlap. */
module Quorum {

  function QuorumSize(f: nat): nat { f + 1 }

  function FastQuorumSize(f: nat): nat { f + (f + 1) / 2 + 1 }

  /** The count a result must reach to be taken over in a view change: ceil(f/2) + 1. */
  function MajoritySize(f: nat): nat { (f + 1) / 2 + 1 }

  /** Two subsets of a group overlap at least as much as their sizes exceed the group. */
  lemma Overlap<T>(group: set<T>, a: set<T>, b: set<T>)
    requires a <= group && b <= group
    ensures |a * b| >= |a| + |b| - |group|
  {
    assert |a + b| == |a| + |b| - |a * b|;
    SubsetSize(a + b, group);
  }

  lemma {:induction false} SubsetSize<T>(a: set<T>, b: set<T>)
    requires a <= b
    ensures |a| <= |b|
  {
    if x :| x in a {
      SubsetSize(a - {x}, b - {x});
    }
  }

  /** A fast quorum meets any quorum in ceil(f/2)+1 replicas, and two fast quorums and a quorum share one. */
  lemma FastQuorumsMeet<T>(f: nat, group: set<T>, fast: set<T>, fast': set<T>, q: set<T>)
    requires |group| == 2 * f + 1 && fast <= group && fast' <= group && q <= group
    requires |fast| >= FastQuorumSize(f) && |fast'| >= FastQuorumSize(f) && |q| >= QuorumSize(f)
    ensures |fast * q| >= MajoritySize(f)
    ensures fast * fast' * q != {}
  {
    Overlap(group, fast, q);
    Overlap(group, fast, fast');
    Overlap(group, fast * fast', q);
  }

  /** The replicas of q that answered v. */
  function Answered<T, R(==)>(q: set<T>, answer: map<T, R>, v: R): set<T>
    requires q <= answer.Keys
  {
    set r | r in q && answer[r] == v
  }

  /** Among the answers of at most f+1 replicas at most one result reaches the majority count. */
  lemma MajorityUnique<T, R>(f: nat, q: set<T>, answer: map<T, R>, v: R, w: R)
    requires q <= answer.Keys && |q| <= QuorumSize(f)
    requires |Answered(q, answer, v)| >= MajoritySize(f) && |Answered(q, answer, w)| >= MajoritySize(f)
    ensures v == w
  {
    Overlap(q, Answered(q, answer, v), Answered(q, answer, w));
    var r :| r in Answered(q, answer, v) * Answered(q, answer, w);
  }

  /** A result a fast quorum agreed on is the one and only majority result among the records of any
      f+1 replicas. */
  lemma FastResultSurvives<T, R>(f: nat, group: set<T>, answer: map<T, R>, fast: set<T>, q: set<T>, v: R)
    requires |group| == 2 * f + 1 && answer.Keys == group && fast <= group && q <= group
    requires |fast| >= FastQuorumSize(f) && |q| == QuorumSize(f)
    requires forall r | r in fast :: answer[r] == v
    ensures |Answered(q, answer, v)| >= MajoritySize(f)
    ensures forall w | w != v :: |Answered(q, answer, w)| < MajoritySize(f)
  {
    Overlap(group, fast, q);
    SubsetSize(fast * q, Answered(q, answer, v));
    forall w | w != v ensures |Answered(q, answer, w)| < MajoritySize(f) {
      if |Answered(q, answer, w)| >= MajoritySize(f) {
        MajorityUnique(f, q, answer, v, w);
      }
    }
  }

  // ----- no smaller sizes would do -----

  /** Two subsets of given sizes can overlap no more than they must. */
  lemma {:induction false} LeastOverlap<T>(group: set<T>, k: nat, l: nat) returns (a: set<T>, b: set<T>)
    requires k <= |group| <= k + l && l <= |group|
    ensures a <= group && b <= group && |a| == k && |b| == l && |a * b| == k + l - |group|
  {
    var common := Pick(group, k + l - |group|);
    var others := group - common;
    var mine := Pick(others, |group| - l);
    a := common + mine;
    b := group - mine;
    assert a * b == common;
  }

  lemma {:induction false} Pick<T>(s: set<T>, k: nat) returns (a: set<T>)
    requires k <= |s|
    ensures a <= s && |a| == k
    decreases k
  {
    a := {};
    if k > 0 {
      var x :| x in s;
      a := Pick(s - {x}, k - 1);
      a := a + {x};
    }
  }

  /** With one replica fewer a fast quorum can miss the majority count in some quorum, and two quorums
      of one replica fewer can be disjoint. */
  lemma SizesAreLeast<T>(f: nat, group: set<T>) returns (fast: set<T>, q: set<T>, q': set<T>, small: set<T>)
    requires |group| == 2 * f + 1
    ensures fast <= group && q <= group && |fast| == FastQuorumSize(f) - 1 && |q| == QuorumSize(f)
    ensures |fast * q| < MajoritySize(f)
    ensures q' <= group && small <= group && |q'| == QuorumSize(f) && |small| == QuorumSize(f) - 1
    ensures q' * small == {}
  {
    fast, q := LeastOverlap(group, FastQuorumSize(f) - 1, QuorumSize(f));
    q', small := LeastOverlap(group, QuorumSize(f), QuorumSize(f) - 1);
  }
}
