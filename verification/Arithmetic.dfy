/** The few facts about products and quotients by a variable that the index computations rest on. */
module Arithmetic {

  // Euclidean division by a variable divisor, pinned down by its two bounds.
  lemma DivBounds(a: int, d: int)
    requires d > 0
    ensures a / d * d <= a < a / d * d + d
  {
  }

  lemma DivUnique(a: int, d: int, q: int)
    requires d > 0 && q * d <= a < q * d + d
    ensures a / d == q
  {
    DivBounds(a, d);
    if a / d < q {
      MulMono(a / d + 1, q, d);
    } else if a / d > q {
      MulMono(q + 1, a / d, d);
    }
  }

  lemma MulMono(a: int, b: int, c: int)
    requires a <= b && c >= 0
    ensures a * c <= b * c
  {
  }

  lemma MulCancel(a: int, b: int, c: int)
    requires a * c < b * c && c > 0
    ensures a < b
  {
    if a >= b {
      MulMono(b, a, c);
    }
  }

  lemma NonNegative(a: nat, d: nat)
    requires d > 0
    ensures a / d >= 0 && a % d >= 0
  {
  }

  lemma ModUnique(a: int, d: int, q: int, r: int)
    requires d > 0 && a == q * d + r && 0 <= r < d
    ensures a % d == r && a / d == q
  {
    DivUnique(a, d, q);
    assert a == a / d * d + a % d;
  }
}
