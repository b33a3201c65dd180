/** Multiples of an alignment, as `is_multiple_of` and `next_multiple_of` see them, and the arithmetic around them. */
module Alignment {

  predicate Aligned(p: int, n: int)
    requires n >= 1
  {
    p % n == 0
  }

  function Max(a: int, b: int): int { if a > b then a else b }

  function Min(a: int, b: int): int { if a < b then a else b }

  /** Quotient and remainder are unique. */
  lemma RemainderIs(a: int, n: int, k: int, r: int)
    requires n >= 1 && 0 <= r < n && a == k * n + r
    ensures a % n == r && a / n == k
  {
    var d := a / n - k;
    assert d * n == r - a % n;
    assert d >= 1 ==> d * n >= n;
    assert d <= -1 ==> d * n <= -n;
  }

  lemma MultipleOf(k: int, n: int)
    requires n >= 1
    ensures (k * n) % n == 0
  {
    RemainderIs(k * n, n, k, 0);
  }

  lemma NextMultiple(a: int, n: int)
    requires n >= 1
    ensures a % n != 0 ==> Aligned(a + n - a % n, n)
    ensures a % n != 0 ==> forall p :: a <= p < a + n - a % n ==> !Aligned(p, n)
  {
    var r := a % n;
    var k := a / n;
    assert a == k * n + r;
    if r != 0 {
      assert a + (n - r) == (k + 1) * n;
      MultipleOf(k + 1, n);
      forall p | a <= p < a + n - r ensures !Aligned(p, n) {
        RemainderIs(p, n, k, r + (p - a));
      }
    }
  }

  /** Distance from `a` to the next multiple of `n` (`next_multiple_of(n) - a`). */
  function ToAligned(a: int, n: int): (d: int)
    requires n >= 1
    ensures 0 <= d < n && Aligned(a + d, n)
    ensures forall p :: a <= p < a + d ==> !Aligned(p, n)
  {
    NextMultiple(a, n);
    if a % n == 0 then 0 else n - a % n
  }

  /** Positions between two consecutive multiples are not multiples. */
  lemma BetweenMultiples(a: int, n: int, p: int)
    requires n >= 1 && Aligned(a, n) && a < p < a + n
    ensures !Aligned(p, n)
  {
    RemainderIs(p, n, a / n, p - a);
  }

  lemma NextAligned(a: int, n: int)
    requires n >= 1 && Aligned(a, n)
    ensures Aligned(a + n, n)
  {
    RemainderIs(a + n, n, a / n + 1, 0);
  }

  lemma SamePhase(a: int, n: int)
    requires n >= 1
    ensures ToAligned(a + n, n) == ToAligned(a, n)
  {
    RemainderIs(a + n, n, a / n + 1, a % n);
  }
}
