/** Facts about division with remainder that the solver needs spelled out. */
module Remainders {

  lemma ProductAtLeast(a: int, b: int, m: nat)
    ensures a >= b ==> a * m >= b * m
  {
  }

  /** Division with remainder is unique. */
  lemma RemainderUnique(x: int, m: nat, q: int, r: int)
    requires m > 0 && 0 <= r < m && x == q * m + r
    ensures x % m == r && x / m == q
  {
    var q' := x / m;
    ProductAtLeast(q, q' + 1, m);
    ProductAtLeast(q', q + 1, m);
  }

  lemma MultipleModIsZero(k: int, m: nat)
    ensures m > 0 ==> (k * m) % m == 0
  {
    if m > 0 { RemainderUnique(k * m, m, k, 0); }
  }
}
