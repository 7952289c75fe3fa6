/** The two facts about multiplication and division the rest relies on. */
module Arithmetic {

  lemma {:induction false} MulMonotone(d: nat, a: nat, b: nat)
    ensures a <= b ==> d * a <= d * b
    ensures a < b ==> d * a + d <= d * b
  {
    if a < b {
      MulMonotone(d, a, b - 1);
      assert d * b == d * (b - 1) + d;
    }
  }

  lemma DivModUnique(n: nat, d: nat, q: nat, r: nat)
    requires d > 0 && n == d * q + r && r < d
    ensures n / d == q && n % d == r
  {
    var q', r' := n / d, n % d;
    assert n == d * q' + r' && r' < d;
    MulMonotone(d, q', q);
    MulMonotone(d, q, q');
  }
}
