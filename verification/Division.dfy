/** Uniqueness of Euclidean division, stated so that proofs with variable divisors can cite it. */
module Division {
  lemma RemainderIs(x: nat, d: nat, q: nat, r: nat)
    requires d > 0 && x == d * q + r && r < d
    ensures x / d == q && x % d == r
  {
    DivisionIsUnique(d, x / d, x % d, q, r);
  }

  lemma DivisionIsUnique(d: nat, q: int, r: nat, q': int, r': nat)
    requires d * q + r == d * q' + r' && r < d && r' < d
    ensures q == q' && r == r'
  {
    assert d * (q - q') == r' - r;
    MultipleIsFar(d, q - q');
  }

  lemma MultipleIsFar(d: nat, k: int)
    requires d > 0
    ensures k >= 1 ==> d * k >= d
    ensures k <= -1 ==> d * k <= -1 * d
  {
  }
}
