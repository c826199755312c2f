/** Powers of two and multiples of them. */
module Powers {
  import opened Machine
  import opened Division

  function P2(k: nat): (p: nat)
    ensures p > 0
  {
    if k == 0 then 1 else 2 * P2(k - 1)
  }

  predicate Multiple(x: nat, k: nat) { x % P2(k) == 0 }

  /** Multiples are at least one unit apart. */
  lemma MultiplesApart(x: nat, y: nat, k: nat)
    requires Multiple(x, k) && Multiple(y, k) && x < y
    ensures x + P2(k) <= y
  {
    var u := P2(k);
    assert u * (y / u - x / u) == y - x;
    if y / u - x / u <= 0 { MultipleIsFar(u, y / u - x / u); } else { MultipleIsFar(u, y / u - x / u); }
  }

  lemma MultipleHalves(x: nat, k: nat)
    requires Multiple(x, k + 1)
    ensures Multiple(x, k) && x / P2(k) % 2 == 0 && Multiple(x + P2(k), k)
  {
    var u := P2(k);
    var q := x / (2 * u);
    assert x == u * (2 * q);
    RemainderIs(x, u, 2 * q, 0);
    RemainderIs(x + u, u, 2 * q + 1, 0);
  }

  lemma {:induction false} MultipleFiner(x: nat, j: nat, k: nat)
    requires Multiple(x, k) && j <= k
    ensures Multiple(x, j)
    decreases k
  {
    if j < k {
      MultipleHalves(x, k - 1);
      MultipleFiner(x, j, k - 1);
    }
  }

  lemma {:induction false} PowerIsMultiple(j: nat, k: nat)
    requires j <= k
    ensures Multiple(P2(k), j) && P2(j) <= P2(k)
  {
    RemainderIs(P2(k), P2(k), 1, 0);
    MultipleFiner(P2(k), j, k);
    if j < k { PowerIsMultiple(j, k - 1); }
  }

  lemma MultiplesAdd(x: nat, y: nat, k: nat)
    requires Multiple(x, k) && Multiple(y, k)
    ensures Multiple(x + y, k)
  {
    var u := P2(k);
    assert x + y == u * (x / u + y / u);
    RemainderIs(x + y, u, x / u + y / u, 0);
  }

  lemma Doubles(u: nat, h: nat)
    ensures u * (2 * h) == (2 * u) * h && u * (2 * h + 1) == (2 * u) * h + u
  {
  }

  lemma EvenMultiple(x: nat, k: nat)
    requires Multiple(x, k) && x / P2(k) % 2 == 0
    ensures Multiple(x, k + 1) && Multiple(x + P2(k), k) && (x + P2(k)) / P2(k) % 2 == 1
  {
    var u, h := P2(k), x / P2(k) / 2;
    Doubles(u, h);
    assert x / u == 2 * h;
    RemainderIs(x, 2 * u, h, 0);
    RemainderIs(x + u, u, 2 * h + 1, 0);
  }

  lemma OddMultiple(x: nat, k: nat)
    requires Multiple(x, k) && x / P2(k) % 2 != 0
    ensures x >= P2(k) && Multiple(x - P2(k), k + 1)
  {
    var u, q := P2(k), x / P2(k);
    assert q == 2 * (q / 2) + 1 && x == u * q;
    hide P2;
    OddParts(x, u, q, q / 2);
  }

  lemma OddParts(x: nat, u: nat, q: nat, h: nat)
    requires u > 0 && x == u * q && q == 2 * h + 1
    ensures x >= u && (x - u) % (2 * u) == 0
  {
    Doubles(u, h);
    assert x - u == (2 * u) * h && (2 * u) * h >= 0;
    RemainderIs(x - u, 2 * u, h, 0);
  }

  /** The greatest power of two that divides a number. */
  function TrailingZeros(n: nat): (k: nat)
    requires n > 0
    decreases n
  {
    if n % 2 == 1 then 0 else 1 + TrailingZeros(n / 2)
  }

  lemma {:induction false} TrailingZerosDivide(n: nat)
    requires n > 0
    ensures Multiple(n, TrailingZeros(n)) && n / P2(TrailingZeros(n)) % 2 == 1 && P2(TrailingZeros(n)) <= n
    decreases n
  {
    if n % 2 == 0 {
      TrailingZerosDivide(n / 2);
      var u, q := P2(TrailingZeros(n / 2)), n / 2 / P2(TrailingZeros(n / 2));
      assert n / 2 == u * q;
      assert n == 2 * u * q by { Doubles(u, q); }
      RemainderIs(n, 2 * u, q, 0);
    } else {
      RemainderIs(n, 1, n, 0);
    }
  }

  /** Only for a power of two is it the number itself. */
  lemma {:induction false} TrailingZerosOfPower(k: nat)
    ensures TrailingZeros(P2(k)) == k
  {
    if k > 0 { TrailingZerosOfPower(k - 1); }
  }

  lemma {:induction false} PowersMultiply(a: nat, b: nat)
    ensures P2(a + b) == P2(a) * P2(b)
    decreases a
  {
    if a > 0 {
      PowersMultiply(a - 1, b);
      assert P2(a) * P2(b) == 2 * (P2(a - 1) * P2(b));
    }
  }

  lemma Words()
    ensures P2(1) == 2 && P2(2) == 4 && P2(4) == 16 && P2(8) == 0x100 && P2(16) == 0x1_0000 && P2(32) == W32
            && P2(63) == W63 && P2(64) == W64
  {
    assert P2(4) == 16;
    PowersMultiply(4, 4);
    PowersMultiply(8, 8);
    PowersMultiply(16, 16);
    PowersMultiply(32, 32);
    assert P2(64) == 2 * P2(63);
  }
}
