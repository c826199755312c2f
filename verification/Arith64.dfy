/** The 64-bit integer helpers of libgcc, over integers with every word operation's truncation written out. */
module Arith64 {
  import opened Machine
  import opened Division
  import opened Powers

  // ---------- Leading and trailing zeros ----------

  /** `n` is the number of leading zero bits: shifted left by n, the word just fits. */
  predicate LeadingZeros(a: nat, n: nat) { W63 <= a * P2(n) < W64 }

  lemma ShiftMore(a: nat, n: nat, step: nat)
    ensures a * P2(n + step) == a * P2(n) * P2(step)
  {
    PowersMultiply(n, step);
  }

  /** `__clzdi2`: each step shifts by half the remaining width when the top half is clear. */
  method Clzdi2(a: nat) returns (n: nat)
    requires 0 < a < W64
    ensures n < 64 && LeadingZeros(a, n)
  {
    hide P2;
    Words();
    var x := a;
    n := 0;
    assert x == a * P2(n) by { NoShift(a); }
    if x < 0x1_0000_0000 {
      ShiftMore(a, n, 32);
      n, x := n + 32, x * 0x1_0000_0000;
    }
    if x < 0x1_0000_0000_0000 {
      ShiftMore(a, n, 16);
      n, x := n + 16, x * 0x1_0000;
    }
    if x < 0x100_0000_0000_0000 {
      ShiftMore(a, n, 8);
      n, x := n + 8, x * 0x100;
    }
    if x < 0x1000_0000_0000_0000 {
      ShiftMore(a, n, 4);
      n, x := n + 4, x * 0x10;
    }
    if x < 0x4000_0000_0000_0000 {
      ShiftMore(a, n, 2);
      n, x := n + 2, x * 4;
    }
    if x < W63 {
      ShiftMore(a, n, 1);
      n := n + 1;
    }
  }

  lemma NoShift(a: nat)
    ensures a * P2(0) == a
  {
  }

  /** `__ctzdi2`: the word is an odd number shifted left by the result. */
  method Ctzdi2(a: nat) returns (n: nat, ghost odd: nat)
    requires 0 < a < W64
    ensures n < 64 && a == odd * P2(n) && odd % 2 == 1
  {
    hide P2;
    Words();
    assert a % W64 != 0;
    var x;
    assert a == a * P2(0) by { NoShift(a); }
    n, x := CtzStep(a, a, 0, 32, W32);
    n, x := CtzStep(a, x, n, 16, 0x1_0000);
    n, x := CtzStep(a, x, n, 8, 0x100);
    n, x := CtzStep(a, x, n, 4, 0x10);
    n, x := CtzStep(a, x, n, 2, 4);
    n, x := CtzStep(a, x, n, 1, 2);
    odd := x;
  }

  /** One step: when the low `step` bits, which `mask` counts, are clear, they are shifted out. */
  method CtzStep(ghost a: nat, x: nat, n: nat, step: nat, mask: nat) returns (n': nat, x': nat)
    requires mask == P2(step) && mask > 0 && x % (mask * mask) != 0 && a == x * P2(n)
    ensures n <= n' <= n + step && a == x' * P2(n') && x' % mask != 0
  {
    n', x' := n, x;
    if x % mask == 0 {
      n', x' := n + step, x / mask;
      UnshiftMore(x', n, step);
      LowHalfSet(x, mask);
    }
  }

  lemma LowHalfSet(x: nat, h: nat)
    requires h > 0 && x % h == 0 && x % (h * h) != 0
    ensures x / h % h != 0 && x / h * h == x
  {
    var q := x / h;
    if q % h == 0 {
      assert x == h * (h * (q / h)) == (h * h) * (q / h);
      RemainderIs(x, h * h, q / h, 0);
    }
  }

  lemma UnshiftMore(y: nat, n: nat, step: nat)
    ensures y * P2(n + step) == y * P2(step) * P2(n)
  {
    PowersMultiply(n, step);
  }

  // ---------- Long division ----------

  function Times(x: nat, y: nat): nat { x * y }

  /** What a 64-bit word keeps of a result, and its top bit. */
  function Word(x: int): nat { x % W64 }

  function Top(x: nat): nat { x / W63 }

  /** The low m bits of a number, and the bits above them. */
  function Low(num: nat, m: nat): nat { num % P2(m) }

  function High(num: nat, m: nat): int { num / P2(m) }

  /** The state of the division of `num` by `b` with `m` bits to go: `a` holds those bits at its top and the
      quotient but for its last bit, `wrap`, at its bottom. */
  ghost predicate Dividing(num: nat, b: nat, m: nat, a: nat, rem: nat, wrap: nat, q: nat) {
    && m <= 63 && wrap <= 1 && num < W64
    && a == Times(Low(num, m), P2(64 - m)) + q
    && rem < b && rem + Times(2 * q + wrap, b) == High(num, m)
  }

  lemma Distribute(p: nat, x: nat, y: nat)
    ensures p * (x + y) == p * x + p * y
  {
  }

  lemma Regroup(p: nat, h: nat, c: nat)
    ensures p * (c * h) == (c * p) * h
  {
  }

  lemma Monotone(u: nat, v: nat, w: nat)
    requires v <= w
    ensures u * v <= u * w
  {
  }

  /** A digit of base `p`, split off from the bits below it and joined to those above. */
  lemma SplitAt(num: nat, p: nat) returns (t: nat)
    requires p > 0
    ensures t <= 1 && num % (2 * p) == (if t == 0 then 0 else p) + num % p && num / p == 2 * (num / (2 * p)) + t
  {
    var x, y := num / p, num % p;
    t := x % 2;
    SplitParts(num, p, x, y, x / 2, t);
  }

  lemma SplitParts(num: nat, p: nat, x: nat, y: nat, h: nat, t: nat)
    requires p > 0 && num == p * x + y && x == 2 * h + t && t <= 1 && y < p
    ensures num % (2 * p) == (if t == 0 then 0 else p) + y && num / (2 * p) == h
  {
    Distribute(p, 2 * h, t);
    Regroup(p, h, 2);
    RemainderIs(num, 2 * p, h, (if t == 0 then 0 else p) + y);
  }

  /** The bits of a word split at its top bit. */
  lemma TopBit(t: nat, low: nat)
    requires t <= 1 && low < W63
    ensures ((if t == 0 then 0 else W63) + low) / W63 == t && 2 * ((if t == 0 then 0 else W63) + low) % W64 == 2 * low
  {
  }

  lemma Below(x: nat, u: nat, b: nat)
    requires u > 0 && x < u * b
    ensures x / u < b
  {
    if x / u >= b { Monotone(u, b, x / u); }
  }

  /** The quotient so far is small, so it never reaches the bits still to come. */
  lemma QuotientFits(num: nat, b: nat, u: nat, v: nat, rem: nat, k: nat)
    requires b > 0 && u > 0 && num < u * v && rem + k * b == num / u
    ensures k < v
  {
    Below(num, u, v);
    Monotone(k, 1, b);
  }

  /** Below the top digit there is room for the quotient. */
  lemma LowPart(y: nat, v: nat, p: nat, q: nat)
    requires y < p && q < v
    ensures y * v + q < p * v
  {
    Monotone(v, y + 1, p);
    Distribute(v, y, 1);
  }

  /** The same step once the products have names: `y` is what is left of the numerator, shifted to the top,
      and `kb` the quotient times the divisor. */
  lemma ShiftLinear(top: nat, above: nat, t: nat, rem: nat, kb: nat, b: nat, a: nat, y: nat, q: nat, wrap: nat)
    requires t <= 1 && top == 2 * above + t && top < W64 && rem + kb == above && rem < b && wrap <= 1
    requires a == (if t == 0 then 0 else W63) + (y + q) && y + q < W63
    ensures 2 * rem + Top(a) + 2 * kb == top && 2 * rem + Top(a) < 2 * b && 2 * rem + Top(a) < W64
            && Word(2 * rem) == 2 * rem
    ensures Word(2 * a) + wrap == 2 * y + (2 * q + wrap)
  {
    TopBit(t, y + q);
  }

  /** The word splits at its top bit: p is 2^(m - 1) and v is 2^(64 - m). */
  lemma WordParts(num: nat, p: nat, v: nat, a: nat, q: nat) returns (t: nat)
    requires p > 0 && p * v == W63 && a == num % (2 * p) * v + q && q < v
    ensures t <= 1 && num / p == 2 * (num / (2 * p)) + t
    ensures a == (if t == 0 then 0 else W63) + (num % p * v + q) && num % p * v + q < W63
  {
    t := SplitAt(num, p);
    LowPart(num % p, v, p, q);
    Distribute(v, if t == 0 then 0 else p, num % p);
  }

  lemma HalvesOfPowers(m: nat)
    requires 0 < m <= 63
    ensures P2(m) == 2 * P2(m - 1) && P2(65 - m) == 2 * P2(64 - m) && P2(m - 1) * P2(64 - m) == W63 && P2(m - 1) > 0
  {
    Words();
    PowersMultiply(m - 1, 64 - m);
  }

  lemma WordFacts(num: nat, b: nat, m: nat, a: nat, rem: nat, k: nat, q: nat) returns (t: nat)
    requires 0 < m <= 63 && num < W64 && b > 0 && rem < b && q <= k
    requires a == Times(Low(num, m), P2(64 - m)) + q && rem + Times(k, b) == High(num, m)
    ensures t <= 1 && High(num, m - 1) == 2 * High(num, m) + t && High(num, m - 1) < W64
    ensures var y := Times(Low(num, m - 1), P2(64 - m));
            && a == (if t == 0 then 0 else W63) + (y + q) && y + q < W63
            && Times(Low(num, m - 1), P2(65 - m)) == 2 * y
  {
    HalvesOfPowers(m);
    hide P2;
    t := NamedWordFacts(num, b, P2(m - 1), P2(64 - m), a, rem, k, q);
  }

  lemma NamedWordFacts(num: nat, b: nat, p: nat, v: nat, a: nat, rem: nat, k: nat, q: nat) returns (t: nat)
    requires p > 0 && p * v == W63 && num < W64 && b > 0 && rem < b && q <= k
    requires a == num % (2 * p) * v + q && rem + k * b == num / (2 * p)
    ensures t <= 1 && num / p == 2 * (num / (2 * p)) + t && num / p < W64
    ensures a == (if t == 0 then 0 else W63) + (num % p * v + q) && num % p * v + q < W63
    ensures num % p * (2 * v) == 2 * (num % p * v)
  {
    WordRoom(num, b, p, v, rem, k);
    DivisionShrinks(num, p);
    t := WordParts(num, p, v, a, q);
    Regroup(num % p, v, 2);
  }

  lemma WordRoom(num: nat, b: nat, p: nat, v: nat, rem: nat, k: nat)
    requires p > 0 && b > 0 && num < W64 && p * v == W63 && rem + k * b == num / (2 * p)
    ensures k < v
  {
    assert 2 * p * v == W64;
    QuotientFits(num, b, 2 * p, v, rem, k);
  }

  /** Shifting one bit from the numerator into the remainder and the last quotient bit into the word. */
  lemma ShiftStep(num: nat, b: nat, m: nat, a: nat, rem: nat, wrap: nat, q: nat)
    requires Dividing(num, b, m, a, rem, wrap, q) && m > 0
    ensures var rem1, k := 2 * rem + Top(a), 2 * q + wrap;
            && rem1 + 2 * Times(k, b) == High(num, m - 1) && rem1 < 2 * b && rem1 < W64 && Word(2 * rem) == 2 * rem
            && Word(2 * a) + wrap == Times(Low(num, m - 1), P2(65 - m)) + k
  {
    hide Times, Low, High, P2, Word, Top;
    var t := WordFacts(num, b, m, a, rem, 2 * q + wrap, q);
    var y, kb := Times(Low(num, m - 1), P2(64 - m)), Times(2 * q + wrap, b);
    ShiftLinear(High(num, m - 1), High(num, m), t, rem, kb, b, a, y, q, wrap);
  }

  /** Subtracting the divisor when it fits completes the round. */
  lemma NextQuotient(k: nat, b: nat, w: nat)
    requires w <= 1
    ensures Times(2 * k + w, b) == 2 * Times(k, b) + (if w == 1 then b else 0)
  {
    Regroup(b, k, 2);
  }

  lemma DivisionShrinks(x: nat, d: nat)
    requires d > 0
    ensures x / d <= x
  {
    Monotone(x / d, 1, d);
  }

  /** The sign bit of b - rem - 1 tells whether `rem` reaches `b`, also for divisors above 2^63, where the one
      subtraction there is always happens. */
  lemma WrapBit(b: nat, rem: nat)
    requires 0 < b < W64 && rem < 2 * b && rem < W64 && (b > W63 ==> rem >= b)
    ensures Top(Word(b - rem - 1)) == if rem >= b then 1 else 0
  {
    if rem >= b {
      assert (b - rem - 1) % W64 == b - rem - 1 + W64;
    }
  }

  /** The number of quotient bits: enough that the rest of the numerator is below the divisor. */
  lemma BitsToDo(num: nat, b: nat, ca: nat, cb: nat)
    requires LeadingZeros(num, ca) && LeadingZeros(b, cb) && 2 <= b <= num && ca < 64 && cb < 64
    ensures ca <= cb && cb - ca + 1 <= 63 && num / P2(cb - ca + 1) < b
    ensures b > W63 ==> cb == 0 && num / 2 < b
  {
    assert P2(1) == 2 && P2(0) == 1;
    ShiftOrder(num, b, ca, cb);
    TopDivisor(b, cb);
    WideNumerator(num, ca);
    hide P2, LeadingZeros;
    EnoughBits(num, b, ca, cb, cb - ca + 1);
  }

  lemma WideNumerator(num: nat, ca: nat)
    requires LeadingZeros(num, ca)
    ensures num > W63 ==> ca == 0
    ensures num < W64
  {
    Monotone(num, 1, P2(ca));
    if ca > 0 {
      PowerIsMultiple(1, ca);
      Monotone(num, 2, P2(ca));
    }
  }

  lemma ShiftOrder(num: nat, b: nat, ca: nat, cb: nat)
    requires LeadingZeros(num, ca) && LeadingZeros(b, cb) && b <= num
    ensures ca <= cb
  {
    Words();
    if ca > cb {
      ShiftMore(b, cb, ca - cb);
      PowerIsMultiple(1, ca - cb);
      Monotone(b * P2(cb), 2, P2(ca - cb));
      Monotone(P2(ca), b, num);
    }
  }

  lemma TopDivisor(b: nat, cb: nat)
    requires LeadingZeros(b, cb) && 2 <= b < W64 && cb < 64
    ensures cb <= 62 && (b > W63 ==> cb == 0)
  {
    Words();
    if cb == 63 { Monotone(W63, 2, b); }
    if cb > 0 {
      PowerIsMultiple(1, cb);
      Monotone(b, 2, P2(cb));
    }
  }

  lemma EnoughBits(num: nat, b: nat, ca: nat, cb: nat, n: nat)
    requires LeadingZeros(num, ca) && LeadingZeros(b, cb) && n + ca == cb + 1
    ensures num / P2(n) < b
  {
    assert P2(1) == 2;
    ShiftMore(b, cb, 1);
    ShiftMore(b, n, ca);
    hide P2;
    Cancel(num, b * P2(n), P2(ca));
    Below(num, P2(n), b);
  }

  lemma Cancel(x: nat, y: nat, u: nat)
    requires x * u < y * u
    ensures x < y
  {
    if x >= y { Monotone(u, y, x); }
  }

  lemma NoBits(num: nat)
    ensures Low(num, 0) == 0 && High(num, 0) == num && Times(0, P2(64)) == 0
  {
  }

  /** The first state of the loop: the low bits of the numerator shifted to the top. */
  lemma DivisionStarts(num: nat, b: nat, bits: nat, rem: nat)
    requires num < W64 && 1 <= bits <= 63 && rem == High(num, bits) && rem < b
    ensures Dividing(num, b, bits, Word(Times(num, P2(64 - bits))), rem, 0, 0)
  {
    Words();
    PowersMultiply(bits, 64 - bits);
    hide P2;
    ShiftUp(num, P2(bits), P2(64 - bits));
    NothingYet(b);
  }

  lemma NothingYet(b: nat)
    ensures Times(0, b) == 0
  {
  }

  /** Shifting up a word by v drops the digits above u, when u * v is the word size. */
  lemma ShiftUp(num: nat, u: nat, v: nat)
    requires u > 0 && u * v == W64
    ensures num * v % W64 == num % u * v
  {
    var x, y := num / u, num % u;
    Distribute(v, u * x, y);
    assert u * x * v == W64 * x;
    LowPart(y, v, u, 0);
    RemainderIs(num * v, W64, x, y * v);
  }

  /** The last state holds the quotient. */
  lemma DivisionEnds(num: nat, b: nat, a: nat, rem: nat, wrap: nat, q: nat)
    requires Dividing(num, b, 0, a, rem, wrap, q)
    ensures num == b * (2 * q + wrap) + rem && rem < b && 2 * q + wrap < W64 && Word(2 * a) + wrap == 2 * q + wrap
  {
    NoBits(num);
    if 2 * q + wrap >= W64 { Monotone(2 * q + wrap, 1, b); }
  }

  /** One round of the loop, whose assignments the contract repeats. */
  lemma Round(num: nat, b: nat, m: nat, a: nat, rem: nat, wrap: nat, q: nat)
    requires Dividing(num, b, m, a, rem, wrap, q) && m > 0 && b < W64 && b <= num
    requires b > W63 ==> m == 1 && q == 0 && wrap == 0
    ensures var rem1, k := Word(2 * rem) + Top(a), 2 * q + wrap;
            var w := Top(Word(b - rem1 - 1));
            && (w != 0 ==> rem1 >= b)
            && Dividing(num, b, m - 1, Word(2 * a) + wrap, if w != 0 then rem1 - b else rem1, w, k)
  {
    hide Times, Low, High, P2, Word, Top;
    ShiftStep(num, b, m, a, rem, wrap, q);
    var rem1, k := 2 * rem + Top(a), 2 * q + wrap;
    if m == 1 { NoBits(num); NoQuotient(b); }
    WrapBit(b, rem1);
    NextQuotient(k, b, if rem1 >= b then 1 else 0);
  }

  /** `__divmoddi4`: `trap` is the forced division by zero. */
  method Divmoddi4(num: nat, b: nat) returns (trap: bool, q: nat, r: nat)
    requires num < W64 && b < W64
    ensures trap <==> b == 0
    ensures !trap ==> num == b * q + r && r < b && q < W64
  {
    if b > num {
      return false, 0, num;
    }
    if b / W32 == 0 {
      if b == 0 {
        return true, 0, 0;
      }
      if b == 1 {
        return false, num, 0;
      }
      if num / W32 == 0 {
        DivisionShrinks(num, b);
        return false, num / b, num % b;
      }
    }
    trap := false;
    q, r := LongDivision(num, b);
  }

  /** The long division of `__divmoddi4`. */
  method LongDivision(num: nat, b: nat) returns (q: nat, r: nat)
    requires 2 <= b <= num < W64
    ensures num == b * q + r && r < b && q < W64
  {
    hide P2, LeadingZeros, Dividing, Word, Top;
    var cb := Clzdi2(b);
    var ca := Clzdi2(num);
    BitsToDo(num, b, ca, cb);
    var bits := cb - ca + 1;
    var rem: nat := num / P2(bits);
    var a: nat := Word(num * P2(64 - bits));
    var wrap: nat := 0;
    ghost var q0: nat := 0;
    DivisionStarts(num, b, bits, rem);
    while bits > 0
      invariant Dividing(num, b, bits, a, rem, wrap, q0)
      invariant b > W63 ==> bits <= 1 && (bits == 1 ==> q0 == 0 && wrap == 0)
      decreases bits
    {
      Round(num, b, bits, a, rem, wrap, q0);
      bits := bits - 1;
      rem := Word(2 * rem) + Top(a);
      a := Word(2 * a) + wrap;
      q0 := 2 * q0 + wrap;
      wrap := Top(Word(b - rem - 1));
      rem := if wrap != 0 then rem - b else rem;
    }
    DivisionEnds(num, b, a, rem, wrap, q0);
    q := Word(2 * a) + wrap;
    r := rem;
  }

  lemma NoQuotient(b: nat)
    ensures Times(0, b) == 0
  {
  }

  // ---------- Signed division ----------

  /** The value of a word read as signed, and the word holding a signed value. */
  function Signed(x: nat): int { if x < W63 then x else x - W64 }

  const LEAST: int := -0x8000_0000_0000_0000

  predicate Holds(x: int) { LEAST <= x < W63 }

  /** The macro `arith64_neg`: invert and increment when the sign is negative. */
  function Negate(x: nat, negative: bool): nat {
    if negative then Word(W64 - 1 - x + 1) else x
  }

  /** Truncation toward zero: the remainder is shorter than the divisor and has the sign of the numerator. */
  ghost predicate Truncates(a: int, b: int, q: int, r: int) {
    && a == b * q + r
    && (if a < 0 then r <= 0 else r >= 0)
    && (if b < 0 then b < r < -b else -b < r < b)
  }

  function Abs(x: int): nat { if x < 0 then -x else x }

  function Quotient(a: int, b: int): int
    requires b != 0
  {
    if (a < 0) != (b < 0) then -(Abs(a) / Abs(b)) else Abs(a) / Abs(b)
  }

  function Remainder(a: int, b: int): int
    requires b != 0
  {
    if a < 0 then -(Abs(a) % Abs(b)) else Abs(a) % Abs(b)
  }

  /** A truncated division is the Euclidean division of the absolute values. */
  lemma AbsoluteForm(a: int, b: int, q: int, r: int)
    ensures var s, t := if (a < 0) != (b < 0) then -q else q, if a < 0 then -r else r;
            Truncates(a, b, q, r) <==> 0 <= t < Abs(b) && Abs(a) == Abs(b) * s + t
  {
    SignsMultiply(b, q);
  }

  lemma TruncatesIff(a: int, b: int, q: int, r: int)
    requires b != 0
    ensures Truncates(a, b, q, r) <==> q == Quotient(a, b) && r == Remainder(a, b)
  {
    AbsoluteForm(a, b, q, r);
    hide Truncates;
    var d, n := Abs(b), Abs(a);
    var s, t := if (a < 0) != (b < 0) then -q else q, if a < 0 then -r else r;
    var div, mod := n / d, n % d;
    assert n == d * div + mod && 0 <= mod < d;
    if 0 <= t < d && n == d * s + t { DivisionIsUnique(d, s, t, div, mod); }
  }

  lemma SignsMultiply(b: int, q: int)
    ensures b * -q == -(b * q) && -b * q == -(b * q) && -b * -q == b * q
  {
  }

  /** Exactly one quotient of two words is not a word. */
  lemma QuotientHoldsIff(a: int, b: int)
    requires Holds(a) && Holds(b) && b != 0
    ensures Holds(Quotient(a, b)) <==> !(a == LEAST && b == -1)
    ensures Holds(Remainder(a, b))
  {
    var n, d := Abs(a), Abs(b);
    DivisionShrinks(n, d);
    if d > 1 { HalvesAtLeast(n, d); }
  }

  lemma HalvesAtLeast(n: nat, d: nat)
    requires d >= 2
    ensures 2 * (n / d) <= n
  {
    Monotone(n / d, 2, d);
  }

  lemma NegateMeans(x: nat, negative: bool)
    requires x <= W63
    ensures Negate(x, negative) < W64
    ensures Signed(Negate(x, negative)) == if x == W63 then LEAST else if negative then -(x as int) else x
  {
  }

  lemma AbsoluteWord(a: int)
    requires Holds(a)
    ensures Negate(Word(a), a < 0) == Abs(a) <= W63
  {
    if a < 0 { assert Word(a) == a + W64; }
  }

  /** `__divdi3`: the one quotient that is not a word comes back as the least word. */
  method Divdi3(a: int, b: int) returns (trap: bool, q: int)
    requires Holds(a) && Holds(b)
    ensures trap <==> b == 0
    ensures !trap ==> q == if Holds(Quotient(a, b)) then Quotient(a, b) else LEAST
  {
    hide Negate, Signed, Word;
    AbsoluteWord(a);
    AbsoluteWord(b);
    var word, rest;
    trap, word, rest := Divmoddi4(Negate(Word(a), a < 0), Negate(Word(b), b < 0));
    if trap { return true, 0; }
    RemainderIs(Abs(a), Abs(b), word, rest);
    QuotientHoldsIff(a, b);
    DivisionShrinks(Abs(a), Abs(b));
    NegateMeans(word, (a < 0) != (b < 0));
    q := Signed(Negate(word, (a < 0) != (b < 0)));
  }

  /** `__moddi3`. */
  method Moddi3(a: int, b: int) returns (trap: bool, r: int)
    requires Holds(a) && Holds(b)
    ensures trap <==> b == 0
    ensures !trap ==> r == Remainder(a, b)
  {
    hide Negate, Signed, Word;
    AbsoluteWord(a);
    AbsoluteWord(b);
    var word, rest;
    trap, word, rest := Divmoddi4(Negate(Word(a), a < 0), Negate(Word(b), b < 0));
    if trap { return true, 0; }
    RemainderIs(Abs(a), Abs(b), word, rest);
    NegateMeans(rest, a < 0);
    r := Signed(Negate(rest, a < 0));
  }

  // ---------- Shifts on two 32-bit halves ----------

  lemma FloorIs(x: int, d: nat, q: int, r: int)
    requires d > 0 && x == d * q + r && 0 <= r < d
    ensures x / d == q && x % d == r
  {
    DivisionIsUnique(d, x / d, x % d, q, r);
  }

  lemma Associate(x: int, y: int, z: int)
    ensures x * (y * z) == x * y * z
  {
  }

  /** A half shifted left by the factor s = W32 / t keeps its lowest t values. */
  lemma HalfShifted(x: int, s: nat, t: nat)
    requires t > 0 && s * t == W32
    ensures x * s == W32 * (x / t) + x % t * s && x * s % W32 == x % t * s <= W32 - s
  {
    var u, v := x / t, x % t;
    assert x * s == (t * u) * s + v * s;
    assert (t * u) * s == W32 * u by { Associate(s, t, u); }
    Monotone(s, v + 1, t);
    Distribute(s, v, 1);
    FloorIs(x * s, W32, u, v * s);
  }

  lemma ShiftLeftWithin(hi: nat, lo: nat, s: nat, t: nat)
    requires hi < W32 && lo < W32 && s * t == W32 && t > 0
    ensures (hi * W32 + lo) * s % W64 == (hi * s % W32 + lo / t) * W32 + lo * s % W32
    ensures hi * s % W32 + lo / t < W32
  {
    HalfShifted(hi, s, t);
    HalfShifted(lo, s, t);
    Below(lo, t, s);
    assert (hi * W32 + lo) * s == W32 * (hi * s) + lo * s;
    FloorIs((hi * W32 + lo) * s, W64, hi / t, (hi * s % W32 + lo / t) * W32 + lo * s % W32);
  }

  lemma ShiftLeftAcross(hi: nat, lo: nat, s: nat)
    ensures (hi * W32 + lo) * (W32 * s) % W64 == lo * s % W32 * W32
  {
    var u, v := lo * s / W32, lo * s % W32;
    assert (hi * W32 + lo) * (W32 * s) == W64 * (hi * s) + W32 * (lo * s);
    FloorIs((hi * W32 + lo) * (W32 * s), W64, hi * s + u, v * W32);
  }

  lemma ShiftRightWithin(hi: int, lo: nat, s: nat, t: nat)
    requires lo < W32 && s * t == W32 && s > 0
    ensures (hi * W32 + lo) / s == hi / s * W32 + (hi * t % W32 + lo / s)
    ensures 0 <= hi * t % W32 + lo / s < W32
  {
    HalfShifted(hi, t, s);
    Below(lo, s, t);
    RightSplit(hi, s, t, hi / s, hi % s);
    FloorIs(hi * W32 + lo, s, hi / s * W32 + hi % s * t + lo / s, lo % s);
  }

  lemma RightSplit(hi: int, s: nat, t: nat, u: int, v: int)
    requires hi == s * u + v && s * t == W32
    ensures hi * W32 == s * (u * W32 + v * t)
  {
    Associate(s, u, W32);
    Associate(s, v, t);
    Associate(v, s, t);
    assert s * v * t == v * s * t;
  }

  lemma ShiftRightAcross(hi: int, lo: nat, s: nat)
    requires lo < W32 && s > 0
    ensures (hi * W32 + lo) / (W32 * s) == hi / s
  {
    Monotone(W32, hi % s + 1, s);
    FloorIs(hi * W32 + lo, W32 * s, hi / s, hi % s * W32 + lo);
  }

  lemma ShiftFactors(b: nat)
    requires b < 64
    ensures b < 32 ==> P2(b) * P2(32 - b) == W32 && P2(0) == 1
    ensures b >= 32 ==> P2(b) == W32 * P2(b - 32)
  {
    Words();
    if b < 32 { PowersMultiply(b, 32 - b); } else { PowersMultiply(32, b - 32); }
  }

  /** `__ashldi3`; the halves joined by `|` have no bit in common, so the model adds them. */
  method Ashldi3(hi: nat, lo: nat, shift: int) returns (h: nat, l: nat)
    requires hi < W32 && lo < W32
    ensures h < W32 && l < W32 && h * W32 + l == (hi * W32 + lo) * P2(shift % 64) % W64
  {
    var b := shift % 64;
    ShiftFactors(b);
    hide P2;
    if b >= 32 {
      ShiftLeftAcross(hi, lo, P2(b - 32));
      h, l := lo * P2(b - 32) % W32, 0;
    } else if b > 0 {
      ShiftLeftWithin(hi, lo, P2(b), P2(32 - b));
      h, l := hi * P2(b) % W32 + lo / P2(32 - b), lo * P2(b) % W32;
    } else {
      h, l := hi, lo;
    }
  }

  /** `__lshrdi3`. */
  method Lshrdi3(hi: nat, lo: nat, shift: int) returns (h: nat, l: nat)
    requires hi < W32 && lo < W32
    ensures h < W32 && l < W32 && h * W32 + l == (hi * W32 + lo) / P2(shift % 64)
  {
    var b := shift % 64;
    ShiftFactors(b);
    hide P2;
    if b >= 32 {
      ShiftRightAcross(hi, lo, P2(b - 32));
      QuotientBounds(hi, P2(b - 32));
      h, l := 0, hi / P2(b - 32);
    } else if b > 0 {
      ShiftRightWithin(hi, lo, P2(b), P2(32 - b));
      QuotientBounds(hi, P2(b));
      h, l := hi / P2(b), hi * P2(32 - b) % W32 + lo / P2(b);
    } else {
      h, l := hi, lo;
    }
  }

  /** `__ashrdi3`: the high half is signed, and the shift rounds toward minus infinity. */
  method Ashrdi3(hi: int, lo: nat, shift: int) returns (h: int, l: nat)
    requires -0x8000_0000 <= hi < 0x8000_0000 && lo < W32
    ensures l < W32 && h * W32 + l == (hi * W32 + lo) / P2(shift % 64)
  {
    var b := shift % 64;
    ShiftFactors(b);
    hide P2;
    if b >= 32 {
      var s := hi / P2(b - 32);
      ShiftRightAcross(hi, lo, P2(b - 32));
      SignOf(hi, P2(b - 32));
      h, l := hi / 0x8000_0000, s % W32;
    } else if b > 0 {
      ShiftRightWithin(hi, lo, P2(b), P2(32 - b));
      QuotientBounds(hi, P2(b));
      h, l := hi / P2(b), hi * P2(32 - b) % W32 + lo / P2(b);
    } else {
      h, l := hi, lo;
    }
  }

  /** A signed half shifted right is still one, with the same sign. */
  lemma SignOf(hi: int, s: nat)
    requires -0x8000_0000 <= hi < 0x8000_0000 && s > 0
    ensures hi / s == hi / 0x8000_0000 * W32 + hi / s % W32
  {
    QuotientBounds(hi, s);
  }

  lemma QuotientBounds(x: int, s: nat)
    requires s > 0
    ensures if x >= 0 then 0 <= x / s <= x else x <= x / s < 0
  {
    var q, r := x / s, x % s;
    assert x == s * q + r;
    MultipleIsFar(s, q);
    if x >= 0 {
      QuotientAtMost(x, s, q, r);
    } else {
      QuotientAtLeast(x, s, q, r);
    }
  }

  lemma QuotientAtMost(x: nat, s: nat, q: int, r: nat)
    requires x == s * q + r && r < s
    ensures q <= x
  {
    Ordered(x + 1, 1, s);
    if q > x { Ordered(s, x + 1, q); }
  }

  lemma QuotientAtLeast(x: int, s: nat, q: int, r: nat)
    requires x < 0 && x == s * q + r && r < s
    ensures x <= q
  {
    Ordered(-x, 1, s);
    SignsMultiply(s, x);
    if q < x { Ordered(s, q, x - 1); }
  }

  lemma Ordered(u: nat, v: int, w: int)
    requires v <= w
    ensures u * v <= u * w
  {
  }
}
