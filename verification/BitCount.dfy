/** The branch-free population counts of libgcc: bits are summed in fields of two, four and eight bits side by side, and
    the fields folded together. Words are numbers; `&` works bit by bit. */
module BitCount {
  import opened Division
  import opened Powers

  /** The bits that are set, counted one at a time. */
  function Ones(a: nat): nat { if a == 0 then 0 else a % 2 + Ones(a / 2) }

  /** Every other field of one, two and four bits: what `&` with 0x55..., 0x33... and 0x0F... keeps. */
  function Keep1(x: nat): nat { if x == 0 then 0 else x % 2 + 4 * Keep1(x / 4) }

  function Keep2(x: nat): nat { if x == 0 then 0 else x % 4 + 16 * Keep2(x / 16) }

  function Keep4(x: nat): nat { if x == 0 then 0 else x % 16 + 256 * Keep4(x / 256) }

  /** The sum of the fields of two, four and eight bits. */
  function Sum2(x: nat): nat { if x == 0 then 0 else x % 4 + Sum2(x / 4) }

  function Sum4(x: nat): nat { if x == 0 then 0 else x % 16 + Sum4(x / 16) }

  function Sum8(x: nat): nat { if x == 0 then 0 else x % 256 + Sum8(x / 256) }

  /** No field of four bits holds more than four. */
  predicate AtMostFour(x: nat) { x == 0 || (x % 16 <= 4 && AtMostFour(x / 16)) }

  predicate AtMostTwo(x: nat) { x == 0 || (x % 4 <= 2 && AtMostTwo(x / 4)) }

  predicate AtMostEight(x: nat) { x == 0 || (x % 256 <= 8 && AtMostEight(x / 256)) }

  lemma Join2(field: nat, above: nat)
    requires field < 4
    ensures Sum2(field + 4 * above) == field + Sum2(above)
    ensures AtMostTwo(field + 4 * above) <==> field <= 2 && AtMostTwo(above)
  {
    RemainderIs(field + 4 * above, 4, above, field);
  }

  lemma Join4(field: nat, above: nat)
    requires field < 16
    ensures Sum4(field + 16 * above) == field + Sum4(above)
    ensures AtMostFour(field + 16 * above) <==> field <= 4 && AtMostFour(above)
    ensures Keep2(field + 16 * above) == field % 4 + 16 * Keep2(above)
  {
    RemainderIs(field + 16 * above, 16, above, field);
    RemainderIs(field + 16 * above, 4, field / 4 + 4 * above, field % 4);
  }

  lemma Join8(field: nat, above: nat)
    requires field < 256
    ensures Sum8(field + 256 * above) == field + Sum8(above)
    ensures AtMostEight(field + 256 * above) <==> field <= 8 && AtMostEight(above)
    ensures Keep4(field + 256 * above) == field % 16 + 256 * Keep4(above)
  {
    RemainderIs(field + 256 * above, 256, above, field);
    RemainderIs(field + 256 * above, 16, field / 16 + 16 * above, field % 16);
  }

  lemma TwoBits(a: nat)
    ensures Ones(a) == a % 2 + a / 2 % 2 + Ones(a / 4) && Keep1(a / 2) == a / 2 % 2 + 4 * Keep1(a / 4 / 2)
    ensures a == a % 2 + 2 * (a / 2 % 2) + 4 * (a / 4)
  {
    assert a / 2 / 2 == a / 4 && a / 2 / 4 == a / 4 / 2;
    assert Ones(a) == a % 2 + Ones(a / 2) && Ones(a / 2) == a / 2 % 2 + Ones(a / 4);
  }

  /** The subtraction borrows nowhere: each field of two becomes the count of its bits. */
  lemma {:induction false} PairsCount(a: nat)
    ensures Keep1(a / 2) <= a
    ensures Sum2(a - Keep1(a / 2)) == Ones(a) && AtMostTwo(a - Keep1(a / 2))
    decreases a
  {
    if a > 0 {
      TwoBits(a);
      PairsCount(a / 4);
      hide Sum2, AtMostTwo, Ones, Keep1;
      Join2(a % 2 + a / 2 % 2, a / 4 - Keep1(a / 4 / 2));
    }
  }

  lemma FourBits(p: nat)
    requires AtMostTwo(p)
    ensures Sum2(p) == p % 4 + p / 4 % 4 + Sum2(p / 16) && p % 4 <= 2 && p / 4 % 4 <= 2 && AtMostTwo(p / 16)
    ensures Keep2(p / 4) == p / 4 % 4 + 16 * Keep2(p / 16 / 4) && Keep2(p) == p % 4 + 16 * Keep2(p / 16)
    ensures p == p % 4 + 4 * (p / 4 % 4) + 16 * (p / 16)
  {
    assert p / 4 / 4 == p / 16 && p / 4 / 16 == p / 16 / 4;
    assert p == p % 4 + 4 * (p / 4) && p / 4 == p / 4 % 4 + 4 * (p / 16);
    Join2(p % 4, p / 4);
    Join2(p / 4 % 4, p / 16);
  }

  lemma Zeros()
    ensures Sum2(0) == Sum4(0) == Sum8(0) == Ones(0) == Keep1(0) == Keep2(0) == Keep4(0) == 0
    ensures AtMostTwo(0) && AtMostFour(0) && AtMostEight(0)
  {
  }

  /** The second step adds these counts in twos. */
  lemma {:induction false} FoursCount(p: nat)
    requires AtMostTwo(p)
    ensures Sum4(Keep2(p / 4) + Keep2(p)) == Sum2(p) && AtMostFour(Keep2(p / 4) + Keep2(p))
    decreases p
  {
    hide Sum4, Sum2, AtMostFour, AtMostTwo, Keep2;
    Zeros();
    if p > 0 {
      FourBits(p);
      FoursCount(p / 16);
      Join4(p % 4 + p / 4 % 4, Keep2(p / 16 / 4) + Keep2(p / 16));
    }
  }

  lemma EightBits(y: nat)
    requires AtMostFour(y)
    ensures Sum4(y) == y % 16 + y / 16 % 16 + Sum4(y / 256) && y % 16 <= 4 && y / 16 % 16 <= 4 && AtMostFour(y / 256)
    ensures Keep4(y + y / 16) == y % 16 + y / 16 % 16 + 256 * Keep4(y / 256 + y / 256 / 16)
  {
    hide Sum4, AtMostFour, Keep4;
    var n, m, k, rest := y % 16, y / 16 % 16, y / 256 % 16, y / 256;
    Nibbles(y);
    Join4(n, y / 16);
    Join4(m, rest);
    SmallField(rest);
    Doubled(n, m, k, rest + rest / 16);
  }

  /** The sum of a word and itself a field down, at the lowest fields. */
  lemma Doubled(n: nat, m: nat, k: nat, above: nat)
    requires n <= 4 && m <= 4 && k <= 4
    ensures Keep4((n + m + 16 * (m + k)) + 256 * above) == n + m + 256 * Keep4(above)
  {
    hide Keep4, Sum8, AtMostEight;
    var f := n + m + 16 * (m + k);
    Join8(f, above);
    RemainderIs(f, 16, m + k, n + m);
  }

  lemma SmallField(y: nat)
    requires AtMostFour(y)
    ensures y % 16 <= 4
  {
  }

  lemma Nibbles(y: nat)
    ensures y == y % 16 + 16 * (y / 16) && y / 16 == y / 16 % 16 + 16 * (y / 256)
    ensures y / 256 == y / 256 % 16 + 16 * (y / 256 / 16)
    ensures y + y / 16 == (y % 16 + y / 16 % 16 + 16 * (y / 16 % 16 + y / 256 % 16)) + 256 * (y / 256 + y / 256 / 16)
  {
    assert y / 16 / 16 == y / 256;
  }

  /** The third step adds these in twos again: no sum leaves its field. */
  lemma {:induction false} EightsCount(y: nat)
    requires AtMostFour(y)
    ensures Sum8(Keep4(y + y / 16)) == Sum4(y) && AtMostEight(Keep4(y + y / 16))
    decreases y
  {
    hide Sum4, Sum8, AtMostFour, AtMostEight, Keep4;
    Zeros();
    if y > 0 {
      EightBits(y);
      EightsCount(y / 256);
      Join8(y % 16 + y / 16 % 16, Keep4(y / 256 + y / 256 / 16));
    }
  }

  /** The first three steps. */
  function Pairs(a: nat): nat {
    PairsCount(a);
    a - Keep1(a / 2)
  }

  function Fours(p: nat): nat { Keep2(p / 4) + Keep2(p) }

  function Eights(y: nat): nat { Keep4(y + y / 16) }

  lemma EightsCountOnes(a: nat)
    ensures Sum8(Eights(Fours(Pairs(a)))) == Ones(a) && AtMostEight(Eights(Fours(Pairs(a))))
  {
    PairsCount(a);
    hide Sum2, Sum4, Sum8, AtMostTwo, AtMostFour, AtMostEight, Keep1, Keep2, Keep4, Ones;
    FoursCount(Pairs(a));
    EightsCount(Fours(Pairs(a)));
  }

  lemma {:induction false} FoursFit(p: nat)
    requires AtMostTwo(p)
    ensures Keep2(p / 4) + Keep2(p) <= p
    decreases p
  {
    hide Keep2, AtMostTwo, Sum2;
    Zeros();
    if p > 0 {
      FourBits(p);
      FoursFit(p / 16);
    }
  }

  lemma {:induction false} EightsFit(y: nat)
    requires AtMostFour(y)
    ensures Keep4(y + y / 16) <= y
    decreases y
  {
    hide Keep4, AtMostFour, Sum4;
    Zeros();
    if y > 0 {
      EightBits(y);
      Nibbles(y);
      EightsFit(y / 256);
    }
  }

  /** The steps stay within the word: field by field they do not grow. */
  lemma StaysInWord(a: nat)
    ensures Eights(Fours(Pairs(a))) <= a
  {
    hide Sum2, Sum4, AtMostTwo, AtMostFour, Keep1, Keep2, Keep4, Ones;
    PairsCount(a);
    FoursCount(Pairs(a));
    FoursFit(Pairs(a));
    EightsFit(Fours(Pairs(a)));
  }

  // ---------- Masks ----------

  /** `&`. */
  function And(x: nat, y: nat): nat {
    if x == 0 || y == 0 then 0 else (if x % 2 == 1 && y % 2 == 1 then 1 else 0) + 2 * And(x / 2, y / 2)
  }

  /** n fields 01, n fields 0011 and n fields 00001111. */
  function Mask1(n: nat): nat { if n == 0 then 0 else 1 + 4 * Mask1(n - 1) }

  function Mask2(n: nat): nat { if n == 0 then 0 else 3 + 16 * Mask2(n - 1) }

  function Mask4(n: nat): nat { if n == 0 then 0 else 15 + 256 * Mask4(n - 1) }

  lemma {:induction false} Mask1Closed(n: nat)
    ensures 3 * Mask1(n) + 1 == P2(2 * n)
  {
    if n > 0 {
      Mask1Closed(n - 1);
      assert P2(2) == 4;
      PowersMultiply(2, 2 * (n - 1));
      hide P2;
    }
  }

  lemma {:induction false} Mask2Closed(n: nat)
    ensures 5 * Mask2(n) + 1 == P2(4 * n)
  {
    if n > 0 {
      Mask2Closed(n - 1);
      assert P2(4) == 16;
      PowersMultiply(4, 4 * (n - 1));
      hide P2;
    }
  }

  lemma {:induction false} Mask4Closed(n: nat)
    ensures 17 * Mask4(n) + 1 == P2(8 * n)
  {
    if n > 0 {
      Mask4Closed(n - 1);
      Words();
      PowersMultiply(8, 8 * (n - 1));
      hide P2;
    }
  }

  lemma Masks()
    ensures Mask1(16) == 0x5555_5555 && Mask1(32) == 0x5555_5555_5555_5555
    ensures Mask2(8) == 0x3333_3333 && Mask2(16) == 0x3333_3333_3333_3333
    ensures Mask4(4) == 0x0F0F_0F0F && Mask4(8) == 0x0F0F_0F0F_0F0F_0F0F
  {
    hide Mask1, Mask2, Mask4, P2;
    Words();
    Mask1Closed(16);
    Mask1Closed(32);
    Mask2Closed(8);
    Mask2Closed(16);
    Mask4Closed(4);
    Mask4Closed(8);
  }

  lemma {:induction false} AndAtMost(x: nat, y: nat)
    ensures And(x, y) <= x
    decreases x
  {
    if x > 0 && y > 0 { AndAtMost(x / 2, y / 2); }
  }

  lemma AndStep(x: nat, y: nat)
    ensures And(x, y) == (if x % 2 == 1 && y % 2 == 1 then 1 else 0) + 2 * And(x / 2, y / 2)
  {
    if x == 0 || y == 0 { assert And(x / 2, y / 2) == 0; }
  }

  /** Two bits at a time. */
  lemma AndTwo(x: nat, field: nat, above: nat)
    requires field < 4
    ensures And(x, field + 4 * above) == And(x % 4, field) + 4 * And(x / 4, above)
  {
    var y := field + 4 * above;
    AndStep(x, y);
    AndStep(x / 2, y / 2);
    AndStep(x % 4, field);
    AndStep(x % 4 / 2, field / 2);
    assert And(x % 4 / 2 / 2, field / 2 / 2) == 0;
    hide And;
    assert x / 2 / 2 == x / 4 && y / 2 / 2 == above && y / 2 % 2 == field / 2 % 2 && x / 2 % 2 == x % 4 / 2 % 2;
  }

  lemma SmallAnds(x: nat)
    requires x < 4
    ensures And(x, 0) == 0 && And(x, 3) == x && And(x, 1) == x % 2 && And(0, 0) == 0
  {
  }

  lemma {:induction false} AndIsKeep1(x: nat, n: nat)
    requires x <= 3 * Mask1(n)
    ensures And(x, Mask1(n)) == Keep1(x)
    decreases n
  {
    if n > 0 {
      AndTwo(x, 1, Mask1(n - 1));
      SmallAnds(x % 4);
      AndIsKeep1(x / 4, n - 1);
      KeepStep(x);
      hide And, Keep1;
    }
  }

  lemma KeepStep(x: nat)
    ensures Keep1(x) == x % 4 % 2 + 4 * Keep1(x / 4)
    ensures Keep2(x) == x % 4 + 16 * Keep2(x / 16)
    ensures Keep4(x) == x % 16 + 256 * Keep4(x / 256)
  {
    hide Keep1, Keep2, Keep4;
    KeepDefined(x);
    LowBit(x);
  }

  lemma LowBit(x: nat)
    ensures x % 2 == x % 4 % 2
  {
    RemainderIs(x, 2, 2 * (x / 4) + x % 4 / 2, x % 4 % 2);
  }

  lemma KeepDefined(x: nat)
    ensures Keep1(x) == x % 2 + 4 * Keep1(x / 4)
    ensures Keep2(x) == x % 4 + 16 * Keep2(x / 16)
    ensures Keep4(x) == x % 16 + 256 * Keep4(x / 256)
  {
  }

  /** Four bits at a time, under a mask field of 0000, 0011 or 1111. */
  lemma AndFour(x: nat, above: nat)
    ensures And(x, 3 + 16 * above) == x % 4 + 16 * And(x / 16, above)
    ensures And(x, 15 + 16 * above) == x % 16 + 16 * And(x / 16, above)
    ensures And(x, 16 * above) == 16 * And(x / 16, above)
  {
    hide And;
    AndTwoTwice(x, 0, 0, above);
    AndTwoTwice(x, 3, 0, above);
    AndTwoTwice(x, 3, 3, above);
    SmallAnds(x % 4);
    SmallAnds(x / 4 % 4);
    RemainderIs(x, 16, x / 4 / 4, x % 4 + 4 * (x / 4 % 4));
  }

  lemma AndTwoTwice(x: nat, low: nat, high: nat, above: nat)
    requires low < 4 && high < 4
    ensures And(x, low + 4 * high + 16 * above) == And(x % 4, low) + 4 * And(x / 4 % 4, high) + 16 * And(x / 16, above)
  {
    hide And;
    var y := high + 4 * above;
    AndTwo(x, low, y);
    AndTwo(x / 4, high, above);
    assert low + 4 * y == low + 4 * high + 16 * above && x / 4 / 4 == x / 16;
  }

  lemma {:induction false} AndIsKeep2(x: nat, n: nat)
    requires x <= 5 * Mask2(n)
    ensures And(x, Mask2(n)) == Keep2(x)
    decreases n
  {
    if n > 0 {
      AndFour(x, Mask2(n - 1));
      AndIsKeep2(x / 16, n - 1);
      KeepStep(x);
      hide And, Keep2;
    }
  }

  lemma AndEight(x: nat, above: nat)
    ensures And(x, 15 + 256 * above) == x % 16 + 256 * And(x / 256, above)
  {
    hide And;
    AndFour(x, 16 * above);
    AndFour(x / 16, above);
    assert x / 16 / 16 == x / 256;
  }

  lemma {:induction false} AndIsKeep4(x: nat, n: nat)
    requires x <= 17 * Mask4(n)
    ensures And(x, Mask4(n)) == Keep4(x)
    decreases n
  {
    if n > 0 {
      AndIsKeep4(x / 256, n - 1);
      AndEight(x, Mask4(n - 1));
      hide And, Keep4;
      KeepStep(x);
    }
  }

  /** Fields of at most four leave room for the sum of neighbours. */
  lemma {:induction false} FoursLeaveRoom(y: nat, n: nat)
    requires AtMostFour(y) && y <= 5 * Mask2(n)
    ensures 3 * y <= 4 * Mask2(n)
    decreases n
  {
    if n > 0 { FoursLeaveRoom(y / 16, n - 1); }
  }

  /** The steps as written, under a mask of one word. */
  function PairsUnder(a: nat, mask: nat): nat {
    AndAtMost(a / 2, mask);
    a - And(a / 2, mask)
  }

  function FoursUnder(p: nat, mask: nat): nat { And(p / 4, mask) + And(p, mask) }

  function EightsUnder(y: nat, mask: nat): nat { And(y + y / 16, mask) }

  /** The masked sums of the second and third step; `n` and `m` are the numbers of their fields in a word. */
  lemma StepsAreKeeps(p: nat, n: nat, m: nat)
    requires AtMostTwo(p) && p <= 5 * Mask2(n) == 17 * Mask4(m)
    ensures FoursUnder(p, Mask2(n)) == Fours(p)
    ensures EightsUnder(Fours(p), Mask4(m)) == Eights(Fours(p))
  {
    hide And, Keep2, Keep4, AtMostTwo, AtMostFour, Sum2, Sum4, Mask2, Mask4;
    FoursCount(p);
    FoursFit(p);
    AndIsKeep2(p / 4, n);
    AndIsKeep2(p, n);
    FoursLeaveRoom(Fours(p), n);
    EightsUnderIs(Fours(p), n, m);
  }

  lemma EightsUnderIs(y: nat, n: nat, m: nat)
    requires 3 * y <= 4 * Mask2(n) && 5 * Mask2(n) == 17 * Mask4(m)
    ensures EightsUnder(y, Mask4(m)) == Eights(y)
  {
    hide And, Keep4, Mask2, Mask4;
    AndIsKeep4(y + y / 16, m);
  }

  lemma PairsUnderIs(a: nat, n: nat)
    requires a <= 3 * Mask1(n)
    ensures PairsUnder(a, Mask1(n)) == Pairs(a) <= a && AtMostTwo(Pairs(a))
  {
    hide And, Keep1, Mask1, AtMostTwo, Sum2, Ones;
    PairsCount(a);
    AndIsKeep1(a / 2, n);
  }

  /** The low six and seven bits. */
  lemma AndLow(x: nat)
    ensures And(x, 63) == x % 64 && And(x, 127) == x % 128
  {
    hide And;
    LowAnds(x / 16);
    AndFour(x, 3);
    AndFour(x, 7);
    LowDigits(x);
  }

  lemma LowDigits(x: nat)
    ensures x % 64 == x % 16 + 16 * (x / 16 % 4) && x % 128 == x % 16 + 16 * (x / 16 % 8)
  {
    var q := x / 16;
    RemainderIs(x, 64, q / 4, x % 16 + 16 * (q % 4));
    RemainderIs(x, 128, q / 8, x % 16 + 16 * (q % 8));
  }

  lemma LowAnds(h: nat)
    ensures And(h, 3) == h % 4 && And(h, 7) == h % 8
  {
    AndTwo(h, 3, 0);
    AndTwo(h, 3, 1);
    SmallAnds(h % 4);
    assert And(h / 4, 0) == 0;
    AndStep(h / 4, 1);
    assert And(h / 4 / 2, 0) == 0;
    hide And;
    RemainderIs(h, 8, h / 4 / 2, h % 4 + 4 * (h / 4 % 2));
  }

  // ---------- Folding the bytes ----------

  lemma LastByte(z: nat) returns (b: nat, above: nat)
    requires AtMostEight(z)
    ensures z == b + 256 * above && b <= 8 && AtMostEight(above) && Sum8(z) == b + Sum8(above)
  {
    b, above := z % 256, z / 256;
    Join8(b, above);
  }

  lemma FourBytes(z: nat) returns (b: nat, c: nat, d: nat, e: nat, above: nat)
    requires AtMostEight(z)
    ensures b <= 8 && c <= 8 && d <= 8 && e <= 8
            && z == b + 256 * c + 0x1_0000 * d + 0x100_0000 * e + 0x1_0000_0000 * above
    ensures AtMostEight(above) && Sum8(z) == b + c + d + e + Sum8(above)
  {
    hide AtMostEight, Sum8;
    b, above := LastByte(z);
    c, above := LastByte(above);
    d, above := LastByte(above);
    e, above := LastByte(above);
  }

  /** The low seven bits of a word plus itself a byte down. */
  lemma LastFold(b: nat, c: nat, above: nat)
    requires b + c <= 64 && b < 256
    ensures var x := b + 256 * c + 0x1_0000 * above; (x + x / 256) % 128 == b + c && (x + x / 256) % 64 == (b + c) % 64
  {
    var x := b + 256 * c + 0x1_0000 * above;
    RemainderIs(x, 256, c + 256 * above, b);
    var n := c + above + 256 * above;
    RemainderIs(x + x / 256, 128, 2 * n, b + c);
    RemainderIs(x + x / 256, 64, 4 * n + (b + c) / 64, (b + c) % 64);
  }

  function Folded32(z: nat): nat {
    var b := z + z / 0x1_0000;
    (b + b / 256) % 64
  }

  lemma Fold32(b: nat, c: nat, d: nat, e: nat)
    requires b <= 8 && c <= 8 && d <= 8 && e <= 8
    ensures Folded32(b + 256 * c + 0x1_0000 * d + 0x100_0000 * e) == b + c + d + e
  {
    UpperHalf(b, c, d, e);
    LastFold(b + d, c + e, d + 256 * e);
  }

  lemma UpperHalf(b: nat, c: nat, d: nat, e: nat)
    requires b <= 8 && c <= 8
    ensures var z := b + 256 * c + 0x1_0000 * d + 0x100_0000 * e;
            z + z / 0x1_0000 == (b + d) + 256 * (c + e) + 0x1_0000 * (d + 256 * e)
  {
    RemainderIs(b + 256 * c + 0x1_0000 * d + 0x100_0000 * e, 0x1_0000, d + 256 * e, b + 256 * c);
  }

  /** `__popcountsi2`. */
  function Popcount32(a: nat): nat {
    FoldUnder32(EightsUnder(FoursUnder(PairsUnder(a, 0x5555_5555), 0x3333_3333), 0x0F0F_0F0F))
  }

  function FoldUnder32(z: nat): nat {
    var b := z + z / 0x1_0000;
    And(b + b / 256, 63)
  }

  lemma FoldUnder32Is(z: nat)
    ensures FoldUnder32(z) == Folded32(z)
  {
    hide And;
    var b := z + z / 0x1_0000;
    AndLow(b + b / 256);
  }

  lemma Popcount32Is(a: nat)
    requires a < 0x1_0000_0000
    ensures Popcount32(a) == Folded32(Eights(Fours(Pairs(a))))
  {
    hide FoldUnder32, Folded32, EightsUnder, FoursUnder, PairsUnder, Pairs, Fours, Eights, And, Keep1, Keep2, Keep4;
    hide Mask1, Mask2, Mask4, AtMostTwo;
    Masks();
    PairsUnderIs(a, 16);
    StepsAreKeeps(Pairs(a), 8, 4);
    FoldUnder32Is(Eights(Fours(Pairs(a))));
  }

  lemma Popcount32Counts(a: nat)
    requires a < 0x1_0000_0000
    ensures Popcount32(a) == Ones(a)
  {
    hide AtMostEight, Sum8, Ones, Eights, Fours, Pairs, Folded32, Popcount32;
    Popcount32Is(a);
    EightsCountOnes(a);
    StaysInWord(a);
    Zeros();
    var b, c, d, e, above := FourBytes(Eights(Fours(Pairs(a))));
    Fold32(b, c, d, e);
  }

  function Folded64(z: nat): nat {
    var h := z + z / 0x1_0000_0000;
    var b := h + h / 0x1_0000;
    (b + b / 256) % 128
  }

  lemma FoldHalves(b: nat, c: nat, d: nat, e: nat, above: nat)
    requires b <= 16 && c <= 16 && d <= 16 && e <= 16 && b + d + c + e <= 64
    ensures var h := b + 256 * c + 0x1_0000 * d + 0x100_0000 * e + 0x1_0000_0000 * above;
            var x := h + h / 0x1_0000;
            (x + x / 256) % 128 == b + c + d + e
  {
    var h := b + 256 * c + 0x1_0000 * d + 0x100_0000 * e + 0x1_0000_0000 * above;
    RemainderIs(h, 0x1_0000, d + 256 * e + 0x1_0000 * above, b + 256 * c);
    assert h + h / 0x1_0000 == (b + d) + 256 * (c + e) + 0x1_0000 * (d + 256 * e + 0x1_0000 * above + above);
    LastFold(b + d, c + e, d + 256 * e + 0x1_0000 * above + above);
  }

  lemma Fold64(b: nat, c: nat, d: nat, e: nat, f: nat, g: nat, i: nat, j: nat)
    requires b <= 8 && c <= 8 && d <= 8 && e <= 8 && f <= 8 && g <= 8 && i <= 8 && j <= 8
    ensures var high := f + 256 * g + 0x1_0000 * i + 0x100_0000 * j;
            Folded64(b + 256 * c + 0x1_0000 * d + 0x100_0000 * e + 0x1_0000_0000 * high)
              == b + c + d + e + (f + g + i + j)
  {
    var high := f + 256 * g + 0x1_0000 * i + 0x100_0000 * j;
    var low := b + 256 * c + 0x1_0000 * d + 0x100_0000 * e;
    RemainderIs(low + 0x1_0000_0000 * high, 0x1_0000_0000, high, low);
    FoldHalves(b + f, c + g, d + i, e + j, high);
  }

  /** `__popcountdi2`. */
  function Popcount64(a: nat): nat {
    var fours := FoursUnder(PairsUnder(a, 0x5555_5555_5555_5555), 0x3333_3333_3333_3333);
    FoldUnder64(EightsUnder(fours, 0x0F0F_0F0F_0F0F_0F0F))
  }

  function FoldUnder64(z: nat): nat {
    var h := z + z / 0x1_0000_0000;
    var b := h + h / 0x1_0000;
    And(b + b / 256, 127)
  }

  lemma FoldUnder64Is(z: nat)
    ensures FoldUnder64(z) == Folded64(z)
  {
    hide And;
    var h := z + z / 0x1_0000_0000;
    var b := h + h / 0x1_0000;
    AndLow(b + b / 256);
  }

  lemma Popcount64Is(a: nat)
    requires a < 0x1_0000_0000_0000_0000
    ensures Popcount64(a) == Folded64(Eights(Fours(Pairs(a))))
  {
    hide FoldUnder64, Folded64, EightsUnder, FoursUnder, PairsUnder, Pairs, Fours, Eights, And, Keep1, Keep2, Keep4;
    hide Mask1, Mask2, Mask4, AtMostTwo;
    Masks();
    PairsUnderIs(a, 32);
    StepsAreKeeps(Pairs(a), 16, 8);
    FoldUnder64Is(Eights(Fours(Pairs(a))));
  }

  lemma Popcount64Counts(a: nat)
    requires a < 0x1_0000_0000_0000_0000
    ensures Popcount64(a) == Ones(a)
  {
    hide AtMostEight, Sum8, Ones, Eights, Fours, Pairs, Folded64, Popcount64;
    Popcount64Is(a);
    EightsCountOnes(a);
    StaysInWord(a);
    Zeros();
    var b, c, d, e, high := FourBytes(Eights(Fours(Pairs(a))));
    var f, g, i, j, above := FourBytes(high);
    Fold64(b, c, d, e, f, g, i, j);
  }
}
