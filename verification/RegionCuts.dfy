/** `arch_map_region` cuts a region into up to five pieces of 4K, 2M and 1G leaves. This module says which leaf
    size each address gets, when the cut points are in order, and how the mapped pieces add up. */
module RegionCuts {
  import opened Machine
  import opened PageTable
  import opened PageRegion
  import opened PagePiece
  import opened Division

  /** The cut points: 4K leaves in [s, s1), 2M in [s1, s2), 1G in [s2, e2), 2M in [e2, e1), 4K in [e1, e). */
  datatype Cuts = Cuts(s: nat, s1: nat, s2: nat, e2: nat, e1: nat, e: nat)

  function CutsOf(vaddr: nat, size: nat): Cuts {
    Cuts(AlignDown(1, vaddr), Align(2, vaddr), Align(3, vaddr),
         AlignDown(3, (vaddr + size) % W64), AlignDown(2, (vaddr + size) % W64), Align(1, vaddr + size))
  }

  predicate Has2M(c: Cuts) { c.e1 > c.s1 }

  predicate Has1G(c: Cuts, gb: bool) { Has2M(c) && c.e2 > c.s2 && gb }

  /** The leaf size `arch_map_region` picks for an address of the region. */
  function LeafLevel(c: Cuts, gb: bool, va: nat): nat {
    if !Has2M(c) || !(c.s1 <= va < c.e1) then 1
    else if Has1G(c, gb) && c.s2 <= va < c.e2 then 3
    else 2
  }

  lemma LeafLevelIs(c: Cuts, gb: bool, va: nat)
    ensures 1 <= LeafLevel(c, gb, va) <= 3
  {
  }

  predicate Ordered(c: Cuts, gb: bool) {
    && c.s <= c.e
    && (Has2M(c) ==> c.s <= c.s1 && c.e1 <= c.e)
    && (Has1G(c, gb) ==> c.s1 <= c.s2 && c.e2 <= c.e1)
  }

  /** No rounding wraps past the top of the address space. */
  predicate NoWrap(vaddr: nat, size: nat, gb: bool) {
    && vaddr <= W64 - 0x20_0000 && vaddr + size <= W64 - 0x1000
    && (gb && Align(2, vaddr) < AlignDown(2, (vaddr + size) % W64) ==> vaddr <= W64 - 0x4000_0000)
  }

  lemma Rounding(level: nat, x: nat)
    requires 1 <= level <= 3 && x <= W64 - Unit(level)
    ensures x <= Align(level, x) < x + Unit(level) && AlignDown(level, Align(level, x)) == Align(level, x)
  {
    var u := Unit(level);
    RoundedUp(u, x);
    assert (x + u - 1) % W64 == x + u - 1;
    RoundsDown(level, x + u - 1);
    RoundsDown(level, Align(level, x));
    hide AlignDown, Unit;
  }

  lemma RoundsDown(level: nat, x: nat)
    requires 1 <= level <= 3
    ensures AlignDown(level, x) == x / Unit(level) * Unit(level)
  {
  }

  /** Rounding by adding one less than the unit and cutting off the rest. */
  lemma RoundedUp(u: nat, x: nat)
    requires u > 0
    ensures var r := (x + u - 1) / u * u; x <= r < x + u && r / u * u == r
  {
    var q := (x + u - 1) / u;
    assert x + u - 1 == u * q + (x + u - 1) % u;
    RemainderIs(q * u, u, q, 0);
  }

  lemma RoundingWraps(level: nat, x: nat)
    requires 1 <= level <= 3 && W64 - Unit(level) < x <= W64
    ensures Align(level, x) == 0
  {
  }

  lemma DownNests(x: nat)
    ensures AlignDown(3, x) <= AlignDown(2, x)
  {
    hide AlignDown;
    var r := AlignedDown(3, x);
    FinerAlignment(3, 2, r);
    DownMonotone(2, AlignDown(3, x), x);
  }

  lemma AlignedDown(level: nat, x: nat) returns (r: nat)
    requires 1 <= level <= 3
    ensures r == AlignDown(level, x) && AlignDown(level, r) == r
  {
    r := AlignDown(level, x);
    RoundsDown(level, x);
    RoundsDown(level, r);
    hide AlignDown;
    RemainderIs(r, Unit(level), x / Unit(level), 0);
  }

  lemma DownMonotone(level: nat, x: nat, y: nat)
    requires 1 <= level <= 3 && x <= y
    ensures AlignDown(level, x) <= AlignDown(level, y)
  {
  }

  lemma RoundsToLeast(level: nat, x: nat, a: nat)
    requires 1 <= level <= 3 && x <= W64 - Unit(level) && x <= a && AlignDown(level, a) == a
    ensures Align(level, x) <= a
  {
    DownMonotone(level, x + Unit(level) - 1, a + Unit(level) - 1);
    BlockContains(level, a, a + Unit(level) - 1);
  }

  /** The pieces are in order, and so tile the region, exactly when no rounding wraps. */
  lemma CutsOrderedIff(vaddr: nat, size: nat, gb: bool)
    requires vaddr < W64 && vaddr + size <= W64 && size <= 0x1_0000_0000_0000
    ensures Ordered(CutsOf(vaddr, size), gb) <==> NoWrap(vaddr, size, gb)
  {
    hide AlignDown, Align;
    var end := vaddr + size;
    if end > W64 - 0x1000 {
      RoundingWraps(1, end);
    } else if vaddr > W64 - 0x20_0000 {
      RoundingWraps(2, vaddr);
      DownMonotone(2, vaddr, end);
      Rounding(1, end);
    } else {
      Rounding(1, end);
      Rounding(2, vaddr);
      if vaddr > W64 - 0x4000_0000 {
        RoundingWraps(3, vaddr);
        DownMonotone(3, vaddr, end);
      } else {
        Rounding(3, vaddr);
        FinerAlignment(3, 2, Align(3, vaddr));
        RoundsToLeast(2, vaddr, Align(3, vaddr));
        DownNests(end);
      }
    }
  }

  // ---------- How many leaves it takes ----------

  /** The leaves of `level` in [a, b). */
  function Leaves(level: nat, a: nat, b: nat): int { (b - a) / Unit(level) }

  /** The leaves of the whole region. */
  function LeafCount(c: Cuts, gb: bool): int {
    if !Has2M(c) then Leaves(1, c.s, c.e)
    else
      Leaves(1, c.s, c.s1) + Leaves(1, c.e1, c.e)
      + if Has1G(c, gb) then Leaves(2, c.s1, c.s2) + Leaves(3, c.s2, c.e2) + Leaves(2, c.e2, c.e1)
        else Leaves(2, c.s1, c.e1)
  }

  lemma NoLeaves(level: nat, a: nat)
    ensures Leaves(level, a, a) == 0
  {
  }

  lemma NextLeaf(level: nat, a: nat, x: nat, b: nat)
    requires 1 <= level <= 3 && a <= x && x + Unit(level) <= b
    ensures 0 <= Leaves(level, a, x) <= Leaves(level, a, x + Unit(level)) <= Leaves(level, a, b)
    ensures Leaves(level, a, x + Unit(level)) == Leaves(level, a, x) + 1
  {
  }

  /** It never takes more leaves than the region has pages. */
  lemma LeafCountBound(vaddr: nat, paddr: nat, size: nat, gb: bool)
    requires RegionOk(vaddr, paddr, size, gb)
    ensures 0 <= LeafCount(CutsOf(vaddr, size), gb) <= (CutsOf(vaddr, size).e - CutsOf(vaddr, size).s) / 0x1000
  {
    var c := CutsOf(vaddr, size);
    RegionOrdered(vaddr, paddr, size, gb);
    CutsAligned(vaddr, size);
    forall x, y, level | 1 <= level <= 3 && 0 <= x <= y && AlignDown(1, x) == x && AlignDown(1, y) == y
      ensures 0 <= Leaves(level, x, y) <= y / 0x1000 - x / 0x1000
    {
      FewerLeaves(level, x, y);
    }
    FewerLeaves(1, c.s, c.e);
    hide CutsOf, RegionOk, AlignDown, Leaves, NoWrap;
    FinerAlignment(2, 1, c.s2);
    FinerAlignment(2, 1, c.e2);
  }

  lemma FewerLeaves(level: nat, x: nat, y: nat)
    requires 1 <= level <= 3 && x <= y && AlignDown(1, x) == x && AlignDown(1, y) == y
    ensures 0 <= Leaves(level, x, y) <= y / 0x1000 - x / 0x1000 == (y - x) / 0x1000
  {
  }

  // ---------- How the pieces add up ----------

  /** [s, end) has been mapped, each address with the leaf size its piece has. */
  ghost predicate RegionMapped(m0: Memory, m1: Memory, root: nat, c: Cuts, gb: bool, end: nat, delta: int, perm: bv12) {
    && (forall va: nat :: Canonical(va) ==>
          Translate(m1, root, va)
          == if c.s <= va < end then PieceMeaning(m0, root, va, delta, perm, LeafLevel(c, gb, va))
              else Translate(m0, root, va))
    && (forall va: nat ::
          Canonical(va) && Apart(3, va, c.s, end) ==> Lookup(m1, root, 4, va) == Lookup(m0, root, 4, va))
    && (forall va: nat :: Canonical(va) && Apart(2, va, c.s, end) ==> (Huge(m1, root, va) <==> Huge(m0, root, va)))
  }

  lemma MappingStarts(mem: Memory, root: nat, c: Cuts, gb: bool, delta: int, perm: bv12)
    ensures RegionMapped(mem, mem, root, c, gb, c.s, delta, perm)
  {
  }

  /** A piece that was only partly mapped leaves the addresses outside the region alone. */
  lemma RegionKeepsOutside(m0: Memory, m1: Memory, m2: Memory, root: nat, c: Cuts, gb: bool, a: nat, b: nat, end: nat,
      delta: int, perm: bv12)
    requires RegionMapped(m0, m1, root, c, gb, a, delta, perm) && KeptOutside(m1, m2, root, a, b)
    requires c.s <= a <= b <= end
    ensures KeptOutside(m0, m2, root, c.s, end)
  {
    hide Translate, PieceMeaning, Lookup, Huge, LeafLevel;
  }

  /** A piece that starts on its own boundary extends what has been mapped before it. */
  lemma PieceFollows(m0: Memory, m1: Memory, m2: Memory, root: nat, c: Cuts, gb: bool, a: nat, b: nat, delta: int,
      perm: bv12, want: nat)
    requires RegionMapped(m0, m1, root, c, gb, a, delta, perm) && c.s <= a <= b && 1 <= want <= 3
    requires Piece(m1, m2, root, a, b, delta, perm, want)
    requires a < b ==> AlignDown(want, a) == a
    requires forall va :: a <= va < b ==> LeafLevel(c, gb, va) == want
    ensures RegionMapped(m0, m2, root, c, gb, b, delta, perm)
  {
    hide AlignDown, Lookup;
    forall va: nat | Canonical(va)
      ensures Translate(m2, root, va)
              == if c.s <= va < b then PieceMeaning(m0, root, va, delta, perm, LeafLevel(c, gb, va))
              else Translate(m0, root, va)
    {
      if a <= va < b {
        assert AlignDown(want, va) >= a by {
          BlockContains(want, a, va);
          DownMonotone(want, a, va);
        }
        assert Stuck(m1, root, va, want) <==> Stuck(m0, root, va, want);
      }
    }
  }

  // ---------- The precondition of arch_map_region ----------

  /** The rounded region lies in one canonical half, its image lies below 2^52, the end of the physical address
      space, no rounding wraps, and the offset is a multiple of every leaf size used. */
  predicate RegionOk(vaddr: nat, paddr: nat, size: nat, gb: bool) {
    var c, delta := CutsOf(vaddr, size), vaddr - paddr;
    && NoWrap(vaddr, size, gb)
    && (c.e <= 0x8000_0000_0000 || W64 - 0x8000_0000_0000 <= c.s)
    && c.e - delta <= 0x10_0000_0000_0000
    && delta % 0x1000 == 0 && (Has2M(c) ==> delta % 0x20_0000 == 0) && (Has1G(c, gb) ==> delta % 0x4000_0000 == 0)
  }

  lemma CutsAligned(vaddr: nat, size: nat)
    ensures var c := CutsOf(vaddr, size);
      && AlignDown(1, c.s) == c.s && AlignDown(1, c.e) == c.e
      && AlignDown(2, c.s1) == c.s1 && AlignDown(2, c.e1) == c.e1 && AlignDown(1, c.s1) == c.s1
        && AlignDown(1, c.e1) == c.e1
      && AlignDown(3, c.s2) == c.s2 && AlignDown(3, c.e2) == c.e2 && AlignDown(2, c.s2) == c.s2
        && AlignDown(2, c.e2) == c.e2
  {
    hide AlignDown;
    var end := (vaddr + size) % W64;
    var s := AlignedDown(1, vaddr);
    var e := AlignedDown(1, (vaddr + size + 0xFFF) % W64);
    var s1 := AlignedDown(2, (vaddr + 0x1F_FFFF) % W64);
    var e1 := AlignedDown(2, end);
    var s2 := AlignedDown(3, (vaddr + 0x3FFF_FFFF) % W64);
    var e2 := AlignedDown(3, end);
    FinerAlignment(2, 1, s1);
    FinerAlignment(2, 1, e1);
    FinerAlignment(3, 2, s2);
    FinerAlignment(3, 2, e2);
  }

  lemma RegionOrdered(vaddr: nat, paddr: nat, size: nat, gb: bool)
    requires RegionOk(vaddr, paddr, size, gb)
    ensures Ordered(CutsOf(vaddr, size), gb) && CutsOf(vaddr, size).e < W64 && vaddr - paddr <= CutsOf(vaddr, size).s
  {
    hide AlignDown, Align;
    Rounding(1, vaddr + size);
    HalfIsSmall(vaddr, size);
    CutsOrderedIff(vaddr, size, gb);
    OffsetFits(vaddr, paddr);
  }

  lemma HalfIsSmall(vaddr: nat, size: nat)
    requires CutsOf(vaddr, size).e <= 0x8000_0000_0000 || W64 - 0x8000_0000_0000 <= CutsOf(vaddr, size).s
    requires vaddr + size <= W64 - 0x1000
    ensures size <= 0x1_0000_0000_0000
  {
    hide AlignDown, Align;
    Rounding(1, vaddr + size);
  }

  lemma OffsetFits(vaddr: nat, paddr: nat)
    requires (vaddr - paddr) % 0x1000 == 0
    ensures vaddr - paddr <= AlignDown(1, vaddr)
  {
    var k := (vaddr - paddr) / 0x1000;
    assert vaddr / 0x1000 >= k;
  }

  lemma PieceMappable(vaddr: nat, paddr: nat, size: nat, gb: bool, a: nat, b: nat, want: nat)
    requires RegionOk(vaddr, paddr, size, gb) && 1 <= want <= 3 && (vaddr - paddr) % Unit(want) == 0
    requires CutsOf(vaddr, size).s <= a <= b <= CutsOf(vaddr, size).e
    requires AlignDown(want, a) == a && AlignDown(want, b) == b
    ensures Mappable(a, b, vaddr - paddr, want) && b < W64 && Leaves(want, a, b) >= 0
  {
    hide AlignDown, Align, Ordered;
    RegionOrdered(vaddr, paddr, size, gb);
  }
}
