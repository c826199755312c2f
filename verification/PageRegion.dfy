/** Mapping a region: how it is cut into 4K, 2M and 1G pieces, what each piece must do to every
    translation, and how the pieces compose. */
module PageRegion {
  import opened Machine
  import opened Division
  import opened PageTable
  import opened PageWalk

  predicate Canonical(va: nat) { va < 0x8000_0000_0000 || W64 - 0x8000_0000_0000 <= va < W64 }

  function AlignDown(level: nat, x: nat): (r: nat)
    ensures r <= x < r + Unit(level)
  {
    if level <= 1 then x / 0x1000 * 0x1000
    else if level == 2 then x / 0x20_0000 * 0x20_0000
    else if level == 3 then x / 0x4000_0000 * 0x4000_0000
    else x / 0x80_0000_0000 * 0x80_0000_0000
  }

  /** The 64-bit `align` macro: the addition wraps. */
  function Align(level: nat, x: nat): nat {
    AlignDown(level, (x + Unit(level) - 1) % W64)
  }

  // ---------- Slots as address ranges ----------

  lemma Digits(x: nat, m: nat)
    requires m > 0
    ensures x % (512 * m) == x / 512 % m * 512 + x % 512
  {
    var a, r := x / 512, x % 512;
    var b, c := a / m, a % m;
    assert x == 512 * (b * m + c) + r;
    assert x == (512 * m) * b + (512 * c + r) by { assert 512 * (b * m) == (512 * m) * b; }
    assert 512 * c + r < 512 * m;
    RemainderIs(x, 512 * m, b, 512 * c + r);
  }

  /** The 48-bit block number of an address is made of its indices. */
  lemma SameBlock(level: nat, va: nat, vb: nat)
    requires 1 <= level <= 3
    ensures Same(level, va, vb) <==>
              if level == 1 then va / 0x1000 % 0x10_0000_0000 == vb / 0x1000 % 0x10_0000_0000
              else if level == 2 then va / 0x20_0000 % 0x800_0000 == vb / 0x20_0000 % 0x800_0000
              else va / 0x4000_0000 % 0x4_0000 == vb / 0x4000_0000 % 0x4_0000
  {
    forall x | x == va || x == vb
      ensures x / 0x4000_0000 % 0x4_0000 == x / 0x80_0000_0000 % 512 * 512 + x / 0x4000_0000 % 512
      ensures x / 0x20_0000 % 0x800_0000 == x / 0x4000_0000 % 0x4_0000 * 512 + x / 0x20_0000 % 512
      ensures x / 0x1000 % 0x10_0000_0000 == x / 0x20_0000 % 0x800_0000 * 512 + x / 0x1000 % 512
    {
      Chain(x);
      Digits(x / 0x4000_0000, 0x200);
      Digits(x / 0x20_0000, 0x4_0000);
      Digits(x / 0x1000, 0x800_0000);
    }
    SameIndices(level, va, vb);
  }

  lemma SameIndices(level: nat, va: nat, vb: nat)
    requires 1 <= level <= 3
    ensures Same(level, va, vb) <==>
              && va / 0x80_0000_0000 % 512 == vb / 0x80_0000_0000 % 512
              && va / 0x4000_0000 % 512 == vb / 0x4000_0000 % 512
              && (level <= 2 ==> va / 0x20_0000 % 512 == vb / 0x20_0000 % 512)
              && (level <= 1 ==> va / 0x1000 % 512 == vb / 0x1000 % 512)
  {
    assert Same(4, va, vb) <==> Index(4, va) == Index(4, vb) by { assert Same(5, va, vb); }
    assert Same(3, va, vb) <==> Index(3, va) == Index(3, vb) && Same(4, va, vb);
    assert Same(2, va, vb) <==> Index(2, va) == Index(2, vb) && Same(3, va, vb);
  }

  lemma Chain(x: nat)
    ensures x / 0x1000 / 512 == x / 0x20_0000
    ensures x / 0x20_0000 / 512 == x / 0x4000_0000
    ensures x / 0x4000_0000 / 512 == x / 0x80_0000_0000
  {
  }

  /** Blocks of the two canonical halves are told apart by their low bits. */
  lemma HalfBlocks(q: nat, p: nat, k: nat)
    requires k > 0 && k % 2 == 0
    requires q < k / 2 || 65536 * k - k / 2 <= q < 65536 * k
    requires p < k / 2 || 65536 * k - k / 2 <= p < 65536 * k
    ensures q % k == p % k <==> q == p
  {
    HalfBlock(q, k);
    HalfBlock(p, k);
  }

  lemma HalfBlock(q: nat, k: nat)
    requires k > 0 && k % 2 == 0 && (q < k / 2 || 65536 * k - k / 2 <= q < 65536 * k)
    ensures q % k == if q < k / 2 then q else q - 65535 * k
  {
    if q < k / 2 { RemainderIs(q, k, 0, q); } else { RemainderIs(q, k, 65535, q - 65535 * k); }
  }

  /** Canonical addresses that use the same entries down to `level` lie in the same aligned block. */
  lemma SlotIsBlock(level: nat, va: nat, vb: nat)
    requires 1 <= level <= 3 && Canonical(va) && Canonical(vb)
    ensures Same(level, va, vb) <==> AlignDown(level, va) == AlignDown(level, vb)
  {
    hide Same;
    SameBlock(level, va, vb);
    if level == 1 {
      HalfBlocks(va / 0x1000, vb / 0x1000, 0x10_0000_0000);
    } else if level == 2 {
      HalfBlocks(va / 0x20_0000, vb / 0x20_0000, 0x800_0000);
    } else {
      HalfBlocks(va / 0x4000_0000, vb / 0x4000_0000, 0x4_0000);
    }
  }

  // ---------- Pieces ----------

  /** The aligned block of `va` at `level` has no address in [start, end). */
  predicate Apart(level: nat, va: nat, start: nat, end: nat) {
    AlignDown(level, va) + Unit(level) <= start || end <= AlignDown(level, va)
  }

  /** What a caller of `arch_map_region` asks of an address in the region, where leaves of level `want` are used. */
  function Requested(va: nat, delta: int, perm: bv12, want: nat): Translation {
    if perm & PTE_P != 0 then To(va - delta, LeafAttr(want, perm)) else Fault
  }

  /** What mapping with leaves of level `want` gives: the request, except that under an old large leaf only the
      first 4K of each block is remapped, by an entry that keeps the page-size bit. */
  function PieceMeaning(m0: Memory, root: nat, va: nat, delta: int, perm: bv12, want: nat): Translation {
    if !Stuck(m0, root, va, want) then Requested(va, delta, perm, want)
    else if AlignDown(want, va) + 0x1000 <= va then Translate(m0, root, va)
    else Requested(va, delta, perm | PTE_PS, 1)
  }

  /** Every address outside [start, end) translates as before. */
  ghost predicate KeptOutside(m0: Memory, m1: Memory, root: nat, start: nat, end: nat) {
    forall va: nat :: Canonical(va) && !(start <= va < end) ==> Translate(m1, root, va) == Translate(m0, root, va)
  }

  lemma PieceKeepsOutside(m0: Memory, m1: Memory, m2: Memory, root: nat, start: nat, addr: nat, end: nat, delta: int,
      perm: bv12, want: nat)
    requires Piece(m0, m1, root, start, addr, delta, perm, want) && SameMeaning(m1, m2, root) && start <= addr <= end
    ensures KeptOutside(m0, m2, root, start, end)
  {
    hide Translate, PieceMeaning, Lookup, Huge;
  }

  /** [start, end) has been mapped with leaves of level `want`: every translation is accounted for, other 1G
      blocks are untouched, and in other 2M blocks the large leaves are where they were. */
  ghost predicate Piece(m0: Memory, m1: Memory, root: nat, start: nat, end: nat, delta: int, perm: bv12, want: nat) {
    && (forall va: nat :: Canonical(va) ==>
          Translate(m1, root, va)
          == if start <= va < end then PieceMeaning(m0, root, va, delta, perm, want) else Translate(m0, root, va))
    && (forall va: nat ::
          Canonical(va) && Apart(3, va, start, end) ==> Lookup(m1, root, 4, va) == Lookup(m0, root, 4, va))
    && (forall va: nat :: Canonical(va) && Apart(2, va, start, end) ==> (Huge(m1, root, va) <==> Huge(m0, root, va)))
  }

  lemma {:induction false} SameAbove(low: nat, level: nat, va: nat, vb: nat)
    requires low <= level && Same(low, va, vb)
    ensures level <= 4 ==> Index(level, va) == Index(level, vb)
    ensures Same(level, va, vb)
    decreases level - low
  {
    hide Index;
    if low < level && low < 5 { SameAbove(low + 1, level, va, vb); }
  }

  lemma {:induction false} LookupAgrees(mem: Memory, f: nat, level: nat, va: nat, vb: nat, want: nat)
    requires 1 <= want <= level <= 4 && Same(want, va, vb)
    ensures var a, b := Lookup(mem, f, level, va), Lookup(mem, f, level, vb);
            (a.Mapped? && a.level >= want) <==> (b.Mapped? && b.level >= want)
    decreases level
  {
    hide Index, Present, Large;
    SameAbove(want, level, va, vb);
    if f in mem && |mem[f]| == ENTRIES {
      var e := mem[f][Index(level, va)];
      if IsTable(e, level) {
        if level > want {
          LookupAgrees(mem, e.frame, level - 1, va, vb, want);
        } else {
          LookupLevel(mem, e.frame, level - 1, va);
          LookupLevel(mem, e.frame, level - 1, vb);
        }
      }
    }
  }

  /** A block is under a large leaf as a whole or not at all. */
  lemma StuckTogether(mem: Memory, root: nat, va: nat, vb: nat, want: nat)
    requires 1 <= want <= 3 && Same(want, va, vb)
    ensures Stuck(mem, root, va, want) <==> Stuck(mem, root, vb, want)
  {
    LookupAgrees(mem, root, 4, va, vb, want);
  }
}
