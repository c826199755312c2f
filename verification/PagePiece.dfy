/** One step of the mapping loop: writing the leaf of the next block extends the mapped piece by that block. */
module PagePiece {
  import opened Machine
  import opened Division
  import opened PageTable
  import opened PageRegion
  import opened PageWalk
  import opened PageRights

  /** The entry `__map_region` writes for the block at `addr`. */
  function LeafEntry(addr: nat, delta: int, perm: bv12, want: nat): Entry
    requires delta <= addr
  {
    Entry((addr - delta) / PGSIZE, perm | (if want >= 2 then PTE_PS else 0))
  }

  /** `addr` starts a block of `level` whose physical image is aligned alike and which is canonical throughout. */
  predicate Block(addr: nat, delta: int, level: nat) {
    && 1 <= level <= 3 && AlignDown(level, addr) == addr && delta <= addr && delta % Unit(level) == 0
    && Canonical(addr) && Canonical(addr + Unit(level) - 1)
  }

  lemma PermBits(perm: bv12)
    ensures (perm | PTE_PS) & PTE_PS != 0 && (perm | PTE_PS) & !PTE_PS == perm & !PTE_PS
    ensures (perm | PTE_PS) & PTE_P == perm & PTE_P && perm | 0 == perm
  {
  }

  lemma FrameOf1(x: nat)
    requires x % 0x1000 == 0
    ensures x / 0x1000 * 0x1000 == x
  {
  }

  lemma FrameOf2(x: nat)
    requires x % 0x20_0000 == 0
    ensures x / 0x1000 * 0x1000 == x && x / 0x1000 % 512 == 0 && x / 0x1000 / 512 * 0x20_0000 == x
  {
    var q := x / 0x20_0000;
    assert x == 0x1000 * (512 * q);
    assert x / 0x1000 == 512 * q;
  }

  lemma FrameOf3(x: nat)
    requires x % 0x4000_0000 == 0
    ensures x / 0x1000 * 0x1000 == x && x / 0x1000 % 0x4_0000 == 0 && x / 0x1000 / 0x4_0000 * 0x4000_0000 == x
  {
    var q := x / 0x4000_0000;
    assert x == 0x1000 * (0x4_0000 * q);
    assert x / 0x1000 == 0x4_0000 * q;
  }

  /** The physical image of a block is aligned like the block. */
  lemma ImageAligned(addr: nat, delta: int, level: nat)
    requires Block(addr, delta, level)
    ensures (addr - delta) % Unit(level) == 0
  {
    AlignedRemainder(level, addr);
    var u := Unit(level);
    DivisionIsUnique(u, (addr - delta) / u, (addr - delta) % u, addr / u - delta / u, 0);
  }

  lemma AlignedRemainder(level: nat, x: nat)
    requires 1 <= level <= 3 && AlignDown(level, x) == x
    ensures x % Unit(level) == 0
  {
  }

  /** The physical image of a page-aligned block is a whole frame, aligned to the leaf size. */
  lemma BlockFrame(addr: nat, delta: int, level: nat)
    requires Block(addr, delta, level)
    ensures var frame := (addr - delta) / PGSIZE;
            && frame * 0x1000 == addr - delta
            && (level == 2 ==> frame % 512 == 0 && frame / 512 * 0x20_0000 == addr - delta)
            && (level == 3 ==> frame % 0x4_0000 == 0 && frame / 0x4_0000 * 0x4000_0000 == addr - delta)
  {
    hide AlignDown;
    ImageAligned(addr, delta, level);
    if level == 1 { FrameOf1(addr - delta); }
    else if level == 2 { FrameOf2(addr - delta); }
    else { FrameOf3(addr - delta); }
  }

  lemma BlockOffset(addr: nat, level: nat, va: nat)
    requires 1 <= level <= 3 && AlignDown(level, addr) == addr && addr <= va < addr + Unit(level)
    ensures va % Unit(level) == va - addr
  {
    AlignedRemainder(level, addr);
    RemainderIs(va, Unit(level), addr / Unit(level), va - addr);
  }

  lemma DownIs(level: nat, q: nat, x: nat)
    requires 1 <= level <= 3 && q * Unit(level) <= x < q * Unit(level) + Unit(level)
    ensures AlignDown(level, x) == q * Unit(level)
  {
    RemainderIs(x, Unit(level), q, x - q * Unit(level));
  }

  lemma BlockContains(level: nat, addr: nat, va: nat)
    requires 1 <= level <= 3 && AlignDown(level, addr) == addr
    ensures AlignDown(level, va) == addr <==> addr <= va < addr + Unit(level)
  {
    hide AlignDown;
    AlignedRemainder(level, addr);
    if addr <= va < addr + Unit(level) { DownIs(level, addr / Unit(level), va); }
  }

  /** A block is aligned to every smaller size too. */
  lemma FinerAlignment(level: nat, finer: nat, x: nat)
    requires 1 <= finer <= level <= 3 && AlignDown(level, x) == x
    ensures AlignDown(finer, x) == x
  {
    hide AlignDown;
    AlignedRemainder(level, x);
    var q := x / Unit(level);
    if level == 2 && finer == 1 { DownIs(1, 512 * q, x); }
    else if level == 3 && finer == 2 { DownIs(2, 512 * q, x); }
    else if level == 3 && finer == 1 { DownIs(1, 0x4_0000 * q, x); }
  }

  lemma LeafAddress(addr: nat, delta: int, perm: bv12, want: nat, level: nat, va: nat)
    requires Block(addr, delta, want) && (level == 1 || level == want) && addr <= va < addr + Unit(level)
    ensures PhysicalOf(level, LeafEntry(addr, delta, perm, want), va) == va - delta
  {
    hide AlignDown;
    BlockFrame(addr, delta, want);
    FinerAlignment(want, 1, addr);
    BlockOffset(addr, level, va);
  }

  lemma LeafKind(addr: nat, delta: int, perm: bv12, want: nat, level: nat)
    requires Block(addr, delta, want) && (level == 1 || level == want)
    ensures var e := LeafEntry(addr, delta, perm, want);
            && !IsTable(e, level) && Aligned(e, level)
            && LeafAttr(level, e.attr) == (if level == want then LeafAttr(want, perm) else perm | PTE_PS)
            && (IsLeaf(e, level) <==> perm & PTE_P != 0)
  {
    LeafBits(perm, want, level);
    BlockFrame(addr, delta, want);
    LeafIs((addr - delta) / PGSIZE, perm, want, level);
    hide LeafAttr, Block, IsLeaf, IsTable;
  }

  /** What kind of entry the attribute bits make. */
  lemma LeafIs(frame: nat, perm: bv12, want: nat, level: nat)
    requires 1 <= want <= 3 && (level == 1 || level == want)
    ensures var e := Entry(frame, perm | (if want >= 2 then PTE_PS else 0));
            !IsTable(e, level) && (IsLeaf(e, level) <==> perm & PTE_P != 0)
  {
    PermBits(perm);
  }

  lemma LeafBits(perm: bv12, want: nat, level: nat)
    requires 1 <= want <= 3 && (level == 1 || level == want)
    ensures LeafAttr(level, perm | (if want >= 2 then PTE_PS else 0))
         == if level == want then LeafAttr(want, perm) else perm | PTE_PS
  {
    PermBits(perm);
  }

  /** A leaf written over a block maps each of its addresses as requested; one that only covers the block's first
      page does so but for the page-size bit, which it keeps. */
  lemma LeafMeaning(addr: nat, delta: int, perm: bv12, want: nat, level: nat, va: nat)
    requires Block(addr, delta, want) && (level == 1 || level == want) && addr <= va < addr + Unit(level)
    ensures var e := LeafEntry(addr, delta, perm, want);
            Meaning(if IsLeaf(e, level) then Mapped(level, e) else NotMapped, va)
              == if level == want then Requested(va, delta, perm, want) else Requested(va, delta, perm | PTE_PS, 1)
  {
    hide AlignDown, Block, PhysicalOf, LeafEntry, IsLeaf;
    LeafAddress(addr, delta, perm, want, level, va);
    LeafKind(addr, delta, perm, want, level);
    PermBits(perm);
  }

  lemma PieceStarts(mem: Memory, root: nat, start: nat, delta: int, perm: bv12, want: nat)
    ensures Piece(mem, mem, root, start, start, delta, perm, want)
  {
  }

  /** Writing the leaf of the next block extends the mapped piece by that block. */
  lemma PieceGrows(m0: Memory, m1: Memory, cleared: Memory, lev: map<nat, nat>, pool: set<nat>, root: nat,
                   start: nat, addr: nat, delta: int, perm: bv12, want: nat, f: nat, i: nat)
    requires Block(addr, delta, want) && start <= addr && AlignDown(want, start) == start
    requires Piece(m0, m1, root, start, addr, delta, perm, want)
    requires Found(m1, cleared, lev, pool, root, addr, f, i, want)
    ensures f in cleared && |cleared[f]| == ENTRIES && i < ENTRIES
    ensures var m2 := Write(cleared, f, i, LeafEntry(addr, delta, perm, want));
            Good(m2, lev, pool, root) && Piece(m0, m2, root, start, addr + Unit(want), delta, perm, want)
  {
    WrittenTree(m1, cleared, lev, pool, root, addr, delta, perm, want, f, i);
    var m2 := Write(cleared, f, i, LeafEntry(addr, delta, perm, want));
    StuckBefore(m0, m1, root, start, addr, delta, perm, want);
    hide Good, Found, WellFormed, AlignDown, Index, Lookup, Node, LeafEntry, Translate, PieceMeaning, Apart, Huge;
    forall va: nat | Canonical(va)
      ensures Translate(m2, root, va)
              == (if start <= va < addr + Unit(want) then PieceMeaning(m0, root, va, delta, perm, want)
                  else Translate(m0, root, va))
      ensures Apart(3, va, start, addr + Unit(want)) ==> Lookup(m2, root, 4, va) == Lookup(m0, root, 4, va)
      ensures Apart(2, va, start, addr + Unit(want)) ==> (Huge(m2, root, va) <==> Huge(m0, root, va))
    {
      GrownTranslation(m0, m1, cleared, lev, pool, root, start, addr, delta, perm, want, f, i, va);
      GrownElsewhere(m0, m1, cleared, lev, pool, root, start, addr, delta, perm, want, f, i, va);
    }
  }

  lemma WrittenTree(m1: Memory, cleared: Memory, lev: map<nat, nat>, pool: set<nat>, root: nat,
                    addr: nat, delta: int, perm: bv12, want: nat, f: nat, i: nat)
    requires Block(addr, delta, want) && Found(m1, cleared, lev, pool, root, addr, f, i, want)
    ensures f in cleared && |cleared[f]| == ENTRIES && i < ENTRIES
    ensures Good(Write(cleared, f, i, LeafEntry(addr, delta, perm, want)), lev, pool, root)
  {
    var e := LeafEntry(addr, delta, perm, want);
    LeafKind(addr, delta, perm, want, lev[f]);
    WriteLeafKeepsTree(cleared, lev, root, f, i, e, {});
    assert lev - {} == lev;
  }

  /** The leaf written is no table. */
  lemma LeafWrites(m1: Memory, mem: Memory, lev: map<nat, nat>, pool: set<nat>, root: nat,
                   addr: nat, delta: int, perm: bv12, want: nat, f: nat, i: nat)
    requires f in mem && |mem[f]| == ENTRIES && i < ENTRIES
    requires Block(addr, delta, want) && Found(m1, Write(mem, f, i, ZERO), lev, pool, root, addr, f, i, want)
    ensures TablesFrom(mem, lev, Write(mem, f, i, LeafEntry(addr, delta, perm, want)), lev)
  {
    LeafKind(addr, delta, perm, want, lev[f]);
    hide LeafEntry, Block, Good, TablesFrom;
    TablesWritten(mem, lev, f, i, LeafEntry(addr, delta, perm, want));
  }

  /** The next block is stuck exactly when it was before the region was touched. */
  lemma StuckBefore(m0: Memory, m1: Memory, root: nat, start: nat, addr: nat, delta: int, perm: bv12, want: nat)
    requires Block(addr, delta, want) && start <= addr
    requires Piece(m0, m1, root, start, addr, delta, perm, want)
    ensures Stuck(m1, root, addr, want) <==> Stuck(m0, root, addr, want)
  {
  }

  /** What every walk finds once the block's leaf is written. */
  lemma WrittenLookup(m1: Memory, cleared: Memory, lev: map<nat, nat>, pool: set<nat>, root: nat,
                      addr: nat, delta: int, perm: bv12, want: nat, f: nat, i: nat, va: nat)
    requires Block(addr, delta, want) && Canonical(va)
    requires Found(m1, cleared, lev, pool, root, addr, f, i, want)
    ensures f in cleared && |cleared[f]| == ENTRIES && i < ENTRIES && f in lev && 1 <= lev[f] <= want
    ensures var e := LeafEntry(addr, delta, perm, want);
            Lookup(Write(cleared, f, i, e), root, 4, va)
            == if !(addr <= va < addr + Unit(lev[f])) then Lookup(cleared, root, 4, va)
               else if IsLeaf(e, lev[f]) then Mapped(lev[f], e) else NotMapped
    ensures Same(lev[f], addr, va) <==> addr <= va < addr + Unit(lev[f])
  {
    hide Index, Lookup, Node, AlignDown, LeafEntry, IsLeaf, Aligned;
    var level := lev[f];
    LeafKind(addr, delta, perm, want, level);
    LeafWriteEffect(cleared, lev, root, f, addr, LeafEntry(addr, delta, perm, want), va);
    SlotIsBlock(level, addr, va);
    FinerAlignment(want, level, addr);
    BlockContains(level, addr, va);
  }

  lemma GrownTranslation(m0: Memory, m1: Memory, cleared: Memory, lev: map<nat, nat>, pool: set<nat>, root: nat,
                         start: nat, addr: nat, delta: int, perm: bv12, want: nat, f: nat, i: nat, va: nat)
    requires Block(addr, delta, want) && start <= addr && AlignDown(want, start) == start && Canonical(va)
    requires Piece(m0, m1, root, start, addr, delta, perm, want)
    requires Found(m1, cleared, lev, pool, root, addr, f, i, want)
    requires Stuck(m1, root, addr, want) <==> Stuck(m0, root, addr, want)
    ensures f in cleared && |cleared[f]| == ENTRIES && i < ENTRIES
    ensures Translate(Write(cleared, f, i, LeafEntry(addr, delta, perm, want)), root, va)
            == (if start <= va < addr + Unit(want) then PieceMeaning(m0, root, va, delta, perm, want)
                else Translate(m0, root, va))
  {
    hide Index, Lookup, Node, LeafEntry, Meaning, Good, Block, Found, Piece, PieceMeaning, Translate, Requested;
    hide Stuck, Same;
    FoundLevel(m1, cleared, lev, pool, root, addr, f, i, want);
    var level := lev[f];
    WrittenTranslation(m1, cleared, lev, pool, root, addr, delta, perm, want, f, i, va);
    if addr <= va < addr + Unit(want) {
      MeaningInBlock(m0, root, addr, va, delta, perm, want, level);
    }
    if !(addr <= va < addr + Unit(level)) {
      FoundElsewhere(m0, m1, cleared, lev, pool, root, start, addr, delta, perm, want, f, i, va);
    }
  }

  lemma WrittenTranslation(m1: Memory, cleared: Memory, lev: map<nat, nat>, pool: set<nat>, root: nat,
                           addr: nat, delta: int, perm: bv12, want: nat, f: nat, i: nat, va: nat)
    requires Block(addr, delta, want) && Canonical(va)
    requires Found(m1, cleared, lev, pool, root, addr, f, i, want)
    ensures f in cleared && |cleared[f]| == ENTRIES && i < ENTRIES && f in lev && 1 <= lev[f] <= want
    ensures Translate(Write(cleared, f, i, LeafEntry(addr, delta, perm, want)), root, va)
            == if !(addr <= va < addr + Unit(lev[f])) then Translate(cleared, root, va)
               else if lev[f] == want then Requested(va, delta, perm, want)
               else Requested(va, delta, perm | PTE_PS, 1)
    ensures Same(lev[f], addr, va) <==> addr <= va < addr + Unit(lev[f])
  {
    FoundLevel(m1, cleared, lev, pool, root, addr, f, i, want);
    hide Index, Lookup, Node, AlignDown, LeafEntry, IsLeaf, Meaning, Good, Block, Found, Requested, Same;
    WrittenLookup(m1, cleared, lev, pool, root, addr, delta, perm, want, f, i, va);
    if addr <= va < addr + Unit(lev[f]) { LeafMeaning(addr, delta, perm, want, lev[f], va); }
  }

  lemma MeaningInBlock(m0: Memory, root: nat, addr: nat, va: nat, delta: int, perm: bv12, want: nat, level: nat)
    requires Block(addr, delta, want) && Canonical(va) && addr <= va < addr + Unit(want)
    requires level == (if Stuck(m0, root, addr, want) then 1 else want)
    ensures PieceMeaning(m0, root, va, delta, perm, want)
            == if va >= addr + Unit(level) then Translate(m0, root, va)
               else if level == want then Requested(va, delta, perm, want)
               else Requested(va, delta, perm | PTE_PS, 1)
  {
    NotStuckByPages(m0, root, addr, want);
    BlockContains(want, addr, va);
    SlotIsBlock(want, addr, va);
    StuckTogether(m0, root, addr, va, want);
    hide Stuck, Translate, Requested, Same;
  }

  lemma NotStuckByPages(mem: Memory, root: nat, va: nat, want: nat)
    ensures want <= 1 ==> !Stuck(mem, root, va, want)
  {
  }

  lemma FoundLevel(m1: Memory, cleared: Memory, lev: map<nat, nat>, pool: set<nat>, root: nat, addr: nat,
                   f: nat, i: nat, want: nat)
    requires Found(m1, cleared, lev, pool, root, addr, f, i, want)
    ensures f in lev && lev[f] == (if Stuck(m1, root, addr, want) then 1 else want)
  {
  }

  /** Outside the slot written, the cleared memory translates as the pieces so far say. */
  lemma FoundElsewhere(m0: Memory, m1: Memory, cleared: Memory, lev: map<nat, nat>, pool: set<nat>, root: nat,
                       start: nat, addr: nat, delta: int, perm: bv12, want: nat, f: nat, i: nat, va: nat)
    requires Canonical(va) && Piece(m0, m1, root, start, addr, delta, perm, want)
    requires Found(m1, cleared, lev, pool, root, addr, f, i, want) && !Same(lev[f], addr, va)
    ensures Translate(cleared, root, va)
            == if start <= va < addr then PieceMeaning(m0, root, va, delta, perm, want) else Translate(m0, root, va)
  {
    hide Translate, PieceMeaning, Same;
  }

  lemma GrownElsewhere(m0: Memory, m1: Memory, cleared: Memory, lev: map<nat, nat>, pool: set<nat>, root: nat,
                       start: nat, addr: nat, delta: int, perm: bv12, want: nat, f: nat, i: nat, va: nat)
    requires Block(addr, delta, want) && start <= addr && AlignDown(want, start) == start && Canonical(va)
    requires Piece(m0, m1, root, start, addr, delta, perm, want)
    requires Found(m1, cleared, lev, pool, root, addr, f, i, want)
    ensures f in cleared && |cleared[f]| == ENTRIES && i < ENTRIES
    ensures var m2 := Write(cleared, f, i, LeafEntry(addr, delta, perm, want));
      && (Apart(3, va, start, addr + Unit(want)) ==> Lookup(m2, root, 4, va) == Lookup(m0, root, 4, va))
      && (Apart(2, va, start, addr + Unit(want)) ==> (Huge(m2, root, va) <==> Huge(m0, root, va)))
  {
    hide Index, Lookup, Node, LeafEntry, IsLeaf, Aligned, WellFormed, PieceMeaning, Translate, Meaning, Same, AlignDown;
    var level := lev[f];
    WrittenLookup(m1, cleared, lev, pool, root, addr, delta, perm, want, f, i, va);
    SlotIsBlock(2, addr, va);
    SlotIsBlock(3, addr, va);
  }

  // ---------- Mappable pieces ----------

  /** [start, end) consists of whole blocks of `level` inside one canonical half, with an aligned offset. */
  predicate Mappable(start: nat, end: nat, delta: int, level: nat) {
    && 1 <= level <= 3 && start <= end && AlignDown(level, start) == start && AlignDown(level, end) == end
    && (end <= 0x8000_0000_0000 || (W64 - 0x8000_0000_0000 <= start && end < W64))
    && delta <= start && end - delta <= W64 && delta % Unit(level) == 0
  }

  lemma MappableBlock(start: nat, end: nat, delta: int, level: nat, addr: nat)
    requires Mappable(start, end, delta, level) && start <= addr < end && AlignDown(level, addr) == addr
    ensures addr + Unit(level) <= end && Block(addr, delta, level) && (addr - delta) % Unit(level) == 0
    ensures AlignDown(level, addr + Unit(level)) == addr + Unit(level)
  {
    hide AlignDown;
    BlockContains(level, addr, end);
    AlignedRemainder(level, addr);
    DownIs(level, addr / Unit(level) + 1, addr + Unit(level));
    ImageAligned(addr, delta, level);
  }

  lemma AlignIsEnd(level: nat, end: nat)
    requires 1 <= level <= 3 && AlignDown(level, end) == end && end < W64
    ensures Align(level, end) == end
  {
    hide AlignDown;
    AlignedRemainder(level, end);
    TopBlock(level, end);
    BlockContains(level, end, end + Unit(level) - 1);
  }

  lemma TopBlock(level: nat, end: nat)
    requires 1 <= level <= 3 && end % Unit(level) == 0 && end < W64
    ensures end + Unit(level) <= W64
  {
  }
}
