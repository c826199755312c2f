/** What the mapping operations promise their callers, and exactly when they keep the promise. */
module RegionTheorems {
  import opened Machine
  import opened Division
  import opened PageTable
  import opened PageRegion
  import opened PagePiece
  import opened PageRights
  import opened PageMirror
  import opened RegionCuts
  import opened RegionMirror
  import opened BootTables

  /** Every address of the page-rounded region translates to itself minus the offset, with the attributes asked
      for (or faults, when the region is cleared). */
  ghost predicate AsRequested(m1: Memory, root: nat, c: Cuts, gb: bool, delta: int, perm: bv12) {
    forall va: nat :: Canonical(va) && c.s <= va < c.e ==>
      Translate(m1, root, va) == Requested(va, delta, perm, LeafLevel(c, gb, va))
  }

  /** No address that gets a 2M or 1G leaf lay under a leaf that large. */
  ghost predicate NoneStuck(m0: Memory, root: nat, c: Cuts, gb: bool) {
    forall va: nat :: Canonical(va) && c.s <= va < c.e ==> !Stuck(m0, root, va, LeafLevel(c, gb, va))
  }

  /** The whole block of an address that gets a large leaf lies in the piece of that leaf size. */
  lemma BlockInPiece(vaddr: nat, paddr: nat, size: nat, gb: bool, va: nat, x: nat)
    requires RegionOk(vaddr, paddr, size, gb)
    requires var c := CutsOf(vaddr, size); c.s <= va < c.e && LeafLevel(c, gb, va) >= 2
    requires var level := LeafLevel(CutsOf(vaddr, size), gb, va);
             AlignDown(level, va) <= x < AlignDown(level, va) + Unit(level)
    ensures var c := CutsOf(vaddr, size);
            c.s <= x < c.e && LeafLevel(c, gb, x) == LeafLevel(c, gb, va) && (Canonical(va) ==> Canonical(x))
  {
    hide AlignDown, Align, CutsOf, NoWrap;
    var c := CutsOf(vaddr, size);
    var level := LeafLevel(c, gb, va);
    RegionOrdered(vaddr, paddr, size, gb);
    CutsAligned(vaddr, size);
    if level == 3 {
      Between(3, c.s2, c.e2, va);
    } else if !Has1G(c, gb) {
      Between(2, c.s1, c.e1, va);
    } else if va < c.s2 {
      Between(2, c.s1, c.s2, va);
    } else {
      Between(2, c.e2, c.e1, va);
    }
  }

  lemma Between(level: nat, lo: nat, hi: nat, va: nat)
    requires 1 <= level <= 3 && AlignDown(level, lo) == lo && AlignDown(level, hi) == hi && lo <= va < hi
    ensures lo <= AlignDown(level, va) && AlignDown(level, va) + Unit(level) <= hi
  {
    var b := AlignedDown(level, va);
    DownMonotone(level, lo, va);
    BlockContains(level, b, hi);
  }

  /** The mapping theorem: nothing outside the region and, while tables are shared, its mirror changes, and the region
      is mapped as requested exactly when no address that gets a 2M or 1G leaf lay under a leaf that large. */
  lemma MapsAsRequestedIff(m0: Memory, m1: Memory, root: nat, shared: bool, vaddr: nat, paddr: nat, size: nat,
      gb: bool, perm: bv12)
    requires RegionOk(vaddr, paddr, size, gb)
    requires RegionDone(m0, m1, root, shared, CutsOf(vaddr, size), gb, vaddr - paddr, perm)
    ensures KeptApart(m0, m1, root, shared, CutsOf(vaddr, size).s, CutsOf(vaddr, size).e)
    ensures AsRequested(m1, root, CutsOf(vaddr, size), gb, vaddr - paddr, perm)
            <==> NoneStuck(m0, root, CutsOf(vaddr, size), gb)
  {
    hide Translate, Requested, AlignDown, Align, Lookup, Stuck, RegionOk, CutsOf, Twin, LeafLevel;
    var c := CutsOf(vaddr, size);
    if AsRequested(m1, root, c, gb, vaddr - paddr, perm) {
      forall va: nat | Canonical(va) && c.s <= va < c.e ensures !Stuck(m0, root, va, LeafLevel(c, gb, va)) {
        if Stuck(m0, root, va, LeafLevel(c, gb, va)) {
          StuckIsNotAsRequested(m0, m1, root, shared, vaddr, paddr, size, gb, perm, va);
        }
      }
    }
  }

  /** Under an old large leaf one of the first two pages of the block is not as requested: the first keeps the
      page-size bit when something is mapped, and the second is still mapped when the region is cleared. */
  lemma StuckIsNotAsRequested(m0: Memory, m1: Memory, root: nat, shared: bool, vaddr: nat, paddr: nat, size: nat,
      gb: bool, perm: bv12, va: nat)
    requires RegionOk(vaddr, paddr, size, gb)
    requires RegionDone(m0, m1, root, shared, CutsOf(vaddr, size), gb, vaddr - paddr, perm)
    requires var c := CutsOf(vaddr, size); Canonical(va) && c.s <= va < c.e && Stuck(m0, root, va, LeafLevel(c, gb, va))
    ensures !AsRequested(m1, root, CutsOf(vaddr, size), gb, vaddr - paddr, perm)
  {
    hide *;
    var c, delta := CutsOf(vaddr, size), vaddr - paddr;
    var want := LeafLevel(c, gb, va);
    LeafLevelIs(c, gb, va);
    StuckIsMapped(m0, root, va, want);
    var x := StuckDiffers(m0, root, va, delta, perm, want);
    BlockInPiece(vaddr, paddr, size, gb, va, x);
    StuckStays(m0, root, va, x, delta, perm, want);
    DoneInRegion(m0, m1, root, shared, c, gb, delta, perm, x);
    NotAsRequested(m1, root, c, gb, delta, perm, x);
  }

  /** The page of the block of `va` that is not as requested, if it is under the same leaf. */
  lemma StuckDiffers(m0: Memory, root: nat, va: nat, delta: int, perm: bv12, want: nat) returns (x: nat)
    requires Stuck(m0, root, va, want) && want <= 3
    ensures AlignDown(want, va) <= x < AlignDown(want, va) + Unit(want)
    ensures Stuck(m0, root, x, want) ==> PieceMeaning(m0, root, x, delta, perm, want) != Requested(x, delta, perm, want)
  {
    StuckIsMapped(m0, root, va, want);
    hide Stuck, AlignDown, PieceMeaning, Requested, Unit;
    var b := AlignedDown(want, va);
    x := if perm & PTE_P != 0 then b else b + 0x1000;
    BlockContains(want, b, x);
    if Stuck(m0, root, x, want) { StuckPage(m0, root, b, x, delta, perm, want); }
  }

  lemma StuckStays(m0: Memory, root: nat, va: nat, x: nat, delta: int, perm: bv12, want: nat)
    requires Stuck(m0, root, va, want) && 2 <= want <= 3 && Canonical(va) && Canonical(x)
    requires AlignDown(want, va) <= x < AlignDown(want, va) + Unit(want)
    ensures Stuck(m0, root, x, want)
  {
    hide *;
    var b := AlignedDown(want, va);
    BlockContains(want, b, x);
    SlotIsBlock(want, va, x);
    StuckTogether(m0, root, va, x, want);
  }

  lemma NotAsRequested(m1: Memory, root: nat, c: Cuts, gb: bool, delta: int, perm: bv12, x: nat)
    requires Canonical(x) && c.s <= x < c.e
    requires Translate(m1, root, x) != Requested(x, delta, perm, LeafLevel(c, gb, x))
    ensures !AsRequested(m1, root, c, gb, delta, perm)
  {
    hide Translate, Requested, LeafLevel, Canonical;
  }

  lemma StuckPage(m0: Memory, root: nat, b: nat, x: nat, delta: int, perm: bv12, want: nat)
    requires Stuck(m0, root, x, want) && AlignDown(want, x) == b && x == if perm & PTE_P != 0 then b else b + 0x1000
    ensures PieceMeaning(m0, root, x, delta, perm, want) != Requested(x, delta, perm, want)
  {
    StuckIsMapped(m0, root, x, want);
    hide AlignDown, Translate;
    PermBits(perm);
  }

  lemma StuckIsMapped(mem: Memory, root: nat, va: nat, want: nat)
    requires Stuck(mem, root, va, want)
    ensures want >= 2 && Unit(want) > 0x1000 && Translate(mem, root, va) != Fault
  {
  }

  // ---------- The mirror ----------

  /** The part of the region that is mirrored translates already as mapping it makes it. */
  ghost predicate MirrorAsMapped(m0: Memory, root: nat, c: Cuts, gb: bool, delta: int, perm: bv12) {
    forall va: nat :: Canonical(va) && c.s <= va < c.e && Twin(va) != va ==>
      Translate(m0, root, va) == PieceMeaning(m0, root, va, delta, perm, LeafLevel(c, gb, va))
  }

  /** While tables are shared, mapping a region leaves everything outside it alone exactly when its mirrored part
      translated already as it does afterwards. */
  lemma OutsideKeptIff(m0: Memory, m1: Memory, root: nat, shared: bool, vaddr: nat, paddr: nat, size: nat, gb: bool,
      perm: bv12)
    requires RegionOk(vaddr, paddr, size, gb) && (shared ==> Sharing(m0, root, Some(0)))
    requires RegionDone(m0, m1, root, shared, CutsOf(vaddr, size), gb, vaddr - paddr, perm)
    ensures KeptOutside(m0, m1, root, CutsOf(vaddr, size).s, CutsOf(vaddr, size).e)
            <==> (shared ==> MirrorAsMapped(m0, root, CutsOf(vaddr, size), gb, vaddr - paddr, perm))
  {
    hide Translate, PieceMeaning, CutsOf, RegionOk, LeafLevel, Canonical, Twin, RegionDone, Sharing;
    var c, delta := CutsOf(vaddr, size), vaddr - paddr;
    if KeptOutside(m0, m1, root, c.s, c.e) && shared {
      forall va: nat | Canonical(va) && c.s <= va < c.e && Twin(va) != va
        ensures Translate(m0, root, va) == PieceMeaning(m0, root, va, delta, perm, LeafLevel(c, gb, va))
      {
        MirrorChanges(m0, m1, root, vaddr, paddr, size, gb, perm, va);
      }
    }
    if shared ==> MirrorAsMapped(m0, root, c, gb, delta, perm) {
      forall va: nat | Canonical(va) && !(c.s <= va < c.e)
        ensures Translate(m1, root, va) == Translate(m0, root, va)
      {
        ElsewhereKept(m0, m1, root, shared, c, gb, delta, perm, va);
        if Translate(m1, root, va) != Translate(m0, root, va) {
          MirrorChanges(m0, m1, root, vaddr, paddr, size, gb, perm, Twin(va));
        }
      }
    }
  }

  /** An address outside the region changes as the address of the region that it mirrors does. */
  lemma MirrorChanges(m0: Memory, m1: Memory, root: nat, vaddr: nat, paddr: nat, size: nat, gb: bool, perm: bv12,
      va: nat)
    requires RegionOk(vaddr, paddr, size, gb) && Sharing(m0, root, Some(0))
    requires RegionDone(m0, m1, root, true, CutsOf(vaddr, size), gb, vaddr - paddr, perm)
    requires var c := CutsOf(vaddr, size); Canonical(va) && c.s <= va < c.e && Twin(va) != va
    ensures var c := CutsOf(vaddr, size);
            && Canonical(Twin(va)) && !(c.s <= Twin(va) < c.e)
            && (Translate(m1, root, Twin(va)) == Translate(m0, root, Twin(va))
                <==> Translate(m0, root, va) == PieceMeaning(m0, root, va, vaddr - paddr, perm, LeafLevel(c, gb, va)))
  {
    hide Translate, PieceMeaning, CutsOf, RegionOk, LeafLevel, Canonical, Twin, Effective, IsTable;
    TwinApart(vaddr, paddr, size, gb, va);
    SharedTableMirrors(m0, root, va);
  }

  lemma ElsewhereKept(m0: Memory, m1: Memory, root: nat, shared: bool, c: Cuts, gb: bool, delta: int, perm: bv12,
      va: nat)
    requires RegionDone(m0, m1, root, shared, c, gb, delta, perm) && Canonical(va) && !(c.s <= va < c.e)
    ensures Translate(m1, root, va) == Translate(m0, root, va)
            || (shared && Canonical(Twin(va)) && c.s <= Twin(va) < c.e && Twin(Twin(va)) == va != Twin(va))
  {
    hide Translate, PieceMeaning, LeafLevel, Canonical, Twin;
    TwinTwin(va);
  }

  lemma TwinTwin(va: nat)
    requires Canonical(va)
    ensures Canonical(Twin(va)) && Twin(Twin(va)) == va
  {
  }

  /** A region lies in one half of the address space, and its mirror in the other. */
  lemma TwinApart(vaddr: nat, paddr: nat, size: nat, gb: bool, va: nat)
    requires RegionOk(vaddr, paddr, size, gb) && Canonical(va) && Twin(va) != va
    requires CutsOf(vaddr, size).s <= va < CutsOf(vaddr, size).e
    ensures Canonical(Twin(va)) && !(CutsOf(vaddr, size).s <= Twin(va) < CutsOf(vaddr, size).e)
    ensures Twin(Twin(va)) == va
  {
    hide CutsOf, NoWrap;
  }

  const MP_BASE: nat := 0x8000

  /** Clearing the start-up page of the other processors, as `arch_smp_init` does, over the boot tables: the kernel's
      own mapping of the same bytes is lost. */
  lemma ClearingLowUnmapsDirect(m1: Memory, r: nat, p: nat, d: nat, gb: bool)
    requires r != p && p != d && d != r
    requires RegionDone(BootMemory(r, p, d, true), m1, r, true, CutsOf(MP_BASE, 0x1000), gb, MP_BASE, 0)
    ensures RegionOk(MP_BASE, 0, 0x1000, gb)
    ensures CutsOf(MP_BASE, 0x1000).s == MP_BASE && CutsOf(MP_BASE, 0x1000).e == 0x9000
    ensures Translate(BootMemory(r, p, d, true), r, KERN_BASE + MP_BASE) == To(MP_BASE, PTE_P | PTE_W)
    ensures Translate(m1, r, KERN_BASE + MP_BASE) == Fault
    ensures !KeptOutside(BootMemory(r, p, d, true), m1, r, MP_BASE, 0x9000)
  {
    var m0, va := BootMemory(r, p, d, true), KERN_BASE + MP_BASE;
    assert CutsOf(MP_BASE, 0x1000) == Cuts(0x8000, 0x20_0000, 0x4000_0000, 0, 0, 0x9000);
    BootMaps(r, p, d, MP_BASE);
    hide BootMemory, Translate, Lookup;
    BootIsKept(r, p, d, {});
    SharedTableMirrors(m0, r, MP_BASE);
    assert Canonical(va) && Twin(MP_BASE) == va && Home(true, va, MP_BASE, 0x9000) == MP_BASE;
    assert PieceMeaning(m0, r, MP_BASE, MP_BASE, 0, 1) == Fault;
  }

  // ---------- Access rights ----------

  /** The access asked for, where leaves of level `want` are used. */
  function RequestedAccess(va: nat, delta: int, perm: bv12, want: nat): Access {
    match Requested(va, delta, perm, want)
    case Fault => NoAccess
    case To(pa, attr) => Access(pa, attr, Rights(perm & PTE_W != 0, perm & PTE_U != 0))
  }

  ghost predicate AccessAsRequested(m1: Memory, root: nat, c: Cuts, gb: bool, delta: int, perm: bv12) {
    forall va: nat :: Canonical(va) && c.s <= va < c.e ==>
      Effective(m1, root, va) == RequestedAccess(va, delta, perm, LeafLevel(c, gb, va))
  }

  /** Over plain tables, which the boot code makes and the mapping code keeps, no access outside the region and its
      mirror changes, and the region grants the accesses asked for exactly when no large leaf was in the way and none
      was asked for users: under tables without PTE_U a leaf with PTE_U stays out of their reach. */
  lemma AccessAsRequestedIff(m0: Memory, l0: map<nat, nat>, p0: set<nat>, h0: Option<nat>,
      m1: Memory, l1: map<nat, nat>, p1: set<nat>, h1: Option<nat>,
      root: nat, vaddr: nat, paddr: nat, size: nat, gb: bool, perm: bv12)
    requires RegionOk(vaddr, paddr, size, gb) && size > 0
    requires RegionDone(m0, m1, root, h1.Some?, CutsOf(vaddr, size), gb, vaddr - paddr, perm)
    requires Kept(m0, l0, p0, root, h0) && Kept(m1, l1, p1, root, h1) && Plain(m0, l0) && TablesFrom(m0, l0, m1, l1)
    ensures Plain(m1, l1)
    ensures var c := CutsOf(vaddr, size);
            forall va: nat :: Canonical(va) && Off(h1.Some?, va, c.s, c.e) ==>
              Effective(m1, root, va) == Effective(m0, root, va)
    ensures AccessAsRequested(m1, root, CutsOf(vaddr, size), gb, vaddr - paddr, perm)
            <==> NoneStuck(m0, root, CutsOf(vaddr, size), gb) && (perm & PTE_P != 0 ==> perm & PTE_U == 0)
  {
    hide RegionOk, RegionDone, CutsOf, Kept, Plain, TablesFrom, Translate, Effective, Requested, KernelAccess;
    hide RequestedAccess, LeafLevel, NoneStuck, Off;
    var c := CutsOf(vaddr, size);
    RegionNotEmpty(vaddr, paddr, size, gb);
    MapsAsRequestedIff(m0, m1, root, h1.Some?, vaddr, paddr, size, gb, perm);
    PlainStays(m0, l0, m1, l1);
    forall va: nat | Canonical(va)
      ensures Effective(m0, root, va) == KernelAccess(Translate(m0, root, va))
      ensures Effective(m1, root, va) == KernelAccess(Translate(m1, root, va))
      ensures Effective(m1, root, va) == RequestedAccess(va, vaddr - paddr, perm, LeafLevel(c, gb, va))
              <==> Translate(m1, root, va) == Requested(va, vaddr - paddr, perm, LeafLevel(c, gb, va))
                   && (perm & PTE_P != 0 ==> perm & PTE_U == 0)
    {
      KeptAccess(m0, l0, p0, root, h0, va);
      KeptAccess(m1, l1, p1, root, h1, va);
      AccessMatches(Translate(m1, root, va), va, vaddr - paddr, perm, LeafLevel(c, gb, va));
    }
  }

  /** A page asked for users over the boot tables: it is mapped, and users cannot reach it. */
  lemma UserPageStaysClosed(r: nat, p: nat, d: nat, free: set<nat>, m1: Memory, l1: map<nat, nat>, p1: set<nat>,
      h1: Option<nat>, gb: bool)
    requires r != p && p != d && d != r && free !! {r, p, d} && h1.Some?
    requires var m0, l0, c := BootMemory(r, p, d, true), map[r := 4, p := 3, d := 2], CutsOf(SLOT, 0x1000);
             && RegionDone(m0, m1, r, true, c, gb, SLOT - 0x5000, PTE_P | PTE_W | PTE_U)
             && Kept(m1, l1, p1, r, h1) && TablesFrom(m0, l0, m1, l1)
    ensures RegionOk(SLOT, 0x5000, 0x1000, gb)
    ensures Effective(m1, r, SLOT) == Access(0x5000, PTE_P | PTE_W | PTE_U, Rights(true, false))
    ensures RequestedAccess(SLOT, SLOT - 0x5000, PTE_P | PTE_W | PTE_U, 1)
            == Access(0x5000, PTE_P | PTE_W | PTE_U, Rights(true, true))
  {
    var m0, l0 := BootMemory(r, p, d, true), map[r := 4, p := 3, d := 2];
    assert CutsOf(SLOT, 0x1000) == Cuts(SLOT, SLOT, SLOT, SLOT, SLOT, SLOT + 0x1000);
    BootIsKept(r, p, d, free);
    hide Kept, TablesFrom, Plain, Lookup, BootMemory, Translate, Effective;
    PlainStays(m0, l0, m1, l1);
    KeptAccess(m1, l1, p1, r, h1, SLOT);
    assert Translate(m1, r, SLOT) == PieceMeaning(m0, r, SLOT, SLOT - 0x5000, PTE_P | PTE_W | PTE_U, 1);
  }

  lemma AccessMatches(t: Translation, va: nat, delta: int, perm: bv12, want: nat)
    ensures KernelAccess(t) == RequestedAccess(va, delta, perm, want)
            <==> t == Requested(va, delta, perm, want) && (perm & PTE_P != 0 ==> perm & PTE_U == 0)
  {
    LeafAttrKeepsWrite(want, perm);
    hide LeafAttr;
  }

  /** A region of at least one byte has a page, which is canonical. */
  lemma RegionNotEmpty(vaddr: nat, paddr: nat, size: nat, gb: bool)
    requires RegionOk(vaddr, paddr, size, gb) && size > 0
    ensures var c := CutsOf(vaddr, size); c.s < c.e && Canonical(c.s)
  {
    hide AlignDown, Align;
    RegionOrdered(vaddr, paddr, size, gb);
    Rounding(1, vaddr + size);
  }

  /** A 2M leaf of frame 512 at address 0, in tables 0 (root), 1 and 2. */
  function OneLargeLeaf(): Memory {
    map[0 := Table(Entry(1, PTE_P | PTE_W)),
        1 := Table(Entry(2, PTE_P | PTE_W)),
        2 := Table(Entry(512, PTE_P | PTE_W | PTE_PS))]
  }

  function Table(first: Entry): (t: seq<Entry>)
    ensures |t| == ENTRIES
  {
    seq(ENTRIES, i => if i == 0 then first else ZERO)
  }

  lemma OneLargeLeafIsTree()
    ensures WellFormed(OneLargeLeaf(), map[0 := 4, 1 := 3, 2 := 2], 0)
  {
    var m, lev := OneLargeLeaf(), map[0 := 4, 1 := 3, 2 := 2];
    forall f, i | f in lev && 0 <= i < ENTRIES
      ensures Aligned(m[f][i], lev[f])
      ensures IsTable(m[f][i], lev[f]) <==> i == 0 && f != 2
      ensures IsTable(m[f][i], lev[f]) ==> m[f][i].frame == f + 1
    {
      assert m[f][i] == if i > 0 then ZERO else if f == 0 then Entry(1, PTE_P | PTE_W)
                        else if f == 1 then Entry(2, PTE_P | PTE_W)
                        else Entry(512, PTE_P | PTE_W | PTE_PS);
    }
    hide IsTable, IsLeaf, Aligned, OneLargeLeaf;
  }

  lemma OneLargeLeafMaps()
    ensures Lookup(OneLargeLeaf(), 0, 4, 0x1000) == Mapped(2, Entry(512, PTE_P | PTE_W | PTE_PS))
    ensures Lookup(OneLargeLeaf(), 0, 4, 0) == Mapped(2, Entry(512, PTE_P | PTE_W | PTE_PS))
    ensures Translate(OneLargeLeaf(), 0, 0x1000) == To(0x20_1000, PTE_P | PTE_W)
  {
    var m0 := OneLargeLeaf();
    assert IsTable(Entry(1, PTE_P | PTE_W), 4) && IsTable(Entry(2, PTE_P | PTE_W), 3);
    assert IsLeaf(Entry(512, PTE_P | PTE_W | PTE_PS), 2);
    assert Lookup(m0, 0, 4, 0x1000) == Lookup(m0, 1, 3, 0x1000) == Lookup(m0, 2, 2, 0x1000);
    assert Lookup(m0, 0, 4, 0) == Lookup(m0, 1, 3, 0) == Lookup(m0, 2, 2, 0);
  }

  /** Mapping [0, 2M) elsewhere over that leaf leaves all but its first page where it was, and the first page
      with the memory-type bit set. */
  lemma RemapOfLargeLeafFails(m1: Memory, gb: bool)
    requires RegionDone(OneLargeLeaf(), m1, 0, false, CutsOf(0, 0x20_0000), gb, -0x40_0000, PTE_P | PTE_W)
    ensures WellFormed(OneLargeLeaf(), map[0 := 4, 1 := 3, 2 := 2], 0) && RegionOk(0, 0x40_0000, 0x20_0000, gb)
    ensures Translate(m1, 0, 0x1000) == To(0x20_1000, PTE_P | PTE_W)
    ensures Translate(m1, 0, 0) == To(0x40_0000, PTE_P | PTE_W | PTE_PS)
    ensures Requested(0x1000, -0x40_0000, PTE_P | PTE_W, 2) == To(0x40_1000, PTE_P | PTE_W)
    ensures !AsRequested(m1, 0, CutsOf(0, 0x20_0000), gb, -0x40_0000, PTE_P | PTE_W)
  {
    hide WellFormed, Lookup;
    OneLargeLeafIsTree();
    OneLargeLeafMaps();
    assert CutsOf(0, 0x20_0000) == Cuts(0, 0, 0, 0, 0x20_0000, 0x20_0000);
    assert Canonical(0x1000) && Canonical(0);
  }

  /** A large leaf maps its block with the block's own offset exactly when that offset is a multiple of its size. */
  lemma LeafOffsetIff(addr: nat, delta: int, perm: bv12, level: nat, va: nat)
    requires 2 <= level <= 3 && AlignDown(level, addr) == addr && addr <= va < addr + Unit(level)
    requires delta <= addr && delta % 0x1000 == 0
    ensures PhysicalOf(level, LeafEntry(addr, delta, perm, level), va) == va - delta <==> delta % Unit(level) == 0
  {
    hide AlignDown;
    AlignedRemainder(level, addr);
    BlockOffset(addr, level, va);
    var u := Unit(level);
    var frame := (addr - delta) / PGSIZE;
    assert frame * 0x1000 == addr - delta by {
      FinerAlignment(level, 1, addr);
      AlignedRemainder(1, addr);
      DivisionIsUnique(0x1000, (addr - delta) / 0x1000, (addr - delta) % 0x1000, addr / 0x1000 - delta / 0x1000, 0);
    }
    var q := if level == 2 then frame / 512 else frame / 0x4_0000;
    assert PhysicalOf(level, LeafEntry(addr, delta, perm, level), va) == q * u + (va - addr);
    if q * u == addr - delta {
      DivisionIsUnique(u, delta / u, delta % u, addr / u - q, 0);
    }
    if delta % u == 0 {
      DivisionIsUnique(u, (addr - delta) / u, (addr - delta) % u, addr / u - delta / u, 0);
      if level == 2 { FrameOf2(addr - delta); } else { FrameOf3(addr - delta); }
    }
  }
}
