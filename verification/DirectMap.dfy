/** Regions of the kernel's direct mapping, where physical address x appears at KERN_BASE + x. */
module DirectMap {
  import opened Machine
  import opened Division
  import opened PageTable
  import opened PageRegion
  import opened PageWalk
  import opened PageMirror
  import opened BootTables
  import opened RegionCuts
  import opened RegionMirror

  /** The end of what the mapping code can map there without a rounding that wraps. */
  const DIRECT_END: nat := 0x7FFF_8000_0000
  const PTE_G: bv12 := 0x100

  function PageOf(phy: nat): nat { phy / PGSIZE * PGSIZE }

  lemma DirectRegionOk(phy: nat, sz: nat, gb: bool)
    requires phy + sz <= DIRECT_END
    ensures RegionOk(KERN_BASE + PageOf(phy), PageOf(phy), sz, gb) && PageOf(phy) + phy % PGSIZE == phy
    ensures var c := CutsOf(KERN_BASE + PageOf(phy), sz);
            c.s == KERN_BASE + PageOf(phy) && c.e == c.s + AlignDown(1, sz + 0xFFF)
    ensures Canonical(KERN_BASE + PageOf(phy))
  {
    var page, va := PageOf(phy), KERN_BASE + PageOf(phy);
    var c := CutsOf(va, sz);
    assert KERN_BASE % 0x4000_0000 == 0 && KERN_BASE % 0x20_0000 == 0 && KERN_BASE % 0x1000 == 0;
    assert va % 0x1000 == 0 by { RemainderIs(va, 0x1000, KERN_BASE / 0x1000 + phy / 0x1000, 0); }
    assert AlignDown(1, va) == va;
    RoundsPast(va, sz);
    hide Align;
  }

  /** From a page boundary on, rounding the end is rounding the size. */
  lemma RoundsPast(va: nat, sz: nat)
    requires va % 0x1000 == 0 && va + sz + 0xFFF < W64
    ensures Align(1, va + sz) == va + AlignDown(1, sz + 0xFFF)
  {
    var q := (sz + 0xFFF) / 0x1000;
    RemainderIs(va + sz + 0xFFF, 0x1000, va / 0x1000 + q, (sz + 0xFFF) % 0x1000);
  }

  /** Physical address x is where the direct mapping should have it. */
  predicate DirectAt(mem: Memory, root: nat, x: nat) {
    Translate(mem, root, KERN_BASE + x).To? && Translate(mem, root, KERN_BASE + x).pa == x
  }

  /** What `arch_kmap` is for: the bytes asked for can be reached. */
  ghost predicate DirectOver(mem: Memory, root: nat, from: nat, end: nat) {
    forall x: nat :: from <= x < end ==> DirectAt(mem, root, x)
  }

  /** Where the mapping that `arch_kmap` makes ends: the size is counted from the start of the page. */
  function MappedEnd(phy: nat, sz: nat): nat { PageOf(phy) + AlignDown(1, sz + 0xFFF) }

  /** The mapping reaches to the end of the bytes asked for exactly when they take no more pages than their number
      alone requires. */
  lemma MappedEndIff(phy: nat, sz: nat)
    ensures phy + sz <= MappedEnd(phy, sz) <==> phy % PGSIZE + sz <= AlignDown(1, sz + 0xFFF)
  {
  }

  /** One byte of those asked for, when `arch_kmap` maps over no large leaf. */
  lemma KmapAt(m0: Memory, m1: Memory, root: nat, shared: bool, phy: nat, sz: nat, gb: bool, x: nat)
    requires phy + sz <= DIRECT_END && phy <= x < phy + sz
    requires RegionDone(m0, m1, root, shared, CutsOf(KERN_BASE + PageOf(phy), sz), gb, KERN_BASE, PTE_P | PTE_W | PTE_G)
    requires var c := CutsOf(KERN_BASE + PageOf(phy), sz);
             x < MappedEnd(phy, sz) ==> !Stuck(m0, root, KERN_BASE + x, LeafLevel(c, gb, KERN_BASE + x))
    ensures DirectAt(m1, root, x) <==> x < MappedEnd(phy, sz) || DirectAt(m0, root, x)
  {
    hide *;
    var c, va := CutsOf(KERN_BASE + PageOf(phy), sz), KERN_BASE + x;
    DirectRegionOk(phy, sz, gb);
    ByteBounds(phy, sz, x, c);
    if x < MappedEnd(phy, sz) {
      DoneInRegion(m0, m1, root, shared, c, gb, KERN_BASE, PTE_P | PTE_W | PTE_G, va);
      MappedDirect(m0, m1, root, x, LeafLevel(c, gb, va));
    } else {
      DoneElsewhere(m0, m1, root, shared, c, gb, KERN_BASE, PTE_P | PTE_W | PTE_G, va);
      SameDirect(m0, m1, root, x);
    }
  }

  lemma ByteBounds(phy: nat, sz: nat, x: nat, c: Cuts)
    requires phy + sz <= DIRECT_END && phy <= x < phy + sz
    requires c.s == KERN_BASE + PageOf(phy) && c.e == c.s + AlignDown(1, sz + 0xFFF)
    ensures Canonical(KERN_BASE + x) && c.s <= KERN_BASE + x && (x < MappedEnd(phy, sz) <==> KERN_BASE + x < c.e)
    ensures x >= MappedEnd(phy, sz) ==> Off(true, KERN_BASE + x, c.s, c.e) && Off(false, KERN_BASE + x, c.s, c.e)
  {
    hide AlignDown;
  }

  lemma MappedDirect(m0: Memory, m1: Memory, root: nat, x: nat, want: nat)
    requires !Stuck(m0, root, KERN_BASE + x, want)
    requires Translate(m1, root, KERN_BASE + x)
             == PieceMeaning(m0, root, KERN_BASE + x, KERN_BASE, PTE_P | PTE_W | PTE_G, want)
    ensures DirectAt(m1, root, x)
  {
    hide Translate, Stuck, LeafAttr;
  }

  lemma SameDirect(m0: Memory, m1: Memory, root: nat, x: nat)
    requires Translate(m1, root, KERN_BASE + x) == Translate(m0, root, KERN_BASE + x)
    ensures DirectAt(m1, root, x) <==> DirectAt(m0, root, x)
  {
    hide Translate;
  }

  /** When `arch_kmap` maps at least a byte, over no large leaf, the bytes asked for can be reached exactly when those
      behind the mapping it makes could be before. */
  lemma KmapReachesIff(m0: Memory, m1: Memory, root: nat, shared: bool, phy: nat, sz: nat, gb: bool)
    requires 0 < sz && phy + sz <= DIRECT_END
    requires var c := CutsOf(KERN_BASE + PageOf(phy), sz);
             && RegionDone(m0, m1, root, shared, c, gb, KERN_BASE, PTE_P | PTE_W | PTE_G)
             && forall va: nat :: c.s <= va < c.e ==> !Stuck(m0, root, va, LeafLevel(c, gb, va))
    ensures DirectOver(m1, root, phy, phy + sz) <==> DirectOver(m0, root, MappedEnd(phy, sz), phy + sz)
  {
    DirectRegionOk(phy, sz, gb);
    assert MappedEnd(phy, sz) > phy;
    hide CutsOf, LeafLevel, DirectAt, AlignDown, RegionOk, Stuck, RegionDone, Canonical;
    forall x: nat | phy <= x < phy + sz
      ensures DirectAt(m1, root, x) <==> x < MappedEnd(phy, sz) || DirectAt(m0, root, x)
    {
      KmapAt(m0, m1, root, shared, phy, sz, gb, x);
    }
  }

  /** Two bytes across a page boundary, the first page not there yet: the second page stays unmapped. */
  lemma KmapMissesSecondPage(r: nat, p: nat, d: nat, m1: Memory, gb: bool)
    requires r != p && p != d && d != r
    requires RegionDone(BootMemory(r, p, d, true), m1, r, true, CutsOf(KERN_BASE + 0x4000_0000, 2), gb, KERN_BASE,
                        PTE_P | PTE_W | PTE_G)
    ensures Reported(BootMemory(r, p, d, true), r, KERN_BASE + 0x4000_0000) != 0x4000_0000
    ensures DirectAt(m1, r, 0x4000_0FFF) && !DirectAt(m1, r, 0x4000_1000)
  {
    hide RegionDone, CutsOf, BootMemory, LeafLevel, Lookup, Node, Index;
    AboveBoot(r, p, d, 0x4000_0000);
    AboveBoot(r, p, d, 0x4000_0FFF);
    AboveBoot(r, p, d, 0x4000_1000);
    assert PageOf(0x4000_0FFF) == 0x4000_0000 && MappedEnd(0x4000_0FFF, 2) == 0x4000_1000;
    KmapAt(BootMemory(r, p, d, true), m1, r, true, 0x4000_0FFF, 2, gb, 0x4000_0FFF);
    KmapAt(BootMemory(r, p, d, true), m1, r, true, 0x4000_0FFF, 2, gb, 0x4000_1000);
  }

  lemma AboveBoot(r: nat, p: nat, d: nat, x: nat)
    requires r != p && p != d && d != r && 0x4000_0000 <= x < SLOT
    ensures Lookup(BootMemory(r, p, d, true), r, 4, KERN_BASE + x) == NotMapped
    ensures Node(BootMemory(r, p, d, true), r, KERN_BASE + x, 1) == None
  {
    BootWalk(r, p, d, true, KERN_BASE + x);
    TwinIndices(x);
    FirstGig(x);
    hide BootMemory, Lookup, Node;
  }
}
