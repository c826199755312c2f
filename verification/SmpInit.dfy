/** The start-up of the other processors maps a page at the bottom of the address space, and clears it again while the
    kernel's direct mapping still shares its table. */
module SmpInit {
  import opened Machine
  import opened PageTable
  import opened PageRights
  import opened PageRegion
  import opened PageMirror
  import opened PageMapper
  import opened RegionCuts
  import opened RegionMirror
  import opened RegionTheorems

  const PG_CLEAR: bv32 := 0x1000
  const PG_W: bv32 := 0x002

  /** The start-up code fits into the first 2M, so its region is cut into pages only. */
  lemma StartUpRegion(size: nat, gb: bool, paddr: nat)
    requires 0 < size && MP_BASE + size <= 0x20_0000 && (paddr == 0 || paddr == MP_BASE)
    ensures RegionOk(MP_BASE, paddr, size, gb)
    ensures CutsOf(MP_BASE, size).s == MP_BASE && CutsOf(MP_BASE, size).e == Align(1, MP_BASE + size) <= 0x20_0000
    ensures forall va: nat :: LeafLevel(CutsOf(MP_BASE, size), gb, va) == 1
  {
  }

  lemma PermOfFlags()
    ensures PermOf(PG_CLEAR) == 0 && PermOf(PG_W) == PTE_P | PTE_W
  {
  }

  /** What is left above the bottom 512G: a hole in the direct mapping. */
  ghost predicate StartUpCleared(m0: Memory, m3: Memory, root: nat, end: nat) {
    forall va: nat :: Canonical(va) ==>
      Translate(m3, root, va)
      == if va < SLOT || KERN_BASE + MP_BASE <= va < KERN_BASE + end then Fault else Translate(m0, root, va)
  }

  /** Mapping and then clearing the region, and then the low entry of the root. */
  lemma ClearedTwice(m0: Memory, m1: Memory, m2: Memory, m3: Memory, root: nat, size: nat, gb: bool)
    requires 0 < size && MP_BASE + size <= 0x20_0000
    requires RegionDone(m0, m1, root, true, CutsOf(MP_BASE, size), gb, 0, PTE_P | PTE_W)
    requires RegionDone(m1, m2, root, true, CutsOf(MP_BASE, size), gb, MP_BASE, 0)
    requires forall va: nat :: Canonical(va) ==>
               Effective(m3, root, va) == if va < SLOT then NoAccess else Effective(m2, root, va)
    ensures StartUpCleared(m0, m3, root, Align(1, MP_BASE + size))
  {
    StartUpRegion(size, gb, 0);
    hide Translate, Align, AlignDown, CutsOf, LeafLevel, Canonical;
    var end := Align(1, MP_BASE + size);
    forall va: nat | Canonical(va)
      ensures Translate(m3, root, va)
              == if va < SLOT || KERN_BASE + MP_BASE <= va < KERN_BASE + end then Fault else Translate(m0, root, va)
    {
      if va >= SLOT {
        var x := Home(true, va, MP_BASE, end);
        if x != va { assert PieceMeaning(m1, root, x, MP_BASE, 0, 1) == Fault; }
      }
    }
  }

  /** `arch_smp_init`, without the code that runs in between: afterwards the bottom of the address space is gone, and
      so is the kernel's own mapping of the start-up page. */
  method ArchSmpInit(t: PageTables, size: nat, gb: bool) returns (ok: bool)
    requires t.Valid() && t.hid.Some? && 0 < size && MP_BASE + size <= 0x20_0000
    modifies t
    ensures t.Valid() && t.Frames() == old(t.Frames())
    ensures !ok ==> |old(t.pool)| < 6 * LeafCount(CutsOf(MP_BASE, size), gb)
    ensures ok ==> t.hid == None && StartUpCleared(old(t.mem), t.mem, t.root, Align(1, MP_BASE + size))
  {
    hide *;
    StartUpRegion(size, gb, 0);
    StartUpRegion(size, gb, MP_BASE);
    PermOfFlags();
    ok := t.ArchMapRegion(MP_BASE, MP_BASE, size, PG_W, gb);
    if !ok { return; }
    ghost var m1 := t.mem;
    ok := t.ArchMapRegion(MP_BASE, 0, size, PG_CLEAR, gb);
    if !ok { return; }
    ghost var m2 := t.mem;
    t.ArchClearLowPage();
    ClearedTwice(old(t.mem), m1, m2, t.mem, t.root, size, gb);
  }
}
