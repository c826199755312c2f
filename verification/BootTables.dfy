/** The page tables the boot code hands over, in which entries 0 and 256 of the root share one table. */
module BootTables {
  import opened Machine
  import opened PageTable
  import opened PageRegion
  import opened PageRights
  import opened PageMirror

  /** The root `r` refers to table `p`, that to table `d`, and that maps the first 1G with 2M leaves. */
  function BootMemory(r: nat, p: nat, d: nat, low: bool): Memory {
    map[r := seq(ENTRIES, i => if i == 256 || (low && i == 0) then Entry(p, PTE_P | PTE_W) else ZERO),
        p := seq(ENTRIES, i => if i == 0 then Entry(d, PTE_P | PTE_W) else ZERO),
        d := seq(ENTRIES, (i: nat) => Entry(512 * i, PTE_P | PTE_W | PTE_PS))]
  }

  /** Once the low entry is cleared the boot tables are a tree, and plain. */
  lemma ClearedBootIsTree(r: nat, p: nat, d: nat)
    requires r != p && p != d && d != r
    ensures var lev := map[r := 4, p := 3, d := 2];
            WellFormed(BootMemory(r, p, d, false), lev, r) && Plain(BootMemory(r, p, d, false), lev)
  {
    var m, lev := BootMemory(r, p, d, false), map[r := 4, p := 3, d := 2];
    TableEntry(p, 4);
    TableEntry(d, 3);
    hide Present, Large, IsLeaf, IsTable, Own, Aligned;
    forall f, i: nat | f in lev && 0 <= i < ENTRIES
      ensures Aligned(m[f][i], lev[f])
      ensures IsTable(m[f][i], lev[f]) ==> (f == r && i == 256 && m[f][i] == Entry(p, PTE_P | PTE_W))
                                           || (f == p && i == 0 && m[f][i] == Entry(d, PTE_P | PTE_W))
    {
      AbsentEntry(lev[f]);
      LargeEntry(i);
    }
    hide BootMemory;
  }

  // ---------- What they map ----------

  /** Walks of the boot tables: the first 1G of either slot is mapped by 2M leaves, and nothing else is. */
  lemma BootWalk(r: nat, p: nat, d: nat, low: bool, va: nat)
    requires r != p && p != d && d != r
    ensures var m := BootMemory(r, p, d, low);
            && Node(m, r, va, 1) == None
            && Lookup(m, r, 4, va)
               == if (Index(4, va) == 256 || (low && Index(4, va) == 0)) && Index(3, va) == 0
                  then Mapped(2, Entry(512 * Index(2, va), PTE_P | PTE_W | PTE_PS)) else NotMapped
  {
    var m := BootMemory(r, p, d, low);
    EntryKinds(p, 4);
    EntryKinds(d, 3);
    LargeIsLeaf(Index(2, va));
    hide Index, IsLeaf, IsTable;
    assert m[r][Index(4, va)]
        == if Index(4, va) == 256 || (low && Index(4, va) == 0) then Entry(p, PTE_P | PTE_W) else ZERO;
    assert m[p][Index(3, va)] == if Index(3, va) == 0 then Entry(d, PTE_P | PTE_W) else ZERO;
    assert m[d][Index(2, va)] == Entry(512 * Index(2, va), PTE_P | PTE_W | PTE_PS);
    hide BootMemory;
    assert Lookup(m, d, 2, va) == Mapped(2, Entry(512 * Index(2, va), PTE_P | PTE_W | PTE_PS));
    assert Lookup(m, p, 3, va) == if Index(3, va) == 0 then Lookup(m, d, 2, va) else NotMapped;
  }

  lemma EntryKinds(f: nat, level: nat)
    requires level >= 3
    ensures IsTable(Entry(f, PTE_P | PTE_W), level) && !IsLeaf(Entry(f, PTE_P | PTE_W), level)
    ensures !IsTable(ZERO, level) && !IsLeaf(ZERO, level)
  {
  }

  lemma LargeIsLeaf(i: nat)
    ensures var e := Entry(512 * i, PTE_P | PTE_W | PTE_PS); IsLeaf(e, 2) && !IsTable(e, 2)
    ensures LeafAttr(2, PTE_P | PTE_W | PTE_PS) == PTE_P | PTE_W
  {
  }

  /** The boot tables map the first 1G of physical memory to itself and into the direct mapping, writable, and nothing
      else. */
  lemma BootMaps(r: nat, p: nat, d: nat, va: nat)
    requires r != p && p != d && d != r && Canonical(va)
    ensures Translate(BootMemory(r, p, d, true), r, va)
         == if va < 0x4000_0000 then To(va, PTE_P | PTE_W)
            else if KERN_BASE <= va < KERN_BASE + 0x4000_0000 then To(va - KERN_BASE, PTE_P | PTE_W)
            else Fault
  {
    RootIndex(va);
    BootWalk(r, p, d, true, va);
    var x := if va < SLOT then va else Twin(va);
    if KERN_BASE <= va < KERN_BASE + SLOT { TwinIndices(x); SameOffsets(x); }
    LargeIsLeaf(Index(2, va));
    if x < SLOT { FirstGig(x); }
    hide BootMemory, Lookup, LeafAttr;
  }

  /** Within a slot, entry 0 of level 3 stands for the first 1G, and the entries of level 2 for its 2M blocks. */
  lemma FirstGig(x: nat)
    requires x < SLOT
    ensures Index(3, x) == 0 <==> x < 0x4000_0000
    ensures x < 0x4000_0000 ==> Index(2, x) * 0x20_0000 + x % 0x20_0000 == x && 512 * Index(2, x) / 512 == Index(2, x)
  {
  }

  lemma TableEntry(f: nat, level: nat)
    requires level >= 3
    ensures var e := Entry(f, PTE_P | PTE_W); Own(e) == Rights(true, false) && IsTable(e, level) && Aligned(e, level)
  {
  }

  lemma LargeEntry(i: nat)
    ensures var e := Entry(512 * i, PTE_P | PTE_W | PTE_PS); !IsTable(e, 2) && Aligned(e, 2)
  {
  }

  lemma AbsentEntry(level: nat)
    ensures !IsTable(ZERO, level) && Aligned(ZERO, level)
  {
  }

  /** While two entries share a table there is no tree. */
  lemma SharedTableIsNoTree(mem: Memory, lev: map<nat, nat>, root: nat)
    requires Sharing(mem, root, Some(0))
    ensures !WellFormed(mem, lev, root)
  {
  }

  /** With one of the two shared entries left out the boot tables are what the mapping code works on. */
  lemma BootIsKept(r: nat, p: nat, d: nat, free: set<nat>)
    requires r != p && p != d && d != r && free !! {r, p, d}
    ensures var mem, lev := BootMemory(r, p, d, true), map[r := 4, p := 3, d := 2];
            Kept(mem, lev, free, r, Some(0)) && Plain(mem, lev)
  {
    var mem, lev := BootMemory(r, p, d, true), map[r := 4, p := 3, d := 2];
    ClearedBootIsTree(r, p, d);
    TableEntry(p, 4);
    hide Present, Large, IsLeaf, IsTable, Own, Aligned, WellFormed;
    assert mem[r][0 := ZERO] == BootMemory(r, p, d, false)[r];
    assert Hidden(mem, r, Some(0)) == BootMemory(r, p, d, false);
    forall f, i | f in lev && 0 <= i < ENTRIES && IsTable(mem[f][i], lev[f])
      ensures Own(mem[f][i]) == Rights(true, false)
    {
      if !(f == r && i == 0) { assert mem[f][i] == BootMemory(r, p, d, false)[f][i]; }
    }
  }
}
