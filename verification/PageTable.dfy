/** Four-level x86_64 page tables as the kernel keeps them in page frames: what a table tree
    means (`Lookup`, `Translate`), when it is a tree (`WellFormed`), and what one write does to it. */
module PageTable {
  import opened Machine
  import opened Division

  /** A page-table entry: the number of the frame it points at and its twelve low attribute bits. */
  datatype Entry = Entry(frame: nat, attr: bv12)

  /** Physical memory seen as 512-entry tables, by frame number. */
  type Memory = map<nat, seq<Entry>>

  /** What the hardware walk finds: nothing present, or a leaf entry at some level (1 = 4K, 2 = 2M, 3 = 1G). */
  datatype Leaf = NotMapped | Mapped(level: nat, entry: Entry)

  /** A translated address, with the attribute bits of its leaf other than the page-size bit of a large one. */
  datatype Translation = Fault | To(pa: int, attr: bv12)

  const PTE_P: bv12 := 0x001
  const PTE_W: bv12 := 0x002
  const PTE_U: bv12 := 0x004
  /** Page size in entries of levels 2 and 3; in a 4K entry the same bit selects the memory type (PAT). */
  const PTE_PS: bv12 := 0x080
  const ENTRIES: nat := 512
  const ZERO := Entry(0, 0)

  predicate Present(e: Entry) { e.attr & PTE_P != 0 }

  predicate Large(e: Entry) { e.attr & PTE_PS != 0 }

  /** A present entry at `level` ends the walk at level 1 always, at levels 2 and 3 when it has PS. */
  predicate IsLeaf(e: Entry, level: nat) { Present(e) && (level == 1 || (level < 4 && Large(e))) }

  predicate IsTable(e: Entry, level: nat) { Present(e) && 1 < level && (level >= 4 || !Large(e)) }

  /** Bytes covered by one entry of a table at `level`. */
  function Unit(level: nat): (u: nat)
    ensures u > 0
  {
    if level <= 1 then 0x1000 else if level == 2 then 0x20_0000 else if level == 3 then 0x4000_0000 else 0x80_0000_0000
  }

  function Index(level: nat, va: nat): (i: nat)
    ensures i < ENTRIES
  {
    if level <= 1 then va / 0x1000 % 512
    else if level == 2 then va / 0x20_0000 % 512
    else if level == 3 then va / 0x4000_0000 % 512
    else va / 0x80_0000_0000 % 512
  }

  /** The walk from table `f` at `level`. */
  function Lookup(mem: Memory, f: nat, level: nat, va: nat): Leaf
    decreases level
  {
    if level == 0 || f !in mem || |mem[f]| != ENTRIES then NotMapped
    else
      var e := mem[f][Index(level, va)];
      if IsLeaf(e, level) then Mapped(level, e)
      else if IsTable(e, level) then Lookup(mem, e.frame, level - 1, va)
      else NotMapped
  }

  /** The byte a leaf selects: the low bits of its frame number below its own size are ignored. */
  function PhysicalOf(level: nat, entry: Entry, va: nat): nat {
    if level <= 1 then entry.frame * 0x1000 + va % 0x1000
    else if level == 2 then entry.frame / 512 * 0x20_0000 + va % 0x20_0000
    else entry.frame / 0x4_0000 * 0x4000_0000 + va % 0x4000_0000
  }

  function Meaning(leaf: Leaf, va: nat): Translation {
    match leaf
    case NotMapped => Fault
    case Mapped(level, e) => To(PhysicalOf(level, e, va), LeafAttr(level, e.attr))
  }

  /** The attribute bits of a leaf of `level`. */
  function LeafAttr(level: nat, attr: bv12): bv12 { if level >= 2 then attr & !PTE_PS else attr }

  function Translate(mem: Memory, root: nat, va: nat): Translation {
    Meaning(Lookup(mem, root, 4, va), va)
  }

  predicate Huge(mem: Memory, root: nat, va: nat) {
    Lookup(mem, root, 4, va).Mapped? && Lookup(mem, root, 4, va).level >= 2
  }

  /** A leaf at least as large as the wanted one already covers `va`: the allocating walk splits it
      down to 4K entries instead of returning the slot. */
  predicate Stuck(mem: Memory, root: nat, va: nat, want: nat) {
    want >= 2 && Lookup(mem, root, 4, va).Mapped? && Lookup(mem, root, 4, va).level >= want
  }

  /** The table that the walk of `va` from `root` reaches at `level`. */
  function Node(mem: Memory, root: nat, va: nat, level: nat): Option<nat>
    decreases 4 - level
  {
    if level >= 4 then Some(root)
    else
      match Node(mem, root, va, level + 1)
      case None => None
      case Some(f) =>
        if f !in mem || |mem[f]| != ENTRIES then None
        else
          var e := mem[f][Index(level + 1, va)];
          if IsTable(e, level + 1) then Some(e.frame) else None
  }

  /** `va` and `vb` use the same entries at `level` and above. */
  predicate Same(level: nat, va: nat, vb: nat)
    decreases 5 - level
  {
    level >= 5 || (Index(level, va) == Index(level, vb) && Same(level + 1, va, vb))
  }

  // ---------- The tree invariant ----------

  /** Leaves are aligned to the size they map. */
  predicate Aligned(e: Entry, level: nat) {
    IsLeaf(e, level) ==> (level == 2 ==> e.frame % 512 == 0) && (level == 3 ==> e.frame % 0x4_0000 == 0)
  }

  ghost predicate Shape(mem: Memory, lev: map<nat, nat>, root: nat) {
    && root in lev && lev[root] == 4
    && (forall f :: f in lev ==> f in mem && |mem[f]| == ENTRIES && 1 <= lev[f] <= 4 && (lev[f] == 4 ==> f == root))
  }

  ghost predicate Linked(mem: Memory, lev: map<nat, nat>)
    requires forall f :: f in lev ==> f in mem && |mem[f]| == ENTRIES
  {
    forall f, i :: f in lev && 0 <= i < ENTRIES ==>
      && Aligned(mem[f][i], lev[f])
      && (IsTable(mem[f][i], lev[f]) ==> mem[f][i].frame in lev && lev[mem[f][i].frame] == lev[f] - 1)
  }

  /** No table frame is referenced by two entries. */
  ghost predicate SingleParent(mem: Memory, lev: map<nat, nat>)
    requires forall f :: f in lev ==> f in mem && |mem[f]| == ENTRIES
  {
    forall f, i, g, j :: f in lev && g in lev && 0 <= i < ENTRIES && 0 <= j < ENTRIES
      && IsTable(mem[f][i], lev[f]) && IsTable(mem[g][j], lev[g]) && mem[f][i].frame == mem[g][j].frame
      ==> f == g && i == j
  }

  /** `lev` gives the level of each frame in use as a table; every table has the level its parent says,
      one parent entry at most, and aligned leaves. */
  ghost predicate WellFormed(mem: Memory, lev: map<nat, nat>, root: nat) {
    Shape(mem, lev, root) && Linked(mem, lev) && SingleParent(mem, lev)
  }

  // ---------- Paths ----------

  lemma {:induction false} NodeHasLevel(mem: Memory, lev: map<nat, nat>, root: nat, va: nat, level: nat)
    requires WellFormed(mem, lev, root) && 1 <= level <= 4
    requires Node(mem, root, va, level).Some?
    ensures Node(mem, root, va, level).value in lev && lev[Node(mem, root, va, level).value] == level
    decreases 4 - level
  {
    hide Index, Present, Large;
    if level < 4 {
      NodeHasLevel(mem, lev, root, va, level + 1);
    }
  }

  /** In a tree, two addresses that reach the same table agree on all higher indices. */
  lemma {:induction false} NodeDeterminesPath(mem: Memory, lev: map<nat, nat>, root: nat, va: nat, vb: nat, level: nat)
    requires WellFormed(mem, lev, root) && 1 <= level <= 4
    requires Node(mem, root, va, level).Some? && Node(mem, root, va, level) == Node(mem, root, vb, level)
    ensures Same(level + 1, va, vb)
    decreases 4 - level
  {
    hide Index, Present, Large;
    if level < 4 {
      NodeHasLevel(mem, lev, root, va, level + 1);
      NodeHasLevel(mem, lev, root, vb, level + 1);
      NodeDeterminesPath(mem, lev, root, va, vb, level + 1);
    }
  }

  /** Addresses with the same higher indices walk through the same tables. */
  lemma {:induction false} PathDeterminesNode(mem: Memory, root: nat, va: nat, vb: nat, level: nat)
    requires 1 <= level <= 4 && Same(level + 1, va, vb)
    ensures Node(mem, root, va, level) == Node(mem, root, vb, level)
    decreases 4 - level
  {
    hide Index, Present, Large;
    if level < 4 {
      PathDeterminesNode(mem, root, va, vb, level + 1);
    }
  }

  lemma {:induction false} LookupThroughNode(mem: Memory, lev: map<nat, nat>, root: nat, va: nat, level: nat)
    requires WellFormed(mem, lev, root) && 1 <= level <= 4
    requires Node(mem, root, va, level).Some?
    ensures Lookup(mem, root, 4, va) == Lookup(mem, Node(mem, root, va, level).value, level, va)
    decreases 4 - level
  {
    hide Index, Present, Large;
    if level < 4 {
      NodeHasLevel(mem, lev, root, va, level + 1);
      LookupThroughNode(mem, lev, root, va, level + 1);
    }
  }

  // ---------- One write ----------

  function Write(mem: Memory, f: nat, i: nat, e: Entry): Memory
    requires f in mem && i < |mem[f]|
  {
    mem[f := mem[f][i := e]]
  }

  lemma RewriteEntry(mem: Memory, f: nat, i: nat, e: Entry)
    requires f in mem && i < |mem[f]|
    ensures Write(Write(mem, f, i, ZERO), f, i, e) == Write(mem, f, i, e)
  {
    assert mem[f][i := ZERO][i := e] == mem[f][i := e];
  }

  /** The walk of `va` uses entry `i` of table `f` at `level`. */
  predicate Uses(mem: Memory, root: nat, va: nat, level: nat, f: nat, i: nat) {
    Node(mem, root, va, level) == Some(f) && Index(level, va) == i
  }

  /** Tables at or above the written one are reached as before. */
  lemma {:induction false} WriteKeepsNodes(mem: Memory, mem': Memory, lev: map<nat, nat>, root: nat, f: nat,
      va: nat, level: nat)
    requires WellFormed(mem, lev, root) && f in lev && lev[f] <= level <= 4
    requires forall g :: g in lev && g != f ==> g in mem' && mem'[g] == mem[g]
    ensures Node(mem', root, va, level) == Node(mem, root, va, level)
    decreases 4 - level
  {
    hide Index, Present, Large;
    if level < 4 {
      WriteKeepsNodes(mem, mem', lev, root, f, va, level + 1);
      if Node(mem, root, va, level + 1).Some? {
        NodeHasLevel(mem, lev, root, va, level + 1);
      }
    }
  }

  /** A walk that does not use the written entry finds what it found before. */
  lemma {:induction false} WriteKeepsOthers(mem: Memory, mem': Memory, lev: map<nat, nat>, root: nat, f: nat,
      i: nat, g: nat, va: nat)
    requires WellFormed(mem, lev, root) && f in lev && i < ENTRIES
    requires forall h :: h in lev && h != f ==> h in mem' && mem'[h] == mem[h]
    requires f in mem' && |mem'[f]| == ENTRIES && forall k :: 0 <= k < ENTRIES && k != i ==> mem'[f][k] == mem[f][k]
    requires g in lev && Node(mem, root, va, lev[g]) == Some(g)
    requires !Uses(mem, root, va, lev[f], f, i)
    ensures Lookup(mem', g, lev[g], va) == Lookup(mem, g, lev[g], va)
    decreases lev[g]
  {
    hide Index, Present, Large;
    var e := mem[g][Index(lev[g], va)];
    assert mem'[g][Index(lev[g], va)] == e;
    if IsTable(e, lev[g]) {
      WriteKeepsOthers(mem, mem', lev, root, f, i, e.frame, va);
    }
  }

  /** A written entry that is not a table keeps the tree; the table it referenced before may leave the tree. */
  lemma WriteLeafKeepsTree(mem: Memory, lev: map<nat, nat>, root: nat, f: nat, i: nat, e: Entry, freed: set<nat>)
    requires WellFormed(mem, lev, root) && f in lev && i < ENTRIES
    requires !IsTable(e, lev[f]) && Aligned(e, lev[f])
    requires forall t :: t in freed ==> IsTable(mem[f][i], lev[f]) && t == mem[f][i].frame
    ensures WellFormed(Write(mem, f, i, e), lev - freed, root)
  {
    hide Index, Present, Large;
    var mem', lev' := Write(mem, f, i, e), lev - freed;
    assert Shape(mem', lev', root);
    forall g, j | g in lev' && 0 <= j < ENTRIES && !(g == f && i == j)
      ensures mem'[g][j] == mem[g][j]
    {
    }
    forall g, j | g in lev' && 0 <= j < ENTRIES && IsTable(mem'[g][j], lev'[g])
      ensures mem'[g][j].frame in lev' && lev'[mem'[g][j].frame] == lev'[g] - 1
    {
      assert !(g == f && i == j);
      assert IsTable(mem[g][j], lev[g]);
    }
  }

  /** Entry `i` of `f` now holds `e`, which refers to a frame outside the tree that holds `table`; no other
      table of the tree changed. */
  ghost predicate Hung(mem: Memory, mem': Memory, lev: map<nat, nat>, f: nat, i: nat, e: Entry, table: seq<Entry>) {
    && f in lev && f in mem && f in mem' && i < |mem[f]| && mem'[f] == mem[f][i := e]
    && e.frame !in lev && e.frame in mem' && mem'[e.frame] == table && |table| == ENTRIES
    && forall h :: h in lev && h != f ==> h in mem' && h in mem && mem'[h] == mem[h]
  }

  /** Hanging a fresh table without child tables under an entry keeps the tree. */
  lemma LinkKeepsTree(mem: Memory, mem': Memory, lev: map<nat, nat>, root: nat, f: nat, i: nat, e: Entry,
      table: seq<Entry>)
    requires WellFormed(mem, lev, root) && Hung(mem, mem', lev, f, i, e, table) && IsTable(e, lev[f])
    requires forall k :: 0 <= k < ENTRIES ==> !IsTable(table[k], lev[f] - 1) && Aligned(table[k], lev[f] - 1)
    ensures WellFormed(mem', lev[e.frame := lev[f] - 1], root)
  {
    hide Index, Present, Large;
  }

  /** In a tree, the addresses that use an entry are exactly those of its slot. */
  lemma UsesIsSlot(mem: Memory, lev: map<nat, nat>, root: nat, f: nat, va: nat, vb: nat)
    requires WellFormed(mem, lev, root) && f in lev && Node(mem, root, va, lev[f]) == Some(f)
    ensures Uses(mem, root, vb, lev[f], f, Index(lev[f], va)) <==> Same(lev[f], va, vb)
  {
    hide Index, Present, Large;
    if Node(mem, root, vb, lev[f]) == Some(f) {
      NodeDeterminesPath(mem, lev, root, va, vb, lev[f]);
    }
    if Same(lev[f], va, vb) {
      PathDeterminesNode(mem, root, va, vb, lev[f]);
    }
  }

  /** The whole effect of one write on every walk. */
  lemma WriteEffect(mem: Memory, mem': Memory, lev: map<nat, nat>, root: nat, f: nat, va: nat, vb: nat)
    requires WellFormed(mem, lev, root) && f in lev && Node(mem, root, va, lev[f]) == Some(f)
    requires forall h :: h in lev && h != f ==> h in mem' && mem'[h] == mem[h]
    requires f in mem' && |mem'[f]| == ENTRIES
    requires forall k :: 0 <= k < ENTRIES && k != Index(lev[f], va) ==> mem'[f][k] == mem[f][k]
    ensures Same(lev[f], va, vb) ==> Lookup(mem', root, 4, vb) == Lookup(mem', f, lev[f], vb)
    ensures !Same(lev[f], va, vb) ==> Lookup(mem', root, 4, vb) == Lookup(mem, root, 4, vb)
  {
    hide Index, Present, Large;
    UsesIsSlot(mem, lev, root, f, va, vb);
    if Same(lev[f], va, vb) {
      WriteKeepsDescent(mem, mem', lev, root, f, vb, lev[f]);
    } else {
      WriteKeepsOthers(mem, mem', lev, root, f, Index(lev[f], va), root, vb);
    }
  }

  /** After a write to table `f`, the walk of an address that reached `f` still reaches it. */
  lemma {:induction false} WriteKeepsDescent(mem: Memory, mem': Memory, lev: map<nat, nat>, root: nat, f: nat,
      va: nat, level: nat)
    requires WellFormed(mem, lev, root) && f in lev && lev[f] <= level <= 4
    requires forall h :: h in lev && h != f ==> h in mem' && mem'[h] == mem[h]
    requires Node(mem, root, va, level).Some?
    ensures Lookup(mem', root, 4, va) == Lookup(mem', Node(mem, root, va, level).value, level, va)
    decreases 4 - level
  {
    hide Index, Present, Large;
    if level < 4 {
      NodeHasLevel(mem, lev, root, va, level + 1);
      WriteKeepsDescent(mem, mem', lev, root, f, va, level + 1);
    }
  }

  /** Every walk after a fresh table of leaves and absent entries is hung under the entry that `va` uses. */
  lemma LinkEffect(mem: Memory, mem': Memory, lev: map<nat, nat>, root: nat, f: nat, va: nat, e: Entry,
      table: seq<Entry>, vb: nat)
    requires WellFormed(mem, lev, root) && f in lev && Node(mem, root, va, lev[f]) == Some(f)
    requires Hung(mem, mem', lev, f, Index(lev[f], va), e, table) && IsTable(e, lev[f])
    requires forall k :: 0 <= k < ENTRIES ==> !IsTable(table[k], lev[f] - 1)
    ensures var c := table[Index(lev[f] - 1, vb)];
            Lookup(mem', root, 4, vb)
            == if !Same(lev[f], va, vb) then Lookup(mem, root, 4, vb)
               else if IsLeaf(c, lev[f] - 1) then Mapped(lev[f] - 1, c) else NotMapped
  {
    hide Index, Present, Large;
    WriteEffect(mem, mem', lev, root, f, va, vb);
    if Same(lev[f], va, vb) {
      assert Index(lev[f], vb) == Index(lev[f], va);
      assert Lookup(mem', f, lev[f], vb) == Lookup(mem', e.frame, lev[f] - 1, vb);
    }
  }

  /** Every walk after a leaf or absent entry is written into the slot that `va` uses. */
  lemma LeafWriteEffect(mem: Memory, lev: map<nat, nat>, root: nat, f: nat, va: nat, e: Entry, vb: nat)
    requires WellFormed(mem, lev, root) && f in lev && Node(mem, root, va, lev[f]) == Some(f)
    requires !IsTable(e, lev[f])
    ensures Lookup(Write(mem, f, Index(lev[f], va), e), root, 4, vb)
            == if !Same(lev[f], va, vb) then Lookup(mem, root, 4, vb)
               else if IsLeaf(e, lev[f]) then Mapped(lev[f], e) else NotMapped
  {
    hide Index, Present, Large;
    WriteEffect(mem, Write(mem, f, Index(lev[f], va), e), lev, root, f, va, vb);
    assert Same(lev[f], va, vb) ==> Index(lev[f], vb) == Index(lev[f], va);
  }

  /** What the walk finds in the slot of an entry that is not a table. */
  lemma LookupEntry(mem: Memory, lev: map<nat, nat>, root: nat, f: nat, va: nat, vb: nat)
    requires WellFormed(mem, lev, root) && f in lev && Node(mem, root, va, lev[f]) == Some(f)
    requires Same(lev[f], va, vb)
    ensures var e := mem[f][Index(lev[f], va)];
            !IsTable(e, lev[f]) ==>
              Lookup(mem, root, 4, vb) == if IsLeaf(e, lev[f]) then Mapped(lev[f], e) else NotMapped
  {
    hide Index, Present, Large;
    UsesIsSlot(mem, lev, root, f, va, vb);
    LookupThroughNode(mem, lev, root, vb, lev[f]);
  }

  lemma {:induction false} LookupLevel(mem: Memory, f: nat, level: nat, va: nat)
    ensures Lookup(mem, f, level, va).Mapped? ==>
              1 <= Lookup(mem, f, level, va).level <= level
              && IsLeaf(Lookup(mem, f, level, va).entry, Lookup(mem, f, level, va).level)
    decreases level
  {
    hide Index, Present, Large;
    if level > 0 && f in mem && |mem[f]| == ENTRIES {
      var e := mem[f][Index(level, va)];
      if IsTable(e, level) { LookupLevel(mem, e.frame, level - 1, va); }
    }
  }

  /** On the walk of `va`, an entry of `level` is a leaf exactly when the walk finds a leaf that large. */
  lemma LeafOnPath(mem: Memory, lev: map<nat, nat>, root: nat, f: nat, va: nat)
    requires WellFormed(mem, lev, root) && f in lev && Node(mem, root, va, lev[f]) == Some(f)
    ensures var leaf := Lookup(mem, root, 4, va);
            IsLeaf(mem[f][Index(lev[f], va)], lev[f]) <==> leaf.Mapped? && leaf.level >= lev[f]
  {
    hide Index, Present, Large;
    LookupThroughNode(mem, lev, root, va, lev[f]);
    var e := mem[f][Index(lev[f], va)];
    if IsTable(e, lev[f]) { LookupLevel(mem, e.frame, lev[f] - 1, va); }
  }

  // ---------- Splitting a large leaf ----------

  /** Entry `j` of the table that replaces large leaf `e` of `level`. */
  function SplitEntry(e: Entry, level: nat, j: nat): Entry
    requires level >= 2
  {
    Entry(e.frame + (if level == 3 then 512 * j else j), (e.attr & !PTE_PS) | (if level == 3 then PTE_PS else 0))
  }

  lemma NestedOffset2(va: nat)
    ensures va % 0x20_0000 == va / 0x1000 % 512 * 0x1000 + va % 0x1000
  {
    var q := va / 0x1000;
    RemainderIs(va, 0x20_0000, q / 512, q % 512 * 0x1000 + va % 0x1000);
  }

  lemma NestedOffset3(va: nat)
    ensures va % 0x4000_0000 == va / 0x20_0000 % 512 * 0x20_0000 + va % 0x20_0000
  {
    var q := va / 0x20_0000;
    RemainderIs(va, 0x4000_0000, q / 512, q % 512 * 0x20_0000 + va % 0x20_0000);
  }

  lemma SplitAttributes(a: bv12)
    ensures (a & !PTE_PS) & !PTE_PS == a & !PTE_PS
    ensures ((a & !PTE_PS) | PTE_PS) & !PTE_PS == a & !PTE_PS
    ensures a & PTE_P != 0 ==> ((a & !PTE_PS) | PTE_PS) & PTE_P != 0 && (a & !PTE_PS) & PTE_P != 0
    ensures ((a & !PTE_PS) | PTE_PS) & PTE_PS != 0
  {
  }

  lemma SplitLeafAttr(e: Entry, level: nat, j: nat)
    requires level == 2 || level == 3
    ensures LeafAttr(level - 1, SplitEntry(e, level, j).attr) == LeafAttr(level, e.attr)
  {
    SplitAttributes(e.attr);
  }

  lemma SplitAddress(e: Entry, level: nat, va: nat)
    requires level == 2 || level == 3
    requires IsLeaf(e, level) && Aligned(e, level)
    ensures PhysicalOf(level - 1, SplitEntry(e, level, Index(level - 1, va)), va) == PhysicalOf(level, e, va)
  {
    hide Present, Large;
    if level == 2 {
      NestedOffset2(va);
      assert e.frame == 512 * (e.frame / 512);
    } else {
      NestedOffset3(va);
      SplitFrame(e.frame, Index(2, va));
    }
  }

  /** The table built from a large leaf maps every address as the leaf did. */
  lemma SplitKeepsMeaning(e: Entry, level: nat, va: nat)
    requires level == 2 || level == 3
    requires IsLeaf(e, level) && Aligned(e, level)
    ensures var c := SplitEntry(e, level, Index(level - 1, va));
            Meaning(Mapped(level - 1, c), va) == Meaning(Mapped(level, e), va)
  {
    SplitLeafAttr(e, level, Index(level - 1, va));
    SplitAddress(e, level, va);
    hide PhysicalOf, Aligned, IsLeaf, Index, SplitEntry, LeafAttr;
  }

  lemma SplitEntryIsLeaf(e: Entry, level: nat, j: nat)
    requires level == 2 || level == 3
    requires IsLeaf(e, level) && Aligned(e, level)
    ensures IsLeaf(SplitEntry(e, level, j), level - 1) && Aligned(SplitEntry(e, level, j), level - 1)
    ensures !IsTable(SplitEntry(e, level, j), level - 1)
  {
    SplitAttributes(e.attr);
    SplitFrame(e.frame, j);
  }

  lemma SplitFrame(frame: nat, j: nat)
    ensures frame % 0x4_0000 == 0 ==> (frame + 512 * j) % 512 == 0
    ensures frame % 0x4_0000 == 0 ==> (frame + 512 * j) / 512 == 512 * (frame / 0x4_0000) + j
  {
    var q := frame / 0x4_0000;
    if frame % 0x4_0000 == 0 {
      assert frame + 512 * j == 512 * (512 * q + j);
      RemainderIs(frame + 512 * j, 512, 512 * q + j, 0);
    }
  }
}
