/** Until `arch_clear_low_page` entries 0 and 256 of the root refer to one table, so that the direct mapping is mirrored
    at the bottom of the address space. Such tables are no tree, but leaving either of the two entries out gives one;
    this module says what the walks of the real tables have to do with those of the tree. */
module PageMirror {
  import opened Machine
  import opened Division
  import opened PageTable
  import opened PageWalk
  import opened PageRegion
  import opened PageRights

  const KERN_BASE: nat := 0xFFFF_8000_0000_0000
  /** The bytes covered by one entry of the root. */
  const SLOT: nat := 0x80_0000_0000

  /** The two entries of the root share a table, when `hid` names one of them. */
  ghost predicate Sharing(mem: Memory, root: nat, hid: Option<nat>) {
    && root in mem && |mem[root]| == ENTRIES
    && (hid.Some? ==>
          (hid.value == 0 || hid.value == 256) && mem[root][0] == mem[root][256] && IsTable(mem[root][0], 4))
  }

  /** The tables without the hidden entry. */
  function Hidden(mem: Memory, root: nat, hid: Option<nat>): Memory {
    if hid.Some? && root in mem && hid.value < |mem[root]| then Write(mem, root, hid.value, ZERO) else mem
  }

  /** The invariant of the kernel's tables: without the hidden entry they are a tree. */
  ghost predicate Kept(mem: Memory, lev: map<nat, nat>, pool: set<nat>, root: nat, hid: Option<nat>) {
    Sharing(mem, root, hid) && Good(Hidden(mem, root, hid), lev, pool, root)
  }

  function Opposite(hid: Option<nat>): Option<nat> {
    match hid
    case None => None
    case Some(h) => if h == 0 then Some(256) else Some(0)
  }

  /** The entry to leave out so that the walks of one half of the address space do not miss it. */
  function HiddenFor(hid: Option<nat>, va: nat): Option<nat> {
    match hid
    case None => None
    case Some(h) => if va < W63 then Some(256) else Some(0)
  }

  // ---------- Mirrored addresses ----------

  /** The other address of the same byte, while the two entries share their table. */
  function Twin(va: nat): nat {
    if va < SLOT then KERN_BASE + va else if KERN_BASE <= va < KERN_BASE + SLOT then va - KERN_BASE else va
  }

  /** The address whose walk in the tree stands for the walk of `va`. */
  function Seen(hid: Option<nat>, va: nat): nat {
    if hid.Some? && Index(4, va) == hid.value then Twin(va) else va
  }

  lemma RootIndex(va: nat)
    requires Canonical(va)
    ensures Index(4, va) == 0 <==> va < SLOT
    ensures Index(4, va) == 256 <==> KERN_BASE <= va < KERN_BASE + SLOT
    ensures Index(4, va) < 256 <==> va < W63
  {
    var q := va / SLOT;
    if va < W63 {
      RemainderIs(q, 512, 0, q);
    } else {
      assert KERN_BASE == SLOT * 0x1FF_FF00;
      RemainderIs(q, 512, 0xFFFF, q - 0x1FF_FE00);
    }
  }

  lemma TwinIndices(va: nat)
    requires va < SLOT
    ensures Index(4, va) == 0 && Index(4, KERN_BASE + va) == 256 && Canonical(va) && Canonical(KERN_BASE + va)
    ensures forall level: nat :: 1 <= level <= 3 ==> Index(level, KERN_BASE + va) == Index(level, va)
  {
    RootIndex(va);
    RootIndex(KERN_BASE + va);
    forall level: nat | 1 <= level <= 3 ensures Index(level, KERN_BASE + va) == Index(level, va) {
      TwinIndex(level, va);
    }
    hide Index;
  }

  lemma TwinIndex(level: nat, va: nat)
    requires 1 <= level <= 3
    ensures Index(level, KERN_BASE + va) == Index(level, va)
  {
    SameIndex(0x1000, va, 0x7FF_FC00_0000);
    SameIndex(0x20_0000, va, 0x3_FFFE_0000);
    SameIndex(0x4000_0000, va, 0x1FF_FF00);
    assert 0x1000 * (512 * 0x7FF_FC00_0000) == KERN_BASE;
    assert 0x20_0000 * (512 * 0x3_FFFE_0000) == KERN_BASE;
    assert 0x4000_0000 * (512 * 0x1FF_FF00) == KERN_BASE;
  }

  lemma SameIndex(u: nat, va: nat, k: nat)
    requires u > 0
    ensures (u * (512 * k) + va) / u % 512 == va / u % 512
  {
    var q, r := va / u, va % u;
    assert va == u * q + r;
    assert u * (512 * k) + va == u * (512 * k + q) + r;
    RemainderIs(u * (512 * k) + va, u, 512 * k + q, r);
    RemainderIs(512 * k + q, 512, k + q / 512, q % 512);
  }

  lemma SameOffsets(va: nat)
    ensures (KERN_BASE + va) % 0x1000 == va % 0x1000 && (KERN_BASE + va) % 0x20_0000 == va % 0x20_0000
    ensures (KERN_BASE + va) % 0x4000_0000 == va % 0x4000_0000
  {
    RemainderIs(KERN_BASE + va, 0x1000, 512 * 0x7FF_FC00_0000 + va / 0x1000, va % 0x1000);
    RemainderIs(KERN_BASE + va, 0x20_0000, 512 * 0x3_FFFE_0000 + va / 0x20_0000, va % 0x20_0000);
    RemainderIs(KERN_BASE + va, 0x4000_0000, 512 * 0x1FF_FF00 + va / 0x4000_0000, va % 0x4000_0000);
  }

  lemma TwinMeaning(leaf: Leaf, va: nat)
    requires va < SLOT
    ensures Meaning(leaf, KERN_BASE + va) == Meaning(leaf, va)
  {
    SameOffsets(va);
    hide LeafAttr;
  }

  // ---------- Walks of the real tables ----------

  /** Below the root the hidden entry makes no difference. */
  lemma {:induction false} BelowRoot(mem: Memory, lev: map<nat, nat>, root: nat, hid: Option<nat>, g: nat, va: nat)
    requires WellFormed(Hidden(mem, root, hid), lev, root) && g in lev && lev[g] < 4
    ensures Lookup(mem, g, lev[g], va) == Lookup(Hidden(mem, root, hid), g, lev[g], va)
    ensures RightsOf(mem, g, lev[g], va) == RightsOf(Hidden(mem, root, hid), g, lev[g], va)
    decreases lev[g]
  {
    hide Index, IsLeaf, IsTable, Aligned, Own;
    assert mem[g] == Hidden(mem, root, hid)[g];
    var e := mem[g][Index(lev[g], va)];
    if IsTable(e, lev[g]) { BelowRoot(mem, lev, root, hid, e.frame, va); }
  }

  /** Walks that agree on the lower indices find the same from a lower table on. */
  lemma {:induction false} SameBelow(mem: Memory, f: nat, level: nat, va: nat, vb: nat)
    requires level <= 3 && forall k: nat :: 1 <= k <= 3 ==> Index(k, va) == Index(k, vb)
    ensures Lookup(mem, f, level, va) == Lookup(mem, f, level, vb)
    ensures RightsOf(mem, f, level, va) == RightsOf(mem, f, level, vb)
    decreases level
  {
    hide Index, IsTable, IsLeaf, Own;
    if level > 0 && f in mem && |mem[f]| == ENTRIES {
      var e := mem[f][Index(level, va)];
      if IsTable(e, level) { SameBelow(mem, e.frame, level - 1, va, vb); }
    }
  }

  /** While the entries share a table, what a walk finds and allows is the same at both addresses. */
  lemma MirrorWalks(mem: Memory, root: nat, va: nat)
    requires root in mem && |mem[root]| == ENTRIES && mem[root][0] == mem[root][256] && va < SLOT
    ensures Lookup(mem, root, 4, KERN_BASE + va) == Lookup(mem, root, 4, va)
    ensures RightsOf(mem, root, 4, KERN_BASE + va) == RightsOf(mem, root, 4, va)
  {
    TwinIndices(va);
    hide Index, IsTable, IsLeaf, Own;
    var e := mem[root][0];
    if IsTable(e, 4) { SameBelow(mem, e.frame, 3, va, KERN_BASE + va); }
  }

  /** While they do, the kernel's direct mapping is mirrored at the bottom of the address space: whatever changes in
      one changes in the other. */
  lemma SharedTableMirrors(mem: Memory, root: nat, va: nat)
    requires root in mem && |mem[root]| == ENTRIES && mem[root][0] == mem[root][256] && Canonical(va)
    ensures Translate(mem, root, Twin(va)) == Translate(mem, root, va)
    ensures Effective(mem, root, Twin(va)) == Effective(mem, root, va)
    ensures Lookup(mem, root, 4, Twin(va)) == Lookup(mem, root, 4, va)
  {
    hide Lookup, RightsOf, Meaning, Canonical;
    var x := if va < SLOT then va else Twin(va);
    if x < SLOT {
      MirrorWalks(mem, root, x);
      TwinMeaning(Lookup(mem, root, 4, x), x);
    }
  }

  /** A walk that does not use the hidden entry is a walk of the tree. */
  lemma VisibleWalk(mem: Memory, lev: map<nat, nat>, pool: set<nat>, root: nat, hid: Option<nat>, va: nat)
    requires Kept(mem, lev, pool, root, hid) && (hid.Some? ==> Index(4, va) != hid.value)
    ensures Lookup(mem, root, 4, va) == Lookup(Hidden(mem, root, hid), root, 4, va)
    ensures RightsOf(mem, root, 4, va) == RightsOf(Hidden(mem, root, hid), root, 4, va)
  {
    hide Index, IsLeaf, Aligned, Own, Present, Large;
    var e := mem[root][Index(4, va)];
    assert e == Hidden(mem, root, hid)[root][Index(4, va)];
    if IsTable(e, 4) { BelowRoot(mem, lev, root, hid, e.frame, va); }
  }

  /** Every walk of the real tables is a walk of the tree, from the address itself or from its twin. */
  lemma SeenWalk(mem: Memory, lev: map<nat, nat>, pool: set<nat>, root: nat, hid: Option<nat>, va: nat)
    requires Kept(mem, lev, pool, root, hid) && Canonical(va)
    ensures Canonical(Seen(hid, va)) && (hid.Some? ==> Index(4, Seen(hid, va)) != hid.value)
    ensures Translate(mem, root, va) == Translate(Hidden(mem, root, hid), root, Seen(hid, va))
    ensures Effective(mem, root, va) == Effective(Hidden(mem, root, hid), root, Seen(hid, va))
    ensures Lookup(mem, root, 4, va) == Lookup(Hidden(mem, root, hid), root, 4, Seen(hid, va))
  {
    RootIndex(va);
    SeenVisible(hid, va);
    hide Index, Lookup, RightsOf, Good, Meaning, IsTable;
    VisibleWalk(mem, lev, pool, root, hid, Seen(hid, va));
    if Seen(hid, va) != va { SharedTableMirrors(mem, root, va); }
  }

  lemma SeenVisible(hid: Option<nat>, va: nat)
    requires Canonical(va) && (hid.Some? ==> hid.value == 0 || hid.value == 256)
    ensures Canonical(Seen(hid, va)) && (hid.Some? ==> Index(4, Seen(hid, va)) != hid.value)
  {
    RootIndex(va);
    if va < SLOT { TwinIndices(va); }
    if KERN_BASE <= va < KERN_BASE + SLOT { TwinIndices(va - KERN_BASE); }
    hide Index;
  }

  /** Over plain tables every access is the translation, writable as the leaf says and never for users. */
  lemma KeptAccess(mem: Memory, lev: map<nat, nat>, pool: set<nat>, root: nat, hid: Option<nat>, va: nat)
    requires Kept(mem, lev, pool, root, hid) && Plain(mem, lev) && Canonical(va)
    ensures Effective(mem, root, va) == KernelAccess(Translate(mem, root, va))
  {
    SeenWalk(mem, lev, pool, root, hid, va);
    PlainHidden(mem, lev, root, hid);
    PlainAccess(Hidden(mem, root, hid), lev, root, Seen(hid, va));
    hide Plain, Effective, Translate, KernelAccess, Seen, Hidden;
  }

  lemma PlainHidden(mem: Memory, lev: map<nat, nat>, root: nat, hid: Option<nat>)
    requires Plain(mem, lev)
    ensures Plain(Hidden(mem, root, hid), lev)
  {
    ZeroIsNoTable();
    hide IsTable, Own;
  }

  // ---------- Choosing the entry to leave out ----------

  /** Either entry may be left out. */
  lemma HideOther(mem: Memory, lev: map<nat, nat>, pool: set<nat>, root: nat, hid: Option<nat>)
    requires Kept(mem, lev, pool, root, hid)
    ensures Kept(mem, lev, pool, root, Opposite(hid))
  {
    if hid.Some? {
      var m, m', h, h' := Hidden(mem, root, hid), Hidden(mem, root, Opposite(hid)), hid.value, Opposite(hid).value;
      hide Present, Large;
      ZeroIsNoTable();
      forall f, i | f in lev && 0 <= i < ENTRIES
        ensures m'[f][i] == if f == root && i == h then m[root][h'] else if f == root && i == h' then ZERO else m[f][i]
      {
      }
      SwapKeepsTree(m, m', lev, root, h, h');
    }
  }

  lemma ZeroIsNoTable()
    ensures forall level: nat :: !IsTable(ZERO, level) && Aligned(ZERO, level)
  {
  }

  /** Moving an entry of a table to an absent one keeps the tree. */
  lemma SwapKeepsTree(m: Memory, m': Memory, lev: map<nat, nat>, root: nat, h: nat, h': nat)
    requires WellFormed(m, lev, root) && h < ENTRIES && h' < ENTRIES && h != h' && m[root][h] == ZERO
    requires m'.Keys == m.Keys && forall f :: f in lev ==> |m'[f]| == ENTRIES
    requires forall f, i :: f in lev && 0 <= i < ENTRIES ==>
               m'[f][i] == if f == root && i == h then m[root][h'] else if f == root && i == h' then ZERO else m[f][i]
    ensures WellFormed(m', lev, root)
  {
    ZeroIsNoTable();
    hide IsTable, Aligned;
    assert Shape(m', lev, root);
    forall f, i, g, j | f in lev && g in lev && 0 <= i < ENTRIES && 0 <= j < ENTRIES
      && IsTable(m'[f][i], lev[f]) && IsTable(m'[g][j], lev[g]) && m'[f][i].frame == m'[g][j].frame
      ensures f == g && i == j
    {
      var i0 := if f == root && i == h then h' else i;
      var j0 := if g == root && j == h then h' else j;
      assert m'[f][i] == m[f][i0] && m'[g][j] == m[g][j0];
    }
  }

  /** The view for one half of the address space. */
  lemma HideFor(mem: Memory, lev: map<nat, nat>, pool: set<nat>, root: nat, hid: Option<nat>, va: nat)
    requires Kept(mem, lev, pool, root, hid)
    ensures Kept(mem, lev, pool, root, HiddenFor(hid, va))
  {
    HideOther(mem, lev, pool, root, hid);
    hide Good;
  }

  lemma HiddenForSees(hid: Option<nat>, va: nat)
    requires Canonical(va)
    ensures HiddenFor(hid, va).Some? ==> Index(4, va) != HiddenFor(hid, va).value
  {
    RootIndex(va);
    hide Index;
  }

  /** The reading walk reports what it would in the tree. */
  lemma ReportedSeen(mem: Memory, lev: map<nat, nat>, pool: set<nat>, root: nat, hid: Option<nat>, va: nat)
    requires Kept(mem, lev, pool, root, hid) && (hid.Some? ==> Index(4, va) != hid.value)
    ensures Reported(mem, root, va) == Reported(Hidden(mem, root, hid), root, va)
  {
    VisibleWalk(mem, lev, pool, root, hid, va);
    VisibleNode(mem, lev, pool, root, hid, va, 1);
    var n := Node(mem, root, va, 1);
    if n.Some? { NodeHasLevel(Hidden(mem, root, hid), lev, root, va, 1); }
    hide Index, Lookup, Node, PhysicalOf, Present, Large;
  }

  lemma {:induction false} VisibleNode(mem: Memory, lev: map<nat, nat>, pool: set<nat>, root: nat, hid: Option<nat>,
      va: nat, level: nat)
    requires Kept(mem, lev, pool, root, hid) && (hid.Some? ==> Index(4, va) != hid.value) && 1 <= level <= 4
    ensures Node(mem, root, va, level) == Node(Hidden(mem, root, hid), root, va, level)
    decreases 4 - level
  {
    hide Index, IsTable, IsLeaf, Aligned;
    if level < 4 {
      VisibleNode(mem, lev, pool, root, hid, va, level + 1);
      var n := Node(mem, root, va, level + 1);
      if n.Some? { NodeHasLevel(Hidden(mem, root, hid), lev, root, va, level + 1); }
    }
  }

  /** Clearing the first entry of the root leaves a tree that no longer knows the bottom of the address space. */
  lemma LowCleared(mem: Memory, lev: map<nat, nat>, pool: set<nat>, root: nat, hid: Option<nat>)
    requires Kept(mem, lev, pool, root, hid)
    ensures root in mem && |mem[root]| == ENTRIES && Kept(Write(mem, root, 0, ZERO), lev, pool, root, None)
    ensures forall va: nat :: Canonical(va) ==>
              Effective(Write(mem, root, 0, ZERO), root, va) == if va < SLOT then NoAccess else Effective(mem, root, va)
  {
    var m := Write(mem, root, 0, ZERO);
    if hid.None? {
      WriteLeafKeepsTree(mem, lev, root, root, 0, ZERO, {});
      assert lev - {} == lev;
    } else {
      HideFor(mem, lev, pool, root, hid, W63);
      assert Kept(mem, lev, pool, root, Some(0));
    }
    hide Good, Index, IsTable, IsLeaf, RightsOf, Lookup;
    forall va: nat | Canonical(va)
      ensures Effective(m, root, va) == if va < SLOT then NoAccess else Effective(mem, root, va)
    {
      RootIndex(va);
      if va < SLOT {
        LowGone(m, root, va);
      } else if hid.Some? {
        VisibleWalk(mem, lev, pool, root, Some(0), va);
      } else {
        LowUnused(mem, lev, root, va);
      }
    }
  }

  lemma LowGone(mem: Memory, root: nat, va: nat)
    requires root in mem && |mem[root]| == ENTRIES && mem[root][0] == ZERO && Index(4, va) == 0
    ensures Effective(mem, root, va) == NoAccess
  {
    assert Lookup(mem, root, 4, va) == NotMapped;
  }

  lemma LowUnused(mem: Memory, lev: map<nat, nat>, root: nat, va: nat)
    requires WellFormed(mem, lev, root) && Index(4, va) != 0
    ensures var m := Write(mem, root, 0, ZERO);
            Lookup(m, root, 4, va) == Lookup(mem, root, 4, va) && RightsOf(m, root, 4, va) == RightsOf(mem, root, 4, va)
  {
    WriteKeepsOthers(mem, Write(mem, root, 0, ZERO), lev, root, root, 0, root, va);
    WriteKeepsRights(mem, Write(mem, root, 0, ZERO), lev, root, root, 0, root, va);
  }

  // ---------- Entries and writes ----------

  /** The entry that a visible walk uses is the same in the tree and in the real tables. */
  lemma ReachedEntry(mem: Memory, lev: map<nat, nat>, pool: set<nat>, root: nat, hid: Option<nat>, va: nat, f: nat,
      i: nat)
    requires Kept(mem, lev, pool, root, hid) && (hid.Some? ==> Index(4, va) != hid.value)
    requires Reaches(Hidden(mem, root, hid), lev, root, va, f, i)
    ensures f in lev && 1 <= lev[f] <= 4 && f in mem && |mem[f]| == ENTRIES && i < ENTRIES
    ensures f in Hidden(mem, root, hid) && |Hidden(mem, root, hid)[f]| == ENTRIES
    ensures mem[f][i] == Hidden(mem, root, hid)[f][i] && (f == root <==> lev[f] == 4)
    ensures hid.Some? && f == root ==> i != hid.value && (i == 0 || i == 256 ==> IsTable(mem[f][i], 4))
    ensures root in lev && pool !! lev.Keys && forall h :: h in lev ==> h in mem
  {
    hide Index, Present, Large;
  }

  /** Writing another entry of the real tables writes it in the tree. */
  lemma HiddenWrite(mem: Memory, root: nat, hid: Option<nat>, f: nat, i: nat, e: Entry)
    requires f in mem && i < |mem[f]| && !(hid.Some? && f == root && i == hid.value)
    ensures Hidden(Write(mem, f, i, e), root, hid) == Write(Hidden(mem, root, hid), f, i, e)
  {
    if f == root && hid.Some? && hid.value < |mem[root]| {
      assert mem[root][i := e][hid.value := ZERO] == mem[root][hid.value := ZERO][i := e];
    }
  }

  /** The same below the root, where the tree and the real tables have the same entries. */
  lemma WriteBelowRoot(mem: Memory, root: nat, hid: Option<nat>, f: nat, i: nat, e: Entry)
    requires Sharing(mem, root, hid) && f in mem && i < |mem[f]| && f != root
    requires f in Hidden(mem, root, hid) && |Hidden(mem, root, hid)[f]| == |mem[f]|
    ensures Sharing(Write(mem, f, i, e), root, hid)
    ensures Hidden(Write(mem, f, i, e), root, hid) == Write(Hidden(mem, root, hid), f, i, e)
  {
    hide IsTable;
    HiddenWrite(mem, root, hid, f, i, e);
  }

  lemma RootsKept(m0: Memory, l0: map<nat, nat>, p0: set<nat>, m1: Memory, l1: map<nat, nat>, p1: set<nat>,
      root: nat, hid: Option<nat>)
    requires Kept(m0, l0, p0, root, hid) && Kept(m1, l1, p1, root, hid)
    ensures Sharing(m0, root, hid) && Sharing(m1, root, hid)
    ensures root in l0 && root in l1 && l0[root] == l1[root] == 4
  {
    hide IsTable, IsLeaf, Aligned;
  }

  /** A table hung under a visible, unshared entry of the real tables hangs under it in the tree. */
  lemma HungHidden(m0: Memory, m1: Memory, lev: map<nat, nat>, root: nat, hid: Option<nat>, f: nat, i: nat,
      e: Entry, table: seq<Entry>)
    requires Sharing(m0, root, hid) && root in lev && Hung(m0, m1, lev, f, i, e, table)
    requires hid.Some? && f == root ==> i != 0 && i != 256
    ensures Sharing(m1, root, hid) && Hung(Hidden(m0, root, hid), Hidden(m1, root, hid), lev, f, i, e, table)
  {
    hide IsTable;
    if hid.Some? {
      if f == root {
        assert m0[root][i := e][hid.value := ZERO] == m0[root][hid.value := ZERO][i := e];
      }
    }
  }

  /** A table entry of the real tables that was not there before was not there in the tree. */
  lemma TablesHidden(m0: Memory, l0: map<nat, nat>, m1: Memory, l1: map<nat, nat>, root: nat, hid: Option<nat>)
    requires TablesFrom(Hidden(m0, root, hid), l0, Hidden(m1, root, hid), l1)
    requires Sharing(m0, root, hid) && Sharing(m1, root, hid)
    requires root in l0 && root in l1 && l0[root] == l1[root] == 4
    ensures TablesFrom(m0, l0, m1, l1)
  {
    hide IsTable;
    var h0, h1 := Hidden(m0, root, hid), Hidden(m1, root, hid);
    forall f, i | f in l1 && f in m1 && |m1[f]| == ENTRIES && 0 <= i < ENTRIES && IsTable(m1[f][i], l1[f])
      ensures m1[f][i].attr == PTE_P | PTE_W
              || (f in l0 && f in m0 && |m0[f]| == ENTRIES && l0[f] == l1[f] && m0[f][i] == m1[f][i])
    {
      var j := if hid.Some? && f == root && i == hid.value then 256 - i else i;
      assert h1[f][j] == m1[f][j] == m1[f][i] && IsTable(h1[f][j], l1[f]);
    }
  }

  /** Splitting a leaf of the real tables, too, changes no effective access exactly when no user could use the leaf. */
  lemma SharedSplitKeepsAccessIff(mem: Memory, mem': Memory, lev: map<nat, nat>, pool: set<nat>, root: nat,
      hid: Option<nat>, f: nat, va: nat, t: nat, table: seq<Entry>)
    requires Kept(mem, lev, pool, root, hid) && t in pool && Canonical(va) && (hid.Some? ==> Index(4, va) != hid.value)
    requires f in lev && Reaches(Hidden(mem, root, hid), lev, root, va, f, Index(lev[f], va))
    requires f in mem && |mem[f]| == ENTRIES && (lev[f] == 2 || lev[f] == 3)
    requires IsLeaf(mem[f][Index(lev[f], va)], lev[f])
    requires Hung(mem, mem', lev, f, Index(lev[f], va), Entry(t, PTE_P | PTE_W), table)
    requires forall k :: 0 <= k < ENTRIES ==> table[k] == SplitEntry(mem[f][Index(lev[f], va)], lev[f], k)
    ensures Kept(mem', lev[t := lev[f] - 1], pool - {t}, root, hid)
    ensures (forall vb: nat :: Canonical(vb) ==> Effective(mem', root, vb) == Effective(mem, root, vb))
            <==> !RightsOf(mem, root, 4, va).user
  {
    var i, m, m' := Index(lev[f], va), Hidden(mem, root, hid), Hidden(mem', root, hid);
    hide Index, IsLeaf, IsTable, SplitEntry, Good, Reaches, Hung, RightsOf, Effective, Hidden, Seen, Canonical;
    ReachedEntry(mem, lev, pool, root, hid, va, f, i);
    HungHidden(mem, mem', lev, root, hid, f, i, Entry(t, PTE_P | PTE_W), table);
    SplitLeaf(m, m', lev, pool, root, f, i, va, t, table);
    SplitKeepsAccessIff(m, m', lev, pool, root, f, va, t, table);
    VisibleWalk(mem, lev, pool, root, hid, va);
    forall vb: nat | Canonical(vb)
      ensures Effective(mem, root, vb) == Effective(m, root, Seen(hid, vb))
      ensures Effective(mem', root, vb) == Effective(m', root, Seen(hid, vb))
    {
      SeenWalk(mem, lev, pool, root, hid, vb);
      SeenWalk(mem', lev[t := lev[f] - 1], pool - {t}, root, hid, vb);
    }
    assert Seen(hid, va) == va by { VisibleIsSeen(hid, va); }
  }

  lemma VisibleIsSeen(hid: Option<nat>, va: nat)
    requires hid.Some? ==> Index(4, va) != hid.value
    ensures Seen(hid, va) == va
  {
  }
}
