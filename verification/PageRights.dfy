/** Access rights. The hardware allows a write, or a user access, only when every entry of the walk does; this module
    says what the walk adds to the attributes of the leaf, and where the tables on the walk come from. */
module PageRights {
  import opened Machine
  import opened PageTable
  import opened PageWalk

  datatype Rights = Rights(write: bool, user: bool)

  function Own(e: Entry): Rights { Rights(e.attr & PTE_W != 0, e.attr & PTE_U != 0) }

  function Both(a: Rights, b: Rights): Rights { Rights(a.write && b.write, a.user && b.user) }

  const NONE := Rights(false, false)
  const ALL := Rights(true, true)

  /** What the entries of the walk from table `f` on allow together, its leaf included. */
  function RightsOf(mem: Memory, f: nat, level: nat, va: nat): Rights
    decreases level
  {
    if level == 0 || f !in mem || |mem[f]| != ENTRIES then NONE
    else
      var e := mem[f][Index(level, va)];
      if IsLeaf(e, level) then Own(e)
      else if IsTable(e, level) then Both(Own(e), RightsOf(mem, e.frame, level - 1, va))
      else NONE
  }

  /** What an access to `va` meets: the address, the leaf's attributes, and the rights of the whole walk. */
  datatype Access = NoAccess | Access(pa: int, attr: bv12, rights: Rights)

  function Effective(mem: Memory, root: nat, va: nat): Access {
    match Translate(mem, root, va)
    case Fault => NoAccess
    case To(pa, attr) => Access(pa, attr, RightsOf(mem, root, 4, va))
  }

  // ---------- Along the walk ----------

  /** What the entries above the table that the walk of `va` reaches at `level` allow. */
  function PathRights(mem: Memory, root: nat, va: nat, level: nat): Rights
    decreases 4 - level
  {
    if level >= 4 then ALL
    else
      match Node(mem, root, va, level + 1)
      case None => ALL
      case Some(f) =>
        if f !in mem || |mem[f]| != ENTRIES then ALL
        else Both(PathRights(mem, root, va, level + 1), Own(mem[f][Index(level + 1, va)]))
  }

  lemma {:induction false} RightsThroughNode(mem: Memory, lev: map<nat, nat>, root: nat, va: nat, level: nat)
    requires WellFormed(mem, lev, root) && 1 <= level <= 4
    requires Node(mem, root, va, level).Some?
    ensures RightsOf(mem, root, 4, va)
         == Both(PathRights(mem, root, va, level), RightsOf(mem, Node(mem, root, va, level).value, level, va))
    decreases 4 - level
  {
    hide Index, Present, Large, Own, Aligned;
    if level < 4 {
      NodeHasLevel(mem, lev, root, va, level + 1);
      RightsThroughNode(mem, lev, root, va, level + 1);
    }
  }

  /** Addresses with the same higher indices have the same rights above. */
  lemma {:induction false} SamePathRights(mem: Memory, root: nat, va: nat, vb: nat, level: nat)
    requires 1 <= level <= 4 && Same(level + 1, va, vb)
    ensures PathRights(mem, root, va, level) == PathRights(mem, root, vb, level)
    decreases 4 - level
  {
    hide Index, Present, Large;
    if level < 4 {
      SamePathRights(mem, root, va, vb, level + 1);
      PathDeterminesNode(mem, root, va, vb, level + 1);
    }
  }

  /** A write to table `f` leaves the rights above it alone. */
  lemma {:induction false} WriteKeepsPath(mem: Memory, mem': Memory, lev: map<nat, nat>, root: nat, f: nat,
      va: nat, level: nat)
    requires WellFormed(mem, lev, root) && f in lev && lev[f] <= level <= 4
    requires forall g :: g in lev && g != f ==> g in mem' && mem'[g] == mem[g]
    ensures PathRights(mem', root, va, level) == PathRights(mem, root, va, level)
    decreases 4 - level
  {
    hide Index, Present, Large;
    if level < 4 {
      WriteKeepsPath(mem, mem', lev, root, f, va, level + 1);
      WriteKeepsNodes(mem, mem', lev, root, f, va, level + 1);
      if Node(mem, root, va, level + 1).Some? { NodeHasLevel(mem, lev, root, va, level + 1); }
    }
  }

  /** A walk that does not use the written entry has the rights it had. */
  lemma {:induction false} WriteKeepsRights(mem: Memory, mem': Memory, lev: map<nat, nat>, root: nat, f: nat,
      i: nat, g: nat, va: nat)
    requires WellFormed(mem, lev, root) && f in lev && i < ENTRIES
    requires forall h :: h in lev && h != f ==> h in mem' && mem'[h] == mem[h]
    requires f in mem' && |mem'[f]| == ENTRIES && forall k :: 0 <= k < ENTRIES && k != i ==> mem'[f][k] == mem[f][k]
    requires g in lev && Node(mem, root, va, lev[g]) == Some(g)
    requires !Uses(mem, root, va, lev[f], f, i)
    ensures RightsOf(mem', g, lev[g], va) == RightsOf(mem, g, lev[g], va)
    decreases lev[g]
  {
    hide Index, Present, Large;
    var e := mem[g][Index(lev[g], va)];
    assert mem'[g][Index(lev[g], va)] == e;
    if IsTable(e, lev[g]) {
      WriteKeepsRights(mem, mem', lev, root, f, i, e.frame, va);
    }
  }

  // ---------- Splitting ----------

  lemma SplitOwn(e: Entry, level: nat, k: nat, t: nat)
    requires level == 2 || level == 3
    ensures Own(SplitEntry(e, level, k)) == Own(e) && Own(Entry(t, PTE_P | PTE_W)) == Rights(true, false)
  {
  }

  /** The walk from the split entry's table on, before and after. */
  lemma SplitBelow(mem: Memory, mem': Memory, f: nat, i: nat, level: nat, t: nat, table: seq<Entry>, vb: nat)
    requires (level == 2 || level == 3) && f in mem && |mem[f]| == ENTRIES && i < ENTRIES && Index(level, vb) == i
    requires IsLeaf(mem[f][i], level) && Aligned(mem[f][i], level)
    requires f in mem' && mem'[f] == mem[f][i := Entry(t, PTE_P | PTE_W)] && t in mem' && mem'[t] == table
    requires |table| == ENTRIES && forall k :: 0 <= k < ENTRIES ==> table[k] == SplitEntry(mem[f][i], level, k)
    ensures RightsOf(mem, f, level, vb) == Own(mem[f][i])
    ensures RightsOf(mem', f, level, vb) == Rights(Own(mem[f][i]).write, false)
  {
    var k, link := Index(level - 1, vb), Entry(t, PTE_P | PTE_W);
    SplitEntryIsLeaf(mem[f][i], level, k);
    SplitOwn(mem[f][i], level, k, t);
    assert IsTable(link, level) && !IsLeaf(link, level);
    hide Index, Own, SplitEntry, IsLeaf, IsTable;
    assert mem'[f][i] == link;
    assert RightsOf(mem', t, level - 1, vb) == Own(table[k]);
  }

  /** Splitting a leaf takes user access from its addresses, and nothing else from any address. */
  lemma SplitRights(mem: Memory, mem': Memory, lev: map<nat, nat>, root: nat, f: nat, va: nat, t: nat,
      table: seq<Entry>, vb: nat)
    requires WellFormed(mem, lev, root) && f in lev && Node(mem, root, va, lev[f]) == Some(f)
    requires (lev[f] == 2 || lev[f] == 3) && IsLeaf(mem[f][Index(lev[f], va)], lev[f])
    requires Hung(mem, mem', lev, f, Index(lev[f], va), Entry(t, PTE_P | PTE_W), table)
    requires forall k :: 0 <= k < ENTRIES ==> table[k] == SplitEntry(mem[f][Index(lev[f], va)], lev[f], k)
    ensures !Same(lev[f], va, vb) ==> RightsOf(mem', root, 4, vb) == RightsOf(mem, root, 4, vb)
    ensures var above, e := PathRights(mem, root, va, lev[f]), mem[f][Index(lev[f], va)];
            Same(lev[f], va, vb) ==>
              && RightsOf(mem, root, 4, vb) == Both(above, Own(e))
              && RightsOf(mem', root, 4, vb) == Both(above, Rights(Own(e).write, false))
  {
    var level, i := lev[f], Index(lev[f], va);
    UsesIsSlot(mem, lev, root, f, va, vb);
    if Same(level, va, vb) {
      SplitTree(mem, mem', lev, root, f, i, t, table);
      WriteKeepsNodes(mem, mem', lev, root, f, vb, level);
      WriteKeepsPath(mem, mem', lev, root, f, vb, level);
      SamePathRights(mem, root, va, vb, level);
      hide Own, Hung, WellFormed, RightsOf, PathRights, Index, IsLeaf, SplitEntry;
      RightsThroughNode(mem, lev, root, vb, level);
      RightsThroughNode(mem', lev[t := level - 1], root, vb, level);
      SplitBelow(mem, mem', f, i, level, t, table, vb);
    } else {
      hide Own, IsLeaf, SplitEntry, RightsOf, Index;
      WriteKeepsRights(mem, mem', lev, root, f, i, root, vb);
    }
  }

  lemma SplitTree(mem: Memory, mem': Memory, lev: map<nat, nat>, root: nat, f: nat, i: nat, t: nat, table: seq<Entry>)
    requires WellFormed(mem, lev, root) && f in lev && i < ENTRIES && (lev[f] == 2 || lev[f] == 3)
    requires f in mem && |mem[f]| == ENTRIES && IsLeaf(mem[f][i], lev[f])
    requires Hung(mem, mem', lev, f, i, Entry(t, PTE_P | PTE_W), table)
    requires forall k :: 0 <= k < ENTRIES ==> table[k] == SplitEntry(mem[f][i], lev[f], k)
    ensures WellFormed(mem', lev[t := lev[f] - 1], root) && Aligned(mem[f][i], lev[f])
    ensures f in mem' && mem'[f] == mem[f][i := Entry(t, PTE_P | PTE_W)] && t in mem' && mem'[t] == table
    ensures |table| == ENTRIES
  {
    forall k | 0 <= k < ENTRIES
      ensures !IsTable(table[k], lev[f] - 1) && Aligned(table[k], lev[f] - 1)
    {
      SplitEntryIsLeaf(mem[f][i], lev[f], k);
    }
    LinkKeepsTree(mem, mem', lev, root, f, i, Entry(t, PTE_P | PTE_W), table);
  }

  /** A split changes no effective access at all exactly when no user could use the leaf. */
  lemma SplitKeepsAccessIff(mem: Memory, mem': Memory, lev: map<nat, nat>, pool: set<nat>, root: nat, f: nat,
      va: nat, t: nat, table: seq<Entry>)
    requires Good(mem, lev, pool, root) && t in pool && f in lev && Reaches(mem, lev, root, va, f, Index(lev[f], va))
    requires (lev[f] == 2 || lev[f] == 3) && IsLeaf(mem[f][Index(lev[f], va)], lev[f])
    requires Hung(mem, mem', lev, f, Index(lev[f], va), Entry(t, PTE_P | PTE_W), table)
    requires forall k :: 0 <= k < ENTRIES ==> table[k] == SplitEntry(mem[f][Index(lev[f], va)], lev[f], k)
    ensures (forall vb: nat :: Effective(mem', root, vb) == Effective(mem, root, vb))
            <==> !RightsOf(mem, root, 4, va).user
    ensures RightsOf(mem, root, 4, va).user ==> Effective(mem', root, va) != Effective(mem, root, va)
  {
    SplitLeaf(mem, mem', lev, pool, root, f, Index(lev[f], va), va, t, table);
    LookupEntry(mem, lev, root, f, va, va);
    SameSelf(va, lev[f]);
    assert Translate(mem, root, va) != Fault;
    hide Own, IsLeaf, SplitEntry, RightsOf, Index, Translate, WellFormed, Hung, Node, Lookup, PathRights, Extended;
    hide Same;
    SplitRights(mem, mem', lev, root, f, va, t, table, va);
    forall vb: nat
      ensures Effective(mem', root, vb) == Effective(mem, root, vb)
              <==> !(Same(lev[f], va, vb) && RightsOf(mem, root, 4, va).user) || Translate(mem, root, vb) == Fault
    {
      SplitRights(mem, mem', lev, root, f, va, t, table, vb);
    }
  }

  lemma {:induction false} SameSelf(va: nat, level: nat)
    ensures Same(level, va, va)
    decreases 5 - level
  {
    hide Index;
    if level < 5 { SameSelf(va, level + 1); }
  }

  // ---------- Where the tables come from ----------

  /** Every table entry of the new tree was one of the old tree, or is one that the mapping code writes. */
  ghost predicate TablesFrom(m0: Memory, l0: map<nat, nat>, m1: Memory, l1: map<nat, nat>) {
    forall f, i :: f in l1 && f in m1 && |m1[f]| == ENTRIES && 0 <= i < ENTRIES && IsTable(m1[f][i], l1[f]) ==>
      || m1[f][i].attr == PTE_P | PTE_W
      || (f in l0 && f in m0 && |m0[f]| == ENTRIES && l0[f] == l1[f] && m0[f][i] == m1[f][i])
  }

  /** The tables the boot code and the mapping code make: writable, and for the kernel only. */
  ghost predicate Plain(mem: Memory, lev: map<nat, nat>) {
    forall f, i :: f in lev && f in mem && |mem[f]| == ENTRIES && 0 <= i < ENTRIES && IsTable(mem[f][i], lev[f]) ==>
      Own(mem[f][i]) == Rights(true, false)
  }

  lemma TablesStay(mem: Memory, lev: map<nat, nat>)
    ensures TablesFrom(mem, lev, mem, lev)
  {
  }

  lemma TablesFollow(m0: Memory, l0: map<nat, nat>, m1: Memory, l1: map<nat, nat>, m2: Memory, l2: map<nat, nat>)
    requires TablesFrom(m0, l0, m1, l1) && TablesFrom(m1, l1, m2, l2)
    ensures TablesFrom(m0, l0, m2, l2)
  {
    hide IsTable;
  }

  /** A table without tables below it is hung under an entry. */
  lemma TablesLinked(m0: Memory, m1: Memory, lev: map<nat, nat>, f: nat, i: nat, t: nat, table: seq<Entry>)
    requires Hung(m0, m1, lev, f, i, Entry(t, PTE_P | PTE_W), table)
    requires lev[f] >= 1 && forall k :: 0 <= k < ENTRIES ==> !IsTable(table[k], lev[f] - 1)
    ensures TablesFrom(m0, lev, m1, lev[t := lev[f] - 1])
  {
    hide IsTable;
  }

  lemma EmptyTableLinked(m0: Memory, m1: Memory, lev: map<nat, nat>, f: nat, i: nat, t: nat)
    requires f in lev && lev[f] >= 1
    requires Hung(m0, m1, lev, f, i, Entry(t, PTE_P | PTE_W), seq(ENTRIES, _ => ZERO))
    ensures TablesFrom(m0, lev, m1, lev[t := lev[f] - 1])
  {
    assert !Present(ZERO);
    TablesLinked(m0, m1, lev, f, i, t, seq(ENTRIES, _ => ZERO));
  }

  /** A leaf or an absent entry is written. */
  lemma TablesWritten(mem: Memory, lev: map<nat, nat>, f: nat, i: nat, e: Entry)
    requires f in mem && f in lev && i < |mem[f]| && !IsTable(e, lev[f])
    ensures TablesFrom(mem, lev, Write(mem, f, i, e), lev)
  {
    hide IsTable;
  }

  /** A table leaves the tree. */
  lemma TablesShrink(mem: Memory, lev: map<nat, nat>, t: nat)
    ensures TablesFrom(mem, lev, mem, lev - {t})
  {
    hide IsTable;
  }

  lemma SplitTables(mem: Memory, mem': Memory, lev: map<nat, nat>, pool: set<nat>, root: nat, f: nat, i: nat,
      t: nat, table: seq<Entry>)
    requires Good(mem, lev, pool, root) && f in lev && i < ENTRIES && (lev[f] == 2 || lev[f] == 3)
    requires f in mem && |mem[f]| == ENTRIES && IsLeaf(mem[f][i], lev[f])
    requires Hung(mem, mem', lev, f, i, Entry(t, PTE_P | PTE_W), table)
    requires forall k :: 0 <= k < ENTRIES ==> table[k] == SplitEntry(mem[f][i], lev[f], k)
    ensures TablesFrom(mem, lev, mem', lev[t := lev[f] - 1])
  {
    forall k | 0 <= k < ENTRIES ensures !IsTable(table[k], lev[f] - 1) {
      SplitEntryIsLeaf(mem[f][i], lev[f], k);
    }
    TablesLinked(mem, mem', lev, f, i, t, table);
  }

  lemma PlainStays(m0: Memory, l0: map<nat, nat>, m1: Memory, l1: map<nat, nat>)
    requires TablesFrom(m0, l0, m1, l1) && Plain(m0, l0)
    ensures Plain(m1, l1)
  {
    hide IsTable;
    assert Own(Entry(0, PTE_P | PTE_W)) == Rights(true, false);
    forall f, i | f in l1 && f in m1 && |m1[f]| == ENTRIES && 0 <= i < ENTRIES && IsTable(m1[f][i], l1[f])
      ensures Own(m1[f][i]) == Rights(true, false)
    {
    }
  }

  lemma {:induction false} PlainRights(mem: Memory, lev: map<nat, nat>, root: nat, f: nat, va: nat)
    requires WellFormed(mem, lev, root) && Plain(mem, lev) && f in lev
    ensures var leaf := Lookup(mem, f, lev[f], va);
            leaf.Mapped? ==>
              RightsOf(mem, f, lev[f], va)
              == if leaf.level == lev[f] then Own(leaf.entry) else Rights(Own(leaf.entry).write, false)
    decreases lev[f]
  {
    hide Index, Present, Large, Own;
    var e := mem[f][Index(lev[f], va)];
    if IsTable(e, lev[f]) {
      LookupLevel(mem, e.frame, lev[f] - 1, va);
      PlainRights(mem, lev, root, e.frame, va);
    }
  }

  /** Under plain tables an access is the translation, writable as the leaf says and never for users. */
  function KernelAccess(t: Translation): Access {
    match t
    case Fault => NoAccess
    case To(pa, attr) => Access(pa, attr, Rights(attr & PTE_W != 0, false))
  }

  lemma PlainAccess(mem: Memory, lev: map<nat, nat>, root: nat, va: nat)
    requires WellFormed(mem, lev, root) && Plain(mem, lev)
    ensures Effective(mem, root, va) == KernelAccess(Translate(mem, root, va))
  {
    PlainRights(mem, lev, root, root, va);
    LookupLevel(mem, root, 4, va);
    var leaf := Lookup(mem, root, 4, va);
    if leaf.Mapped? { LeafAttrKeepsWrite(leaf.level, leaf.entry.attr); }
    hide Lookup, WellFormed, Plain, RightsOf, LeafAttr;
  }

  lemma LeafAttrKeepsWrite(level: nat, attr: bv12)
    ensures LeafAttr(level, attr) & PTE_W == attr & PTE_W && LeafAttr(level, attr) & PTE_U == attr & PTE_U
  {
  }
}
