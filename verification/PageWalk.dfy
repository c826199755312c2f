/** The page-table walk as a state machine over table trees: what linking a table, splitting a large leaf and
    giving a table back do to every walk, and where the walk may stop. */
module PageWalk {
  import opened Machine
  import opened PageTable

  ghost predicate SameMeaning(m0: Memory, m1: Memory, root: nat) {
    forall vb: nat :: Translate(m1, root, vb) == Translate(m0, root, vb)
  }

  /** Walks outside the 1G slot of `va` are untouched, and outside its 2M slot and its slot at `level`
      huge leaves stay huge. */
  ghost predicate Undisturbed(m0: Memory, m1: Memory, root: nat, va: nat, level: nat) {
    && (forall vb: nat :: !Same(3, va, vb) ==> Lookup(m1, root, 4, vb) == Lookup(m0, root, 4, vb))
    && (forall vb: nat :: !Same(2, va, vb) && !Same(level, va, vb) ==> (Huge(m1, root, vb) <==> Huge(m0, root, vb)))
  }

  /** The large leaf that `va` and `vb` had in common has been split: `vb` finds a smaller one. */
  predicate Smaller(m0: Memory, m1: Memory, root: nat, va: nat, vb: nat) {
    var a, b := Lookup(m0, root, 4, vb), Lookup(m1, root, 4, vb);
    a.Mapped? && a.level >= 2 && Same(a.level, va, vb) && b.Mapped? && b.level < a.level
  }

  /** Outside the slot of `va` at `level`, or everywhere for level 0, every walk finds the leaf it found, or a piece of
      one that was split. */
  ghost predicate OnlySplits(m0: Memory, m1: Memory, root: nat, va: nat, level: nat) {
    forall vb: nat :: level == 0 || !Same(level, va, vb) ==>
      Lookup(m1, root, 4, vb) == Lookup(m0, root, 4, vb) || Smaller(m0, m1, root, va, vb)
  }

  /** The tree now has one more table, under entry `i` of `f`, and the walk of `va` enters it. */
  ghost predicate Extended(m0: Memory, l0: map<nat, nat>, m1: Memory, l1: map<nat, nat>, root: nat, f: nat, i: nat,
      va: nat) {
    && WellFormed(m1, l1, root)
    && f in l0 && f in l1 && l1[f] == l0[f] && l0[f] >= 2 && i < ENTRIES && IsTable(m1[f][i], l0[f])
    && var t := m1[f][i].frame;
       t !in l0 && l1 == l0[t := l0[f] - 1] && Node(m1, root, va, l0[f] - 1) == Some(t)
  }

  /** Splitting a leaf of `level`: nothing else is found differently, and its addresses find smaller leaves. */
  ghost predicate Split(m0: Memory, m1: Memory, root: nat, va: nat, level: nat) {
    && SameMeaning(m0, m1, root)
    && forall vb: nat ::
         if !Same(level, va, vb) then Lookup(m1, root, 4, vb) == Lookup(m0, root, 4, vb)
         else && Lookup(m0, root, 4, vb).Mapped? && Lookup(m0, root, 4, vb).level == level
              && Lookup(m1, root, 4, vb).Mapped? && Lookup(m1, root, 4, vb).level == level - 1
  }

  ghost predicate SameLookups(m0: Memory, m1: Memory, root: nat) {
    forall vb: nat :: Lookup(m1, root, 4, vb) == Lookup(m0, root, 4, vb)
  }

  /** The whole invariant: a table tree, and a pool of frames outside it. */
  ghost predicate Good(mem: Memory, lev: map<nat, nat>, pool: set<nat>, root: nat) {
    WellFormed(mem, lev, root) && pool !! lev.Keys
  }

  /** The walk of `va` uses entry `i` of table `f`. */
  ghost predicate Reaches(mem: Memory, lev: map<nat, nat>, root: nat, va: nat, f: nat, i: nat) {
    f in lev && Node(mem, root, va, lev[f]) == Some(f) && i == Index(lev[f], va)
  }

  lemma ReachedTable(mem: Memory, lev: map<nat, nat>, pool: set<nat>, root: nat, va: nat, f: nat, i: nat)
    requires Good(mem, lev, pool, root) && Reaches(mem, lev, root, va, f, i)
    ensures f in mem && |mem[f]| == ENTRIES && i < ENTRIES && f in lev && 1 <= lev[f] <= 4
    ensures pool !! lev.Keys && forall h :: h in lev ==> h in mem
  {
  }

  ghost function Owned(lev: map<nat, nat>, pool: set<nat>): set<nat> { lev.Keys + pool }

  /** A frame that moves from the pool to the tree is still accounted for. */
  lemma FrameMoves(lev: map<nat, nat>, pool: set<nat>, t: nat, level: nat)
    requires t in pool && pool !! lev.Keys
    ensures Owned(lev[t := level], pool - {t}) == Owned(lev, pool)
    ensures (pool - {t}) !! lev[t := level].Keys
  {
    assert lev[t := level].Keys == lev.Keys + {t};
  }

  lemma LinkAbsent(mem: Memory, mem': Memory, lev: map<nat, nat>, pool: set<nat>, root: nat, f: nat, i: nat,
      va: nat, t: nat)
    requires Good(mem, lev, pool, root) && t in pool && Reaches(mem, lev, root, va, f, i) && lev[f] >= 2
             && !Present(mem[f][i])
    requires Hung(mem, mem', lev, f, i, Entry(t, PTE_P | PTE_W), seq(ENTRIES, _ => ZERO))
    ensures Good(mem', lev[t := lev[f] - 1], pool - {t}, root)
    ensures Owned(lev[t := lev[f] - 1], pool - {t}) == Owned(lev, pool)
    ensures Extended(mem, lev, mem', lev[t := lev[f] - 1], root, f, i, va) && SameLookups(mem, mem', root)
  {
    var table := seq(ENTRIES, _ => ZERO);
    var e := Entry(t, PTE_P | PTE_W);
    FrameMoves(lev, pool, t, lev[f] - 1);
    LinkKeepsTree(mem, mem', lev, root, f, i, e, table);
    forall vb: nat ensures Lookup(mem', root, 4, vb) == Lookup(mem, root, 4, vb) {
      LinkEffect(mem, mem', lev, root, f, va, e, table, vb);
      if Same(lev[f], va, vb) { LookupEntry(mem, lev, root, f, va, vb); }
    }
    WriteKeepsNodes(mem, mem', lev, root, f, va, lev[f]);
  }

  /** Replacing a large leaf by the table of its pieces changes no translation. */
  lemma SplitLeaf(mem: Memory, mem': Memory, lev: map<nat, nat>, pool: set<nat>, root: nat, f: nat, i: nat,
      va: nat, t: nat, table: seq<Entry>)
    requires Good(mem, lev, pool, root) && t in pool && Reaches(mem, lev, root, va, f, i)
    requires (lev[f] == 2 || lev[f] == 3) && IsLeaf(mem[f][i], lev[f])
    requires Hung(mem, mem', lev, f, i, Entry(t, PTE_P | PTE_W), table)
    requires forall k :: 0 <= k < ENTRIES ==> table[k] == SplitEntry(mem[f][i], lev[f], k)
    ensures Good(mem', lev[t := lev[f] - 1], pool - {t}, root)
    ensures Owned(lev[t := lev[f] - 1], pool - {t}) == Owned(lev, pool)
    ensures Extended(mem, lev, mem', lev[t := lev[f] - 1], root, f, i, va) && Split(mem, mem', root, va, lev[f])
  {
    var level := lev[f];
    var e := mem[f][i];
    forall k | 0 <= k < ENTRIES
      ensures IsLeaf(table[k], level - 1) && !IsTable(table[k], level - 1) && Aligned(table[k], level - 1)
    {
      SplitEntryIsLeaf(e, level, k);
    }
    FrameMoves(lev, pool, t, lev[f] - 1);
    LinkKeepsTree(mem, mem', lev, root, f, i, Entry(t, PTE_P | PTE_W), table);
    forall vb: nat
      ensures if !Same(level, va, vb) then Lookup(mem', root, 4, vb) == Lookup(mem, root, 4, vb)
              else Lookup(mem', root, 4, vb).Mapped? && Lookup(mem', root, 4, vb).level == level - 1
                   && Lookup(mem, root, 4, vb) == Mapped(level, e)
      ensures Translate(mem', root, vb) == Translate(mem, root, vb)
    {
      LinkEffect(mem, mem', lev, root, f, va, Entry(t, PTE_P | PTE_W), table, vb);
      if Same(level, va, vb) {
        LookupEntry(mem, lev, root, f, va, vb);
        SplitKeepsMeaning(e, level, vb);
      }
    }
    WriteKeepsNodes(mem, mem', lev, root, f, va, level);
  }

  // ---------- The allocating walk ----------

  /** The walk of `va`, begun in memory `m0`, has arrived at table `f` of `level` in memory `m1`. */
  ghost predicate Walking(m0: Memory, m1: Memory, lev: map<nat, nat>, pool: set<nat>, root: nat, va: nat, f: nat,
      level: nat) {
    && Good(m1, lev, pool, root) && Reaches(m1, lev, root, va, f, Index(level, va)) && lev[f] == level
    && SameMeaning(m0, m1, root) && Undisturbed(m0, m1, root, va, 1) && OnlySplits(m0, m1, root, va, 0)
    && (level >= 3 ==> Lookup(m1, root, 4, va) == Lookup(m0, root, 4, va))
    && (level >= 2 ==> (Huge(m1, root, va) <==> Huge(m0, root, va)))
  }

  /** The walk of `va`, begun in memory `m0`, has found the entry to write; `m1` is the memory with that entry
      cleared. */
  ghost predicate Found(m0: Memory, m1: Memory, lev: map<nat, nat>, pool: set<nat>, root: nat, va: nat, f: nat,
      i: nat, want: nat) {
    && Good(m1, lev, pool, root) && Reaches(m1, lev, root, va, f, i) && m1[f][i] == ZERO
    && lev[f] == (if Stuck(m0, root, va, want) then 1 else want)
    && (forall vb: nat :: !Same(lev[f], va, vb) ==> Translate(m1, root, vb) == Translate(m0, root, vb))
    && Undisturbed(m0, m1, root, va, lev[f]) && OnlySplits(m0, m1, root, va, lev[f])
  }

  lemma WalkStarts(mem: Memory, lev: map<nat, nat>, pool: set<nat>, root: nat, va: nat)
    requires Good(mem, lev, pool, root)
    ensures Walking(mem, mem, lev, pool, root, va, root, 4)
  {
  }

  lemma WalkEnters(m0: Memory, m1: Memory, lev: map<nat, nat>, pool: set<nat>, root: nat, va: nat, f: nat, level: nat)
    requires Walking(m0, m1, lev, pool, root, va, f, level) && 2 <= level && IsTable(m1[f][Index(level, va)], level)
    ensures Walking(m0, m1, lev, pool, root, va, m1[f][Index(level, va)].frame, level - 1)
  {
    NodeHasLevel(m1, lev, root, va, level - 1);
  }

  lemma WalkLinks(m0: Memory, m1: Memory, l1: map<nat, nat>, p1: set<nat>, root: nat, va: nat, f: nat, level: nat,
                  m2: Memory, l2: map<nat, nat>, p2: set<nat>)
    requires Walking(m0, m1, l1, p1, root, va, f, level) && 2 <= level
    requires Good(m2, l2, p2, root) && Extended(m1, l1, m2, l2, root, f, Index(level, va), va)
             && SameLookups(m1, m2, root)
    ensures Walking(m0, m2, l2, p2, root, va, m2[f][Index(level, va)].frame, level - 1)
  {
    hide Good, Lookup, WellFormed, Node;
  }

  lemma WalkSplits(m0: Memory, m1: Memory, l1: map<nat, nat>, p1: set<nat>, root: nat, va: nat, f: nat, level: nat,
                   m2: Memory, l2: map<nat, nat>, p2: set<nat>)
    requires Walking(m0, m1, l1, p1, root, va, f, level) && 2 <= level <= 3
    requires Good(m2, l2, p2, root) && Extended(m1, l1, m2, l2, root, f, Index(level, va), va)
             && Split(m1, m2, root, va, level)
    ensures Walking(m0, m2, l2, p2, root, va, m2[f][Index(level, va)].frame, level - 1)
  {
  }

  /** The walk stops at an entry that refers to no table. */
  lemma WalkFinds(m0: Memory, m1: Memory, lev: map<nat, nat>, pool: set<nat>, root: nat, va: nat, f: nat,
      level: nat, want: nat)
    requires Walking(m0, m1, lev, pool, root, va, f, level) && 1 <= level <= 3
             && !IsTable(m1[f][Index(level, va)], level)
    requires level == if Stuck(m0, root, va, want) then 1 else want
    ensures f in m1 && |m1[f]| == ENTRIES
    ensures Found(m0, Write(m1, f, Index(level, va), ZERO), lev, pool, root, va, f, Index(level, va), want)
  {
    var i := Index(level, va);
    var m2 := Write(m1, f, i, ZERO);
    WriteLeafKeepsTree(m1, lev, root, f, i, ZERO, {});
    assert lev - {} == lev;
    ClearedEntry(m0, m1, lev, pool, root, va, f, level);
  }

  /** Clearing the entry that `va` uses leaves all walks outside its slot alone. */
  lemma ClearedEntry(m0: Memory, m1: Memory, lev: map<nat, nat>, pool: set<nat>, root: nat, va: nat, f: nat, level: nat)
    requires Walking(m0, m1, lev, pool, root, va, f, level) && 1 <= level <= 3
    ensures f in m1 && |m1[f]| == ENTRIES
    ensures var m2 := Write(m1, f, Index(level, va), ZERO);
            && (forall vb: nat :: !Same(level, va, vb) ==> Translate(m2, root, vb) == Translate(m0, root, vb))
            && Undisturbed(m0, m2, root, va, level) && OnlySplits(m0, m2, root, va, level)
            && Node(m2, root, va, level) == Some(f)
  {
    var m2 := Write(m1, f, Index(level, va), ZERO);
    forall vb: nat | !Same(level, va, vb) ensures Lookup(m2, root, 4, vb) == Lookup(m1, root, 4, vb) {
      LeafWriteEffect(m1, lev, root, f, va, ZERO, vb);
    }
    WriteKeepsNodes(m1, m2, lev, root, f, va, level);
  }

  /** The walk stops at a table whose frame goes back to the allocator. */
  lemma WalkShrinks(m0: Memory, m1: Memory, lev: map<nat, nat>, pool: set<nat>, root: nat, va: nat, f: nat, level: nat)
    requires Walking(m0, m1, lev, pool, root, va, f, level) && 2 <= level <= 3
             && IsTable(m1[f][Index(level, va)], level)
    requires !Stuck(m0, root, va, level)
    ensures f in m1 && |m1[f]| == ENTRIES
    ensures var t := m1[f][Index(level, va)].frame;
            && Found(m0, Write(m1, f, Index(level, va), ZERO), lev - {t}, pool + {t}, root, va, f,
                      Index(level, va), level)
            && Owned(lev - {t}, pool + {t}) == Owned(lev, pool)
  {
    var i := Index(level, va);
    var t := m1[f][i].frame;
    WriteLeafKeepsTree(m1, lev, root, f, i, ZERO, {t});
    ClearedEntry(m0, m1, lev, pool, root, va, f, level);
  }

  // ---------- The reading walk ----------

  /** What `check_pgtable` reports: where a leaf maps `va`, and failing that the address left in its absent
      4K entry, or 0 when no 4K table exists. */
  function Reported(mem: Memory, root: nat, va: nat): nat {
    match Lookup(mem, root, 4, va)
    case Mapped(level, e) => PhysicalOf(level, e, va)
    case NotMapped =>
      match Node(mem, root, va, 1)
      case Some(f) => if f in mem && |mem[f]| == ENTRIES then PhysicalOf(1, mem[f][Index(1, va)], va) else 0
      case None => 0
  }

  /** That is the physical address of a translation, and 0 without a 4K table on the way. */
  lemma ReportedMeans(mem: Memory, root: nat, va: nat)
    ensures Translate(mem, root, va).To? ==> Reported(mem, root, va) == Translate(mem, root, va).pa
    ensures Translate(mem, root, va) == Fault && Node(mem, root, va, 1) == None ==> Reported(mem, root, va) == 0
  {
    hide Lookup, Node, PhysicalOf, LeafAttr;
  }

  /** The reading walk stops at table `f` because entry `e` of `level` is absent or a large leaf. */
  lemma ReadStops(mem: Memory, lev: map<nat, nat>, root: nat, va: nat, f: nat)
    requires WellFormed(mem, lev, root) && f in lev && Node(mem, root, va, lev[f]) == Some(f)
    ensures f in mem && |mem[f]| == ENTRIES
    ensures var e := mem[f][Index(lev[f], va)];
            && (lev[f] >= 2 && !IsTable(e, lev[f]) ==>
                  Reported(mem, root, va) == if IsLeaf(e, lev[f]) then PhysicalOf(lev[f], e, va) else 0)
            && (lev[f] == 1 ==> Reported(mem, root, va) == PhysicalOf(1, e, va))
  {
    LookupEntry(mem, lev, root, f, va, va);
    if lev[f] >= 2 && !IsTable(mem[f][Index(lev[f], va)], lev[f]) { NoNodeBelow(mem, lev, root, va, f, 1); }
  }

  lemma {:induction false} NoNodeBelow(mem: Memory, lev: map<nat, nat>, root: nat, va: nat, f: nat, level: nat)
    requires WellFormed(mem, lev, root) && f in lev && Node(mem, root, va, lev[f]) == Some(f)
    requires !IsTable(mem[f][Index(lev[f], va)], lev[f]) && 1 <= level < lev[f]
    ensures Node(mem, root, va, level) == None
    decreases lev[f] - level
  {
    if level + 1 < lev[f] { NoNodeBelow(mem, lev, root, va, f, level + 1); }
  }

  lemma WalkFacts(m0: Memory, m1: Memory, lev: map<nat, nat>, pool: set<nat>, root: nat, va: nat, f: nat, level: nat)
    requires Walking(m0, m1, lev, pool, root, va, f, level)
    ensures f in m1 && |m1[f]| == ENTRIES && f in lev && lev[f] == level && 1 <= level <= 4
    ensures Good(m1, lev, pool, root) && Reaches(m1, lev, root, va, f, Index(level, va)) && SameMeaning(m0, m1, root)
    ensures OnlySplits(m0, m1, root, va, 0)
  {
  }

  /** Which entries the walk of `va` for a leaf of level `want` meets large: the ones that make it stuck. */
  lemma WalkMeets(m0: Memory, m1: Memory, lev: map<nat, nat>, pool: set<nat>, root: nat, va: nat, f: nat, level: nat)
    requires Walking(m0, m1, lev, pool, root, va, f, level) && 2 <= level <= 3
    ensures f in m1 && |m1[f]| == ENTRIES
    ensures IsLeaf(m1[f][Index(level, va)], level) <==> Stuck(m0, root, va, level)
  {
    LeafOnPath(m1, lev, root, f, va);
  }

  /** The reading walk reports according to the entry it stops at. */
  lemma WalkReads(mem: Memory, lev: map<nat, nat>, pool: set<nat>, root: nat, va: nat, f: nat, level: nat)
    requires Walking(mem, mem, lev, pool, root, va, f, level)
    ensures f in mem && |mem[f]| == ENTRIES
    ensures var e := mem[f][Index(level, va)];
            && (!Present(e) && level >= 2 ==> Reported(mem, root, va) == 0)
            && (IsLeaf(e, level) || level == 1 ==> Reported(mem, root, va) == PhysicalOf(level, e, va))
  {
    ReadStops(mem, lev, root, va, f);
  }
}
