/** The sizes of the leaves that mapping a region leaves behind, which translations alone do not show: every address
    gets the largest leaf that the request allows, and no leaf elsewhere ever grows. */
module PageLeaves {
  import opened Machine
  import opened PageTable
  import opened PageRegion
  import opened PageWalk
  import opened PagePiece
  import opened PageMirror
  import opened RegionCuts
  import opened RegionMirror

  /** A walk that ended in leaf `a` ends in `b`: the same, or nothing larger than a piece of a large `a`. */
  predicate KeptOrFiner(a: Leaf, b: Leaf) {
    b == a || (a.Mapped? && a.level >= 2 && (b.Mapped? ==> b.level < a.level))
  }

  predicate EndsAt(leaf: Leaf, level: nat, perm: bv12) {
    if perm & PTE_P != 0 then leaf.Mapped? && leaf.level == level else leaf == NotMapped
  }

  // ---------- One piece ----------

  /** [start, end) has leaves of level `want`, but for blocks under an old large leaf; elsewhere only leaves that the
      piece reaches into may have been split. */
  ghost predicate PieceLeaves(m0: Memory, m1: Memory, root: nat, start: nat, end: nat, perm: bv12, want: nat) {
    forall va: nat :: Canonical(va) ==>
      LeafStep(Lookup(m0, root, 4, va), Lookup(m1, root, 4, va), va, start, end, perm, want, Stuck(m0, root, va, want))
  }

  predicate LeafStep(a: Leaf, b: Leaf, va: nat, start: nat, end: nat, perm: bv12, want: nat, stuck: bool) {
    if start <= va < end && !stuck then EndsAt(b, want, perm)
    else b == a || (KeptOrFiner(a, b) && !Apart(a.level, va, start, end))
  }

  lemma LeavesStart(mem: Memory, root: nat, start: nat, perm: bv12, want: nat)
    ensures PieceLeaves(mem, mem, root, start, start, perm, want)
  {
    hide Lookup, Stuck;
  }

  /** Writing the leaf of the next block keeps the account of leaf sizes. */
  lemma LeavesGrow(m0: Memory, m1: Memory, cleared: Memory, lev: map<nat, nat>, pool: set<nat>, root: nat,
                   start: nat, addr: nat, delta: int, perm: bv12, want: nat, f: nat, i: nat)
    requires Block(addr, delta, want) && start <= addr
    requires PieceLeaves(m0, m1, root, start, addr, perm, want)
    requires Stuck(m1, root, addr, want) <==> Stuck(m0, root, addr, want)
    requires Found(m1, cleared, lev, pool, root, addr, f, i, want)
    ensures f in cleared && |cleared[f]| == ENTRIES && i < ENTRIES
    ensures PieceLeaves(m0, Write(cleared, f, i, LeafEntry(addr, delta, perm, want)), root, start, addr + Unit(want),
                        perm, want)
  {
    WrittenTree(m1, cleared, lev, pool, root, addr, delta, perm, want, f, i);
    hide Lookup, Stuck, Found, LeafEntry, Block, LeafStep;
    forall va: nat | Canonical(va)
      ensures LeafStep(Lookup(m0, root, 4, va),
                       Lookup(Write(cleared, f, i, LeafEntry(addr, delta, perm, want)), root, 4, va), va, start,
                       addr + Unit(want), perm, want, Stuck(m0, root, va, want))
    {
      GrownLeaf(m0, m1, cleared, lev, pool, root, start, addr, delta, perm, want, f, i, va);
    }
  }

  lemma GrownLeaf(m0: Memory, m1: Memory, cleared: Memory, lev: map<nat, nat>, pool: set<nat>, root: nat,
                  start: nat, addr: nat, delta: int, perm: bv12, want: nat, f: nat, i: nat, va: nat)
    requires Block(addr, delta, want) && start <= addr && Canonical(va)
    requires LeafStep(Lookup(m0, root, 4, va), Lookup(m1, root, 4, va), va, start, addr, perm, want,
                      Stuck(m0, root, va, want))
    requires Stuck(m1, root, addr, want) <==> Stuck(m0, root, addr, want)
    requires Found(m1, cleared, lev, pool, root, addr, f, i, want)
    ensures f in cleared && |cleared[f]| == ENTRIES && i < ENTRIES
    ensures LeafStep(Lookup(m0, root, 4, va),
                     Lookup(Write(cleared, f, i, LeafEntry(addr, delta, perm, want)), root, 4, va), va, start,
                     addr + Unit(want), perm, want, Stuck(m0, root, va, want))
  {
    hide *;
    BlockFacts(addr, delta, want, va);
    var e := LeafEntry(addr, delta, perm, want);
    var a, b, c := Lookup(m0, root, 4, va), Lookup(m1, root, 4, va), Lookup(cleared, root, 4, va);
    FoundLevel(m1, cleared, lev, pool, root, addr, f, i, want);
    WrittenLookup(m1, cleared, lev, pool, root, addr, delta, perm, want, f, i, va);
    LeafKind(addr, delta, perm, want, lev[f]);
    StuckBlock(m0, root, addr, va, want);
    StuckMeans(m0, root, va, want);
    if addr <= va < addr + Unit(lev[f]) {
      NewLeaf(a, e, lev[f], va, start, addr, perm, want, Stuck(m0, root, va, want));
    } else {
      FoundSplits(m1, cleared, lev, pool, root, addr, f, i, want, va);
      OldLeaf(a, b, c, va, start, addr, perm, want, Stuck(m0, root, va, want));
    }
  }

  lemma BlockFacts(addr: nat, delta: int, want: nat, va: nat)
    requires Block(addr, delta, want) && Canonical(va)
    ensures 1 <= want <= 3 && Canonical(addr) && (Same(want, addr, va) <==> addr <= va < addr + Unit(want))
    ensures AlignDown(want, addr) == addr && delta <= addr && Unit(1) <= Unit(want)
  {
    SlotIsBlock(want, addr, va);
    BlockContains(want, addr, va);
    hide Same, AlignDown;
  }

  lemma StuckBlock(mem: Memory, root: nat, addr: nat, va: nat, want: nat)
    requires 1 <= want <= 3 && (Same(want, addr, va) <==> addr <= va < addr + Unit(want))
    ensures addr <= va < addr + Unit(want) ==> (Stuck(mem, root, addr, want) <==> Stuck(mem, root, va, want))
  {
    hide Stuck, Same;
    if addr <= va < addr + Unit(want) { StuckTogether(mem, root, addr, va, want); }
  }

  lemma StuckMeans(mem: Memory, root: nat, va: nat, want: nat)
    ensures var a := Lookup(mem, root, 4, va); Stuck(mem, root, va, want) ==> want >= 2 && a.Mapped? && a.level >= want
  {
    hide Lookup;
  }

  /** What the walk to the block's slot has done to the walk of an address off the slot. */
  lemma FoundSplits(m1: Memory, cleared: Memory, lev: map<nat, nat>, pool: set<nat>, root: nat, addr: nat, f: nat,
                    i: nat, want: nat, va: nat)
    requires Found(m1, cleared, lev, pool, root, addr, f, i, want) && !Same(lev[f], addr, va)
    requires Canonical(addr) && Canonical(va)
    ensures var b, c := Lookup(m1, root, 4, va), Lookup(cleared, root, 4, va);
            c == b || (b.Mapped? && 2 <= b.level <= 3 && AlignDown(b.level, addr) == AlignDown(b.level, va)
                       && c.Mapped? && c.level < b.level)
  {
    LookupLevel(m1, root, 4, va);
    hide Lookup, Same, AlignDown, Good, Canonical;
    var b := Lookup(m1, root, 4, va);
    if Lookup(cleared, root, 4, va) != b { SlotIsBlock(b.level, addr, va); }
  }

  lemma NewLeaf(a: Leaf, e: Entry, level: nat, va: nat, start: nat, addr: nat, perm: bv12, want: nat, stuck: bool)
    requires start <= addr <= va < addr + Unit(level) && 1 <= want <= 3 && level == (if stuck then 1 else want)
    requires stuck ==> want >= 2 && a.Mapped? && a.level >= want
    requires IsLeaf(e, level) <==> perm & PTE_P != 0
    ensures LeafStep(a, if IsLeaf(e, level) then Mapped(level, e) else NotMapped, va, start, addr + Unit(want), perm,
                     want, stuck)
  {
    hide AlignDown, IsLeaf;
  }

  lemma OldLeaf(a: Leaf, b: Leaf, c: Leaf, va: nat, start: nat, addr: nat, perm: bv12, want: nat, stuck: bool)
    requires 1 <= want <= 3 && start <= addr && LeafStep(a, b, va, start, addr, perm, want, stuck)
    requires addr <= va < addr + Unit(want) ==> stuck
    requires AlignDown(want, addr) == addr
    requires c == b || (b.Mapped? && 2 <= b.level <= 3 && AlignDown(b.level, addr) == AlignDown(b.level, va)
                        && c.Mapped? && c.level < b.level)
    ensures LeafStep(a, c, va, start, addr + Unit(want), perm, want, stuck)
  {
    BlockContains(want, addr, va);
    hide AlignDown;
  }

  /** The account of a piece that may have stopped half-way: each address is as before the piece or as after it. */
  ghost predicate PieceMaybe(m0: Memory, m1: Memory, root: nat, start: nat, end: nat, perm: bv12, want: nat) {
    forall va: nat :: Canonical(va) ==>
      LeafMaybe(Lookup(m0, root, 4, va), Lookup(m1, root, 4, va), va, start, end, perm, want, Stuck(m0, root, va, want))
  }

  predicate LeafMaybe(a: Leaf, b: Leaf, va: nat, start: nat, end: nat, perm: bv12, want: nat, stuck: bool) {
    || (start <= va < end && !stuck && EndsAt(b, want, perm))
    || b == a || (KeptOrFiner(a, b) && !Apart(a.level, va, start, end))
  }

  lemma LeavesMaybe(m0: Memory, m1: Memory, root: nat, start: nat, end: nat, perm: bv12, want: nat)
    requires PieceLeaves(m0, m1, root, start, end, perm, want)
    ensures PieceMaybe(m0, m1, root, start, end, perm, want)
  {
    hide Lookup, Stuck, EndsAt, KeptOrFiner, Apart;
  }

  /** The walk to the next block has run out of frames. */
  lemma LeavesBreak(m0: Memory, m1: Memory, m2: Memory, root: nat, start: nat, addr: nat, end: nat, delta: int,
      perm: bv12, want: nat)
    requires Block(addr, delta, want) && start <= addr < end
    requires PieceLeaves(m0, m1, root, start, addr, perm, want) && OnlySplits(m1, m2, root, addr, 0)
    ensures PieceMaybe(m0, m2, root, start, end, perm, want)
  {
    hide Lookup, Stuck, Block, LeafStep, LeafMaybe, Same;
    forall va: nat | Canonical(va)
      ensures LeafMaybe(Lookup(m0, root, 4, va), Lookup(m2, root, 4, va), va, start, end, perm, want,
                        Stuck(m0, root, va, want))
    {
      BlockFacts(addr, delta, want, va);
      AnySplits(m1, m2, root, addr, va);
      OldLeafMaybe(Lookup(m0, root, 4, va), Lookup(m1, root, 4, va), Lookup(m2, root, 4, va), va, start, addr, end,
                   perm, want, Stuck(m0, root, va, want));
    }
  }

  lemma AnySplits(m1: Memory, m2: Memory, root: nat, addr: nat, va: nat)
    requires OnlySplits(m1, m2, root, addr, 0) && Canonical(addr) && Canonical(va)
    ensures var b, c := Lookup(m1, root, 4, va), Lookup(m2, root, 4, va);
            c == b || (b.Mapped? && 2 <= b.level <= 3 && AlignDown(b.level, addr) == AlignDown(b.level, va)
                       && c.Mapped? && c.level < b.level)
  {
    LookupLevel(m1, root, 4, va);
    hide Lookup, Same, AlignDown, Canonical;
    var b := Lookup(m1, root, 4, va);
    if Lookup(m2, root, 4, va) != b { SlotIsBlock(b.level, addr, va); }
  }

  lemma OldLeafMaybe(a: Leaf, b: Leaf, c: Leaf, va: nat, start: nat, addr: nat, end: nat, perm: bv12, want: nat,
      stuck: bool)
    requires 1 <= want <= 3 && start <= addr < end && LeafStep(a, b, va, start, addr, perm, want, stuck)
    requires AlignDown(want, addr) == addr
    requires c == b || (b.Mapped? && 2 <= b.level <= 3 && AlignDown(b.level, addr) == AlignDown(b.level, va)
                        && c.Mapped? && c.level < b.level)
    ensures LeafMaybe(a, c, va, start, end, perm, want, stuck)
  {
    BlockContains(want, addr, va);
    hide AlignDown;
  }

  // ---------- The whole region ----------

  /** The same for the pieces mapped so far, each address with the leaf size of its piece. */
  ghost predicate RegionLeaves(m0: Memory, m1: Memory, root: nat, c: Cuts, gb: bool, end: nat, perm: bv12) {
    && (forall va: nat :: Canonical(va) ==>
          LeafStep(Lookup(m0, root, 4, va), Lookup(m1, root, 4, va), va, c.s, end, perm, LeafLevel(c, gb, va),
                   Stuck(m0, root, va, LeafLevel(c, gb, va))))
    && (forall va: nat :: c.s <= va < end ==>
          AlignDown(LeafLevel(c, gb, va), va) + Unit(LeafLevel(c, gb, va)) <= end)
  }

  lemma RegionStarts(mem: Memory, root: nat, c: Cuts, gb: bool, perm: bv12)
    ensures RegionLeaves(mem, mem, root, c, gb, c.s, perm)
  {
    hide Lookup, Stuck, LeafLevel;
  }

  /** A piece that starts where the pieces before it end leaves their leaves alone. */
  lemma LeavesFollow(m0: Memory, m1: Memory, m2: Memory, root: nat, c: Cuts, gb: bool, a: nat, b: nat, delta: int,
      perm: bv12, want: nat)
    requires RegionLeaves(m0, m1, root, c, gb, a, perm) && c.s <= a <= b && 1 <= want <= 3
    requires RegionMapped(m0, m1, root, c, gb, a, delta, perm)
    requires PieceLeaves(m1, m2, root, a, b, perm, want)
    requires AlignDown(want, a) == a && AlignDown(want, b) == b
    requires forall va :: a <= va < b ==> LeafLevel(c, gb, va) == want
    ensures RegionLeaves(m0, m2, root, c, gb, b, perm)
  {
    forall va: nat | c.s <= va < b ensures AlignDown(LeafLevel(c, gb, va), va) + Unit(LeafLevel(c, gb, va)) <= b {
      if va >= a { InBlocks(want, b, va); }
    }
    forall va: nat | Canonical(va)
      ensures LeafStep(Lookup(m0, root, 4, va), Lookup(m2, root, 4, va), va, c.s, b, perm, LeafLevel(c, gb, va),
                       Stuck(m0, root, va, LeafLevel(c, gb, va)))
    {
      hide Lookup, Stuck, LeafLevel, LeafStep, AlignDown, RegionMapped;
      LeafLevelIs(c, gb, va);
      if a <= va < b { StuckYet(m0, m1, root, c, gb, a, delta, perm, want, va); }
      StepsJoin(Lookup(m0, root, 4, va), Lookup(m1, root, 4, va), Lookup(m2, root, 4, va), va, c.s, a, b, perm, want,
                LeafLevel(c, gb, va), Stuck(m0, root, va, LeafLevel(c, gb, va)), Stuck(m1, root, va, want));
    }
  }

  lemma InBlocks(level: nat, end: nat, va: nat)
    requires 1 <= level <= 3 && AlignDown(level, end) == end && va < end
    ensures AlignDown(level, va) + Unit(level) <= end
  {
    var r := AlignedDown(level, va);
    hide AlignDown;
    BlockContains(level, r, end);
  }

  /** A block after the pieces mapped so far is under a large leaf exactly when it was before. */
  lemma StuckYet(m0: Memory, m1: Memory, root: nat, c: Cuts, gb: bool, a: nat, delta: int, perm: bv12, want: nat,
      va: nat)
    requires RegionMapped(m0, m1, root, c, gb, a, delta, perm) && 1 <= want <= 3 && AlignDown(want, a) == a <= va
    requires Canonical(va)
    ensures Stuck(m1, root, va, want) <==> Stuck(m0, root, va, want)
  {
    assert AlignDown(want, va) >= a by {
      BlockContains(want, a, va);
      DownMonotone(want, a, va);
    }
    hide AlignDown, Lookup, LeafLevel;
  }

  lemma StepsJoin(a: Leaf, b: Leaf, c: Leaf, va: nat, s: nat, x: nat, y: nat, perm: bv12, want: nat, level: nat,
      stuck0: bool, stuck1: bool)
    requires s <= x <= y
    requires LeafStep(a, b, va, s, x, perm, level, stuck0) && LeafStep(b, c, va, x, y, perm, want, stuck1)
    requires x <= va < y ==> level == want && stuck1 == stuck0
    requires s <= va < x ==> AlignDown(level, va) + Unit(level) <= x
    ensures LeafStep(a, c, va, s, y, perm, level, stuck0)
  {
    hide AlignDown, Unit;
  }

  /** The same for a region that may have been mapped in part. */
  ghost predicate RegionMaybe(m0: Memory, m1: Memory, root: nat, c: Cuts, gb: bool, perm: bv12) {
    forall va: nat :: Canonical(va) ==>
      LeafOr(Lookup(m0, root, 4, va), Lookup(m1, root, 4, va), c.s <= va < c.e, perm, LeafLevel(c, gb, va),
             Stuck(m0, root, va, LeafLevel(c, gb, va)))
  }

  predicate LeafOr(a: Leaf, b: Leaf, inside: bool, perm: bv12, want: nat, stuck: bool) {
    (inside && !stuck && EndsAt(b, want, perm)) || KeptOrFiner(a, b)
  }

  lemma RegionMayBe(m0: Memory, m1: Memory, root: nat, c: Cuts, gb: bool, end: nat, perm: bv12)
    requires RegionLeaves(m0, m1, root, c, gb, end, perm) && end <= c.e
    ensures RegionMaybe(m0, m1, root, c, gb, perm)
  {
    hide Lookup, Stuck, LeafLevel, AlignDown;
  }

  lemma MaybeFollow(m0: Memory, m1: Memory, m2: Memory, root: nat, c: Cuts, gb: bool, a: nat, b: nat, delta: int,
      perm: bv12, want: nat)
    requires RegionLeaves(m0, m1, root, c, gb, a, perm) && c.s <= a <= b <= c.e && 1 <= want <= 3
    requires RegionMapped(m0, m1, root, c, gb, a, delta, perm)
    requires PieceMaybe(m1, m2, root, a, b, perm, want)
    requires AlignDown(want, a) == a
    requires forall va :: a <= va < b ==> LeafLevel(c, gb, va) == want
    ensures RegionMaybe(m0, m2, root, c, gb, perm)
  {
    forall va: nat | Canonical(va)
      ensures LeafOr(Lookup(m0, root, 4, va), Lookup(m2, root, 4, va), c.s <= va < c.e, perm, LeafLevel(c, gb, va),
                     Stuck(m0, root, va, LeafLevel(c, gb, va)))
    {
      hide Lookup, Stuck, LeafLevel, LeafStep, LeafMaybe, LeafOr, AlignDown, RegionMapped;
      LeafLevelIs(c, gb, va);
      if a <= va < b { StuckYet(m0, m1, root, c, gb, a, delta, perm, want, va); }
      MaybeJoin(Lookup(m0, root, 4, va), Lookup(m1, root, 4, va), Lookup(m2, root, 4, va), va, c.s, a, b, c.e, perm,
                want, LeafLevel(c, gb, va), Stuck(m0, root, va, LeafLevel(c, gb, va)), Stuck(m1, root, va, want));
    }
  }

  lemma MaybeJoin(a: Leaf, b: Leaf, c: Leaf, va: nat, s: nat, x: nat, y: nat, e: nat, perm: bv12, want: nat, level: nat,
      stuck0: bool, stuck1: bool)
    requires s <= x <= y <= e
    requires LeafStep(a, b, va, s, x, perm, level, stuck0) && LeafMaybe(b, c, va, x, y, perm, want, stuck1)
    requires x <= va < y ==> level == want && stuck1 == stuck0
    requires s <= va < x ==> AlignDown(level, va) + Unit(level) <= x
    ensures LeafOr(a, c, s <= va < e, perm, level, stuck0)
  {
    hide AlignDown, Unit;
  }

  // ---------- In the real tables ----------

  /** In the region and its mirror every address that was under no leaf of the size picked or larger has one of that
      size, and no other leaf has grown. */
  ghost predicate LeavesDone(m0: Memory, m1: Memory, root: nat, shared: bool, c: Cuts, gb: bool, perm: bv12) {
    forall va: nat :: Canonical(va) ==>
      var x := Home(shared, va, c.s, c.e);
      var a, b := Lookup(m0, root, 4, va), Lookup(m1, root, 4, va);
      if !Off(shared, va, c.s, c.e) && !Stuck(m0, root, va, LeafLevel(c, gb, x)) then
        EndsAt(b, LeafLevel(c, gb, x), perm)
      else KeptOrFiner(a, b)
  }

  lemma LeavesSeen(m0: Memory, l0: map<nat, nat>, p0: set<nat>, m1: Memory, l1: map<nat, nat>, p1: set<nat>,
      root: nat, hid: Option<nat>, c: Cuts, gb: bool, perm: bv12)
    requires Kept(m0, l0, p0, root, hid) && Kept(m1, l1, p1, root, hid) && InView(hid, c.s, c.e)
    requires RegionLeaves(Hidden(m0, root, hid), Hidden(m1, root, hid), root, c, gb, c.e, perm)
    ensures LeavesDone(m0, m1, root, hid.Some?, c, gb, perm)
  {
    hide Kept, Hidden, Seen, Home, Canonical, InView, Lookup, LeafLevel, Translate, AlignDown;
    forall va: nat | Canonical(va)
      ensures var x := Home(hid.Some?, va, c.s, c.e);
              var a, b := Lookup(m0, root, 4, va), Lookup(m1, root, 4, va);
              if !Off(hid.Some?, va, c.s, c.e) && !Stuck(m0, root, va, LeafLevel(c, gb, x)) then
                EndsAt(b, LeafLevel(c, gb, x), perm)
              else KeptOrFiner(a, b)
    {
      SeenWalk(m0, l0, p0, root, hid, va);
      SeenWalk(m1, l1, p1, root, hid, va);
      HomeIsSeen(hid, c.s, c.e, va);
      assert Stuck(m0, root, va, LeafLevel(c, gb, Seen(hid, va)))
             <==> Stuck(Hidden(m0, root, hid), root, Seen(hid, va), LeafLevel(c, gb, Seen(hid, va)));
    }
  }

  /** Each address of the region and its mirror has a leaf of the size picked, or its leaf has not grown. */
  ghost predicate LeavesMayBe(m0: Memory, m1: Memory, root: nat, shared: bool, c: Cuts, gb: bool, perm: bv12) {
    forall va: nat :: Canonical(va) ==>
      var x := Home(shared, va, c.s, c.e);
      LeafOr(Lookup(m0, root, 4, va), Lookup(m1, root, 4, va), !Off(shared, va, c.s, c.e), perm, LeafLevel(c, gb, x),
             Stuck(m0, root, va, LeafLevel(c, gb, x)))
  }

  lemma MaybeSeen(m0: Memory, l0: map<nat, nat>, p0: set<nat>, m1: Memory, l1: map<nat, nat>, p1: set<nat>,
      root: nat, hid: Option<nat>, c: Cuts, gb: bool, perm: bv12)
    requires Kept(m0, l0, p0, root, hid) && Kept(m1, l1, p1, root, hid) && InView(hid, c.s, c.e)
    requires RegionMaybe(Hidden(m0, root, hid), Hidden(m1, root, hid), root, c, gb, perm)
    ensures LeavesMayBe(m0, m1, root, hid.Some?, c, gb, perm)
  {
    hide Kept, Hidden, Seen, Home, Canonical, InView, Lookup, LeafLevel, Translate, AlignDown, LeafOr;
    forall va: nat | Canonical(va)
      ensures var x := Home(hid.Some?, va, c.s, c.e);
              LeafOr(Lookup(m0, root, 4, va), Lookup(m1, root, 4, va), !Off(hid.Some?, va, c.s, c.e), perm,
                     LeafLevel(c, gb, x), Stuck(m0, root, va, LeafLevel(c, gb, x)))
    {
      SeenWalk(m0, l0, p0, root, hid, va);
      SeenWalk(m1, l1, p1, root, hid, va);
      HomeIsSeen(hid, c.s, c.e, va);
      var want, want' := LeafLevel(c, gb, Seen(hid, va)), LeafLevel(c, gb, Home(hid.Some?, va, c.s, c.e));
      assert Stuck(m0, root, va, want) <==> Stuck(Hidden(m0, root, hid), root, Seen(hid, va), want);
      if Off(hid.Some?, va, c.s, c.e) {
        NotPicked(Lookup(m0, root, 4, va), Lookup(m1, root, 4, va), perm, want, want', Stuck(m0, root, va, want),
                  Stuck(m0, root, va, want'));
      }
    }
  }

  lemma NotPicked(a: Leaf, b: Leaf, perm: bv12, want: nat, want': nat, stuck: bool, stuck': bool)
    requires LeafOr(a, b, false, perm, want, stuck)
    ensures LeafOr(a, b, false, perm, want', stuck')
  {
  }

  // ---------- Which leaf sizes ----------

  /** The whole aligned block of `level` around `va` lies in [vaddr, vaddr + size). */
  predicate Fits(level: nat, vaddr: nat, size: nat, va: nat) {
    vaddr <= AlignDown(level, va) && AlignDown(level, va) + Unit(level) <= vaddr + size
  }

  /** The largest leaf that maps `va` and nothing beyond what was asked for; 1G leaves only where the processor has
      them. */
  function Pick(vaddr: nat, size: nat, gb: bool, va: nat): nat {
    if gb && Fits(3, vaddr, size, va) then 3 else if Fits(2, vaddr, size, va) then 2 else 1
  }

  /** Every address of the region gets that leaf. */
  lemma PickIsLargest(vaddr: nat, paddr: nat, size: nat, gb: bool, va: nat)
    requires RegionOk(vaddr, paddr, size, gb)
    ensures LeafLevel(CutsOf(vaddr, size), gb, va) == Pick(vaddr, size, gb, va)
  {
    var c := CutsOf(vaddr, size);
    FitsIff(2, vaddr, size, va);
    if vaddr <= W64 - 0x4000_0000 {
      FitsIff(3, vaddr, size, va);
    } else {
      hide AlignDown, Align;
    }
    FitsFiner(vaddr, size, va);
    hide AlignDown, Align, Fits;
  }

  lemma FitsIff(level: nat, vaddr: nat, size: nat, va: nat)
    requires 2 <= level <= 3 && vaddr <= W64 - Unit(level) && vaddr + size < W64
    ensures Fits(level, vaddr, size, va)
            <==> Align(level, vaddr) <= va < AlignDown(level, (vaddr + size) % W64)
  {
    hide AlignDown, Align, Unit;
    var end := vaddr + size;
    var b := AlignedDown(level, va);
    var e := AlignedDown(level, end);
    Rounding(level, vaddr);
    if Fits(level, vaddr, size, va) {
      RoundsToLeast(level, vaddr, b);
      NextBlock(level, b);
      DownMonotone(level, b + Unit(level), end);
    }
    if Align(level, vaddr) <= va < e {
      DownMonotone(level, Align(level, vaddr), va);
      InBlocks(level, e, va);
    }
  }

  lemma NextBlock(level: nat, b: nat)
    requires 1 <= level <= 3 && AlignDown(level, b) == b
    ensures AlignDown(level, b + Unit(level)) == b + Unit(level)
  {
    AlignedRemainder(level, b);
    DownIs(level, b / Unit(level) + 1, b + Unit(level));
  }

  /** A 1G block that fits has room for every 2M block in it. */
  lemma FitsFiner(vaddr: nat, size: nat, va: nat)
    ensures Fits(3, vaddr, size, va) ==> Fits(2, vaddr, size, va)
  {
    var b := AlignedDown(3, va);
    FinerAlignment(3, 2, b);
    NextBlock(3, b);
    FinerAlignment(3, 2, b + Unit(3));
    hide AlignDown;
    DownMonotone(2, b, va);
    InBlocks(2, b + Unit(3), va);
  }

  /** The region mapped is the one asked for, rounded out to whole pages. */
  lemma RegionIsRounded(vaddr: nat, paddr: nat, size: nat, gb: bool)
    requires RegionOk(vaddr, paddr, size, gb)
    ensures var c := CutsOf(vaddr, size);
      && c.s % 0x1000 == 0 && c.s <= vaddr < c.s + 0x1000
      && c.e % 0x1000 == 0 && vaddr + size <= c.e < vaddr + size + 0x1000
  {
    Rounding(1, vaddr + size);
    CutsAligned(vaddr, size);
    AlignedRemainder(1, CutsOf(vaddr, size).s);
    AlignedRemainder(1, CutsOf(vaddr, size).e);
    hide AlignDown, Align;
  }

  /** After `arch_map_region` every address of the region has the largest leaf that the request allows, unless an old
      leaf was that large. */
  lemma LeafSizes(m0: Memory, m1: Memory, root: nat, shared: bool, vaddr: nat, paddr: nat, size: nat, gb: bool,
      perm: bv12, va: nat)
    requires RegionOk(vaddr, paddr, size, gb) && perm & PTE_P != 0
    requires LeavesDone(m0, m1, root, shared, CutsOf(vaddr, size), gb, perm)
    requires Canonical(va) && CutsOf(vaddr, size).s <= va < CutsOf(vaddr, size).e
    requires !Stuck(m0, root, va, Pick(vaddr, size, gb, va))
    ensures Lookup(m1, root, 4, va).Mapped? && Lookup(m1, root, 4, va).level == Pick(vaddr, size, gb, va)
  {
    hide CutsOf, RegionOk, Stuck, Lookup, Pick, LeafLevel, Canonical, Twin;
    PickIsLargest(vaddr, paddr, size, gb, va);
  }

  /** Without the processor feature no 1G leaf appears, in the region or elsewhere, also when frames run out. */
  lemma NoNewGiants(m0: Memory, m1: Memory, root: nat, shared: bool, vaddr: nat, paddr: nat, size: nat, perm: bv12,
      va: nat)
    requires RegionOk(vaddr, paddr, size, false) && Canonical(va)
    requires LeavesMayBe(m0, m1, root, shared, CutsOf(vaddr, size), false, perm)
    requires Lookup(m1, root, 4, va).Mapped? && Lookup(m1, root, 4, va).level == 3
    ensures Lookup(m0, root, 4, va) == Lookup(m1, root, 4, va)
  {
    LookupLevel(m0, root, 4, va);
    hide CutsOf, RegionOk, Stuck, Lookup, Fits, LeafLevel, Canonical, Twin, IsLeaf;
    var c := CutsOf(vaddr, size);
    PickIsLargest(vaddr, paddr, size, false, Home(shared, va, c.s, c.e));
  }

  /** What a caller gets: each address of the region, but under an old leaf as large as its own, translates to the byte
      as far from `paddr` as it is from `vaddr`, with the attribute bits asked for. */
  lemma MapsTo(m0: Memory, m1: Memory, root: nat, shared: bool, vaddr: nat, paddr: nat, size: nat, gb: bool, perm: bv12,
      va: nat)
    requires RegionOk(vaddr, paddr, size, gb) && Canonical(va) && CutsOf(vaddr, size).s <= va < CutsOf(vaddr, size).e
    requires RegionDone(m0, m1, root, shared, CutsOf(vaddr, size), gb, vaddr - paddr, perm)
    requires !Stuck(m0, root, va, Pick(vaddr, size, gb, va))
    ensures var t := Translate(m1, root, va);
            if perm & PTE_P == 0 then t == Fault
            else t.To? && t.pa == paddr + (va - vaddr) && t.attr | PTE_PS == perm | PTE_PS
                 && (Pick(vaddr, size, gb, va) == 1 ==> t.attr == perm)
  {
    hide CutsOf, RegionOk, RegionDone, Stuck, Translate, Pick, LeafLevel, Canonical, PieceMeaning;
    PickIsLargest(vaddr, paddr, size, gb, va);
    DoneInRegion(m0, m1, root, shared, CutsOf(vaddr, size), gb, vaddr - paddr, perm, va);
    MeaningIs(m0, root, va, vaddr - paddr, perm, Pick(vaddr, size, gb, va));
  }

  lemma MeaningIs(m0: Memory, root: nat, va: nat, delta: int, perm: bv12, want: nat)
    requires !Stuck(m0, root, va, want)
    ensures var t := PieceMeaning(m0, root, va, delta, perm, want);
            if perm & PTE_P == 0 then t == Fault
            else t.To? && t.pa == va - delta && t.attr | PTE_PS == perm | PTE_PS && (want <= 1 ==> t.attr == perm)
  {
    hide Stuck, LeafAttr;
    LeafBitsKept(want, perm);
  }

  lemma LeafBitsKept(level: nat, perm: bv12)
    ensures LeafAttr(level, perm) | PTE_PS == perm | PTE_PS && (level <= 1 ==> LeafAttr(level, perm) == perm)
  {
  }
}
