/** What `arch_map_region` does to the real tables, whose two shared root entries may mirror the region. */
module RegionMirror {
  import opened Machine
  import opened PageTable
  import opened PageRegion
  import opened PageRights
  import opened PageMirror
  import opened RegionCuts

  /** The address of the region [s, e) that `va` shares its translation with, or `va` itself. */
  function Home(shared: bool, va: nat, s: nat, e: nat): nat {
    if shared && !(s <= va < e) && s <= Twin(va) < e then Twin(va) else va
  }

  /** Neither `va` nor, while tables are shared, its twin lies in [s, e). */
  predicate Off(shared: bool, va: nat, s: nat, e: nat) { !(s <= Home(shared, va, s, e) < e) }

  /** The region and its mirror have been mapped, and nothing else. */
  ghost predicate RegionDone(m0: Memory, m1: Memory, root: nat, shared: bool, c: Cuts, gb: bool, delta: int,
      perm: bv12) {
    forall va: nat :: Canonical(va) ==>
      Translate(m1, root, va)
      == if Off(shared, va, c.s, c.e) then Translate(m0, root, va)
         else var x := Home(shared, va, c.s, c.e); PieceMeaning(m0, root, x, delta, perm, LeafLevel(c, gb, x))
  }

  /** Nothing outside the region and its mirror translates differently. */
  ghost predicate KeptApart(m0: Memory, m1: Memory, root: nat, shared: bool, s: nat, e: nat) {
    forall va: nat :: Canonical(va) && Off(shared, va, s, e) ==> Translate(m1, root, va) == Translate(m0, root, va)
  }

  /** All of [s, e) lies in the half of the address space whose walks miss the hidden entry. */
  predicate InView(hid: Option<nat>, s: nat, e: nat) {
    && (e <= 0x8000_0000_0000 || (W64 - 0x8000_0000_0000 <= s && e <= W64))
    && (hid.Some? ==> hid.value == if s < W63 then 256 else 0)
  }

  lemma InViewWithin(hid: Option<nat>, s: nat, e: nat, a: nat, b: nat)
    requires InView(hid, s, e) && s <= a < b <= e
    ensures InView(hid, a, b)
  {
  }

  lemma InViewIsVisible(hid: Option<nat>, s: nat, e: nat, va: nat)
    requires InView(hid, s, e) && s <= va < e
    ensures Canonical(va) && (hid.Some? ==> Index(4, va) != hid.value)
  {
    RootIndex(va);
    hide Index;
  }

  /** The walk in the tree that stands for `va` starts at its home in the region. */
  lemma HomeIsSeen(hid: Option<nat>, s: nat, e: nat, va: nat)
    requires InView(hid, s, e) && Canonical(va)
    ensures Off(hid.Some?, va, s, e) <==> !(s <= Seen(hid, va) < e)
    ensures !Off(hid.Some?, va, s, e) ==> Seen(hid, va) == Home(hid.Some?, va, s, e)
  {
    RootIndex(va);
    hide Index;
    if s <= va < e { InViewIsVisible(hid, s, e, va); }
    if hid.Some? && s <= Twin(va) < e {
      InViewIsVisible(hid, s, e, Twin(va));
      RootIndex(Twin(va));
    }
  }

  lemma VisibleMeaning(mem: Memory, lev: map<nat, nat>, pool: set<nat>, root: nat, hid: Option<nat>, va: nat,
      delta: int, perm: bv12, want: nat)
    requires Kept(mem, lev, pool, root, hid) && (hid.Some? ==> Index(4, va) != hid.value)
    ensures PieceMeaning(Hidden(mem, root, hid), root, va, delta, perm, want)
            == PieceMeaning(mem, root, va, delta, perm, want)
  {
    hide Index, Requested, AlignDown, Kept, Hidden, Lookup;
    VisibleWalk(mem, lev, pool, root, hid, va);
  }

  /** A region mapped in the tree is mapped, with its mirror, in the real tables. */
  lemma RegionSeen(m0: Memory, l0: map<nat, nat>, p0: set<nat>, m1: Memory, l1: map<nat, nat>, p1: set<nat>, root: nat,
      hid: Option<nat>, c: Cuts, gb: bool, delta: int, perm: bv12)
    requires Kept(m0, l0, p0, root, hid) && Kept(m1, l1, p1, root, hid) && InView(hid, c.s, c.e)
    requires RegionMapped(Hidden(m0, root, hid), Hidden(m1, root, hid), root, c, gb, c.e, delta, perm)
    ensures RegionDone(m0, m1, root, hid.Some?, c, gb, delta, perm)
  {
    hide Kept, Hidden, Translate, PieceMeaning, Seen, Home, Canonical, InView, Effective, Lookup, LeafLevel;
    forall va: nat | Canonical(va)
      ensures var x := Home(hid.Some?, va, c.s, c.e);
              Translate(m1, root, va)
              == if Off(hid.Some?, va, c.s, c.e) then Translate(m0, root, va)
                 else PieceMeaning(m0, root, x, delta, perm, LeafLevel(c, gb, x))
    {
      var x := Seen(hid, va);
      SeenWalk(m0, l0, p0, root, hid, va);
      SeenWalk(m1, l1, p1, root, hid, va);
      HomeIsSeen(hid, c.s, c.e, va);
      VisibleMeaning(m0, l0, p0, root, hid, x, delta, perm, LeafLevel(c, gb, x));
    }
  }

  lemma OutsideSeen(m0: Memory, l0: map<nat, nat>, p0: set<nat>, m1: Memory, l1: map<nat, nat>, p1: set<nat>,
      root: nat, hid: Option<nat>, s: nat, e: nat)
    requires Kept(m0, l0, p0, root, hid) && Kept(m1, l1, p1, root, hid) && InView(hid, s, e)
    requires KeptOutside(Hidden(m0, root, hid), Hidden(m1, root, hid), root, s, e)
    ensures KeptApart(m0, m1, root, hid.Some?, s, e)
  {
    hide Kept, Hidden, Translate, Seen, Home, Canonical, InView, Effective, Off;
    forall va: nat | Canonical(va) && Off(hid.Some?, va, s, e)
      ensures Translate(m1, root, va) == Translate(m0, root, va)
    {
      SeenWalk(m0, l0, p0, root, hid, va);
      SeenWalk(m1, l1, p1, root, hid, va);
      HomeIsSeen(hid, s, e, va);
    }
  }

  lemma RegionInView(vaddr: nat, paddr: nat, size: nat, gb: bool, hid: Option<nat>)
    requires RegionOk(vaddr, paddr, size, gb)
    ensures InView(HiddenFor(hid, CutsOf(vaddr, size).s), CutsOf(vaddr, size).s, CutsOf(vaddr, size).e)
  {
    RegionOrdered(vaddr, paddr, size, gb);
    hide AlignDown, Align, NoWrap;
  }

  /** In the region itself the mirror plays no part. */
  lemma DoneInRegion(m0: Memory, m1: Memory, root: nat, shared: bool, c: Cuts, gb: bool, delta: int, perm: bv12, x: nat)
    requires RegionDone(m0, m1, root, shared, c, gb, delta, perm) && Canonical(x) && c.s <= x < c.e
    ensures Translate(m1, root, x) == PieceMeaning(m0, root, x, delta, perm, LeafLevel(c, gb, x))
  {
    hide Translate, PieceMeaning, LeafLevel, Canonical, Twin;
  }

  /** Off the region and its mirror nothing changes. */
  lemma DoneElsewhere(m0: Memory, m1: Memory, root: nat, shared: bool, c: Cuts, gb: bool, delta: int, perm: bv12,
      x: nat)
    requires RegionDone(m0, m1, root, shared, c, gb, delta, perm) && Canonical(x) && Off(shared, x, c.s, c.e)
    ensures Translate(m1, root, x) == Translate(m0, root, x)
  {
    hide Translate, PieceMeaning, LeafLevel, Canonical, Twin;
  }
}
