/** The kernel's operations on its page tables: splitting a large leaf, walking with and without
    allocation, and mapping a region, over tables that are updated in place. */
module PageMapper {
  import opened Machine
  import opened PageTable
  import opened PageRegion
  import opened PageWalk
  import opened PagePiece
  import opened PageRights
  import opened RegionCuts
  import opened PageMirror
  import opened RegionMirror
  import opened PageLeaves
  import opened BootTables
  import opened DirectMap

  /** The attribute bits `arch_map_region` writes: those asked for, and Present unless PG_CLEAR is given. */
  function PermOf(permFlag: bv32): bv12 {
    var perm := (permFlag & 0xFFF) as bv12;
    if permFlag & 0x1000 == 0 then perm | PTE_P else perm
  }

  /** PG_CLEAR decides about Present, and the other attribute bits are those given. */
  lemma PermOfBits(flag: bv32)
    ensures PermOf(flag) & !PTE_P == (flag & 0xFFE) as bv12
    ensures PermOf(flag) & PTE_P != 0 <==> flag & 0x1000 == 0 || flag & 1 != 0
  {
  }

  lemma KmapFlags()
    ensures PermOf(0x102) == PTE_P | PTE_W | PTE_G
  {
  }

  lemma MoreFrames(a: set<nat>, b: set<nat>)
    requires a <= b
    ensures |a| <= |b|
  {
    assert b == a + (b - a);
  }

  class PageTables {
    const root: nat
    var mem: Memory
    /** Frames the page allocator can still hand out. */
    var pool: set<nat>
    /** The level of each frame that holds a table. */
    ghost var lev: map<nat, nat>
    /** Until `arch_clear_low_page` entries 0 and 256 of the root share a table, and one of them is left out of the
        tree that the invariant speaks of. */
    ghost var hid: Option<nat>

    ghost predicate Valid()
      reads this
    {
      Kept(mem, lev, pool, root, hid)
    }

    /** The tables without the entry left out. */
    ghost function Tree(): Memory
      reads this
    {
      Hidden(mem, root, hid)
    }

    ghost function Frames(): set<nat>
      reads this
    {
      Owned(lev, pool)
    }

    ghost predicate Visible(va: nat)
      reads this
    {
      hid.Some? ==> Index(4, va) != hid.value
    }

    /** The walk of `va` uses entry `i` of table `f`, and not the one left out. */
    ghost predicate At(va: nat, f: nat, i: nat)
      reads this
    {
      Visible(va) && Reaches(Tree(), lev, root, va, f, i)
    }

    /** The tables as the boot code makes them. */
    constructor (r: nat, p: nat, d: nat, free: set<nat>)
      requires r != p && p != d && d != r && free !! {r, p, d}
      ensures Valid() && root == r && mem == BootMemory(r, p, d, true) && hid == Some(0) && pool == free
      ensures lev == map[r := 4, p := 3, d := 2] && Plain(mem, lev)
    {
      root, mem, pool := r, BootMemory(r, p, d, true), free;
      lev, hid := map[r := 4, p := 3, d := 2], Some(0);
      BootIsKept(r, p, d, free);
    }

    /** One zeroed frame, or failure when none is left. */
    method Zalloc() returns (ok: bool, t: nat)
      requires pool !! lev.Keys
      modifies this`mem, this`pool
      ensures ok <==> old(pool) != {}
      ensures !ok ==> unchanged(this)
      ensures ok ==> t in old(pool) && t !in lev && pool == old(pool) - {t}
      ensures ok ==> mem == old(mem)[t := seq(ENTRIES, _ => ZERO)]
    {
      t := 0;
      ok := pool != {};
      if ok {
        t :| t in pool;
        pool := pool - {t};
        mem := mem[t := seq(ENTRIES, _ => ZERO)];
      }
    }

    /** Hangs a new, empty table under an absent entry. */
    method LinkTable(f: nat, i: nat, ghost va: nat) returns (ok: bool)
      requires Valid() && At(va, f, i) && lev[f] >= 2 && f in mem && i < |mem[f]| && !Present(mem[f][i])
      modifies this`mem, this`pool, this`lev
      ensures Valid() && Frames() == old(Frames())
      ensures !ok ==> pool == old(pool) == {} && mem == old(mem) && lev == old(lev)
      ensures ok ==> |pool| + 1 == |old(pool)|
      ensures ok ==> Extended(old(Tree()), old(lev), Tree(), lev, root, f, i, va)
                     && SameLookups(old(Tree()), Tree(), root)
      ensures ok ==> f in mem && |mem[f]| == ENTRIES && mem[f][i] == Tree()[f][i]
      ensures TablesFrom(old(Tree()), old(lev), Tree(), lev)
    {
      hide Good, Reaches, Owned, Extended, IsLeaf, Split, SameLookups, TablesFrom, Hidden, Index;
      ReachedEntry(mem, lev, pool, root, hid, va, f, i);
      TablesStay(Tree(), lev);
      ghost var m0, m, l0, p0 := mem, Tree(), lev, pool;
      var t;
      ok, t := Zalloc();
      if ok {
        mem := Write(mem, f, i, Entry(t, PTE_P | PTE_W));
        lev := lev[t := lev[f] - 1];
        HungHidden(m0, mem, l0, root, hid, f, i, Entry(t, PTE_P | PTE_W), seq(ENTRIES, _ => ZERO));
        LinkAbsent(m, Tree(), l0, p0, root, f, i, va, t);
        EmptyTableLinked(m, Tree(), l0, f, i, t);
      }
    }

    /** The loop of `ExpandPage`: table `t` gets the 512 pieces of `e`. */
    method FillTable(t: nat, e: Entry, level: nat)
      requires t in mem && |mem[t]| == ENTRIES && level >= 2
      modifies this`mem
      ensures mem.Keys == old(mem).Keys && forall g :: g in mem && g != t ==> mem[g] == old(mem)[g]
      ensures |mem[t]| == ENTRIES && forall j :: 0 <= j < ENTRIES ==> mem[t][j] == SplitEntry(e, level, j)
    {
      for k := 0 to ENTRIES
        invariant mem.Keys == old(mem).Keys && forall g :: g in mem && g != t ==> mem[g] == old(mem)[g]
        invariant |mem[t]| == ENTRIES && forall j :: 0 <= j < k ==> mem[t][j] == SplitEntry(e, level, j)
      {
        mem := Write(mem, t, k, SplitEntry(e, level, k));
      }
    }

    /** Replaces a large leaf by a table of smaller leaves that means the same. */
    method ExpandPage(f: nat, i: nat, level: nat, ghost va: nat) returns (ok: bool)
      requires Valid() && At(va, f, i) && lev[f] == level && 2 <= level <= 3
      requires f in mem && i < |mem[f]| && IsLeaf(mem[f][i], level)
      modifies this`mem, this`pool, this`lev
      ensures Valid() && Frames() == old(Frames())
      ensures !ok ==> pool == old(pool) == {} && mem == old(mem) && lev == old(lev)
      ensures ok ==> |pool| + 1 == |old(pool)|
      ensures ok ==> Extended(old(Tree()), old(lev), Tree(), lev, root, f, i, va)
                     && Split(old(Tree()), Tree(), root, va, level)
      ensures ok ==> f in mem && |mem[f]| == ENTRIES && mem[f][i] == Tree()[f][i]
      ensures TablesFrom(old(Tree()), old(lev), Tree(), lev)
    {
      hide Good, Reaches, Owned, Extended, IsLeaf, Present, Split, SameLookups, TablesFrom, Hidden, Index;
      ReachedEntry(mem, lev, pool, root, hid, va, f, i);
      TablesStay(Tree(), lev);
      ghost var m0, m, l0, p0 := mem, Tree(), lev, pool;
      var e := mem[f][i];
      var t;
      ok, t := Zalloc();
      if ok {
        mem := Write(mem, f, i, Entry(t, PTE_P | PTE_W));
        FillTable(t, e, level);
        HungHidden(m0, mem, l0, root, hid, f, i, Entry(t, PTE_P | PTE_W), mem[t]);
        SplitLeaf(m, Tree(), l0, p0, root, f, i, va, t, mem[t]);
        SplitTables(m, Tree(), l0, p0, root, f, i, t, mem[t]);
        lev := lev[t := level - 1];
      }
    }

    /** A table frame goes back to the allocator. */
    method FreeTable(t: nat)
      modifies this`pool, this`lev
      ensures pool == old(pool) + {t} && lev == old(lev) - {t}
    {
      pool := pool + {t};
      lev := lev - {t};
    }

    /** The walk of `va`, begun on the tables `m0`, has arrived at table `f` of `level`. */
    ghost predicate Arrived(m0: Memory, va: nat, f: nat, level: nat)
      reads this
    {
      Sharing(mem, root, hid) && Visible(va) && Walking(m0, Tree(), lev, pool, root, va, f, level)
    }

    lemma ArrivedFacts(m0: Memory, va: nat, f: nat, level: nat)
      requires Arrived(m0, va, f, level)
      ensures Valid() && At(va, f, Index(level, va)) && SameMeaning(m0, Tree(), root)
      ensures OnlySplits(m0, Tree(), root, va, 0)
      ensures f in lev && lev[f] == level && 1 <= level <= 4 && (f == root <==> level == 4)
      ensures f in mem && |mem[f]| == ENTRIES && f in Tree() && |Tree()[f]| == ENTRIES
      ensures mem[f][Index(level, va)] == Tree()[f][Index(level, va)]
    {
      hide Good, Reaches, Hidden, Index, SameMeaning, OnlySplits;
      WalkFacts(m0, Tree(), lev, pool, root, va, f, level);
      ReachedEntry(mem, lev, pool, root, hid, va, f, Index(level, va));
    }

    /** Makes entry `i` of `f` refer to a table, by a new empty one or by splitting, and enters it. */
    method EnterTable(f: nat, i: nat, level: nat, ghost va: nat, ghost m0: Memory) returns (ok: bool, t: nat)
      requires Arrived(m0, va, f, level) && i == Index(level, va) && 2 <= level
      requires f in mem && |mem[f]| == ENTRIES
      modifies this`mem, this`pool, this`lev
      ensures Frames() == old(Frames()) && |pool| + 1 >= |old(pool)|
      ensures IsTable(old(mem)[f][i], level) ==> ok && unchanged(this)
      ensures !ok ==> Valid() && pool == old(pool) == {} && SameMeaning(m0, Tree(), root)
                      && OnlySplits(m0, Tree(), root, va, 0)
      ensures ok ==> Arrived(m0, va, t, level - 1)
      ensures TablesFrom(old(Tree()), old(lev), Tree(), lev)
    {
      hide Good, Owned, Reaches, Walking, SameMeaning, SameLookups, Split, TablesFrom, Hidden, Index, OnlySplits;
      TablesStay(Tree(), lev);
      ArrivedFacts(m0, va, f, level);
      ghost var m1, l1, p1 := Tree(), lev, pool;
      t := 0;
      if !Present(mem[f][i]) {
        ok := LinkTable(f, i, va);
        if !ok { return; }
        WalkLinks(m0, m1, l1, p1, root, va, f, level, Tree(), lev, pool);
      } else if level < 4 && Large(mem[f][i]) {
        ok := ExpandPage(f, i, level, va);
        if !ok { return; }
        WalkSplits(m0, m1, l1, p1, root, va, f, level, Tree(), lev, pool);
      } else {
        ok := true;
        WalkEnters(m0, Tree(), lev, pool, root, va, f, level);
      }
      t := mem[f][i].frame;
    }

    /** The page-table walk. Without `alloc` it reads. With `alloc` it finds the entry to write for a leaf of
        level `want`, allocating tables, splitting large leaves on the way and giving back the table that the
        new leaf replaces; until the caller writes it that entry is stale, so the result is stated of the
        tables with it cleared. A walk takes three frames at most. */
    method PgdirWalk(va: nat, alloc: bool, want: nat) returns (ok: bool, slot: Option<(nat, nat)>, pa: nat)
      requires Valid() && Visible(va) && 1 <= want <= 3
      modifies this`mem, this`pool, this`lev
      ensures Frames() == old(Frames()) && |pool| + 3 >= |old(pool)|
      ensures !alloc ==> ok && unchanged(this) && pa == Reported(Tree(), root, va)
      ensures !ok ==> Valid() && pool == {} && |old(pool)| < 3 && SameMeaning(old(Tree()), Tree(), root)
                      && OnlySplits(old(Tree()), Tree(), root, va, 0)
      ensures TablesFrom(old(Tree()), old(lev), Tree(), lev)
      ensures alloc && ok ==> slot.Some? && var (f, i) := slot.value;
                && Sharing(mem, root, hid) && f != root && f in mem && |mem[f]| == ENTRIES && i < ENTRIES
                && f in Tree() && |Tree()[f]| == ENTRIES
                && Found(old(Tree()), Write(Tree(), f, i, ZERO), lev, pool, root, va, f, i, want)
    {
      hide Good, Owned, SameMeaning, Reported, Found, Walking, Reaches, TablesFrom, Hidden, Index, Sharing, OnlySplits;
      ghost var m0, l0 := Tree(), lev;
      TablesStay(Tree(), lev);
      ok, slot, pa := true, None, 0;
      var f, i := root, Index(4, va);
      WalkStarts(Tree(), lev, pool, root, va);
      ArrivedFacts(m0, va, f, 4);
      if !Present(mem[f][i]) && !alloc {
        WalkReads(Tree(), lev, pool, root, va, f, 4);
        return;
      }
      ghost var m4, l4 := Tree(), lev;
      ok, f := EnterTable(f, i, 4, va, m0);
      TablesFollow(m0, l0, m4, l4, Tree(), lev);
      if !ok { return; }

      i := Index(3, va);
      ArrivedFacts(m0, va, f, 3);
      if !alloc && !IsTable(mem[f][i], 3) {
        WalkReads(Tree(), lev, pool, root, va, f, 3);
        if Present(mem[f][i]) { slot, pa := Some((f, i)), PhysicalOf(3, mem[f][i], va); }
        return;
      }
      WalkMeets(m0, Tree(), lev, pool, root, va, f, 3);
      if alloc && want == 3 && !IsLeaf(mem[f][i], 3) {
        ghost var l1 := lev;
        TakeSlot(f, i, 3, va, m0);
        TablesFollow(m0, l0, Tree(), l1, Tree(), lev);
        slot := Some((f, i));
        return;
      }
      ghost var m3, l3 := Tree(), lev;
      ok, f := EnterTable(f, i, 3, va, m0);
      TablesFollow(m0, l0, m3, l3, Tree(), lev);
      if !ok { return; }

      i := Index(2, va);
      ArrivedFacts(m0, va, f, 2);
      if !alloc && !IsTable(mem[f][i], 2) {
        WalkReads(Tree(), lev, pool, root, va, f, 2);
        if Present(mem[f][i]) { slot, pa := Some((f, i)), PhysicalOf(2, mem[f][i], va); }
        return;
      }
      WalkMeets(m0, Tree(), lev, pool, root, va, f, 2);
      if alloc && want == 2 && !IsLeaf(mem[f][i], 2) {
        ghost var l1 := lev;
        TakeSlot(f, i, 2, va, m0);
        TablesFollow(m0, l0, Tree(), l1, Tree(), lev);
        slot := Some((f, i));
        return;
      }
      ghost var m2, l2 := Tree(), lev;
      ok, f := EnterTable(f, i, 2, va, m0);
      TablesFollow(m0, l0, m2, l2, Tree(), lev);
      if !ok { return; }

      i := Index(1, va);
      ArrivedFacts(m0, va, f, 1);
      if !alloc {
        WalkReads(Tree(), lev, pool, root, va, f, 1);
      } else {
        WalkFinds(m0, Tree(), lev, pool, root, va, f, 1, want);
      }
      slot, pa := Some((f, i)), PhysicalOf(1, mem[f][i], va);
    }

    /** The slot of a wanted large leaf: absent, or a table that is given back. */
    method TakeSlot(f: nat, i: nat, want: nat, ghost va: nat, ghost m0: Memory)
      requires Arrived(m0, va, f, want) && i == Index(want, va) && 2 <= want <= 3
      requires f in mem && |mem[f]| == ENTRIES && !IsLeaf(mem[f][i], want) && !Stuck(m0, root, va, want)
      modifies this`pool, this`lev
      ensures Frames() == old(Frames()) && |pool| >= |old(pool)|
      ensures f in Tree() && |Tree()[f]| == ENTRIES && f != root
      ensures Found(m0, Write(Tree(), f, i, ZERO), lev, pool, root, va, f, i, want)
      ensures TablesFrom(Tree(), old(lev), Tree(), lev)
    {
      hide Good, Owned, Reaches, Walking, Found, Stuck, TablesFrom, Hidden, Index, Sharing;
      TablesStay(Tree(), lev);
      ArrivedFacts(m0, va, f, want);
      if Present(mem[f][i]) {
        TablesShrink(Tree(), lev, mem[f][i].frame);
        WalkShrinks(m0, Tree(), lev, pool, root, va, f, want);
        FreeTable(mem[f][i].frame);
        MoreFrames(old(pool), pool);
      } else {
        WalkFinds(m0, Tree(), lev, pool, root, va, f, want, want);
      }
    }

    /** `__map_region`: maps the blocks of level `want` that [vaddr, vaddr + size) touches. */
    method MapRegion(vaddr: nat, paddr: nat, size: nat, attr: bv12, want: nat) returns (ok: bool)
      requires Valid() && vaddr + size < W64
      requires size > 0 ==> Mappable(AlignDown(want, vaddr), Align(want, vaddr + size), vaddr - paddr, want)
      requires size > 0 ==> InView(hid, AlignDown(want, vaddr), Align(want, vaddr + size))
      modifies this`mem, this`pool, this`lev
      ensures Valid() && Frames() == old(Frames())
      ensures TablesFrom(old(Tree()), old(lev), Tree(), lev)
      ensures size == 0 ==> ok && unchanged(this)
      ensures size > 0 ==> |pool| + 3 * Leaves(want, AlignDown(want, vaddr), Align(want, vaddr + size)) >= |old(pool)|
      ensures !ok ==> pool == {} && |old(pool)| < 3 * Leaves(want, AlignDown(want, vaddr), Align(want, vaddr + size))
      ensures !ok ==> KeptOutside(old(Tree()), Tree(), root, AlignDown(want, vaddr), Align(want, vaddr + size))
      ensures ok && size > 0 ==> Piece(old(Tree()), Tree(), root, AlignDown(want, vaddr), Align(want, vaddr + size),
                                       vaddr - paddr, attr, want)
      ensures ok && size > 0 ==> PieceLeaves(old(Tree()), Tree(), root, AlignDown(want, vaddr),
                                             Align(want, vaddr + size), attr, want)
      ensures size > 0 ==> PieceMaybe(old(Tree()), Tree(), root, AlignDown(want, vaddr), Align(want, vaddr + size),
                                      attr, want)
    {
      hide Found, Good, Owned, Piece, AlignDown, Align, SameMeaning, TablesFrom, KeptOutside, IsTable, Hidden, InView;
      hide Sharing, Index, Leaves, PieceLeaves, PieceMaybe, OnlySplits, Stuck;
      ok := true;
      ghost var m0, l0 := Tree(), lev;
      TablesStay(Tree(), lev);
      if size == 0 { return; }
      var start, end := AlignDown(want, vaddr), Align(want, vaddr + size);
      ghost var delta := vaddr - paddr;
      PieceStarts(Tree(), root, start, delta, attr, want);
      LeavesStart(Tree(), root, start, attr, want);
      NoLeaves(want, start);
      var addr, pa := start, (paddr - (vaddr - start)) % W64;
      while addr < end
        invariant Valid() && Frames() == old(Frames())
        invariant start <= addr <= end && AlignDown(want, addr) == addr
        invariant addr < end ==> pa == addr - delta
        invariant |pool| + 3 * Leaves(want, start, addr) >= |old(pool)|
        invariant Piece(m0, Tree(), root, start, addr, delta, attr, want) && TablesFrom(m0, l0, Tree(), lev)
        invariant PieceLeaves(m0, Tree(), root, start, addr, attr, want)
        decreases end - addr
      {
        MappableBlock(start, end, delta, want, addr);
        NextLeaf(want, start, addr, end);
        InViewIsVisible(hid, start, end, addr);
        ghost var m1, l1 := Tree(), lev;
        var slot, phys;
        ok, slot, phys := PgdirWalk(addr, true, want);
        TablesFollow(m0, l0, m1, l1, Tree(), lev);
        if !ok {
          PieceKeepsOutside(m0, m1, Tree(), root, start, addr, end, delta, attr, want);
          LeavesBreak(m0, m1, Tree(), root, start, addr, end, delta, attr, want);
          return;
        }
        var (f, i) := slot.value;
        ghost var m2, e := Tree(), LeafEntry(addr, delta, attr, want);
        LeafWrites(m1, m2, lev, pool, root, addr, delta, attr, want, f, i);
        TablesFollow(m0, l0, m2, lev, Write(m2, f, i, e), lev);
        StuckBefore(m0, m1, root, start, addr, delta, attr, want);
        LeavesGrow(m0, m1, Write(m2, f, i, ZERO), lev, pool, root, start, addr, delta, attr, want, f, i);
        PieceGrows(m0, m1, Write(m2, f, i, ZERO), lev, pool, root, start, addr, delta, attr, want, f, i);
        RewriteEntry(m2, f, i, e);
        WriteBelowRoot(mem, root, hid, f, i, e);
        mem := Write(mem, f, i, Entry(pa / PGSIZE, attr | (if want >= 2 then PTE_PS else 0)));
        addr, pa := addr + Unit(want), (pa + Unit(want)) % W64;
      }
      LeavesMaybe(m0, Tree(), root, start, end, attr, want);
    }

    /** One piece of `arch_map_region`, with the 64-bit arithmetic of its arguments. */
    method MapPiece(a: nat, b: nat, delta64: nat, perm: bv12, want: nat, ghost delta: int, ghost m0: Memory,
        ghost l0: map<nat, nat>, ghost c: Cuts, ghost gb: bool)
      returns (ok: bool)
      requires Valid() && RegionMapped(m0, Tree(), root, c, gb, a, delta, perm) && InView(hid, c.s, c.e)
      requires TablesFrom(m0, l0, Tree(), lev) && RegionLeaves(m0, Tree(), root, c, gb, a, perm)
      requires c.s <= a <= b <= c.e && Mappable(a, b, delta, want) && b < W64 && delta64 == delta % W64
      requires forall va :: a <= va < b ==> LeafLevel(c, gb, va) == want
      modifies this`mem, this`pool, this`lev
      ensures Valid() && Frames() == old(Frames())
      ensures TablesFrom(m0, l0, Tree(), lev)
      ensures |pool| + 3 * Leaves(want, a, b) >= |old(pool)|
      ensures !ok ==> pool == {} && |old(pool)| < 3 * Leaves(want, a, b)
      ensures !ok ==> KeptOutside(m0, Tree(), root, c.s, c.e)
      ensures ok ==> RegionMapped(m0, Tree(), root, c, gb, b, delta, perm)
                     && RegionLeaves(m0, Tree(), root, c, gb, b, perm)
      ensures RegionMaybe(m0, Tree(), root, c, gb, perm)
    {
      hide Kept, Owned, RegionMapped, Piece, AlignDown, Align, TablesFrom, KeptOutside, Hidden, InView, Leaves;
      hide PieceLeaves, PieceMaybe, RegionLeaves, RegionMaybe, LeafLevel;
      ghost var m1, l1 := Tree(), lev;
      NoLeaves(want, a);
      if a < b {
        AlignIsEnd(want, b);
        InViewWithin(hid, c.s, c.e, a, b);
        assert (a - delta64) % W64 == a - delta;
      }
      ok := MapRegion(a, (a - delta64) % W64, (b - a) % W64, perm, want);
      TablesFollow(m0, l0, m1, l1, Tree(), lev);
      if ok {
        if a == b {
          PieceStarts(Tree(), root, a, delta, perm, want);
          LeavesStart(Tree(), root, a, perm, want);
        }
        LeavesFollow(m0, m1, Tree(), root, c, gb, a, b, delta, perm, want);
        RegionMayBe(m0, Tree(), root, c, gb, b, perm);
        PieceFollows(m0, m1, Tree(), root, c, gb, a, b, delta, perm, want);
      } else {
        RegionKeepsOutside(m0, m1, Tree(), root, c, gb, a, b, c.e, delta, perm);
        MaybeFollow(m0, m1, Tree(), root, c, gb, a, b, delta, perm, want);
      }
    }

    /** `arch_map_region`: maps [vaddr, vaddr + size), rounded out to pages, to [paddr, paddr + size). */
    method ArchMapRegion(vaddr: nat, paddr: nat, size: nat, permFlag: bv32, gb: bool) returns (ok: bool)
      requires Valid() && RegionOk(vaddr, paddr, size, gb)
      modifies this
      ensures Valid() && Frames() == old(Frames()) && (hid.Some? <==> old(hid).Some?)
      ensures TablesFrom(old(mem), old(lev), mem, lev)
      ensures |pool| + 3 * LeafCount(CutsOf(vaddr, size), gb) >= |old(pool)|
      ensures !ok ==> pool == {} && |old(pool)| < 3 * LeafCount(CutsOf(vaddr, size), gb)
      ensures !ok ==> KeptApart(old(mem), mem, root, hid.Some?, CutsOf(vaddr, size).s, CutsOf(vaddr, size).e)
      ensures ok ==> RegionDone(old(mem), mem, root, hid.Some?, CutsOf(vaddr, size), gb, vaddr - paddr,
                                PermOf(permFlag))
      ensures ok ==> LeavesDone(old(mem), mem, root, hid.Some?, CutsOf(vaddr, size), gb, PermOf(permFlag))
      ensures LeavesMayBe(old(mem), mem, root, hid.Some?, CutsOf(vaddr, size), gb, PermOf(permFlag))
    {
      hide Kept, Owned, RegionMapped, Piece, AlignDown, Align, CutsOf, NoWrap, Hidden, InView, TablesFrom, KeptOutside;
      hide RegionDone, KeptApart, Leaves, RegionLeaves, RegionMaybe, LeavesDone, LeavesMayBe, PermOf;
      ghost var d := vaddr - paddr;
      var delta := (vaddr - paddr) % W64;
      var c := CutsOf(vaddr, size);
      var perm := PermOf(permFlag);
      RegionOrdered(vaddr, paddr, size, gb);
      CutsAligned(vaddr, size);
      RegionInView(vaddr, paddr, size, gb, hid);
      HideFor(mem, lev, pool, root, hid, c.s);
      hid := HiddenFor(hid, c.s);
      ghost var m0, l0 := Tree(), lev;
      MappingStarts(m0, root, c, gb, d, perm);
      RegionStarts(m0, root, c, gb, perm);
      TablesStay(m0, lev);
      label pieces: {
        if c.e1 > c.s1 {
          PieceMappable(vaddr, paddr, size, gb, c.s, c.s1, 1);
          PieceMappable(vaddr, paddr, size, gb, c.e1, c.e, 1);
          if c.e2 > c.s2 && gb {
            PieceMappable(vaddr, paddr, size, gb, c.s1, c.s2, 2);
            PieceMappable(vaddr, paddr, size, gb, c.s2, c.e2, 3);
            PieceMappable(vaddr, paddr, size, gb, c.e2, c.e1, 2);
          } else {
            PieceMappable(vaddr, paddr, size, gb, c.s1, c.e1, 2);
          }
          ok := MapPiece(c.s, c.s1, delta, perm, 1, d, m0, l0, c, gb);
          if !ok { break pieces; }
          if c.e2 > c.s2 && gb {
            ok := MapPiece(c.s1, c.s2, delta, perm, 2, d, m0, l0, c, gb);
            if !ok { break pieces; }
            ok := MapPiece(c.s2, c.e2, delta, perm, 3, d, m0, l0, c, gb);
            if !ok { break pieces; }
            ok := MapPiece(c.e2, c.e1, delta, perm, 2, d, m0, l0, c, gb);
            if !ok { break pieces; }
          } else {
            ok := MapPiece(c.s1, c.e1, delta, perm, 2, d, m0, l0, c, gb);
            if !ok { break pieces; }
          }
          ok := MapPiece(c.e1, c.e, delta, perm, 1, d, m0, l0, c, gb);
        } else {
          PieceMappable(vaddr, paddr, size, gb, c.s, c.e, 1);
          ok := MapPiece(c.s, c.e, delta, perm, 1, d, m0, l0, c, gb);
        }
      }
      RootsKept(old(mem), old(lev), old(pool), mem, lev, pool, root, hid);
      TablesHidden(old(mem), old(lev), mem, lev, root, hid);
      MaybeSeen(old(mem), old(lev), old(pool), mem, lev, pool, root, hid, c, gb, perm);
      if ok {
        RegionSeen(old(mem), old(lev), old(pool), mem, lev, pool, root, hid, c, gb, d, perm);
        LeavesSeen(old(mem), old(lev), old(pool), mem, lev, pool, root, hid, c, gb, perm);
      } else {
        OutsideSeen(old(mem), old(lev), old(pool), mem, lev, pool, root, hid, c.s, c.e);
      }
    }

    /** `check_pgtable`. */
    method CheckPgtable(va: nat) returns (pa: nat)
      requires Valid() && Canonical(va)
      modifies this
      ensures unchanged(this) && pa == Reported(mem, root, va)
    {
      hide Kept, Hidden, Reported, Index, Canonical;
      ghost var h := hid;
      HideFor(mem, lev, pool, root, hid, va);
      hid := HiddenFor(hid, va);
      HiddenForSees(h, va);
      var ok, slot;
      ok, slot, pa := PgdirWalk(va, false, 1);
      ReportedSeen(mem, lev, pool, root, hid, va);
      hid := h;
    }

    /** `arch_kmap`: maps the `sz` bytes from the start of the page of `phy` on into the direct mapping, unless its
        first page is there already. */
    method ArchKmap(phy: nat, sz: nat, gb: bool) returns (ok: bool, va: nat)
      requires Valid() && phy + sz <= DIRECT_END
      modifies this
      ensures Valid() && Frames() == old(Frames()) && va == KERN_BASE + phy
      ensures Reported(old(mem), root, KERN_BASE + PageOf(phy)) == PageOf(phy) ==> ok && mem == old(mem)
      ensures Reported(old(mem), root, KERN_BASE + PageOf(phy)) != PageOf(phy) ==>
                var c := CutsOf(KERN_BASE + PageOf(phy), sz);
                if ok then RegionDone(old(mem), mem, root, hid.Some?, c, gb, KERN_BASE, PTE_P | PTE_W | PTE_G)
                else KeptApart(old(mem), mem, root, hid.Some?, c.s, c.e)
    {
      hide Kept, RegionDone, KeptApart, CutsOf, RegionOk, Reported, TablesFrom, Owned, PageOf, PermOf, LeafCount;
      DirectRegionOk(phy, sz, gb);
      KmapFlags();
      var pgoff, page := phy % PGSIZE, PageOf(phy);
      va := KERN_BASE + page;
      ok := true;
      var found := CheckPgtable(va);
      if found != page {
        ok := ArchMapRegion(va, page, sz, 0x102, gb);
      }
      va := va + pgoff;
    }

    /** `arch_clear_low_page`: the first entry of the root goes, and with it the mirror. */
    method ArchClearLowPage()
      requires Valid()
      modifies this`mem, this`hid
      ensures Valid() && Frames() == old(Frames()) && hid == None && mem == Write(old(mem), root, 0, ZERO)
      ensures forall va: nat :: Canonical(va) ==>
                Effective(mem, root, va) == if va < SLOT then NoAccess else Effective(old(mem), root, va)
    {
      hide Kept, Hidden, Effective;
      LowCleared(mem, lev, pool, root, hid);
      mem := Write(mem, root, 0, ZERO);
      hid := None;
    }
  }
}
