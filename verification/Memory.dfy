/** Physical page management: the first-fit boot allocator over the bitmap, the hand-over of every available page
    to the buddy allocator, and allocation and free afterwards, with bitmap and free lists kept in agreement. */
module Memory {
  import opened Machine
  import opened Powers
  import opened BuddyBlocks
  import opened BuddyTheorems
  import opened BuddyZone
  import opened Bitmap

  const PFN_NOTFOUND: nat := W64 - 1
  const AVAIL := false
  const USED := true

  // ---------- First fit ----------

  /** A first-fit candidate: page `l` is available, and so is every page of [l, l + nr) below the end of memory.
      `used` says of each page whether its bit is set. */
  predicate RunAt(used: seq<bool>, l: nat, nr: nat) {
    l < |used| && !used[l] && forall p :: l <= p < l + nr && p < |used| ==> !used[p]
  }

  /** What a caller expects of the allocator: `nr` available pages. */
  predicate FullRunAt(used: seq<bool>, l: nat, nr: nat) { RunAt(used, l, nr) && l + nr <= |used| }

  /** `block_page_alloc` gives the lowest candidate. */
  ghost predicate FirstFit(used: seq<bool>, nr: nat, r: nat) {
    if r < |used| then RunAt(used, r, nr) && forall x :: 0 <= x < r ==> !RunAt(used, x, nr)
    else r == PFN_NOTFOUND && forall x: nat :: !RunAt(used, x, nr)
  }

  /** The expected result: the lowest run of `nr` pages, and not found exactly when there is none. */
  ghost predicate IntendedFit(used: seq<bool>, nr: nat, r: nat) {
    if r < |used| then FullRunAt(used, r, nr) && forall x :: 0 <= x < r ==> !FullRunAt(used, x, nr)
    else r == PFN_NOTFOUND && forall x: nat :: !FullRunAt(used, x, nr)
  }

  /** First fit is as intended exactly when some full run exists or the last page is in use; otherwise it hands
      out a run cut short by the end of memory. */
  lemma FirstFitIff(used: seq<bool>, nr: nat, r: nat)
    requires FirstFit(used, nr, r) && 0 < |used| < PFN_NOTFOUND && nr > 0
    ensures IntendedFit(used, nr, r) <==> used[|used| - 1] || exists x :: FullRunAt(used, x, nr)
  {
    var top := |used| - 1;
    if exists x :: FullRunAt(used, x, nr) {
      var x :| FullRunAt(used, x, nr);
      assert RunAt(used, x, nr);
      assert r <= x;
    } else if used[top] {
      assert r < |used| ==> r + nr <= |used|;
    } else {
      assert RunAt(used, top, nr);
    }
  }

  /** The last page alone, for a request of two. */
  lemma CutRunIsHandedOut()
    ensures FirstFit([USED, AVAIL], 2, 1) && !IntendedFit([USED, AVAIL], 2, 1)
  {
  }

  ghost predicate NoRunBefore(used: seq<bool>, nr: nat, r: nat) {
    forall x :: 0 <= x < r && x < |used| ==> !RunAt(used, x, nr)
  }

  lemma NoRunYet(used: seq<bool>, nr: nat)
    ensures NoRunBefore(used, nr, 0)
  {
  }

  lemma AllSearched(used: seq<bool>, nr: nat, r: nat)
    requires NoRunBefore(used, nr, r) && r >= |used| && |used| < PFN_NOTFOUND
    ensures FirstFit(used, nr, PFN_NOTFOUND)
  {
  }

  /** The next search finds page `l` available; the pages before it hold no candidate. */
  lemma FitFound(used: seq<bool>, nr: nat, r: nat, l: nat)
    requires NoRunBefore(used, nr, r) && r <= l < |used| < PFN_NOTFOUND && !used[l]
    requires forall p :: r <= p < l ==> used[p]
    requires forall p :: l <= p < |used| && p < l + nr ==> !used[p]
    ensures FirstFit(used, nr, l)
  {
  }

  lemma NothingLeft(used: seq<bool>, nr: nat, r: nat)
    requires NoRunBefore(used, nr, r) && |used| < PFN_NOTFOUND && forall p :: r <= p < |used| ==> used[p]
    ensures FirstFit(used, nr, PFN_NOTFOUND) && forall next :: NoRunBefore(used, nr, next)
  {
  }

  /** A page in use within `nr` pages of `l` rules out every start up to it. */
  lemma SkipTo(used: seq<bool>, nr: nat, r: nat, l: nat, next: nat)
    requires NoRunBefore(used, nr, r) && r <= l < |used| && l <= next < l + nr && next < |used| && used[next]
    requires forall p :: r <= p < l ==> used[p]
    ensures NoRunBefore(used, nr, next)
  {
  }

  // ---------- The hand-over walk ----------

  /** The lowest available page from `r` on, or -1. */
  function NextAvail(used: seq<bool>, r: nat): (l: int)
    ensures l == -1 || (r <= l < |used| && !used[l])
    ensures forall p :: r <= p < (if l == -1 then |used| else l) ==> used[p]
    decreases |used| - r
  {
    if r >= |used| then -1 else if !used[r] then r else NextAvail(used, r + 1)
  }

  /** The lowest page in use from `l` on, or the end of memory. */
  function NextUsed(used: seq<bool>, l: nat): (r: nat)
    requires l <= |used|
    ensures l <= r <= |used| && (r < |used| ==> used[r])
    ensures forall p :: l <= p < r ==> !used[p]
    decreases |used| - l
  {
    if l == |used| || used[l] then l else NextUsed(used, l + 1)
  }

  /** The ranges `buddy_init` frees from page `r` on; a search that finds no page gives the range at -1. */
  function InitRanges(used: seq<bool>, r: nat): seq<(int, int)>
    decreases |used| - r
  {
    if r >= |used| then []
    else
      var l := NextAvail(used, r);
      if l == -1 then [(-1, |used| + 1)]
      else [(l, NextUsed(used, l) - l)] + InitRanges(used, NextUsed(used, l))
  }

  /** Every range `buddy_init` frees is a range of pages exactly when memory is empty or its last page is available. */
  lemma {:induction false} InitWalkIff(used: seq<bool>, r: nat)
    ensures (forall c :: c in InitRanges(used, r) ==> c.0 >= 0) <==> r >= |used| || !used[|used| - 1]
    decreases |used| - r
  {
    if r < |used| {
      var l := NextAvail(used, r);
      if l != -1 {
        var e := NextUsed(used, l);
        InitWalkIff(used, e);
        var rest := InitRanges(used, e);
        assert forall c :: c in InitRanges(used, r) <==> c == (l, e - l) || c in rest;
      } else {
        assert (-1, |used| + 1) in InitRanges(used, r);
      }
    }
  }

  // ---------- Bitmap and free lists ----------

  ghost function Held(used: seq<bool>): set<nat> { set p: nat | p < |used| && used[p] }

  /** A page is available in the bitmap exactly when it lies in a free block, and `nr_free_pages` counts them. */
  ghost predicate Agree(used: seq<bool>, blocks: set<Block>, nrFree: int) {
    Safe(State(blocks, Held(used), nrFree), Range(0, |used|))
  }

  lemma AgreePages(used: seq<bool>, blocks: set<Block>, nrFree: int)
    requires Agree(used, blocks, nrFree)
    ensures Inv(blocks)
    ensures forall p: nat :: FreePage(blocks, p) <==> p < |used| && !used[p]
  {
  }

  lemma RangeInUse(used: seq<bool>, blocks: set<Block>, nrFree: int, pfn: nat, nr: nat)
    requires Agree(used, blocks, nrFree) && pfn + nr <= |used| && NoneFree(blocks, pfn, nr)
    ensures forall p :: pfn <= p < pfn + nr ==> used[p]
  {
    AgreePages(used, blocks, nrFree);
    hide Agree, Inv, FreePage;
    forall p: nat | pfn <= p < pfn + nr ensures used[p] { assert !FreePage(blocks, p); }
  }

  lemma AgreeBounds(used: seq<bool>, blocks: set<Block>, nrFree: int, b: Block, k: nat)
    requires Agree(used, blocks, nrFree) && b in blocks && k <= b.order
    ensures b.pfn + P2(k) <= |used|
  {
    PowerIsMultiple(k, b.order);
    assert InBlock(b, b.pfn + P2(b.order) - 1);
    assert FreePage(blocks, b.pfn + P2(b.order) - 1);
  }

  /** Marking the allocated pages used keeps the agreement. */
  lemma AgreeTaken(used: seq<bool>, blocks: set<Block>, nrFree: int, b: Block, k: nat)
    requires Agree(used, blocks, nrFree) && b in blocks && k <= b.order && b.pfn + P2(k) <= |used|
    ensures forall p :: b.pfn <= p < b.pfn + P2(k) ==> !used[p]
  {
    AgreePages(used, blocks, nrFree);
    hide Agree, FreePage, Inv;
    forall p: nat | b.pfn <= p < b.pfn + P2(k) ensures !used[p] { TakenIsFree(blocks, b, k, p); }
  }

  lemma TakenIsFree(blocks: set<Block>, b: Block, k: nat, p: nat)
    requires b in blocks && k <= b.order && b.pfn <= p < b.pfn + P2(k)
    ensures FreePage(blocks, p)
  {
    PowerIsMultiple(k, b.order);
    assert InBlock(b, p);
  }

  // ---------- The address of a page ----------

  /** What `mm_phy_page_alloc` returns for a page frame number. */
  function AddressOf(pfn: nat): nat { pfn * PGSIZE % W64 }

  /** The test for a null address, which `cache_grow` takes for a failed allocation, fires for page frame 0 only:
      a failed allocation comes back as 2^64 - 4096. */
  lemma NullAddressIff(pfn: nat)
    requires pfn < 0x10_0000_0000_0000 || pfn == PFN_NOTFOUND
    ensures AddressOf(pfn) == 0 <==> pfn == 0
    ensures AddressOf(PFN_NOTFOUND) == W64 - PGSIZE
  {
  }

  lemma AgreeAfterAlloc(used: seq<bool>, used': seq<bool>, blocks: set<Block>, nrFree: int, b: Block, k: nat)
    requires Agree(used, blocks, nrFree) && |used'| == |used| && b in blocks && k <= b.order
    requires forall c :: c in blocks && k <= c.order ==> b.order <= c.order
    requires forall p :: 0 <= p < |used| ==> used'[p] == if b.pfn <= p < b.pfn + P2(k) then USED else used[p]
    ensures Agree(used', Expand(blocks - {b}, b.pfn, b.order, k), nrFree - P2(k))
    ensures b.pfn + P2(k) <= |used| && forall p :: b.pfn <= p < b.pfn + P2(k) ==> !used[p]
  {
    hide Inv, Expand, FreePage, Range;
    var s := State(blocks, Held(used), nrFree);
    var r := Range(b.pfn, P2(k));
    var t := State(Expand(blocks - {b}, b.pfn, b.order, k), Held(used) + r, nrFree - P2(k));
    assert AllocStep(s, t, b, k);
    AllocIsSafe(s, t, Range(0, |used|), b, k);
    assert b.pfn + P2(k) - 1 in r;
    forall p: nat | b.pfn <= p < b.pfn + P2(k) ensures p < |used| && !used[p] {
      assert p in r && p in Range(0, |used|) && p !in Held(used);
    }
    HeldAfterSet(used, used', b.pfn, P2(k), USED);
  }

  lemma HeldAfterSet(used: seq<bool>, used': seq<bool>, a: nat, n: nat, value: bool)
    requires |used'| == |used| && a + n <= |used|
    requires forall p :: 0 <= p < |used| ==> used'[p] == if a <= p < a + n then value else used[p]
    ensures Held(used') == if value then Held(used) + Range(a, n) else Held(used) - Range(a, n)
  {
  }

  lemma AgreeAfterFree(used: seq<bool>, used': seq<bool>, blocks: set<Block>, nrFree: int, pfn: nat, nr: nat)
    requires Agree(used, blocks, nrFree) && |used'| == |used| && pfn + nr <= |used|
    requires forall p :: pfn <= p < pfn + nr ==> used[p]
    requires forall p :: 0 <= p < |used| ==> used'[p] == if pfn <= p < pfn + nr then AVAIL else used[p]
    ensures Agree(used', FreeRange(blocks, pfn, nr), nrFree + nr)
  {
    hide Inv, FreeRange, FreePage, Range;
    var s := State(blocks, Held(used), nrFree);
    var r := Range(pfn, nr);
    var t := State(FreeRange(blocks, pfn, nr), Held(used) - r, nrFree + nr);
    assert r <= Held(used);
    assert FreeStep(s, t, pfn, nr);
    FreeIsSafe(s, t, Range(0, |used|), pfn, nr);
    HeldAfterSet(used, used', pfn, nr, AVAIL);
  }

  /** Part-way through the hand-over, the pages from `r` on are still to come. */
  ghost function HeldUpto(used: seq<bool>, r: nat): set<nat> { set p: nat | p < |used| && (used[p] || p >= r) }

  ghost predicate Walked(used: seq<bool>, blocks: set<Block>, nrFree: int, r: nat) {
    Safe(State(blocks, HeldUpto(used, r), nrFree), Range(0, |used|))
  }

  lemma WalkBegins(used: seq<bool>)
    ensures Walked(used, {}, 0, 0)
  {
    assert HeldUpto(used, 0) == Range(0, |used|);
    assert Range(0, |used|) - HeldUpto(used, 0) == {};
  }

  lemma WalkEnds(used: seq<bool>, blocks: set<Block>, nrFree: int, r: nat)
    requires Walked(used, blocks, nrFree, r) && r >= |used|
    ensures Agree(used, blocks, nrFree)
  {
    assert HeldUpto(used, r) == Held(used);
  }

  /** Freeing the next maximal run of available pages carries the walk past it. */
  lemma WalkStep(used: seq<bool>, blocks: set<Block>, nrFree: int, r: nat, l: nat, next: nat)
    requires Walked(used, blocks, nrFree, r) && r <= l <= next <= |used|
    requires forall p :: r <= p < l ==> used[p]
    requires forall p :: l <= p < next ==> !used[p]
    ensures NoneFree(blocks, l, next - l)
    ensures Walked(used, FreeRange(blocks, l, next - l), nrFree + (next - l), next)
  {
    hide Inv, FreeRange, FreePage, Range;
    var s := State(blocks, HeldUpto(used, r), nrFree);
    var run := Range(l, next - l);
    var t := State(FreeRange(blocks, l, next - l), HeldUpto(used, r) - run, nrFree + (next - l));
    assert run <= HeldUpto(used, r);
    assert FreeStep(s, t, l, next - l);
    FreeIsSafe(s, t, Range(0, |used|), l, next - l);
    assert HeldUpto(used, next) == t.held;
    forall p: nat | l <= p < next ensures !FreePage(blocks, p) { assert p in run; }
  }

  class PhysMemory {
    const bits: BitArray
    var zone: Zone?

    /** Before the buddy allocator exists, the bitmap alone describes memory. */
    constructor (bitmap: BitArray)
      ensures bits == bitmap && zone == null
    {
      bits, zone := bitmap, null;
    }

    /** The bitmap as a sequence of bits. */
    ghost function Used(): (u: seq<bool>)
      requires bits.Valid()
      reads bits.bytes
      ensures |u| == bits.size && forall p :: 0 <= p < bits.size ==> u[p] == bits.At(p)
    {
      seq(bits.size, p requires 0 <= p < bits.size && bits.Valid() reads bits.bytes => bits.At(p))
    }

    /** The bitmap is well formed and small enough for the `int` results of its search. */
    ghost predicate Booted() { bits.Valid() && bits.size + 8 <= W31 }

    /** Once the buddy allocator is ready: its zone is all of memory, and bitmap and free lists agree. */
    ghost predicate Valid()
      reads this, zone, if zone != null then {zone.lists} else {}, bits.bytes
    {
      && Booted() && zone != null && zone.Valid() && zone.pfnBase == 0 && zone.nrPages == bits.size
      && Agree(Used(), zone.blocks, zone.nrFree)
    }

    /** The lowest available page from `start` on, or -1. */
    method NextAvailable(start: nat) returns (l: int)
      requires Booted() && start < bits.size
      ensures l == -1 || (start <= l < bits.size && !Used()[l])
      ensures forall p :: start <= p < (if l == -1 then bits.size else l) ==> Used()[p]
    {
      l := bits.Find(AVAIL, start, bits.size);
      forall p: nat | start <= p < (if l == -1 then bits.size else l) ensures Used()[p] { assert bits.At(p) != AVAIL; }
    }

    /** The lowest page in use among the `nr` pages from `l` on, or -1. */
    method NextInUse(l: nat, nr: nat) returns (r: int)
      requires Booted() && l < bits.size && nr < W63
      ensures r == -1 || (l <= r < l + nr && r < bits.size && Used()[r])
      ensures forall p :: l <= p < bits.size && p < (if r == -1 then l + nr else r) ==> !Used()[p]
    {
      r := bits.Find(USED, l, nr);
      forall p: nat | l <= p < bits.size && p < (if r == -1 then l + nr else r) ensures !Used()[p] {
        assert bits.At(p) != USED;
      }
    }

    /** `block_page_alloc`. */
    method BlockPageAlloc(nr: nat) returns (pfn: nat)
      requires Booted() && nr < W63
      ensures FirstFit(Used(), nr, pfn)
    {
      hide FirstFit, RunAt, NoRunBefore;
      ghost var used := Used();
      NoRunYet(used, nr);
      var l: int, r: int := 0, 0;
      while r < bits.size
        invariant 0 <= r && NoRunBefore(used, nr, r)
        decreases bits.size - r
      {
        ghost var r0 := r;
        l := NextAvailable(r);
        assert Used() == used;
        if l == -1 {
          r := bits.Find(USED, l % W64, nr);
          NothingLeft(used, nr, r0);
        } else {
          r := NextInUse(l, nr);
          assert Used() == used;
          if r == -1 {
            FitFound(used, nr, r0, l);
          } else {
            SkipTo(used, nr, r0, l, r);
          }
        }
        if r == -1 {
          return l % W64;
        }
      }
      AllSearched(used, nr, r);
      pfn := PFN_NOTFOUND;
    }

    /** `buddy_init`, after the page structures have been allocated with clear flags: frees every maximal run of
        available pages. The last page must be available (see InitWalkIff). */
    method BuddyInit(memMap: map<nat, Page>)
      requires Booted() && zone == null && Covered(memMap, 0, bits.size)
      requires forall p :: p in memMap ==> !Flagged(memMap[p])
      requires bits.size > 0 ==> bits.At(bits.size - 1) == AVAIL
      modifies this`zone
      ensures Valid() && fresh(zone) && fresh(zone.lists)
    {
      hide Walked, Inv, FreeRange, FreePage, Agree, HeldUpto, NoneFree, GoodZone, Weight;
      ghost var used := Used();
      var z := ZeroZone(memMap);
      zone := z;
      WalkBegins(used);
      var r: nat := 0;
      while r < bits.size
        invariant zone == z && z.Valid() && z.pfnBase == 0 && z.nrPages == bits.size && fresh(z) && fresh(z.lists)
        invariant r <= bits.size && Walked(used, z.blocks, z.nrFree, r)
        decreases bits.size - r
      {
        var l := NextAvailable(r);
        assert Used() == used;
        assert l != -1 by { assert !used[bits.size - 1]; }
        var next := NextInUse(l, bits.size);
        assert Used() == used;
        if next == -1 {
          next := bits.size;
        }
        WalkStep(used, z.blocks, z.nrFree, r, l, next);
        z.PageFree(l, next - l);
        r := next;
      }
      WalkEnds(used, z.blocks, z.nrFree, r);
    }

    /** `buddy_init_zone` for all of memory. */
    method ZeroZone(memMap: map<nat, Page>) returns (z: Zone)
      requires Covered(memMap, 0, bits.size)
      requires forall p :: p in memMap ==> !Flagged(memMap[p])
      ensures fresh(z) && fresh(z.lists) && z.Valid() && z.blocks == {} && z.nrFree == 0
      ensures z.pfnBase == 0 && z.nrPages == bits.size
    {
      z := new Zone(0, bits.size, memMap);
    }

    /** `mm_phy_page_alloc` once the buddy allocator is ready: a page frame number, or PFN_NOTFOUND, after which the
        bitmap is written past its end only. The block has as many pages as the greatest power of two that divides
        the request; bitmap and free lists still agree exactly when that is the request. */
    method PhyPageAlloc(nr: nat) returns (pfn: nat, ghost found: Block)
      requires Valid() && 0 < nr < W63
      modifies zone`nrFree, zone`count, zone`pages, zone`blocks, zone.lists, bits.bytes
      ensures Booted() && zone.Linked() && (Valid() <==> pfn == PFN_NOTFOUND || nr == P2(TrailingZeros(nr)))
      ensures pfn == PFN_NOTFOUND ==> Used() == old(Used()) && zone.blocks == old(zone.blocks)
                                      && forall b :: b in zone.blocks ==> b.order < TrailingZeros(nr)
      ensures pfn != PFN_NOTFOUND ==> var k := TrailingZeros(nr);
                && found in old(zone.blocks) && found.pfn == pfn && k <= found.order
                && zone.blocks == Expand(old(zone.blocks) - {found}, pfn, found.order, k)
                && pfn + P2(k) <= bits.size && zone.nrFree == old(zone.nrFree) - nr
                && (forall p :: pfn <= p < pfn + P2(k) ==> old(Used())[p] == AVAIL)
      ensures pfn != PFN_NOTFOUND ==>
                forall p :: 0 <= p < bits.size ==> Used()[p] == if pfn <= p < pfn + nr then USED else old(Used())[p]
    {
      hide Inv, FreePage, Agree, Expand, GoodZone, Weight, TrailingZeros, P2;
      ghost var used, blocks, nrFree, k := Used(), zone.blocks, zone.nrFree, TrailingZeros(nr);
      var r;
      r, found := zone.PageAlloc(nr);
      match r {
        case None =>
          pfn := PFN_NOTFOUND;
          bits.Set(USED, pfn, nr);
          assert Used() == used;
        case Some(p) =>
          pfn := p;
          AgreeBounds(used, blocks, nrFree, found, k);
          AgreeTaken(used, blocks, nrFree, found, k);
          bits.Set(USED, pfn, nr);
          if nr == P2(k) { AgreeAfterAlloc(used, Used(), blocks, nrFree, found, k); }
      }
    }

    /** The double-free check of `mm_phy_page_free`: it fires exactly when some page of the range is already in a
        free block. */
    method DoubleFreeCheck(pfn: nat, nr: nat) returns (check: int)
      requires Valid() && pfn + nr <= bits.size
      ensures check != -1 <==> exists p: nat :: pfn <= p < pfn + nr && FreePage(zone.blocks, p)
      ensures check != -1 ==> pfn <= check < pfn + nr && FreePage(zone.blocks, check)
    {
      AgreePages(Used(), zone.blocks, zone.nrFree);
      hide Inv, Agree, GoodZone, Weight, FreePage;
      check := bits.Find(AVAIL, pfn, nr);
      if check == -1 {
        forall p: nat | pfn <= p < pfn + nr ensures !FreePage(zone.blocks, p) { assert bits.At(p) != AVAIL; }
      }
    }

    /** `mm_phy_page_free` of pages that are in use. */
    method PhyPageFree(pfn: nat, nr: nat)
      requires Valid() && pfn + nr <= bits.size && NoneFree(zone.blocks, pfn, nr)
      modifies zone`nrFree, zone`count, zone`pages, zone`blocks, zone.lists, bits.bytes
      ensures Valid() && zone.blocks == FreeRange(old(zone.blocks), pfn, nr) && zone.nrFree == old(zone.nrFree) + nr
      ensures forall p :: 0 <= p < bits.size ==> Used()[p] == if pfn <= p < pfn + nr then AVAIL else old(Used())[p]
    {
      hide Inv, Agree, GoodZone, Weight, FreePage, FreeRange, NoneFree;
      ghost var used, blocks, nrFree := Used(), zone.blocks, zone.nrFree;
      RangeInUse(used, blocks, nrFree, pfn, nr);
      var check := DoubleFreeCheck(pfn, nr);
      bits.Set(AVAIL, pfn, nr);
      zone.PageFree(pfn, nr);
      AgreeAfterFree(used, Used(), blocks, nrFree, pfn, nr);
    }
  }

  // ---------- The boot memory map ----------

  datatype Region = Region(addr: nat, len: nat, available: bool)

  /** `mem_map_init` marks page `p` available because of this region: the part above the reserved end, in whole
      pages. */
  predicate Marks(m: Region, reservedEnd: nat, p: nat) {
    && m.available && m.addr + m.len > reservedEnd
    && var base := if m.addr < reservedEnd then reservedEnd else m.addr;
       base / 0x1000 <= p < base / 0x1000 + (m.addr + m.len - base) / 0x1000
  }

  /** For page-aligned regions these are exactly the pages that lie in the region and above the reserved end. */
  lemma MarksPagesOfRegion(m: Region, reservedEnd: nat, p: nat)
    requires m.addr % 0x1000 == 0 && m.len % 0x1000 == 0 && reservedEnd % 0x1000 == 0
    ensures Marks(m, reservedEnd, p)
            <==> && m.available && reservedEnd <= p * 0x1000
                 && m.addr <= p * 0x1000 && p * 0x1000 + 0x1000 <= m.addr + m.len
  {
  }

  function Limit(regions: seq<Region>): nat {
    if regions == [] then 0
    else
      var last, rest := regions[|regions| - 1], Limit(regions[..|regions| - 1]);
      if last.available && last.addr + last.len > rest then last.addr + last.len else rest
  }

  /** The least page boundary from x on. */
  function AlignPage(x: nat): (r: nat)
    ensures r % 0x1000 == 0 && x <= r < x + 0x1000
  {
    (x + 0xFFF) / 0x1000 * 0x1000
  }

  lemma {:induction false} LimitIsMax(regions: seq<Region>, i: nat)
    requires i < |regions| && regions[i].available
    ensures regions[i].addr + regions[i].len <= Limit(regions)
  {
    if i < |regions| - 1 { LimitIsMax(regions[..|regions| - 1], i); }
  }

  lemma {:induction false} LimitIsReached(regions: seq<Region>) returns (i: nat)
    requires Limit(regions) > 0
    ensures i < |regions| && regions[i].available && regions[i].addr + regions[i].len == Limit(regions)
  {
    var last := |regions| - 1;
    if regions[last].available && regions[last].addr + regions[last].len == Limit(regions) { return last; }
    i := LimitIsReached(regions[..last]);
  }

  /** When the available regions that reach into the last page are whole pages, that page, which the hand-over asks
      for, is marked available exactly when memory does not end within the reserved part. */
  lemma LastPageIff(regions: seq<Region>, reservedEnd: nat)
    requires Limit(regions) > 0 && reservedEnd % 0x1000 == 0
    requires forall i :: 0 <= i < |regions| && regions[i].available
                           && regions[i].addr + regions[i].len > AlignPage(Limit(regions)) - 0x1000 ==>
               regions[i].addr % 0x1000 == 0 && regions[i].len % 0x1000 == 0 && regions[i].len > 0
    ensures (exists i :: 0 <= i < |regions|
                         && Marks(regions[i], reservedEnd, AlignPage(Limit(regions)) / 0x1000 - 1))
            <==> reservedEnd < Limit(regions)
  {
    var p := AlignPage(Limit(regions)) / 0x1000 - 1;
    var t := LimitIsReached(regions);
    LastPageMarked(regions[t], reservedEnd);
    hide Limit, AlignPage;
    forall i | 0 <= i < |regions| && Marks(regions[i], reservedEnd, p) ensures reservedEnd < Limit(regions) {
      LimitIsMax(regions, i);
    }
  }

  lemma LastPageMarked(m: Region, reservedEnd: nat)
    requires reservedEnd % 0x1000 == 0 && m.available && m.len > 0
    requires var end := m.addr + m.len;
             end > AlignPage(end) - 0x1000 ==> m.addr % 0x1000 == 0 && m.len % 0x1000 == 0
    ensures AlignPage(m.addr + m.len) >= 0x1000
    ensures reservedEnd < m.addr + m.len ==> Marks(m, reservedEnd, AlignPage(m.addr + m.len) / 0x1000 - 1)
  {
    var end := m.addr + m.len;
    assert AlignPage(end) - 0x1000 < end <= AlignPage(end);
    assert AlignPage(end) == end && end == (end / 0x1000 - 1) * 0x1000 + 0x1000;
    MarksPagesOfRegion(m, reservedEnd, end / 0x1000 - 1);
    hide Marks;
  }

  /** The first pass of `mem_map_init`. */
  method LastAddress(regions: seq<Region>) returns (limit: nat)
    ensures limit == Limit(regions)
  {
    limit := 0;
    for i := 0 to |regions|
      invariant limit == Limit(regions[..i])
    {
      assert regions[..i + 1][..i] == regions[..i];
      if regions[i].available && regions[i].addr + regions[i].len > limit {
        limit := regions[i].addr + regions[i].len;
      }
    }
    assert regions[..|regions|] == regions;
  }

  /** One region of the second pass. */
  method Release(bits: BitArray, m: Region, reservedEnd: nat)
    requires bits.Valid() && m.addr + m.len < W64
    modifies bits.bytes
    ensures forall p: nat :: p < bits.size ==> bits.At(p) == if Marks(m, reservedEnd, p) then AVAIL else old(bits.At(p))
  {
    if m.available && m.addr + m.len > reservedEnd {
      var base := if m.addr < reservedEnd then reservedEnd else m.addr;
      bits.Set(AVAIL, base / 0x1000, (m.addr + m.len - base) / 0x1000);
    }
  }

  /** `mem_map_init`: everything is in use, then each available region above the reserved memory is released; the
      bitmap itself is reserved first. */
  method MemMapInit(regions: seq<Region>, reserved: nat) returns (bits: BitArray, reservedEnd: nat)
    requires Limit(regions) <= W64 - PGSIZE && reserved < W63
    requires forall i :: 0 <= i < |regions| ==> regions[i].addr + regions[i].len < W64
    ensures fresh(bits) && fresh(bits.bytes) && bits.Valid() && bits.size == AlignPage(Limit(regions)) / 0x1000
    ensures Limit(regions) <= bits.size * 0x1000 < Limit(regions) + 0x1000
    ensures reservedEnd == AlignPage(reserved + (bits.size + 7) / 8)
    ensures reserved + (bits.size + 7) / 8 <= reservedEnd
    ensures forall p: nat :: p < bits.size && bits.At(p) == AVAIL ==> reservedEnd <= p * 0x1000
    ensures forall p: nat :: p < bits.size ==>
              (bits.At(p) == AVAIL <==> exists i :: 0 <= i < |regions| && Marks(regions[i], reservedEnd, p))
  {
    var limit := LastAddress(regions);
    var pfnMax := AlignPage(limit) / 0x1000;
    var buffer := new bv8[(pfnMax + 7) / 8];
    reservedEnd := AlignPage(reserved + (pfnMax + 7) / 8);
    bits := new BitArray(buffer, pfnMax);
    bits.Set(USED, 0, pfnMax);
    for i := 0 to |regions|
      invariant fresh(bits) && fresh(bits.bytes)
      invariant forall p: nat :: p < bits.size ==>
                  (bits.At(p) == AVAIL <==> exists j :: 0 <= j < i && Marks(regions[j], reservedEnd, p))
    {
      hide Marks;
      Release(bits, regions[i], reservedEnd);
    }
    forall p: nat | p < bits.size && bits.At(p) == AVAIL ensures reservedEnd <= p * 0x1000 {
      var i :| 0 <= i < |regions| && Marks(regions[i], reservedEnd, p);
      MarkedIsAbove(regions[i], reservedEnd, p);
    }
  }

  /** A region that does not start on a page boundary releases the page it starts in, part of which is not its own. */
  lemma PartialPageReleasedIff(m: Region, reservedEnd: nat)
    requires m.available && m.len >= 0x1000 && reservedEnd <= m.addr
    ensures (exists p: nat :: Marks(m, reservedEnd, p) && p * 0x1000 < m.addr) <==> m.addr % 0x1000 != 0
  {
    var p := m.addr / 0x1000;
    assert Marks(m, reservedEnd, p);
  }

  /** No page that a region releases reaches into the reserved memory. */
  lemma MarkedIsAbove(m: Region, reservedEnd: nat, p: nat)
    requires Marks(m, reservedEnd, p) && reservedEnd % 0x1000 == 0
    ensures reservedEnd <= p * 0x1000
  {
  }
}
