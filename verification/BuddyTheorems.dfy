/** Range frees, and what follows from the canonical form: an allocation is undone by its free, the way a range is
    cut up when it is freed does not matter, and every run of the allocator is safe. */
module BuddyTheorems {
  import opened Powers
  import opened BuddyBlocks

  // ---------- Greedy range free ----------

  /** The order `buddy_page_free` tries first that fits at `pfn` and in `n` pages, from `order` down. */
  function GreedyOrder(pfn: nat, n: nat, order: nat): (r: nat)
    requires n > 0
    ensures r <= order && Multiple(pfn, r) && P2(r) <= n
    ensures forall k :: r < k <= order ==> !(Multiple(pfn, k) && P2(k) <= n)
  {
    if order == 0 || (Multiple(pfn, order) && P2(order) <= n) then order else GreedyOrder(pfn, n, order - 1)
  }

  /** `buddy_page_free` on the block set. */
  function FreeRange(blocks: set<Block>, pfn: nat, n: nat): set<Block>
    decreases n
  {
    if n == 0 then blocks
    else
      var k := GreedyOrder(pfn, n, TOP);
      FreeRange(FreeBlock(blocks, pfn, k), pfn + P2(k), n - P2(k))
  }

  ghost predicate NoneFree(blocks: set<Block>, pfn: nat, n: nat) {
    forall p: nat :: pfn <= p < pfn + n ==> !FreePage(blocks, p)
  }

  lemma RangeCanAdd(blocks: set<Block>, pfn: nat, n: nat, k: nat)
    requires NoneFree(blocks, pfn, n) && k <= TOP && Multiple(pfn, k) && P2(k) <= n
    ensures CanAdd(blocks, Block(pfn, k))
  {
  }

  /** The first block of a range is freed, and the rest of the range is still not free. */
  lemma FirstBlock(blocks: set<Block>, pfn: nat, n: nat, k: nat)
    requires Inv(blocks) && NoneFree(blocks, pfn, n) && k <= TOP && Multiple(pfn, k) && P2(k) <= n
    ensures CanAdd(blocks, Block(pfn, k))
    ensures Inv(FreeBlock(blocks, pfn, k)) && NoneFree(FreeBlock(blocks, pfn, k), pfn + P2(k), n - P2(k))
    ensures forall p: nat :: FreePage(FreeBlock(blocks, pfn, k), p) <==> FreePage(blocks, p) || pfn <= p < pfn + P2(k)
  {
    RangeCanAdd(blocks, pfn, n, k);
    hide Inv, FreePage, FreeBlock, CanAdd, Multiple;
    FreeBlockKeepsInv(blocks, pfn, k);
  }

  /** Freeing a range tiles it exactly: its pages become free, no others, and the invariant is kept. */
  lemma {:induction false} FreeRangeKeepsInv(blocks: set<Block>, pfn: nat, n: nat)
    requires Inv(blocks) && NoneFree(blocks, pfn, n)
    ensures Inv(FreeRange(blocks, pfn, n))
    ensures forall p: nat :: FreePage(FreeRange(blocks, pfn, n), p) <==> FreePage(blocks, p) || pfn <= p < pfn + n
    decreases n
  {
    hide Inv, FreePage, FreeBlock, FreeRange, CanAdd, Multiple, NoneFree, GreedyOrder, P2;
    RangeUnfolds(blocks, pfn, n);
    if n > 0 {
      var k := GreedyOrder(pfn, n, TOP);
      FirstBlock(blocks, pfn, n, k);
      FreeRangeKeepsInv(FreeBlock(blocks, pfn, k), pfn + P2(k), n - P2(k));
    }
  }

  lemma RangeUnfolds(blocks: set<Block>, pfn: nat, n: nat)
    ensures n == 0 ==> FreeRange(blocks, pfn, n) == blocks
    ensures n > 0 ==> var k := GreedyOrder(pfn, n, TOP);
              FreeRange(blocks, pfn, n) == FreeRange(FreeBlock(blocks, pfn, k), pfn + P2(k), n - P2(k))
  {
    hide FreeBlock, GreedyOrder, P2;
  }

  /** One round of the greedy loop frees the largest block that fits. */
  lemma GreedyStep(blocks: set<Block>, pfn: nat, n: nat, k: nat)
    requires Inv(blocks) && NoneFree(blocks, pfn, n) && n > 0
    requires k <= TOP && Multiple(pfn, k) && P2(k) <= n && GreedyOrder(pfn, n, k) == GreedyOrder(pfn, n, TOP)
    ensures CanAdd(blocks, Block(pfn, k))
    ensures NoneFree(FreeBlock(blocks, pfn, k), pfn + P2(k), n - P2(k))
    ensures FreeRange(FreeBlock(blocks, pfn, k), pfn + P2(k), n - P2(k)) == FreeRange(blocks, pfn, n)
  {
    hide Inv, FreePage, FreeBlock, CanAdd, NoneFree;
    FirstBlock(blocks, pfn, n, k);
    GreedyHere(pfn, n, k);
    assert GreedyOrder(pfn, n, TOP) == k;
  }

  lemma GreedyHere(pfn: nat, n: nat, k: nat)
    requires n > 0 && Multiple(pfn, k) && P2(k) <= n
    ensures GreedyOrder(pfn, n, k) == k
  {
  }

  // ---------- Consequences of the canonical form ----------

  /** Allocating a block out of a larger free one and freeing it again restores the free blocks exactly. */
  lemma AllocThenFreeRestores(blocks: set<Block>, b: Block, k: nat)
    requires Inv(blocks) && b in blocks && k <= b.order
    ensures FreeRange(Expand(blocks - {b}, b.pfn, b.order, k), b.pfn, P2(k)) == blocks
  {
    AllocPages(blocks, b, k);
    var s := Expand(blocks - {b}, b.pfn, b.order, k);
    FreeRangeKeepsInv(s, b.pfn, P2(k));
    PowerIsMultiple(k, b.order);
    forall p: nat ensures FreePage(FreeRange(s, b.pfn, P2(k)), p) <==> FreePage(blocks, p) {
      if InBlock(Block(b.pfn, k), p) { assert InBlock(b, p); }
    }
    Canonical(FreeRange(s, b.pfn, P2(k)), blocks);
  }

  /** Taking a free block and putting back what is not needed takes exactly the allocated pages. */
  lemma AllocPages(blocks: set<Block>, b: Block, k: nat)
    requires Inv(blocks) && b in blocks && k <= b.order
    ensures Inv(Expand(blocks - {b}, b.pfn, b.order, k))
    ensures forall p: nat :: FreePage(Expand(blocks - {b}, b.pfn, b.order, k), p)
                             <==> FreePage(blocks, p) && !InBlock(Block(b.pfn, k), p)
  {
    RemoveKeepsInv(blocks, b);
    ExpandKeepsInv(blocks - {b}, b.pfn, b.order, k);
    PowerIsMultiple(k, b.order);
    forall p: nat
      ensures FreePage(Expand(blocks - {b}, b.pfn, b.order, k), p)
              <==> FreePage(blocks, p) && !InBlock(Block(b.pfn, k), p)
    {
      if InBlock(b, p) { assert FreePage(blocks, p); }
    }
  }

  /** Freeing [a, b) and [b, c) in either order, or [a, c) at once, gives the same free blocks. */
  lemma RangeFreesCommute(blocks: set<Block>, a: nat, b: nat, c: nat)
    requires Inv(blocks) && a <= b <= c && NoneFree(blocks, a, c - a)
    ensures FreeRange(FreeRange(blocks, a, b - a), b, c - b) == FreeRange(blocks, a, c - a)
    ensures FreeRange(FreeRange(blocks, b, c - b), a, b - a) == FreeRange(blocks, a, c - a)
  {
    hide Inv, FreeRange, FreePage;
    FreeRangeKeepsInv(blocks, a, c - a);
    FreeRangeKeepsInv(blocks, a, b - a);
    FreeRangeKeepsInv(FreeRange(blocks, a, b - a), b, c - b);
    Canonical(FreeRange(FreeRange(blocks, a, b - a), b, c - b), FreeRange(blocks, a, c - a));
    FreeRangeKeepsInv(blocks, b, c - b);
    FreeRangeKeepsInv(FreeRange(blocks, b, c - b), a, b - a);
    Canonical(FreeRange(FreeRange(blocks, b, c - b), a, b - a), FreeRange(blocks, a, c - a));
  }

  // ---------- Runs ----------

  function Range(a: nat, n: nat): (r: set<nat>)
    ensures forall p: nat :: p in r <==> a <= p < a + n
    ensures |r| == n
  {
    if n == 0 then {} else Range(a, n - 1) + {a + n - 1}
  }

  /** The allocator between calls: its free blocks, the pages its callers hold, and `nr_free_pages`. */
  datatype State = State(blocks: set<Block>, held: set<nat>, nrFree: int)

  /** `buddy_page_alloc` of 2^k pages takes the first block of the smallest order that has one. */
  ghost predicate AllocStep(s: State, t: State, b: Block, k: nat) {
    && b in s.blocks && k <= b.order && (forall c :: c in s.blocks && k <= c.order ==> b.order <= c.order)
    && t.blocks == Expand(s.blocks - {b}, b.pfn, b.order, k)
    && t.held == s.held + Range(b.pfn, P2(k)) && t.nrFree == s.nrFree - P2(k)
  }

  /** `buddy_page_free` of pages that are held. */
  ghost predicate FreeStep(s: State, t: State, pfn: nat, n: nat) {
    && Range(pfn, n) <= s.held
    && t.blocks == FreeRange(s.blocks, pfn, n)
    && t.held == s.held - Range(pfn, n) && t.nrFree == s.nrFree + n
  }

  ghost predicate Step(s: State, t: State) {
    || (exists b, k :: AllocStep(s, t, b, k))
    || (exists pfn, n :: FreeStep(s, t, pfn, n))
  }

  /** Every managed page is either in exactly one free block or held, and the count is right. */
  ghost predicate Safe(s: State, managed: set<nat>) {
    && Inv(s.blocks) && s.held <= managed
    && (forall p: nat :: FreePage(s.blocks, p) <==> p in managed && p !in s.held)
    && s.nrFree == |managed - s.held|
  }

  lemma AllocIsSafe(s: State, t: State, managed: set<nat>, b: Block, k: nat)
    requires Safe(s, managed) && AllocStep(s, t, b, k)
    ensures Safe(t, managed)
    ensures Range(b.pfn, P2(k)) !! s.held && Range(b.pfn, P2(k)) <= managed
  {
    var r := Range(b.pfn, P2(k));
    AllocTakes(s.blocks, b, k);
    hide Inv, Expand, FreePage, Range;
    HeldGrows(s.held, r, managed);
  }

  // ---------- Requests ----------

  /** What the caller of an allocation of `nr` pages at `pfn` relies on: every page is managed, nobody held it, and
      it is not free any more. */
  ghost predicate HandedOut(s: State, t: State, managed: set<nat>, pfn: nat, nr: nat) {
    forall p: nat :: pfn <= p < pfn + nr ==> p in managed && p !in s.held && !FreePage(t.blocks, p)
  }

  /** A request for `nr` pages that is served by a block of 2^k pages and booked as `nr`. */
  ghost predicate RequestStep(s: State, t: State, b: Block, k: nat, nr: nat) {
    AllocStep(s, t.(nrFree := s.nrFree - P2(k)), b, k) && t.nrFree == s.nrFree - nr
  }

  /** The pages asked for are handed out, and the books balance, exactly when the block has their number: the page
      after it was never taken off the free lists. */
  lemma HandedOutIff(s: State, t: State, managed: set<nat>, b: Block, k: nat, nr: nat)
    requires Safe(s, managed) && RequestStep(s, t, b, k, nr) && nr >= P2(k)
    ensures HandedOut(s, t, managed, b.pfn, nr) <==> nr == P2(k)
    ensures Safe(t, managed) <==> nr == P2(k)
  {
    hide Safe, RequestStep, FreePage, P2;
    RequestBooks(s, t, managed, b, k, nr);
    RequestPages(s, t, managed, b, k, nr);
    if nr > P2(k) { NotHandedOut(s, t, managed, b.pfn, nr, b.pfn + P2(k)); }
  }

  lemma NotHandedOut(s: State, t: State, managed: set<nat>, pfn: nat, nr: nat, p: nat)
    requires pfn <= p < pfn + nr && (p in managed && p !in s.held ==> FreePage(t.blocks, p))
    ensures !HandedOut(s, t, managed, pfn, nr)
  {
  }

  lemma RequestBooks(s: State, t: State, managed: set<nat>, b: Block, k: nat, nr: nat)
    requires Safe(s, managed) && RequestStep(s, t, b, k, nr)
    ensures Safe(t, managed) <==> nr == P2(k)
  {
    AllocIsSafe(s, t.(nrFree := s.nrFree - P2(k)), managed, b, k);
    hide Inv, AllocStep, FreePage, P2;
  }

  /** The pages of the block are handed out; any other page that nobody held is still free. */
  lemma RequestPages(s: State, t: State, managed: set<nat>, b: Block, k: nat, nr: nat)
    requires Safe(s, managed) && RequestStep(s, t, b, k, nr)
    ensures HandedOut(s, t, managed, b.pfn, P2(k))
    ensures forall p: nat :: !(b.pfn <= p < b.pfn + P2(k)) && p in managed && p !in s.held ==> FreePage(t.blocks, p)
  {
    hide Inv, Expand, FreePage, P2, Range;
    AllocTakes(s.blocks, b, k);
    forall p: nat
      ensures b.pfn <= p < b.pfn + P2(k) ==> p in managed && p !in s.held && !FreePage(t.blocks, p)
      ensures !(b.pfn <= p < b.pfn + P2(k)) && p in managed && p !in s.held ==> FreePage(t.blocks, p)
    {
      assert p in Range(b.pfn, P2(k)) <==> b.pfn <= p < b.pfn + P2(k);
    }
  }

  lemma AllocTakes(blocks: set<Block>, b: Block, k: nat)
    requires Inv(blocks) && b in blocks && k <= b.order
    ensures Inv(Expand(blocks - {b}, b.pfn, b.order, k))
    ensures forall p: nat :: p in Range(b.pfn, P2(k)) ==> FreePage(blocks, p)
    ensures forall p: nat :: FreePage(Expand(blocks - {b}, b.pfn, b.order, k), p)
                             <==> FreePage(blocks, p) && p !in Range(b.pfn, P2(k))
  {
    AllocPages(blocks, b, k);
    PowerIsMultiple(k, b.order);
    forall p: nat | p in Range(b.pfn, P2(k)) ensures FreePage(blocks, p) { assert InBlock(b, p); }
  }

  lemma HeldGrows(held: set<nat>, r: set<nat>, managed: set<nat>)
    requires held <= managed && r !! held && r <= managed
    ensures held + r <= managed && |managed - (held + r)| == |managed - held| - |r|
  {
    assert managed - held == (managed - (held + r)) + r;
  }

  lemma HeldShrinks(held: set<nat>, r: set<nat>, managed: set<nat>)
    requires held <= managed && r <= held
    ensures held - r <= managed && |managed - (held - r)| == |managed - held| + |r|
  {
    assert managed - (held - r) == (managed - held) + r;
  }

  lemma FreeIsSafe(s: State, t: State, managed: set<nat>, pfn: nat, n: nat)
    requires Safe(s, managed) && FreeStep(s, t, pfn, n)
    ensures Safe(t, managed)
  {
    hide Inv, FreeRange, FreePage, Range;
    var r := Range(pfn, n);
    forall p: nat | pfn <= p < pfn + n ensures !FreePage(s.blocks, p) { assert p in r; }
    FreeRangeKeepsInv(s.blocks, pfn, n);
    HeldShrinks(s.held, r, managed);
  }

  /** Whole-run safety: however allocations and frees follow each other, no page is ever in two free blocks, or
      free and held at once, none is lost, and `nr_free_pages` counts the free ones. */
  lemma {:induction false} RunsAreSafe(run: seq<State>, managed: set<nat>)
    requires |run| > 0 && Safe(run[0], managed)
    requires forall i :: 0 <= i < |run| - 1 ==> Step(run[i], run[i + 1])
    ensures Safe(run[|run| - 1], managed)
    decreases |run|
  {
    if |run| > 1 {
      var prefix := run[..|run| - 1];
      RunsAreSafe(prefix, managed);
      var s, t := prefix[|prefix| - 1], run[|run| - 1];
      assert Step(run[|run| - 2], run[|run| - 2 + 1]);
      if b, k :| AllocStep(s, t, b, k) {
        AllocIsSafe(s, t, managed, b, k);
      } else {
        var pfn, n :| FreeStep(s, t, pfn, n);
        FreeIsSafe(s, t, managed, pfn, n);
      }
    }
  }

  /** The free blocks depend only on which pages are held, not on how the allocator got there. */
  lemma HistoryDoesNotMatter(s: State, t: State, managed: set<nat>)
    requires Safe(s, managed) && Safe(t, managed) && s.held == t.held
    ensures s.blocks == t.blocks && s.nrFree == t.nrFree
  {
    Canonical(s.blocks, t.blocks);
  }
}
