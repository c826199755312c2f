/** Sets of free buddy blocks: the invariant every allocator operation keeps, and the theorem that the free pages
    determine the blocks. */
module BuddyBlocks {
  import opened Powers

  const MAX_ORDER: nat := 11
  const TOP: nat := MAX_ORDER - 1

  /** The 2^order pages from `pfn` on. */
  datatype Block = Block(pfn: nat, order: nat)

  predicate InBlock(b: Block, p: nat) { b.pfn <= p < b.pfn + P2(b.order) }

  predicate AlignedBlock(b: Block) { b.order <= TOP && Multiple(b.pfn, b.order) }

  /** `pfn ^ (1 << order)`: bit `order` of the page number flips. */
  function Buddy(pfn: nat, order: nat): (b: nat)
  {
    if pfn / P2(order) % 2 == 0 then pfn + P2(order) else pfn - P2(order)
  }

  ghost predicate FreePage(blocks: set<Block>, p: nat) { exists b :: b in blocks && InBlock(b, p) }

  /** Free blocks are aligned and disjoint, and no two free buddies wait to be merged. */
  ghost predicate Inv(blocks: set<Block>) {
    && (forall b :: b in blocks ==> AlignedBlock(b))
    && (forall b, c, p: nat :: b in blocks && c in blocks && InBlock(b, p) && InBlock(c, p) ==> b == c)
    && (forall b :: b in blocks && b.order < TOP ==> Block(Buddy(b.pfn, b.order), b.order) !in blocks)
  }

  lemma BuddyFacts(p: nat, k: nat)
    requires Multiple(p, k)
    ensures var q := Buddy(p, k);
            && Multiple(q, k) && Buddy(q, k) == p && q != p
            && Multiple(if p < q then p else q, k + 1)
            && (q == p + P2(k) || p == q + P2(k))
  {
    if p / P2(k) % 2 == 0 { EvenMultiple(p, k); } else { OddMultiple(p, k); MultipleHalves(p - P2(k), k); }
  }

  /** Aligned blocks that share a page are nested. */
  lemma Nested(b: Block, c: Block, p: nat)
    requires AlignedBlock(b) && AlignedBlock(c) && b.order <= c.order && InBlock(b, p) && InBlock(c, p)
    ensures c.pfn <= b.pfn && b.pfn + P2(b.order) <= c.pfn + P2(c.order)
    ensures b.order == c.order ==> b == c
  {
    MultipleFiner(c.pfn, b.order, c.order);
    PowerIsMultiple(b.order, c.order);
    MultiplesAdd(c.pfn, P2(c.order), b.order);
    if b.pfn < c.pfn { MultiplesApart(b.pfn, c.pfn, b.order); }
    MultiplesApart(b.pfn, c.pfn + P2(c.order), b.order);
  }

  // ---------- The free pages determine the blocks ----------

  ghost predicate AllFree(blocks: set<Block>, b: Block) {
    forall p: nat :: InBlock(b, p) ==> FreePage(blocks, p)
  }

  /** Some free block properly contains `b`. */
  ghost predicate Inside(blocks: set<Block>, b: Block) {
    exists c :: c in blocks && c.order > b.order && c.pfn <= b.pfn && b.pfn + P2(b.order) <= c.pfn + P2(c.order)
  }

  /** A wholly free aligned block that is not part of a larger free block is itself a free block. */
  lemma {:induction false} WholeBlock(blocks: set<Block>, b: Block)
    requires Inv(blocks) && AlignedBlock(b) && AllFree(blocks, b) && !Inside(blocks, b)
    ensures b in blocks
    decreases b.order
  {
    assert InBlock(b, b.pfn);
    var c :| c in blocks && InBlock(c, b.pfn);
    if c.order >= b.order {
      Nested(b, c, b.pfn);
    } else if b !in blocks {
      var k := b.order - 1;
      var h0, h1 := Block(b.pfn, k), Block(b.pfn + P2(k), k);
      MultipleHalves(b.pfn, k);
      assert h1 == Block(Buddy(h0.pfn, k), k);
      HalfIsWhole(blocks, b, h0);
      HalfIsWhole(blocks, b, h1);
      WholeBlock(blocks, h0);
      WholeBlock(blocks, h1);
    }
  }

  lemma HalfIsWhole(blocks: set<Block>, b: Block, h: Block)
    requires Inv(blocks) && AlignedBlock(b) && AllFree(blocks, b) && !Inside(blocks, b) && b !in blocks
    requires AlignedBlock(h) && h.order + 1 == b.order && b.pfn <= h.pfn && h.pfn + P2(h.order) <= b.pfn + P2(b.order)
    ensures AllFree(blocks, h) && !Inside(blocks, h)
  {
    if Inside(blocks, h) {
      var c :| c in blocks && c.order > h.order && c.pfn <= h.pfn && h.pfn + P2(h.order) <= c.pfn + P2(c.order);
      Nested(b, c, h.pfn);
    }
    forall p: nat | InBlock(h, p) ensures FreePage(blocks, p) { assert InBlock(b, p); }
  }

  /** A free block lies inside no other free block. */
  lemma FreeBlockIsMaximal(blocks: set<Block>, b: Block)
    requires Inv(blocks) && b in blocks
    ensures !Inside(blocks, b)
  {
    assert InBlock(b, b.pfn);
    forall c | c in blocks ensures InBlock(c, b.pfn) ==> c == b {}
  }

  ghost predicate SamePages(s: set<Block>, t: set<Block>) {
    forall p: nat :: FreePage(s, p) <==> FreePage(t, p)
  }

  lemma BlocksIncluded(s: set<Block>, t: set<Block>, b: Block)
    requires Inv(s) && Inv(t) && SamePages(s, t) && b in s
    ensures b in t
  {
    if Inside(t, b) {
      var c :| c in t && c.order > b.order && c.pfn <= b.pfn && b.pfn + P2(b.order) <= c.pfn + P2(c.order);
      FreeBlockIsMaximal(t, c);
      if Inside(s, c) {
        var d :| d in s && d.order > c.order && d.pfn <= c.pfn && c.pfn + P2(c.order) <= d.pfn + P2(d.order);
        FreeBlockIsMaximal(s, b);
        assert false;
      }
      forall p: nat | InBlock(c, p) ensures FreePage(s, p) { assert FreePage(t, p); }
      WholeBlock(s, c);
      FreeBlockIsMaximal(s, b);
      assert false;
    }
    forall p: nat | InBlock(b, p) ensures FreePage(t, p) { assert FreePage(s, p); }
    WholeBlock(t, b);
  }

  /** Canonical form: block sets with the invariant and the same free pages are equal. */
  lemma Canonical(s: set<Block>, t: set<Block>)
    requires Inv(s) && Inv(t) && SamePages(s, t)
    ensures s == t
  {
    forall b | b in s ensures b in t { BlocksIncluded(s, t, b); }
    forall b | b in t ensures b in s { BlocksIncluded(t, s, b); }
  }

  // ---------- Allocation: split the found block ----------

  /** The blocks put back when the block at `pfn` of order `from` is split down to order `to`. */
  function Expand(blocks: set<Block>, pfn: nat, from: nat, to: nat): set<Block>
    decreases from
  {
    if from <= to then blocks
    else Expand(blocks + {Block(pfn + P2(from - 1), from - 1)}, pfn, from - 1, to)
  }

  /** `b` can be added as a free block that is not merged: it is aligned, disjoint and its buddy is not free. */
  ghost predicate CanAdd(blocks: set<Block>, b: Block) {
    && AlignedBlock(b)
    && (forall p: nat :: InBlock(b, p) ==> !FreePage(blocks, p))
  }

  lemma AddKeepsInv(blocks: set<Block>, b: Block)
    requires Inv(blocks) && CanAdd(blocks, b)
    requires b.order < TOP ==> Block(Buddy(b.pfn, b.order), b.order) !in blocks
    ensures Inv(blocks + {b})
    ensures forall p: nat :: FreePage(blocks + {b}, p) <==> FreePage(blocks, p) || InBlock(b, p)
  {
    var s := blocks + {b};
    forall c, p: nat | c in blocks && InBlock(c, p) ensures !InBlock(b, p) { assert FreePage(blocks, p); }
    forall c | c in s && c.order < TOP ensures Block(Buddy(c.pfn, c.order), c.order) !in s {
      BuddyFacts(c.pfn, c.order);
    }
    forall p: nat ensures FreePage(s, p) <==> FreePage(blocks, p) || InBlock(b, p) {
      if InBlock(b, p) { assert b in s; }
      if FreePage(blocks, p) { var c :| c in blocks && InBlock(c, p); assert c in s; }
    }
  }

  lemma RemoveKeepsInv(blocks: set<Block>, b: Block)
    requires Inv(blocks) && b in blocks
    ensures Inv(blocks - {b})
    ensures forall p: nat :: FreePage(blocks - {b}, p) <==> FreePage(blocks, p) && !InBlock(b, p)
  {
    var s := blocks - {b};
    forall p: nat ensures FreePage(s, p) <==> FreePage(blocks, p) && !InBlock(b, p) {
      if FreePage(blocks, p) && !InBlock(b, p) { var c :| c in blocks && InBlock(c, p); assert c in s; }
    }
  }

  /** A block just taken off its list can be put back in parts. */
  lemma FoundCanAdd(blocks: set<Block>, b: Block)
    requires Inv(blocks) && b in blocks
    ensures CanAdd(blocks - {b}, b)
  {
    RemoveKeepsInv(blocks, b);
  }

  /** The upper half of a block being split can go on its free list. */
  lemma ExpandStep(blocks: set<Block>, pfn: nat, from: nat)
    requires Inv(blocks) && CanAdd(blocks, Block(pfn, from)) && from > 0
    ensures var k := from - 1;
            var h := Block(pfn + P2(k), k);
            CanAdd(blocks, h) && Block(Buddy(h.pfn, k), k) !in blocks && CanAdd(blocks + {h}, Block(pfn, k))
  {
    var k := from - 1;
    var h := Block(pfn + P2(k), k);
    MultipleHalves(pfn, k);
    forall p: nat | InBlock(h, p) ensures !FreePage(blocks, p) { assert InBlock(Block(pfn, from), p); }
    BuddyFacts(h.pfn, k);
    assert Buddy(pfn, k) == h.pfn;
    BuddyFacts(pfn, k);
    assert InBlock(Block(pfn, from), pfn);
    if Block(pfn, k) in blocks { assert InBlock(Block(pfn, k), pfn); }
    forall p: nat | InBlock(Block(pfn, k), p) ensures !FreePage(blocks + {h}, p) {
      assert InBlock(Block(pfn, from), p);
    }
  }

  /** Splitting a block out of the free lists down to order `to` frees all of it but its first 2^to pages. */
  lemma {:induction false} ExpandKeepsInv(blocks: set<Block>, pfn: nat, from: nat, to: nat)
    requires Inv(blocks) && CanAdd(blocks, Block(pfn, from)) && to <= from
    ensures Inv(Expand(blocks, pfn, from, to))
    ensures forall p: nat :: FreePage(Expand(blocks, pfn, from, to), p)
                             <==> FreePage(blocks, p) || (InBlock(Block(pfn, from), p) && !InBlock(Block(pfn, to), p))
    decreases from
  {
    if from > to {
      var k := from - 1;
      var h := Block(pfn + P2(k), k);
      ExpandStep(blocks, pfn, from);
      AddKeepsInv(blocks, h);
      PowerIsMultiple(to, k);
      ExpandKeepsInv(blocks + {h}, pfn, k, to);
    }
  }

  // ---------- Freeing: climb while the buddy is free ----------

  function Lower(p: nat, q: nat): nat { if p < q then p else q }

  /** `__buddy_page_free` on the block set. */
  function FreeBlock(blocks: set<Block>, pfn: nat, order: nat): set<Block>
    decreases TOP - order
  {
    var buddy := Block(Buddy(pfn, order), order);
    if order < TOP && buddy in blocks then FreeBlock(blocks - {buddy}, Lower(pfn, buddy.pfn), order + 1)
    else blocks + {Block(pfn, order)}
  }

  /** A block merged with its free buddy can be added once the buddy is off its list. */
  lemma MergeCanAdd(blocks: set<Block>, p: nat, k: nat)
    requires Inv(blocks) && CanAdd(blocks, Block(p, k)) && k < TOP && Block(Buddy(p, k), k) in blocks
    ensures CanAdd(blocks - {Block(Buddy(p, k), k)}, Block(Lower(p, Buddy(p, k)), k + 1))
    ensures forall x: nat :: InBlock(Block(Lower(p, Buddy(p, k)), k + 1), x)
                             <==> InBlock(Block(p, k), x) || InBlock(Block(Buddy(p, k), k), x)
  {
    BuddyFacts(p, k);
    RemoveKeepsInv(blocks, Block(Buddy(p, k), k));
  }

  /** Freeing a block adds its pages and keeps the invariant. */
  lemma {:induction false} FreeBlockKeepsInv(blocks: set<Block>, pfn: nat, order: nat)
    requires Inv(blocks) && CanAdd(blocks, Block(pfn, order))
    ensures Inv(FreeBlock(blocks, pfn, order))
    ensures forall p: nat :: FreePage(FreeBlock(blocks, pfn, order), p)
                             <==> FreePage(blocks, p) || InBlock(Block(pfn, order), p)
    decreases TOP - order
  {
    var buddy := Block(Buddy(pfn, order), order);
    BuddyFacts(pfn, order);
    if order < TOP && buddy in blocks {
      MergeCanAdd(blocks, pfn, order);
      RemoveKeepsInv(blocks, buddy);
      FreeBlockKeepsInv(blocks - {buddy}, Lower(pfn, buddy.pfn), order + 1);
    } else {
      AddKeepsInv(blocks, Block(pfn, order));
    }
  }
}
