/** The two lines of the buddy allocator that do not do what they were meant to, kept as they are: a block that
    leaves its list keeps its BUDDY flag, and the order of every request comes out as 0. Each is shown to fail on
    a concrete input, and exactly when it does no harm is proved. */
module BuddyAsWritten {
  import opened Machine
  import opened Powers
  import opened BuddyBlocks
  import opened BuddyTheorems
  import opened BuddyZone

  // ---------- Removal keeps the flag ----------

  /** The free blocks, for every page whose BUDDY flag is set the order stored in it, and `free_area[].count`. */
  datatype Written = Written(blocks: set<Block>, tags: map<nat, nat>, count: map<nat, int>)

  function Count(s: Written, k: nat): int { if k in s.count then s.count[k] else 0 }

  /** `del_page_from_free_list`: the list loses the block, the flag stays; a page that is on no list is linked to
      itself and its removal changes no list. */
  function Take(s: Written, b: Block): Written {
    Written(s.blocks - {b}, s.tags, s.count[b.order := Count(s, b.order) - 1])
  }

  function Put(s: Written, b: Block): Written {
    Written(s.blocks + {b}, s.tags[b.pfn := b.order], s.count[b.order := Count(s, b.order) + 1])
  }

  function ExpandWritten(s: Written, pfn: nat, from: nat, to: nat): Written
    decreases from
  {
    if from <= to then s else ExpandWritten(Put(s, Block(pfn + P2(from - 1), from - 1)), pfn, from - 1, to)
  }

  predicate Tagged(s: Written, p: nat, order: nat) { p in s.tags && s.tags[p] == order }

  /** `__buddy_page_free` as written. */
  function FreeWritten(s: Written, pfn: nat, order: nat): Written
    decreases TOP - order
  {
    var q := Buddy(pfn, order);
    if order < TOP && Tagged(s, q, order) then FreeWritten(Take(s, Block(q, order)), Lower(pfn, q), order + 1)
    else Put(s, Block(pfn, order))
  }

  /** The block that merging with free buddies ends in. */
  function Merged(blocks: set<Block>, pfn: nat, order: nat): Block
    decreases TOP - order
  {
    var q := Buddy(pfn, order);
    if order < TOP && Block(q, order) in blocks then Merged(blocks - {Block(q, order)}, Lower(pfn, q), order + 1)
    else Block(pfn, order)
  }

  /** The merge loop would go on to a buddy that is not free but still carries the flag and this order. */
  predicate MeetsStale(s: Written, pfn: nat, order: nat) {
    var m := Merged(s.blocks, pfn, order);
    m.order < TOP && Tagged(s, Buddy(m.pfn, m.order), m.order)
  }

  ghost predicate TagsCover(s: Written) { forall b :: b in s.blocks ==> Tagged(s, b.pfn, b.order) }

  lemma {:induction false} FreeWrittenAdds(s: Written, pfn: nat, order: nat)
    ensures forall b :: b in FreeWritten(s, pfn, order).blocks ==> b in s.blocks || b.order >= order
    decreases TOP - order
  {
    var q := Buddy(pfn, order);
    if order < TOP && Tagged(s, q, order) { FreeWrittenAdds(Take(s, Block(q, order)), Lower(pfn, q), order + 1); }
  }

  /** Freeing as written leaves the intended free blocks exactly when it meets no stale flag. */
  lemma {:induction false} FreeWrittenIff(s: Written, pfn: nat, order: nat)
    requires Inv(s.blocks) && TagsCover(s) && CanAdd(s.blocks, Block(pfn, order))
    ensures FreeWritten(s, pfn, order).blocks == FreeBlock(s.blocks, pfn, order) <==> !MeetsStale(s, pfn, order)
    decreases TOP - order
  {
    var q := Buddy(pfn, order);
    if order < TOP && Block(q, order) in s.blocks {
      MergeCanAdd(s.blocks, pfn, order);
      RemoveKeepsInv(s.blocks, Block(q, order));
      FreeWrittenIff(Take(s, Block(q, order)), Lower(pfn, q), order + 1);
    } else if order < TOP && Tagged(s, q, order) {
      assert InBlock(Block(pfn, order), pfn);
      assert Block(pfn, order) !in s.blocks;
      FreeWrittenAdds(Take(s, Block(q, order)), Lower(pfn, q), order + 1);
      assert Block(pfn, order) in FreeBlock(s.blocks, pfn, order);
    }
  }

  /** How far a count is from the length of its list. */
  function CountOf(blocks: set<Block>, k: nat): nat { |set b | b in blocks && b.order == k| }

  function Excess(s: Written, k: nat): int { Count(s, k) - CountOf(s.blocks, k) }

  ghost predicate Counted(s: Written) { forall k: nat :: Excess(s, k) == 0 }

  lemma CountAdds(blocks: set<Block>, b: Block, k: nat)
    ensures b !in blocks ==> CountOf(blocks + {b}, k) == CountOf(blocks, k) + if b.order == k then 1 else 0
    ensures b.order != k ==> CountOf(blocks + {b}, k) == CountOf(blocks, k)
  {
    var old', new' := set c | c in blocks && c.order == k, set c | c in blocks + {b} && c.order == k;
    assert new' == if b.order == k then old' + {b} else old';
  }

  lemma CountDrops(blocks: set<Block>, b: Block, k: nat)
    ensures CountOf(blocks - {b}, k) == CountOf(blocks, k) - if b in blocks && b.order == k then 1 else 0
  {
    var old', new' := set c | c in blocks && c.order == k, set c | c in blocks - {b} && c.order == k;
    assert new' == if b in blocks && b.order == k then old' - {b} else old';
  }

  lemma TakeExcess(s: Written, b: Block, k: nat)
    ensures Excess(Take(s, b), k) == Excess(s, k) - if b !in s.blocks && b.order == k then 1 else 0
  {
    CountDrops(s.blocks, b, k);
    hide CountOf;
  }

  lemma PutExcess(s: Written, b: Block, k: nat)
    ensures b !in s.blocks || b.order != k ==> Excess(Put(s, b), k) == Excess(s, k)
  {
    CountAdds(s.blocks, b, k);
    hide CountOf;
  }

  /** A free works on its own order and larger ones only. */
  lemma {:induction false} SmallerOrdersStay(s: Written, pfn: nat, order: nat, k: nat)
    requires k < order
    ensures Excess(FreeWritten(s, pfn, order), k) == Excess(s, k)
    decreases TOP - order
  {
    var q := Buddy(pfn, order);
    hide Excess, Buddy, Lower;
    if order < TOP && Tagged(s, q, order) {
      TakeExcess(s, Block(q, order), k);
      SmallerOrdersStay(Take(s, Block(q, order)), Lower(pfn, q), order + 1, k);
    } else {
      PutExcess(s, Block(pfn, order), k);
    }
  }

  /** Where the merge meets a stale flag, the count of that order falls one below the length of its list; elsewhere
      counts and lists stay together. */
  lemma {:induction false} ExcessAfterFree(s: Written, pfn: nat, order: nat, k: nat)
    requires Inv(s.blocks) && TagsCover(s) && CanAdd(s.blocks, Block(pfn, order))
    ensures MeetsStale(s, pfn, order) && k == Merged(s.blocks, pfn, order).order
            ==> Excess(FreeWritten(s, pfn, order), k) == Excess(s, k) - 1
    ensures !MeetsStale(s, pfn, order) ==> Excess(FreeWritten(s, pfn, order), k) == Excess(s, k)
    decreases TOP - order
  {
    var q := Buddy(pfn, order);
    if order < TOP && Block(q, order) in s.blocks {
      MergeCanAdd(s.blocks, pfn, order);
      RemoveKeepsInv(s.blocks, Block(q, order));
      TakeExcess(s, Block(q, order), k);
      hide Excess, Inv, CanAdd, Buddy, Lower;
      ExcessAfterFree(Take(s, Block(q, order)), Lower(pfn, q), order + 1, k);
    } else if order < TOP && Tagged(s, q, order) {
      TakeExcess(s, Block(q, order), k);
      hide Excess, Inv, CanAdd, Buddy, Lower;
      if k == order { SmallerOrdersStay(Take(s, Block(q, order)), Lower(pfn, q), order + 1, k); }
    } else {
      NotYetFree(s.blocks, Block(pfn, order));
      PutExcess(s, Block(pfn, order), k);
      hide Excess, Inv, CanAdd, Buddy, Lower;
    }
  }

  lemma NotYetFree(blocks: set<Block>, b: Block)
    requires CanAdd(blocks, b)
    ensures b !in blocks
  {
    assert InBlock(b, b.pfn);
  }

  /** Freeing as written leaves every count equal to the length of its list exactly when it meets no stale flag. */
  lemma CountsWrittenIff(s: Written, pfn: nat, order: nat)
    requires Inv(s.blocks) && TagsCover(s) && CanAdd(s.blocks, Block(pfn, order)) && Counted(s)
    ensures Counted(FreeWritten(s, pfn, order)) <==> !MeetsStale(s, pfn, order)
  {
    hide Inv, TagsCover, CanAdd, Excess, MeetsStale, Merged, FreeWritten;
    ExcessAfterFree(s, pfn, order, Merged(s.blocks, pfn, order).order);
    if !MeetsStale(s, pfn, order) {
      forall k: nat ensures Excess(FreeWritten(s, pfn, order), k) == 0 {
        ExcessAfterFree(s, pfn, order, k);
      }
    }
  }

  /** Two single-page allocations out of a two-page block, then the first is freed: its still allocated buddy is
      merged with it and is free again. */
  lemma StaleFlagFreesHeldPage()
    ensures var s0 := Written({Block(0, 1)}, map[0 := 1], map[1 := 1]);
            var s1 := ExpandWritten(Take(s0, Block(0, 1)), 0, 1, 0);
            var s2 := Take(s1, Block(1, 0));
            && Inv(s0.blocks) && TagsCover(s0)
            && s1.blocks == {Block(1, 0)} && s2.blocks == {}
            && MeetsStale(s2, 0, 0) && FreeWritten(s2, 0, 0).blocks == {Block(0, 1)}
            && FreePage(FreeWritten(s2, 0, 0).blocks, 1) && Count(FreeWritten(s2, 0, 0), 0) == -1
            && FreeBlock(s2.blocks, 0, 0) == {Block(0, 0)}
  {
    assert P2(0) == 1 && P2(1) == 2;
    assert Buddy(0, 0) == 1 && Buddy(0, 1) == 2;
    var s0 := Written({Block(0, 1)}, map[0 := 1], map[1 := 1]);
    var s1 := ExpandWritten(Take(s0, Block(0, 1)), 0, 1, 0);
    var s2 := Take(s1, Block(1, 0));
    assert s1 == Written({Block(1, 0)}, map[0 := 1, 1 := 0], map[0 := 1, 1 := 0]);
    assert s2 == Written({}, map[0 := 1, 1 := 0], map[0 := 0, 1 := 0]);
    assert FreeWritten(s2, 0, 0) == FreeWritten(Take(s2, Block(1, 0)), 0, 1) == Put(Take(s2, Block(1, 0)), Block(0, 1));
    assert InBlock(Block(0, 1), 1);
    assert Merged({}, 0, 0) == Block(0, 0);
  }

  // ---------- The order of a request ----------

  /** A loop that shifts while a bit of `mask` is set. */
  method ShiftWhile(nr: bv64, mask: bv64) returns (shifts: nat)
    ensures mask == 0 ==> shifts == 0
  {
    shifts := 0;
    var sz := nr;
    while sz & mask != 0
      invariant mask == 0 ==> shifts == 0
      decreases sz
    {
      ShiftShrinks(sz, mask);
      sz := sz >> 1;
      shifts := shifts + 1;
    }
  }

  lemma ShiftShrinks(sz: bv64, mask: bv64)
    ensures sz & mask != 0 ==> sz >> 1 < sz && mask != 0
  {
  }

  /** The order loop as written: `==` binds tighter than `&`, so the mask of `sz&1 == 0` is `1 == 0`, which is 0. */
  method OrderWritten(nr: bv64) returns (order: nat)
    ensures order == 0
  {
    order := ShiftWhile(nr, if 1 == 0 then 1 else 0);
  }

  /** `buddy_page_alloc` with that loop: one page, whatever was asked for, and books that balance for one page only. */
  method PageAllocWritten(z: Zone, nr: nat) returns (r: Option<nat>, ghost found: Block)
    requires z.Valid() && nr < W64
    modifies z`nrFree, z`count, z`pages, z`blocks, z.lists
    ensures z.Linked() && (z.Valid() <==> r == None || nr == 1)
    ensures r == None ==> z.blocks == old(z.blocks) && z.blocks == {}
    ensures r.Some? ==>
              && found in old(z.blocks) && found.pfn == r.value
              && (forall c :: c in old(z.blocks) ==> found.order <= c.order)
              && z.blocks == Expand(old(z.blocks) - {found}, found.pfn, found.order, 0)
              && z.nrFree == old(z.nrFree) - nr
  {
    hide GoodZone, Inv, Weight, Expand;
    var order := OrderWritten(nr as bv64);
    r, found := z.TakeBlock(order, nr);
  }

  /** As written, a request hands out the pages asked for exactly when it asks for one. */
  lemma OrderWrittenIff(s: State, t: State, managed: set<nat>, b: Block, nr: nat)
    requires Safe(s, managed) && RequestStep(s, t, b, 0, nr) && nr > 0
    ensures HandedOut(s, t, managed, b.pfn, nr) <==> nr == 1
    ensures Safe(t, managed) <==> nr == 1
  {
    HandedOutIff(s, t, managed, b, 0, nr);
  }

  /** With the order repaired, a request hands out the pages asked for exactly when their number is a power of two:
      for others line 63 only logs. */
  lemma OrderRepairedIff(s: State, t: State, managed: set<nat>, b: Block, nr: nat)
    requires nr > 0 && Safe(s, managed) && RequestStep(s, t, b, TrailingZeros(nr), nr)
    ensures HandedOut(s, t, managed, b.pfn, nr) <==> exists k :: nr == P2(k)
    ensures Safe(t, managed) <==> exists k :: nr == P2(k)
  {
    TrailingZerosDivide(nr);
    HandedOutIff(s, t, managed, b, TrailingZeros(nr), nr);
    if k :| nr == P2(k) { TrailingZerosOfPower(k); }
  }

  /** Three pages out of a free block of four, as a `kmalloc` of 8193 to 12288 bytes asks for them: one page is taken,
      with the order as written and with the repaired one, and the other two of the three are still free. */
  lemma ThreePagesStayFree()
    ensures var s := State({Block(0, 2)}, {}, 4);
            var t := State({Block(1, 0), Block(2, 1)}, {0}, 1);
            && Safe(s, {0, 1, 2, 3}) && TrailingZeros(3) == 0 && RequestStep(s, t, Block(0, 2), 0, 3)
            && FreePage(t.blocks, 1) && FreePage(t.blocks, 2)
            && !HandedOut(s, t, {0, 1, 2, 3}, 0, 3) && !Safe(t, {0, 1, 2, 3})
  {
    var s, t, managed: set<nat> := State({Block(0, 2)}, {}, 4), State({Block(1, 0), Block(2, 1)}, {0}, 1), {0, 1, 2, 3};
    assert P2(0) == 1 && P2(1) == 2 && P2(2) == 4;
    OneBlockIsSafe();
    assert RequestStep(s, t, Block(0, 2), 0, 3) by {
      assert Expand({}, 0, 2, 0) == Expand({Block(2, 1)}, 0, 1, 0) == Expand({Block(2, 1), Block(1, 0)}, 0, 0, 0);
      assert s.blocks - {Block(0, 2)} == {} && Range(0, 1) == {0};
    }
    assert InBlock(Block(1, 0), 1) && InBlock(Block(2, 1), 2);
    hide Safe, RequestStep, HandedOut;
    OrderWrittenIff(s, t, managed, Block(0, 2), 3);
  }

  lemma OneBlockIsSafe()
    ensures Safe(State({Block(0, 2)}, {}, 4), {0, 1, 2, 3})
  {
    var s, managed: set<nat> := State({Block(0, 2)}, {}, 4), {0, 1, 2, 3};
    assert P2(0) == 1 && P2(1) == 2 && P2(2) == 4;
    forall p: nat ensures FreePage(s.blocks, p) <==> p in managed {
      if p in managed { assert InBlock(Block(0, 2), p); }
    }
    assert managed - s.held == managed;
  }
}
