/** The buddy allocator over page structures and intrusive free lists that are updated in place. Two lines are
    modelled as they were meant: removing a block clears its BUDDY flag, and the order of a request is log2 of
    its size; module BuddyAsWritten says what the lines as written do. */
module BuddyZone {
  import opened Machine
  import opened Division
  import opened Powers
  import opened BuddyBlocks
  import opened BuddyTheorems
  import opened Rings

  const PAGE_FLAG_BUDDY: bv32 := 1

  /** The fields of `struct page` the allocator uses. */
  datatype Page = Page(flag: bv32, order: nat)

  predicate Flagged(p: Page) { p.flag & PAGE_FLAG_BUDDY != 0 }

  /** The list head of `free_area[order]`. */
  function Head(order: nat): Node { -1 - order }

  /** The pages covered by `count[k]` blocks of each order k. */
  function Weight(count: seq<int>): int {
    if count == [] then 0 else Weight(count[..|count| - 1]) + count[|count| - 1] * P2(|count| - 1)
  }

  lemma {:induction false} WeightUpdate(count: seq<int>, k: nat, v: int)
    requires k < |count|
    ensures Weight(count[k := v]) == Weight(count) + (v - count[k]) * P2(k)
  {
    var n := |count| - 1;
    if k == n {
      assert count[k := v][..n] == count[..n];
    } else {
      WeightUpdate(count[..n], k, v);
      assert count[k := v][..n] == count[..n][k := v];
    }
  }

  /** The free lists and their counts describe the free blocks. */
  ghost predicate ListsAgree(rings: Lists, count: seq<int>, blocks: set<Block>) {
    && |count| == MAX_ORDER
    && (forall k :: 0 <= k < MAX_ORDER ==> Head(k) in rings && count[k] == |rings[Head(k)]|)
    && (forall k: nat, p: Node :: 0 <= k < MAX_ORDER && p in rings[Head(k)] ==> p >= 0 && Block(p, k) in blocks)
    && (forall h :: h in rings ==> -(MAX_ORDER as int) <= h < 0)
    && (forall b :: b in blocks ==> b.order < MAX_ORDER && (b.pfn as int) in rings[Head(b.order)])
  }

  /** The page structures describe the free blocks, all of which lie in the zone. */
  ghost predicate PagesAgree(pages: map<nat, Page>, blocks: set<Block>, lo: nat, hi: nat) {
    && (forall b :: b in blocks ==> lo <= b.pfn && b.pfn + P2(b.order) <= hi)
    && Covered(pages, lo, hi)
    && (forall b :: b in blocks ==> Flagged(pages[b.pfn]) && pages[b.pfn].order == b.order)
    && (forall p :: p in pages && Flagged(pages[p]) ==> Block(p, pages[p].order) in blocks)
  }

  ghost predicate Consistent(rings: Lists, count: seq<int>, pages: map<nat, Page>, blocks: set<Block>, lo: nat,
      hi: nat) {
    ListsAgree(rings, count, blocks) && PagesAgree(pages, blocks, lo, hi)
  }

  // ---------- The zone bounds ----------

  /** The page structure that the merge loop reads for a block of the zone is one of the zone's. */
  ghost predicate BuddiesInside(lo: nat, hi: nat) {
    forall b :: AlignedBlock(b) && b.order < TOP && lo <= b.pfn && b.pfn + P2(b.order) <= hi ==>
      lo <= Buddy(b.pfn, b.order) < hi
  }

  lemma BuddyInside(lo: nat, hi: nat, b: Block)
    requires Multiple(lo, TOP) && Multiple(hi, TOP) && AlignedBlock(b) && b.order < TOP
    requires lo <= b.pfn && b.pfn + P2(b.order) <= hi
    ensures lo <= Buddy(b.pfn, b.order) && Buddy(b.pfn, b.order) + P2(b.order) <= hi
  {
    var k := b.order;
    BuddyFacts(b.pfn, k);
    var m := Lower(b.pfn, Buddy(b.pfn, k));
    MultipleFiner(lo, k + 1, TOP);
    MultipleFiner(hi, k + 1, TOP);
    if m < lo { MultiplesApart(m, lo, k + 1); }
    MultiplesApart(m, hi, k + 1);
  }

  /** Every buddy lookup of the merge loop stays inside the zone exactly when the zone is a whole number of
      largest blocks. */
  lemma BuddiesInsideIff(lo: nat, hi: nat)
    requires lo < hi
    ensures BuddiesInside(lo, hi) <==> Multiple(lo, TOP) && Multiple(hi, TOP)
  {
    if BuddiesInside(lo, hi) {
      ClosedZoneAligned(lo, hi, TOP);
    }
    if Multiple(lo, TOP) && Multiple(hi, TOP) {
      forall b | AlignedBlock(b) && b.order < TOP && lo <= b.pfn && b.pfn + P2(b.order) <= hi
        ensures lo <= Buddy(b.pfn, b.order) < hi
      {
        BuddyInside(lo, hi, b);
      }
    }
  }

  /** In a zone of three pages the last one has a buddy beyond the end. */
  lemma OddZoneLooksOutside()
    ensures AlignedBlock(Block(2, 0)) && Buddy(2, 0) == 3 && !BuddiesInside(0, 3)
  {
    assert P2(0) == 1 && P2(1) == 2;
  }

  /** The pages of a largest block. */
  const LARGEST: nat := 0x400

  function BlockDown(x: nat): nat { x / LARGEST * LARGEST }

  function BlockUp(x: nat): nat { BlockDown(x + LARGEST - 1) }

  /** There is a page structure for every page of the largest blocks that the zone touches. */
  ghost predicate Covered(pages: map<nat, Page>, lo: nat, hi: nat) {
    forall p: nat :: BlockDown(lo) <= p < BlockUp(hi) ==> p in pages
  }

  lemma RoundedZone(lo: nat, hi: nat)
    ensures Multiple(BlockDown(lo), TOP) && Multiple(BlockUp(hi), TOP) && BlockDown(lo) <= lo && hi <= BlockUp(hi)
  {
    LargestIsTop();
  }

  lemma LargestIsTop()
    ensures P2(TOP) == LARGEST
  {
    assert P2(2) == 4 && P2(4) == 16 && P2(6) == 64 && P2(8) == 256;
  }

  /** Every buddy lookup stays inside the rounded zone. */
  lemma BuddyCovered(pages: map<nat, Page>, lo: nat, hi: nat, b: Block)
    requires Covered(pages, lo, hi) && AlignedBlock(b) && b.order < TOP && lo <= b.pfn && b.pfn + P2(b.order) <= hi
    ensures Buddy(b.pfn, b.order) in pages
  {
    RoundedZone(lo, hi);
    BuddyInside(BlockDown(lo), BlockUp(hi), b);
    hide BlockDown, BlockUp;
  }

  lemma {:induction false} ClosedZoneAligned(lo: nat, hi: nat, k: nat)
    requires lo < hi && BuddiesInside(lo, hi) && k <= TOP
    ensures Multiple(lo, k) && Multiple(hi, k)
  {
    if k > 0 {
      var j := k - 1;
      ClosedZoneAligned(lo, hi, j);
      MultiplesApart(lo, hi, j);
      LastBlock(hi, j);
      var first, last := Block(lo, j), Block(hi - P2(j), j);
      assert AlignedBlock(first) && AlignedBlock(last);
      BuddyFacts(first.pfn, j);
      BuddyFacts(last.pfn, j);
      assert Lower(last.pfn, Buddy(last.pfn, j)) + P2(k) == hi;
      PowerIsMultiple(k, k);
      MultiplesAdd(hi - P2(k), P2(k), k);
    }
  }

  lemma LastBlock(hi: nat, j: nat)
    requires Multiple(hi, j) && P2(j) <= hi
    ensures Multiple(hi - P2(j), j)
  {
    LessOne(hi, P2(j), hi / P2(j));
  }

  lemma LessOne(x: nat, u: nat, q: nat)
    requires 0 < u <= x && x == u * q
    ensures (x - u) % u == 0
  {
    assert q >= 1 && x - u == u * (q - 1);
    RemainderIs(x - u, u, q - 1, 0);
  }

  // ---------- One block leaves or enters the free lists ----------

  lemma FlagBits(f: bv32)
    ensures (f & !PAGE_FLAG_BUDDY) & PAGE_FLAG_BUDDY == 0
    ensures (f | PAGE_FLAG_BUDDY) & PAGE_FLAG_BUDDY != 0
  {
  }

  function Cleared(p: Page): Page { Page(p.flag & !PAGE_FLAG_BUDDY, p.order) }

  function Marked(p: Page, order: nat): Page { Page(p.flag | PAGE_FLAG_BUDDY, order) }

  /** `n` has left the list of `h`, the others keep their order, and other lists are as they were. */
  ghost predicate Dropped(r: Lists, r': Lists, h: Node, n: Node)
    requires h in r
  {
    exists i :: 0 <= i < |r[h]| && r[h][i] == n && r' == r[h := r[h][..i] + r[h][i + 1..]]
  }

  ghost predicate Distinct(s: seq<Node>) { forall i, j :: 0 <= i < j < |s| ==> s[i] != s[j] }

  lemma DelConsistent(rings: Lists, count: seq<int>, pages: map<nat, Page>, blocks: set<Block>, lo: nat, hi: nat,
      b: Block, i: nat)
    requires Consistent(rings, count, pages, blocks, lo, hi) && Inv(blocks) && b in blocks
    requires i < |rings[Head(b.order)]| && rings[Head(b.order)][i] == b.pfn && Distinct(rings[Head(b.order)])
    ensures var s := rings[Head(b.order)];
            Consistent(rings[Head(b.order) := s[..i] + s[i + 1..]], count[b.order := count[b.order] - 1],
                       pages[b.pfn := Cleared(pages[b.pfn])], blocks - {b}, lo, hi)
  {
    assert InBlock(b, b.pfn);
    forall c | c in blocks && c.pfn == b.pfn ensures c == b { assert InBlock(c, b.pfn); }
    hide Inv, Covered;
    DelLists(rings, count, blocks, b, i);
    DelPages(pages, blocks, lo, hi, b);
  }

  lemma DelLists(rings: Lists, count: seq<int>, blocks: set<Block>, b: Block, i: nat)
    requires ListsAgree(rings, count, blocks) && b in blocks
    requires i < |rings[Head(b.order)]| && rings[Head(b.order)][i] == b.pfn && Distinct(rings[Head(b.order)])
    ensures var s := rings[Head(b.order)];
            ListsAgree(rings[Head(b.order) := s[..i] + s[i + 1..]], count[b.order := count[b.order] - 1], blocks - {b})
  {
    var s := rings[Head(b.order)];
    var rest := s[..i] + s[i + 1..];
    forall p ensures p in rest <==> p in s && p != b.pfn {
      if p in s && p != b.pfn {
        var j :| 0 <= j < |s| && s[j] == p;
        assert p == if j < i then rest[j] else rest[j - 1];
      }
    }
  }

  lemma CoveredStays(pages: map<nat, Page>, lo: nat, hi: nat, p: nat, page: Page)
    requires Covered(pages, lo, hi)
    ensures Covered(pages[p := page], lo, hi)
  {
  }

  lemma DelPages(pages: map<nat, Page>, blocks: set<Block>, lo: nat, hi: nat, b: Block)
    requires PagesAgree(pages, blocks, lo, hi) && b in blocks && b.pfn in pages
    requires forall c :: c in blocks && c.pfn == b.pfn ==> c == b
    ensures PagesAgree(pages[b.pfn := Cleared(pages[b.pfn])], blocks - {b}, lo, hi)
  {
    FlagBits(pages[b.pfn].flag);
    CoveredStays(pages, lo, hi, b.pfn, Cleared(pages[b.pfn]));
    hide Covered;
  }

  lemma AddConsistent(rings: Lists, count: seq<int>, pages: map<nat, Page>, blocks: set<Block>, lo: nat, hi: nat,
      b: Block)
    requires Consistent(rings, count, pages, blocks, lo, hi) && CanAdd(blocks, b) && lo <= b.pfn
             && b.pfn + P2(b.order) <= hi
    ensures b.pfn in pages && IsLoose(rings, b.pfn)
    ensures Consistent(rings[Head(b.order) := rings[Head(b.order)] + [b.pfn]], count[b.order := count[b.order] + 1],
                       pages[b.pfn := Marked(pages[b.pfn], b.order)], blocks + {b}, lo, hi)
  {
    assert InBlock(b, b.pfn);
    forall c | c in blocks ensures c.pfn != b.pfn {
      assert InBlock(c, c.pfn);
      assert FreePage(blocks, c.pfn);
    }
    assert b.pfn in pages && b.order < MAX_ORDER;
    hide CanAdd, FreePage, InBlock;
    AddLists(rings, count, blocks, b);
    AddPages(pages, blocks, lo, hi, b);
  }

  lemma AddLists(rings: Lists, count: seq<int>, blocks: set<Block>, b: Block)
    requires ListsAgree(rings, count, blocks) && b.order < MAX_ORDER && forall c :: c in blocks ==> c.pfn != b.pfn
    ensures IsLoose(rings, b.pfn)
    ensures ListsAgree(rings[Head(b.order) := rings[Head(b.order)] + [b.pfn]],
            count[b.order := count[b.order] + 1], blocks + {b})
  {
    assert forall h :: h in rings ==> h == Head(-1 - h) && 0 <= -1 - h < MAX_ORDER;
  }

  lemma AddPages(pages: map<nat, Page>, blocks: set<Block>, lo: nat, hi: nat, b: Block)
    requires PagesAgree(pages, blocks, lo, hi) && b.pfn in pages && lo <= b.pfn && b.pfn + P2(b.order) <= hi
    requires forall c :: c in blocks ==> c.pfn != b.pfn
    ensures PagesAgree(pages[b.pfn := Marked(pages[b.pfn], b.order)], blocks + {b}, lo, hi)
  {
    FlagBits(pages[b.pfn].flag);
    CoveredStays(pages, lo, hi, b.pfn, Marked(pages[b.pfn], b.order));
    hide Covered;
  }

  /** The whole state of a zone fits together, up to the running total `nr_free_pages`. */
  ghost predicate GoodZone(next: Links, prev: Links, rings: Lists, count: seq<int>, pages: map<nat, Page>,
      blocks: set<Block>, lo: nat, hi: nat) {
    && AllRings(next, prev, rings) && Consistent(rings, count, pages, blocks, lo, hi) && Inv(blocks)
    && lo <= hi
  }

  lemma RingDistinct(next: Links, prev: Links, h: Node, nodes: seq<Node>)
    requires IsRing(next, prev, [h] + nodes)
    ensures Distinct(nodes)
  {
    assert forall j :: 0 <= j < |nodes| ==> ([h] + nodes)[j + 1] == nodes[j];
  }

  lemma ZoneHas(next: Links, prev: Links, rings: Lists, count: seq<int>, pages: map<nat, Page>, blocks: set<Block>,
      lo: nat, hi: nat, b: Block) returns (i: nat)
    requires GoodZone(next, prev, rings, count, pages, blocks, lo, hi) && b in blocks
    ensures AllRings(next, prev, rings)
    ensures b.order < MAX_ORDER && Head(b.order) in rings && |count| == MAX_ORDER && b.pfn in pages
    ensures i < |rings[Head(b.order)]| && rings[Head(b.order)][i] == b.pfn && Distinct(rings[Head(b.order)])
  {
    var h := Head(b.order);
    RingDistinct(next, prev, h, rings[h]);
    hide IsRing, Inv, Distinct, Covered;
    i :| 0 <= i < |rings[h]| && rings[h][i] == b.pfn;
  }

  /** The merge loop's test on the page structure is a test for a free block. */
  lemma PageIsBuddy(next: Links, prev: Links, rings: Lists, count: seq<int>, pages: map<nat, Page>,
      blocks: set<Block>, lo: nat, hi: nat, p: nat, k: nat)
    requires GoodZone(next, prev, rings, count, pages, blocks, lo, hi) && p in pages
    ensures (Flagged(pages[p]) && pages[p].order == k <==> Block(p, k) in blocks)
  {
  }

  /** Taking a block off its list, given list links that agree. */
  lemma DelGood(next: Links, prev: Links, rings: Lists, count: seq<int>, pages: map<nat, Page>, blocks: set<Block>,
      lo: nat, hi: nat,
                b: Block, i: nat, next': Links, prev': Links)
    requires GoodZone(next, prev, rings, count, pages, blocks, lo, hi) && b in blocks && b.order < |count|
             && b.pfn in pages
    requires Head(b.order) in rings && i < |rings[Head(b.order)]| && rings[Head(b.order)][i] == b.pfn
             && Distinct(rings[Head(b.order)])
    requires AllRings(next', prev', rings[Head(b.order) := rings[Head(b.order)][..i] + rings[Head(b.order)][i + 1..]])
    ensures GoodZone(next', prev', rings[Head(b.order) := rings[Head(b.order)][..i] + rings[Head(b.order)][i + 1..]],
                     count[b.order := count[b.order] - 1], pages[b.pfn := Cleared(pages[b.pfn])], blocks - {b}, lo, hi)
    ensures Weight(count[b.order := count[b.order] - 1]) == Weight(count) - P2(b.order)
  {
    hide Consistent, AllRings, Inv, Weight, Distinct, Cleared, FreePage;
    DelConsistent(rings, count, pages, blocks, lo, hi, b, i);
    RemoveKeepsInv(blocks, b);
    WeightUpdate(count, b.order, count[b.order] - 1);
  }

  /** A block that can be added: aligned, in the zone, none of it free, its buddy not free. */
  ghost predicate Addable(blocks: set<Block>, lo: nat, hi: nat, b: Block) {
    && CanAdd(blocks, b) && lo <= b.pfn && b.pfn + P2(b.order) <= hi
    && (b.order < TOP ==> Block(Buddy(b.pfn, b.order), b.order) !in blocks)
  }

  lemma ZoneTakes(next: Links, prev: Links, rings: Lists, count: seq<int>, pages: map<nat, Page>,
      blocks: set<Block>, lo: nat, hi: nat, b: Block)
    requires GoodZone(next, prev, rings, count, pages, blocks, lo, hi) && Addable(blocks, lo, hi, b)
    ensures AllRings(next, prev, rings) && b.order < |count| && b.pfn in pages && Head(b.order) in rings
            && IsLoose(rings, b.pfn)
  {
    AddConsistent(rings, count, pages, blocks, lo, hi, b);
  }

  lemma AddGood(next: Links, prev: Links, rings: Lists, count: seq<int>, pages: map<nat, Page>, blocks: set<Block>,
      lo: nat, hi: nat,
                b: Block, next': Links, prev': Links)
    requires GoodZone(next, prev, rings, count, pages, blocks, lo, hi) && Addable(blocks, lo, hi, b)
    requires b.order < |count| && b.pfn in pages && Head(b.order) in rings
    requires AllRings(next', prev', rings[Head(b.order) := rings[Head(b.order)] + [b.pfn]])
    ensures GoodZone(next', prev', rings[Head(b.order) := rings[Head(b.order)] + [b.pfn]],
                     count[b.order := count[b.order] + 1], pages[b.pfn := Marked(pages[b.pfn], b.order)],
                       blocks + {b}, lo, hi)
    ensures Weight(count[b.order := count[b.order] + 1]) == Weight(count) + P2(b.order)
  {
    hide Consistent, AllRings, Inv, Weight, CanAdd, Marked, FreePage, IsLoose;
    AddConsistent(rings, count, pages, blocks, lo, hi, b);
    AddKeepsInv(blocks, b);
    WeightUpdate(count, b.order, count[b.order] + 1);
  }

  lemma ZoneInv(next: Links, prev: Links, rings: Lists, count: seq<int>, pages: map<nat, Page>, blocks: set<Block>,
      lo: nat, hi: nat)
    requires GoodZone(next, prev, rings, count, pages, blocks, lo, hi)
    ensures Inv(blocks)
  {
  }

  /** An order with a count of 0 has no free block; otherwise the front of its list is one. */
  lemma ZoneSearch(next: Links, prev: Links, rings: Lists, count: seq<int>, pages: map<nat, Page>,
      blocks: set<Block>, lo: nat, hi: nat, k: nat)
    requires GoodZone(next, prev, rings, count, pages, blocks, lo, hi) && k < MAX_ORDER
    ensures |count| == MAX_ORDER && Head(k) in rings && AllRings(next, prev, rings) && Inv(blocks)
    ensures forall b :: b in blocks ==> b.order < MAX_ORDER
    ensures count[k] == 0 ==> forall b :: b in blocks ==> b.order != k
    ensures count[k] != 0 ==> rings[Head(k)] != [] && rings[Head(k)][0] >= 0
                              && Block(rings[Head(k)][0], k) in blocks
                              && lo <= rings[Head(k)][0] && rings[Head(k)][0] + P2(k) <= hi
  {
    if count[k] != 0 {
      var p := rings[Head(k)][0];
      assert p in rings[Head(k)];
      assert p >= 0 && Block(p, k) in blocks;
    }
  }

  /** At the merge test: the page structure read is the zone's, and it tells whether the buddy is free; if it is,
      the merged block can be added in place of its halves. */
  lemma ZoneMerge(next: Links, prev: Links, rings: Lists, count: seq<int>, pages: map<nat, Page>,
      blocks: set<Block>, lo: nat, hi: nat, p: nat, k: nat)
    requires GoodZone(next, prev, rings, count, pages, blocks, lo, hi) && CanAdd(blocks, Block(p, k)) && k < TOP
    requires lo <= p && p + P2(k) <= hi
    ensures var q := Buddy(p, k);
            && q in pages && (Flagged(pages[q]) && pages[q].order == k <==> Block(q, k) in blocks)
            && (Block(q, k) in blocks ==>
                  && CanAdd(blocks - {Block(q, k)}, Block(Lower(p, q), k + 1))
                  && lo <= Lower(p, q) && Lower(p, q) + P2(k + 1) <= hi)
  {
    var q := Buddy(p, k);
    BuddyCovered(pages, lo, hi, Block(p, k));
    BuddyFacts(p, k);
    PageIsBuddy(next, prev, rings, count, pages, blocks, lo, hi, q, k);
    if Block(q, k) in blocks { MergeCanAdd(blocks, p, k); }
  }

  lemma EmptyZone(next: Links, prev: Links, rings: Lists, count: seq<int>, pages: map<nat, Page>, lo: nat, hi: nat)
    requires AllRings(next, prev, rings) && |count| == MAX_ORDER && forall k :: 0 <= k < MAX_ORDER ==> count[k] == 0
    requires forall h :: h in rings <==> -(MAX_ORDER as int) <= h < 0
    requires forall h :: h in rings ==> rings[h] == []
    requires Covered(pages, lo, hi) && lo <= hi && forall p :: p in pages ==> !Flagged(pages[p])
    ensures GoodZone(next, prev, rings, count, pages, {}, lo, hi)
  {
    hide AllRings, Covered, Flagged;
  }

  class Zone {
    const lists: ListMemory
    var pfnBase: nat
    var nrPages: nat
    var nrFree: int
    var count: seq<int>
    /** `mem_map`, by page frame number. */
    var pages: map<nat, Page>
    ghost var blocks: set<Block>

    ghost predicate Linked()
      reads this`pfnBase, this`nrPages, this`count, this`pages, this`blocks, lists
    {
      GoodZone(lists.next, lists.prev, lists.rings, count, pages, blocks, pfnBase, pfnBase + nrPages)
    }

    /** Between calls: the structures agree and `nr_free_pages` is the sum of count[k] * 2^k. */
    ghost predicate Valid()
      reads this, lists
    {
      Linked() && nrFree == Weight(count)
    }

    /** `buddy_init_zone`, over page structures whose BUDDY flags are clear. */
    constructor (pfnStart: nat, nr: nat, memMap: map<nat, Page>)
      requires Covered(memMap, pfnStart, pfnStart + nr)
      requires forall p :: p in memMap ==> !Flagged(memMap[p])
      ensures Valid() && fresh(lists) && blocks == {} && nrFree == 0
      ensures pfnBase == pfnStart && nrPages == nr && pages == memMap
    {
      lists := new ListMemory();
      pfnBase, nrPages, nrFree, pages := pfnStart, nr, 0, memMap;
      count := [];
      blocks := {};
      new;
      hide GoodZone, Covered, AllRings, IsLoose;
      for order := 0 to MAX_ORDER
        invariant fresh(lists) && lists.Valid() && |count| == order && Weight(count) == 0
        invariant pfnBase == pfnStart && nrPages == nr && nrFree == 0 && pages == memMap && blocks == {}
        invariant forall k :: 0 <= k < order ==> count[k] == 0
        invariant forall h :: h in lists.rings <==> -(order as int) <= h < 0
        invariant forall h :: h in lists.rings ==> lists.rings[h] == []
      {
        assert count == (count + [0])[..|count + [0]| - 1];
        count := count + [0];
        lists.InitHead(Head(order));
      }
      EmptyZone(lists.next, lists.prev, lists.rings, count, pages, pfnBase, pfnBase + nrPages);
    }

    /** `del_page_from_free_list`, clearing the BUDDY flag. */
    method DelPage(p: nat, order: nat)
      requires Linked() && Block(p, order) in blocks
      modifies this`count, this`pages, this`blocks, lists
      ensures Linked() && blocks == old(blocks) - {Block(p, order)}
      ensures Head(order) in old(lists.rings) && Dropped(old(lists.rings), lists.rings, Head(order), p)
      ensures Weight(count) == old(Weight(count)) - P2(order)
    {
      hide GoodZone, Consistent, AllRings, Inv, Distinct, IsLoose, Weight, P2, Cleared;
      ghost var b, hi, next0, prev0, r0 := Block(p, order), pfnBase + nrPages, lists.next, lists.prev, lists.rings;
      ghost var i := ZoneHas(next0, prev0, r0, count, pages, blocks, pfnBase, hi, b);
      lists.Remove(p, Head(order), i);
      DelGood(next0, prev0, r0, count, pages, blocks, pfnBase, hi, b, i, lists.next, lists.prev);
      count := count[order := count[order] - 1];
      pages := pages[p := Cleared(pages[p])];
      blocks := blocks - {b};
    }

    /** `add_page_to_free_list` and `set_buddy_order`, which every caller pairs. */
    method AddPage(p: nat, order: nat)
      requires Linked() && Addable(blocks, pfnBase, pfnBase + nrPages, Block(p, order))
      modifies this`count, this`pages, this`blocks, lists
      ensures Linked() && blocks == old(blocks) + {Block(p, order)}
      ensures Head(order) in old(lists.rings)
      ensures lists.rings == old(lists.rings)[Head(order) := old(lists.rings)[Head(order)] + [p as int]]
      ensures Weight(count) == old(Weight(count)) + P2(order)
    {
      hide GoodZone, Consistent, AllRings, Inv, Addable, IsLoose, Weight, P2, Marked;
      ghost var b, hi, next0, prev0, r0 := Block(p, order), pfnBase + nrPages, lists.next, lists.prev, lists.rings;
      ZoneTakes(next0, prev0, r0, count, pages, blocks, pfnBase, hi, b);
      lists.InitNode(p);
      lists.AddLast(p, Head(order));
      AddGood(next0, prev0, r0, count, pages, blocks, pfnBase, hi, b, lists.next, lists.prev);
      count := count[order := count[order] + 1];
      pages := pages[p := Marked(pages[p], order)];
      blocks := blocks + {b};
    }

    /** `expand_buddy`: puts back the upper halves of the block at `p` until it has order `target`. */
    method ExpandBuddy(p: nat, origin: nat, target: nat)
      requires Linked() && target <= origin && CanAdd(blocks, Block(p, origin))
      requires pfnBase <= p && p + P2(origin) <= pfnBase + nrPages
      modifies this`count, this`pages, this`blocks, lists
      ensures Linked() && blocks == Expand(old(blocks), p, origin, target)
      ensures Weight(count) == old(Weight(count)) + P2(origin) - P2(target)
    {
      hide Linked, Inv, CanAdd, Weight, Addable;
      var order, offset := origin, P2(origin);
      while order > target
        invariant Linked() && target <= order <= origin && offset == P2(order) && CanAdd(blocks, Block(p, order))
        invariant p + P2(order) <= pfnBase + nrPages
        invariant Expand(blocks, p, order, target) == Expand(old(blocks), p, origin, target)
        invariant Weight(count) == old(Weight(count)) + P2(origin) - P2(order)
      {
        InvHere();
        ExpandStep(blocks, p, order);
        order := order - 1;
        offset := offset / 2;
        AddsHere(p + offset, order);
        AddPage(p + offset, order);
      }
    }

    /** The order of a request: its number of trailing zero bits. For 0 pages the loop would not end. */
    method OrderOf(nr: nat) returns (order: nat)
      requires nr > 0
      ensures order == TrailingZeros(nr)
    {
      order := 0;
      var sz := nr;
      while sz % 2 == 0
        invariant sz > 0 && TrailingZeros(nr) == order + TrailingZeros(sz)
        decreases sz
      {
        sz := sz / 2;
        order := order + 1;
      }
    }

    /** The search of `buddy_page_alloc`: splits the first block of the smallest order from `order` on that has one,
        down to `order`, and books `nr` pages. The books stay right exactly when the block has `nr` pages. */
    method TakeBlock(order: nat, nr: nat) returns (r: Option<nat>, ghost found: Block)
      requires Linked()
      modifies this`nrFree, this`count, this`pages, this`blocks, lists
      ensures Linked()
      ensures r == None ==> blocks == old(blocks) && nrFree == old(nrFree) && Weight(count) == old(Weight(count))
                            && forall b :: b in blocks ==> b.order < order
      ensures r.Some? ==>
                && found in old(blocks) && found.pfn == r.value && order <= found.order
                && (forall c :: c in old(blocks) && order <= c.order ==> found.order <= c.order)
                && old(lists.rings[Head(found.order)][0]) == r.value
                && blocks == Expand(old(blocks) - {found}, found.pfn, found.order, order)
                && nrFree == old(nrFree) - nr && Weight(count) == old(Weight(count)) - P2(order)
    {
      hide GoodZone, Inv, CanAdd, Weight, FreePage, AllRings, P2;
      found := Block(0, 0);
      var search := order;
      while search < MAX_ORDER
        invariant Linked() && blocks == old(blocks) && nrFree == old(nrFree) && lists.rings == old(lists.rings)
        invariant count == old(count)
        invariant order <= search && forall b :: b in blocks ==> b.order < order || b.order >= search
      {
        ZoneSearch(lists.next, lists.prev, lists.rings, count, pages, blocks, pfnBase, pfnBase + nrPages, search);
        if count[search] != 0 {
          var front := lists.Front(Head(search));
          var page := front.value;
          found := Block(page, search);
          FoundCanAdd(blocks, found);
          DelPage(page, search);
          if search != order {
            ExpandBuddy(page, search, order);
          }
          nrFree := nrFree - nr;
          r := Some(page);
          return;
        }
        search := search + 1;
      }
      ZoneSearch(lists.next, lists.prev, lists.rings, count, pages, blocks, pfnBase, pfnBase + nrPages, 0);
      r := None;
    }

    /** `buddy_page_alloc`: the block has as many pages as the greatest power of two that divides the request. */
    method PageAlloc(nr: nat) returns (r: Option<nat>, ghost found: Block)
      requires Valid() && nr > 0
      modifies this`nrFree, this`count, this`pages, this`blocks, lists
      ensures Linked() && (Valid() <==> r == None || nr == P2(TrailingZeros(nr)))
      ensures r == None ==> blocks == old(blocks) && nrFree == old(nrFree)
                            && forall b :: b in blocks ==> b.order < TrailingZeros(nr)
      ensures r.Some? ==> var k := TrailingZeros(nr);
                && found in old(blocks) && found.pfn == r.value && k <= found.order
                && (forall c :: c in old(blocks) && k <= c.order ==> found.order <= c.order)
                && old(lists.rings[Head(found.order)][0]) == r.value
                && blocks == Expand(old(blocks) - {found}, found.pfn, found.order, k)
                && nrFree == old(nrFree) - nr
    {
      hide GoodZone, Inv, Weight, P2, TrailingZeros, Expand;
      var order := OrderOf(nr);
      r, found := TakeBlock(order, nr);
    }

    lemma InvHere()
      requires Linked()
      ensures Inv(blocks)
    {
      ZoneInv(lists.next, lists.prev, lists.rings, count, pages, blocks, pfnBase, pfnBase + nrPages);
    }

    lemma MergeHere(p: nat, k: nat)
      requires Linked() && CanAdd(blocks, Block(p, k)) && k < TOP
      requires pfnBase <= p && p + P2(k) <= pfnBase + nrPages
      ensures var q := Buddy(p, k);
              && q in pages && (Flagged(pages[q]) && pages[q].order == k <==> Block(q, k) in blocks)
              && (Block(q, k) in blocks ==>
                    && CanAdd(blocks - {Block(q, k)}, Block(Lower(p, q), k + 1))
                    && pfnBase <= Lower(p, q) && Lower(p, q) + P2(k + 1) <= pfnBase + nrPages
                    && FreeBlock(blocks, p, k) == FreeBlock(blocks - {Block(q, k)}, Lower(p, q), k + 1))
      ensures P2(k + 1) == 2 * P2(k)
    {
      ZoneMerge(lists.next, lists.prev, lists.rings, count, pages, blocks, pfnBase, pfnBase + nrPages, p, k);
    }

    lemma AddsHere(p: nat, k: nat)
      requires Linked() && CanAdd(blocks, Block(p, k)) && pfnBase <= p && p + P2(k) <= pfnBase + nrPages
      requires k < TOP ==> Block(Buddy(p, k), k) !in blocks
      ensures Addable(blocks, pfnBase, pfnBase + nrPages, Block(p, k))
      ensures FreeBlock(blocks, p, k) == blocks + {Block(p, k)}
    {
    }

    /** `__buddy_page_free`: merges the block with its buddy while that is free, then puts it on its list. */
    method FreeOne(first: nat, firstOrder: nat)
      requires Linked() && CanAdd(blocks, Block(first, firstOrder))
      requires pfnBase <= first && first + P2(firstOrder) <= pfnBase + nrPages
      modifies this`count, this`pages, this`blocks, lists
      ensures Linked() && blocks == FreeBlock(old(blocks), first, firstOrder)
      ensures Weight(count) == old(Weight(count)) + P2(firstOrder)
    {
      assert firstOrder <= TOP;
      hide Linked, Inv, CanAdd, Weight, FreePage, Addable, Lower, Buddy, FreeBlock, P2;
      var pfn: nat, order: nat, merged := first, firstOrder, true;
      while merged && order < TOP
        invariant Linked() && CanAdd(blocks, Block(pfn, order)) && order <= TOP
        invariant pfnBase <= pfn && pfn + P2(order) <= pfnBase + nrPages
        invariant !merged ==> order < TOP && Block(Buddy(pfn, order), order) !in blocks
        invariant FreeBlock(blocks, pfn, order) == FreeBlock(old(blocks), first, firstOrder)
        invariant Weight(count) + P2(order) == old(Weight(count)) + P2(firstOrder)
        decreases TOP - order, merged
      {
        merged, pfn, order := MergeOnce(pfn, order);
      }
      AddsHere(pfn, order);
      AddPage(pfn, order);
    }

    /** One round of the merge loop. */
    method MergeOnce(p: nat, k: nat) returns (merged: bool, p': nat, k': nat)
      requires Linked() && CanAdd(blocks, Block(p, k)) && k < TOP
      requires pfnBase <= p && p + P2(k) <= pfnBase + nrPages
      modifies this`count, this`pages, this`blocks, lists
      ensures merged <==> Block(Buddy(p, k), k) in old(blocks)
      ensures !merged ==> p' == p && k' == k && blocks == old(blocks)
      ensures merged ==> k' == k + 1 && p' == Lower(p, Buddy(p, k)) && blocks == old(blocks) - {Block(Buddy(p, k), k)}
      ensures Linked() && CanAdd(blocks, Block(p', k')) && pfnBase <= p' && p' + P2(k') <= pfnBase + nrPages
      ensures FreeBlock(blocks, p', k') == FreeBlock(old(blocks), p, k)
      ensures Weight(count) + P2(k') == old(Weight(count)) + P2(k)
    {
      hide Linked, Inv, CanAdd, Weight, FreePage, Lower, Buddy, FreeBlock, P2;
      MergeHere(p, k);
      var buddy := Buddy(p, k);
      merged := Flagged(pages[buddy]) && pages[buddy].order == k;
      p', k' := p, k;
      if merged {
        DelPage(buddy, k);
        p', k' := Lower(p, buddy), k + 1;
      }
    }

    /** The inner loop of `buddy_page_free`: the largest order that fits. */
    method PickOrder(pfn: nat, left: nat) returns (order: nat)
      requires left > 0
      ensures order == GreedyOrder(pfn, left, TOP)
    {
      order := TOP;
      while !(Multiple(pfn, order) && left >= P2(order))
        invariant order <= TOP && GreedyOrder(pfn, left, order) == GreedyOrder(pfn, left, TOP)
        decreases order
      {
        assert order > 0;
        order := order - 1;
      }
    }

    /** `buddy_page_free` of pages of the zone that are not free. */
    method PageFree(first: nat, nr: nat)
      requires Valid() && NoneFree(blocks, first, nr)
      requires pfnBase <= first && first + nr <= pfnBase + nrPages
      modifies this`nrFree, this`count, this`pages, this`blocks, lists
      ensures Valid() && blocks == FreeRange(old(blocks), first, nr) && nrFree == old(nrFree) + nr
    {
      hide Linked, Inv, Weight, FreePage, NoneFree, CanAdd, FreeBlock, P2, Multiple;
      nrFree := nrFree + nr;
      var pfn: nat, left: nat := first, nr;
      while left > 0
        invariant Linked() && nrFree == old(nrFree) + nr && Weight(count) + left == old(nrFree) + nr
        invariant NoneFree(blocks, pfn, left) && pfnBase <= pfn && pfn + left <= pfnBase + nrPages
        invariant FreeRange(blocks, pfn, left) == FreeRange(old(blocks), first, nr)
        decreases left
      {
        var order := PickOrder(pfn, left);
        InvHere();
        GreedyStep(blocks, pfn, left, order);
        FreeOne(pfn, order);
        pfn, left := pfn + P2(order), left - P2(order);
      }
    }
  }
}
