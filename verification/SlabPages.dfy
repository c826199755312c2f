/** One slab page: objects of equal size packed against the end of a 4K page, the free ones threaded into a list
    through their own first words. */
module SlabPages {
  import opened Machine

  /** sizeof(struct slab), at the start of the page. */
  const HEADER: nat := 48
  const MAX_OBJS: nat := 512
  const MIN_SIZE: nat := 8

  /** Word-sized memory cells by address. */
  type Words = map<nat, nat>

  datatype Slab = Slab(freelist: nat, inuse: nat, free: nat)

  /** The geometry of a cache. */
  datatype Shape = Shape(size: nat, objs: nat)

  predicate GoodShape(g: Shape) { MIN_SIZE <= g.size && 1 <= g.objs <= MAX_OBJS && HEADER + g.size * g.objs <= PGSIZE }

  /** Slot `i` of slab `s`, counted from the end of the page. */
  function Slot(g: Shape, s: nat, i: nat): int { s + PGSIZE - g.size * (i + 1) }

  ghost predicate IsSlot(g: Shape, s: nat, o: nat) { exists i: nat :: i < g.objs && o == Slot(g, s, i) }

  /** The list from `head` runs through `chain` and ends in 0. */
  ghost predicate Threaded(words: Words, head: nat, chain: seq<nat>) {
    && head == (if chain == [] then 0 else chain[0])
    && (forall i :: 0 <= i < |chain| ==> chain[i] in words)
    && (forall i, j :: 0 <= i && j == i + 1 && j < |chain| ==> words[chain[i]] == chain[j])
    && (chain != [] ==> words[chain[|chain| - 1]] == 0)
  }

  /** The slab's free list is an acyclic chain of exactly `free` distinct slots, and the rest are in use. */
  ghost predicate SlabOk(g: Shape, words: Words, s: nat, h: Slab, chain: seq<nat>) {
    && s % PGSIZE == 0 && s > 0
    && Threaded(words, h.freelist, chain)
    && (forall i, j :: 0 <= i < j < |chain| ==> chain[i] != chain[j])
    && (forall o :: o in chain ==> IsSlot(g, s, o))
    && h.free == |chain| && h.inuse + h.free == g.objs
  }

  // ---------- Geometry ----------

  lemma SlotInPage(g: Shape, s: nat, i: nat)
    requires GoodShape(g) && i < g.objs
    ensures s + HEADER <= Slot(g, s, i) && Slot(g, s, i) + g.size <= s + PGSIZE
  {
    Multiples(g.size, i, g.objs);
    Multiples(g.size, 0, i + 1);
    Successor(g.size, i);
  }

  /** Masking an object's address gives its slab. */
  lemma SlotSlab(g: Shape, s: nat, o: nat)
    requires GoodShape(g) && s % PGSIZE == 0 && IsSlot(g, s, o)
    ensures s + HEADER <= o && o + g.size <= s + PGSIZE && o / PGSIZE * PGSIZE == s
  {
    var i: nat :| i < g.objs && o == Slot(g, s, i);
    SlotInPage(g, s, i);
    assert o / PGSIZE == s / PGSIZE;
  }

  lemma PagesApart(s: nat, t: nat)
    requires s % PGSIZE == 0 && t % PGSIZE == 0 && s != t
    ensures s + PGSIZE <= t || t + PGSIZE <= s
  {
  }

  /** Distinct slots do not overlap, in one slab or in two. */
  lemma SlotsApart(g: Shape, s: nat, o: nat, t: nat, q: nat)
    requires GoodShape(g) && s % PGSIZE == 0 && t % PGSIZE == 0 && IsSlot(g, s, o) && IsSlot(g, t, q) && o != q
    ensures o + g.size <= q || q + g.size <= o
  {
    SlotSlab(g, s, o);
    SlotSlab(g, t, q);
    hide GoodShape, Slot;
    if s != t {
      PagesApart(s, t);
    } else {
      var i: nat :| i < g.objs && o == Slot(g, s, i);
      var j: nat :| j < g.objs && q == Slot(g, s, j);
      if i < j { SlotsInOrder(g, s, i, j); } else { SlotsInOrder(g, s, j, i); }
    }
  }

  lemma SlotsInOrder(g: Shape, s: nat, i: nat, j: nat)
    requires i < j
    ensures Slot(g, s, j) + g.size <= Slot(g, s, i)
  {
    Multiples(g.size, i + 1, j + 1);
  }

  lemma Successor(u: nat, i: nat)
    ensures u * (i + 1) == u * i + u && u * 0 == 0
  {
  }

  lemma Multiples(u: nat, a: nat, b: nat)
    requires a < b
    ensures u * b >= u * a + u
  {
    var k := b - a - 1;
    assert u * b == u * (a + 1 + k) == u * a + u + u * k;
    assert u * k >= 0;
  }

  // ---------- Taking and returning an object ----------

  lemma TakeObject(g: Shape, words: Words, s: nat, h: Slab, chain: seq<nat>)
    requires SlabOk(g, words, s, h, chain) && chain != []
    ensures h.freelist == chain[0] && chain[0] in words && h.free > 0
    ensures SlabOk(g, words, s, Slab(words[h.freelist], h.inuse + 1, h.free - 1), chain[1..])
    ensures chain[0] !in chain[1..]
  {
    assert chain[1..] == [] ==> words[chain[0]] == 0;
    assert chain[1..] != [] ==> words[chain[0]] == chain[1];
  }

  lemma ReturnObject(g: Shape, words: Words, s: nat, h: Slab, chain: seq<nat>, o: nat)
    requires SlabOk(g, words, s, h, chain) && IsSlot(g, s, o) && o !in chain && h.inuse > 0
    ensures SlabOk(g, words[o := h.freelist], s, Slab(o, h.inuse - 1, h.free + 1), [o] + chain)
  {
  }

  /** A slab is not touched by stores outside its free slots' link words. */
  lemma SlabUntouched(g: Shape, words: Words, words': Words, s: nat, h: Slab, chain: seq<nat>)
    requires SlabOk(g, words, s, h, chain) && forall o :: o in chain ==> o in words' && words'[o] == words[o]
    ensures SlabOk(g, words', s, h, chain)
  {
  }

  // ---------- A new slab ----------

  /** The free list `cache_grow` has threaded after `n` steps: the last `n` slots of the page, lowest first. */
  ghost function NewChain(g: Shape, s: nat, n: nat): (c: seq<nat>)
    requires GoodShape(g) && n <= g.objs
    ensures |c| == n && forall k :: 0 <= k < n ==> c[k] == Slot(g, s, n - 1 - k)
  {
    if n == 0 then [] else SlotInPage(g, s, n - 1); [Slot(g, s, n - 1) as nat] + NewChain(g, s, n - 1)
  }

  lemma EmptyChain(g: Shape, words: Words, s: nat)
    requires GoodShape(g)
    ensures Threaded(words, 0, NewChain(g, s, 0))
  {
  }

  lemma NewChainGrows(g: Shape, words: Words, s: nat, n: nat, head: nat)
    requires GoodShape(g) && n < g.objs && Threaded(words, head, NewChain(g, s, n))
    ensures Slot(g, s, n) >= 0
    ensures Threaded(words[Slot(g, s, n) := head], Slot(g, s, n), NewChain(g, s, n + 1))
  {
    SlotInPage(g, s, n);
    var c := NewChain(g, s, n);
    var o := Slot(g, s, n);
    forall k | 0 <= k < n ensures c[k] != o { Multiples(g.size, n - k, n + 1); }
    assert NewChain(g, s, n + 1) == [o as nat] + c;
  }

  /** The page `cache_grow` threads is a slab with every slot free. */
  lemma NewSlabOk(g: Shape, words: Words, s: nat, head: nat)
    requires GoodShape(g) && s % PGSIZE == 0 && s > 0 && Threaded(words, head, NewChain(g, s, g.objs))
    ensures SlabOk(g, words, s, Slab(head, 0, g.objs), NewChain(g, s, g.objs))
    ensures forall o: nat :: IsSlot(g, s, o) ==> o in NewChain(g, s, g.objs)
  {
    var n, c := g.objs, NewChain(g, s, g.objs);
    forall i, j | 0 <= i < j < n ensures c[i] != c[j] { Multiples(g.size, n - j, n - i); }
    forall o: nat | IsSlot(g, s, o) ensures o in c {
      var i: nat :| i < n && o == Slot(g, s, i);
      assert c[n - 1 - i] == o;
    }
  }
}
