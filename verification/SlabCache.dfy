/** The slab allocator: a cache with its full, partial and free slab lists, allocation, free, and clients that
    write to the objects they hold. */
module SlabCache {
  import opened Machine
  import opened Rings
  import opened SlabPages

  const FULL: Node := -1
  const PARTIAL: Node := -2
  const FREE: Node := -3

  type Slabs = map<nat, Slab>
  type Chains = map<nat, seq<nat>>

  /** Every slab is well threaded, and the live objects are exactly the slots on no free list. */
  ghost predicate SlabsOk(g: Shape, words: Words, slabs: Slabs, chains: Chains, live: set<nat>) {
    && GoodShape(g)
    && slabs.Keys == chains.Keys
    && (forall s :: s in slabs ==> SlabOk(g, words, s, slabs[s], chains[s]))
    && (forall s, o: nat :: s in slabs && IsSlot(g, s, o) ==> (o in live <==> o !in chains[s]))
    && (forall o :: o in live ==> exists s :: s in slabs && IsSlot(g, s, o))
  }

  ghost predicate On(rings: Lists, h: Node, s: nat) { h in rings && (s as int) in rings[h] }

  /** Every slab is on a list, and lists hold slabs. */
  ghost predicate Located(rings: Lists, slabs: Slabs) {
    && rings.Keys == {FULL, PARTIAL, FREE}
    && (forall s :: s in slabs ==> On(rings, FULL, s) || On(rings, PARTIAL, s) || On(rings, FREE, s))
    && (forall h: Node, n: Node {:trigger n in rings[h]} :: h in rings && n in rings[h] ==> n >= 0 && n in slabs)
  }

  /** A slab on the partial list can serve an allocation and has objects in use; one on the free list has none in
      use; one on the full list has some in use, and may have free objects too. */
  ghost predicate Placed(rings: Lists, s: nat, h: Slab) {
    && (On(rings, PARTIAL, s) ==> h.free > 0 && h.inuse > 0)
    && (On(rings, FREE, s) ==> h.inuse == 0)
    && (On(rings, FULL, s) ==> h.inuse > 0)
  }

  ghost predicate GoodCache(g: Shape, words: Words, slabs: Slabs, chains: Chains, live: set<nat>, rings: Lists) {
    && SlabsOk(g, words, slabs, chains, live) && Located(rings, slabs)
    && (forall s :: s in slabs ==> Placed(rings, s, slabs[s]))
  }

  // ---------- What the invariant means for clients ----------

  /** Live objects overlap neither each other nor any free slot nor any slab header. */
  lemma LiveObjectsApart(g: Shape, words: Words, slabs: Slabs, chains: Chains, live: set<nat>, o: nat)
    requires SlabsOk(g, words, slabs, chains, live) && o in live
    ensures forall q :: q in live && q != o ==> o + g.size <= q || q + g.size <= o
    ensures forall t, q :: t in slabs && q in chains[t] ==> o + g.size <= q || q + g.size <= o
    ensures forall t :: t in slabs ==> t + HEADER <= o || o + g.size <= t
  {
    var s :| s in slabs && IsSlot(g, s, o);
    assert s % PGSIZE == 0 by { assert SlabOk(g, words, s, slabs[s], chains[s]); }
    SlotSlab(g, s, o);
    assert forall t :: t in slabs ==> t % PGSIZE == 0 by {
      forall t | t in slabs ensures t % PGSIZE == 0 { assert SlabOk(g, words, t, slabs[t], chains[t]); }
    }
    assert forall q :: q in live ==> exists t :: t in slabs && IsSlot(g, t, q);
    assert forall t, q :: t in slabs && q in chains[t] ==> IsSlot(g, t, q) && q !in live by {
      forall t, q | t in slabs && q in chains[t] ensures IsSlot(g, t, q) && q !in live {
        assert SlabOk(g, words, t, slabs[t], chains[t]);
      }
    }
    hide SlabsOk, SlabOk, IsSlot;
    forall q | q in live && q != o ensures o + g.size <= q || q + g.size <= o {
      var t :| t in slabs && IsSlot(g, t, q);
      SlotsApart(g, s, o, t, q);
    }
    forall t, q | t in slabs && q in chains[t] ensures o + g.size <= q || q + g.size <= o {
      SlotsApart(g, s, o, t, q);
    }
    forall t | t in slabs ensures t + HEADER <= o || o + g.size <= t { if t != s { PagesApart(s, t); } }
  }

  // ---------- The steps ----------

  lemma TakeKeeps(g: Shape, words: Words, slabs: Slabs, chains: Chains, live: set<nat>, s: nat)
    requires SlabsOk(g, words, slabs, chains, live) && s in slabs && slabs[s].free > 0
    ensures s in chains && chains[s] != [] && slabs[s].freelist == chains[s][0] && slabs[s].freelist in words
            && slabs[s].freelist !in live
    ensures IsSlot(g, s, slabs[s].freelist)
    ensures var o := slabs[s].freelist;
            SlabsOk(g, words, slabs[s := Slab(words[o], slabs[s].inuse + 1, slabs[s].free - 1)],
                    chains[s := chains[s][1..]], live + {o})
  {
    var c := chains[s];
    TakeObject(g, words, s, slabs[s], c);
    var o := slabs[s].freelist;
    assert c[0] in c;
    forall t, q: nat | t in slabs && IsSlot(g, t, q) ensures q == o ==> t == s {
      SlotSlab(g, s, o);
      SlotSlab(g, t, q);
    }
  }

  lemma ReturnKeeps(g: Shape, words: Words, slabs: Slabs, chains: Chains, live: set<nat>, s: nat, o: nat)
    requires SlabsOk(g, words, slabs, chains, live) && s in slabs && IsSlot(g, s, o) && o in live
    ensures slabs[s].inuse > 0 && s in chains
    ensures SlabsOk(g, words[o := slabs[s].freelist], slabs[s := Slab(o, slabs[s].inuse - 1, slabs[s].free + 1)],
                    chains[s := [o] + chains[s]], live - {o})
  {
    var words' := words[o := slabs[s].freelist];
    ReturnHasUse(g, words, s, slabs[s], chains[s], o);
    ReturnObject(g, words, s, slabs[s], chains[s], o);
    forall t | t in slabs && t != s ensures SlabOk(g, words', t, slabs[t], chains[t]) && !IsSlot(g, t, o) {
      SlotSlab(g, s, o);
      if IsSlot(g, t, o) { SlotSlab(g, t, o); }
      SlabUntouched(g, words, words', t, slabs[t], chains[t]);
    }
  }

  /** A live object is counted as in use: its slab's free list cannot hold all the slots. */
  lemma ReturnHasUse(g: Shape, words: Words, s: nat, h: Slab, chain: seq<nat>, o: nat)
    requires GoodShape(g) && SlabOk(g, words, s, h, chain) && IsSlot(g, s, o) && o !in chain
    ensures h.inuse > 0
  {
    var slots := set i: nat | i < g.objs :: Slot(g, s, i);
    SlotCount(g, s, g.objs);
    var used := set q | q in chain;
    SeqSetSize(chain);
    forall q | q in used ensures q in slots { assert IsSlot(g, s, q); }
    assert o in slots;
    assert used <= slots - {o as int};
    SubsetSize(used, slots - {o as int});
  }

  lemma {:induction false} SlotCount(g: Shape, s: nat, n: nat)
    requires GoodShape(g) && n <= g.objs
    ensures |set i: nat | i < n :: Slot(g, s, i)| == n
  {
    if n > 0 {
      SlotCount(g, s, n - 1);
      var rest := set i: nat | i < n - 1 :: Slot(g, s, i);
      assert (set i: nat | i < n :: Slot(g, s, i)) == rest + {Slot(g, s, n - 1)};
      forall i: nat | i < n - 1 ensures Slot(g, s, i) != Slot(g, s, n - 1) { Multiples(g.size, i + 1, n); }
    }
  }

  lemma {:induction false} SeqSetSize(c: seq<int>)
    requires forall i, j :: 0 <= i < j < |c| ==> c[i] != c[j]
    ensures |set q | q in c| == |c|
  {
    if c != [] {
      SeqSetSize(c[1..]);
      assert (set q | q in c) == (set q | q in c[1..]) + {c[0]};
    }
  }

  lemma SubsetSize(a: set<int>, b: set<int>)
    requires a <= b
    ensures |a| <= |b|
  {
    assert b == a + (b - a);
  }

  /** A new slab page joins the cache. */
  lemma GrowKeeps(g: Shape, words: Words, words': Words, slabs: Slabs, chains: Chains, live: set<nat>, s: nat,
      head: nat)
    requires SlabsOk(g, words, slabs, chains, live) && s !in slabs && s % PGSIZE == 0 && s > 0
    requires Threaded(words', head, NewChain(g, s, g.objs))
    requires forall a :: a in words && !(s <= a < s + PGSIZE) ==> a in words' && words'[a] == words[a]
    ensures SlabsOk(g, words', slabs[s := Slab(head, 0, g.objs)], chains[s := NewChain(g, s, g.objs)], live)
  {
    NewSlabOk(g, words', s, head);
    forall t | t in slabs ensures SlabOk(g, words', t, slabs[t], chains[t]) {
      PagesApart(s, t);
      forall o | o in chains[t] ensures o in words' && words'[o] == words[o] { SlotSlab(g, t, o); }
      SlabUntouched(g, words, words', t, slabs[t], chains[t]);
    }
    forall o: nat | IsSlot(g, s, o) ensures o !in live {
      if o in live {
        var t :| t in slabs && IsSlot(g, t, o);
        SlotSlab(g, t, o);
        SlotSlab(g, s, o);
      }
    }
  }

  /** A client store of a word inside a live object leaves every free list alone. */
  lemma StoreKeeps(g: Shape, words: Words, slabs: Slabs, chains: Chains, live: set<nat>, o: nat, a: nat, v: nat)
    requires SlabsOk(g, words, slabs, chains, live) && o in live && o <= a && a + 8 <= o + g.size
    ensures SlabsOk(g, words[a := v], slabs, chains, live)
  {
    LiveObjectsApart(g, words, slabs, chains, live, o);
    forall t | t in slabs ensures SlabOk(g, words[a := v], t, slabs[t], chains[t]) {
      SlabUntouched(g, words, words[a := v], t, slabs[t], chains[t]);
    }
  }

  function WordsUp(size: nat): (u: nat)
    ensures size <= u < size + 8 && u % 8 == 0
  {
    (size + 7) / 8 * 8
  }

  function PerPage(u: nat): nat
    requires u > 0
  {
    (PGSIZE - HEADER) / u
  }

  /** `kmem_init_cache` with word alignment: the object size and the number of objects a page holds. */
  function ShapeFor(size: nat): Shape
    requires size > 0
  {
    var n := PerPage(WordsUp(size));
    Shape(WordsUp(size), if n < MAX_OBJS then n else MAX_OBJS)
  }

  /** A usable cache has whole words for objects, as few as hold the request, and as many of them as fit behind the
      header, up to 512. */
  lemma PackedPage(size: nat)
    requires size > 0 && WordsUp(size) <= PGSIZE - HEADER
    ensures var g := ShapeFor(size);
      && g.size % 8 == 0 && size <= g.size < size + 8 && g.size >= 8
      && g.size * g.objs <= 4048 && (g.objs == 512 || 4048 < g.size * (g.objs + 1))
  {
    var u := WordsUp(size);
    hide WordsUp;
    FullQuotient(PGSIZE - HEADER, u, PerPage(u));
  }

  lemma ShapeSize(size: nat)
    requires size > 0
    ensures var u := ShapeFor(size).size; u == WordsUp(size) && u % 8 == 0 && size <= u < size + 8 && u >= 8
  {
    hide PerPage;
  }

  lemma FullQuotient(x: nat, u: nat, n: nat)
    requires 0 < u && n == x / u
    ensures u * n <= x < u * (n + 1) && (n > MAX_OBJS ==> u * MAX_OBJS <= x)
  {
    assert x == u * n + x % u && u * (n + 1) == u * n + u;
    if n > MAX_OBJS { assert u * n == u * MAX_OBJS + u * (n - MAX_OBJS) && u * (n - MAX_OBJS) >= 0; }
  }

  /** A cache of objects of `size` bytes, rounded up to whole words, is usable exactly when one fits beside the
      header. */
  lemma UsableIff(size: nat)
    requires size > 0
    ensures GoodShape(ShapeFor(size)) <==> WordsUp(size) <= 4048
  {
    var u := WordsUp(size);
    hide WordsUp;
    if u <= PGSIZE - HEADER { Quotient(PGSIZE - HEADER, u, PerPage(u)); } else { assert PerPage(u) == 0; }
  }

  lemma Quotient(x: nat, u: nat, n: nat)
    requires 0 < u <= x && n == x / u
    ensures n >= 1 && u * n <= x && (n > MAX_OBJS ==> u * MAX_OBJS <= x)
  {
    if n > MAX_OBJS { assert u * n == u * MAX_OBJS + u * (n - MAX_OBJS) && u * (n - MAX_OBJS) >= 0; }
  }

  // ---------- Lists ----------

  /** `s` is on list `h` and on no other. */
  ghost predicate OnlyOn(rings: Lists, h: Node, s: nat) {
    forall g :: On(rings, g, s) <==> g == h
  }

  /** Other slabs stay on the lists they are on. */
  ghost predicate OthersStay(rings: Lists, rings': Lists, s: nat) {
    forall g, x :: x != s ==> (On(rings', g, x) <==> On(rings, g, x))
  }

  lemma ListFacts(next: Links, prev: Links, rings: Lists, h: Node)
    requires AllRings(next, prev, rings) && h in rings
    ensures forall i, j :: 0 <= i < j < |rings[h]| ==> rings[h][i] != rings[h][j]
    ensures forall g, n :: g in rings && n in rings[g] && n in rings[h] ==> g == h
  {
    assert IsRing(next, prev, [h] + rings[h]);
    assert forall i :: 0 <= i < |rings[h]| ==> ([h] + rings[h])[i + 1] == rings[h][i];
    assert forall g, n :: g in rings && n in rings[g] ==> n in [g] + rings[g];
  }

  function Moved(rings: Lists, from: Node, k: nat, to: Node): Lists
    requires from in rings && to in rings && k < |rings[from]|
  {
    var rest := rings[from := rings[from][..k] + rings[from][k + 1..]];
    rest[to := [rings[from][k]] + rest[to]]
  }

  /** `list_move` of a slab: it is then on the new list only, and nothing else moves. */
  lemma MoveEffect(next: Links, prev: Links, rings: Lists, slabs: Slabs, from: Node, k: nat, to: Node, s: nat)
    requires AllRings(next, prev, rings) && Located(rings, slabs) && s in slabs
    requires from in rings && to in rings && k < |rings[from]| && rings[from][k] == s
    ensures var rings' := Moved(rings, from, k, to);
            Located(rings', slabs) && OnlyOn(rings', to, s) && OthersStay(rings, rings', s)
            && rings'[to] != [] && rings'[to][0] == s
  {
    ListFacts(next, prev, rings, from);
    Members(rings, from, k, to);
    hide AllRings, Moved;
    MovedLists(rings, Moved(rings, from, k, to), slabs, s, to);
  }

  lemma MovedLists(rings: Lists, rings': Lists, slabs: Slabs, s: nat, to: Node)
    requires Located(rings, slabs) && s in slabs && to in rings && rings'.Keys == rings.Keys
    requires forall g: Node, n: Node :: g in rings' ==> (n in rings'[g] <==> if n == s then g == to else n in rings[g])
    ensures Located(rings', slabs) && OnlyOn(rings', to, s) && OthersStay(rings, rings', s)
  {
    forall h: Node, n: Node {:trigger n in rings'[h]} | h in rings' && n in rings'[h] ensures n >= 0 && n in slabs {
      if n != s { assert n in rings[h]; }
    }
    forall x | x in slabs ensures On(rings', FULL, x) || On(rings', PARTIAL, x) || On(rings', FREE, x) {
      if x == s { assert On(rings', to, x); }
      assert On(rings, FULL, x) || On(rings, PARTIAL, x) || On(rings, FREE, x);
    }
  }

  lemma OthersPlaced(rings: Lists, rings': Lists, slabs: Slabs, s: nat)
    requires OthersStay(rings, rings', s) && forall x :: x in slabs && x != s ==> Placed(rings, x, slabs[x])
    ensures forall x :: x in slabs && x != s ==> Placed(rings', x, slabs[x])
  {
  }

  /** The front of the free list, or of the partial list, can serve an allocation. */
  lemma FrontServes(g: Shape, words: Words, slabs: Slabs, chains: Chains, live: set<nat>, rings: Lists, h: Node, s: nat)
    requires SlabsOk(g, words, slabs, chains, live) && s in slabs && Placed(rings, s, slabs[s])
    requires (h == FREE || h == PARTIAL) && OnlyOn(rings, h, s)
    ensures slabs[s].free > 0
  {
    assert On(rings, h, s);
    assert SlabOk(g, words, s, slabs[s], chains[s]);
  }

  /** Who is on which list after a move. */
  lemma Members(rings: Lists, from: Node, k: nat, to: Node)
    requires from in rings && to in rings && k < |rings[from]|
    requires forall i, j :: 0 <= i < j < |rings[from]| ==> rings[from][i] != rings[from][j]
    requires forall g, n :: g in rings && n in rings[g] && n in rings[from] ==> g == from
    ensures var rings' := Moved(rings, from, k, to);
            && rings'.Keys == rings.Keys
            && rings'[to] != [] && rings'[to][0] == rings[from][k]
            && forall g: Node, n: Node :: g in rings' ==>
                 (n in rings'[g] <==> if n == rings[from][k] then g == to else n in rings[g])
  {
    var f := rings[from];
    RemovedMembers(f, k);
    var rest := rings[from := f[..k] + f[k + 1..]];
    assert f[k] in f;
    forall g, n | g in rings ensures n in rest[g] <==> n in rings[g] && n != f[k] { }
    var rings' := Moved(rings, from, k, to);
    forall n ensures n in rings'[to] <==> n == f[k] || n in rest[to] {
      assert rings'[to] == [f[k]] + rest[to];
    }
  }

  lemma RemovedMembers(f: seq<Node>, k: nat)
    requires k < |f| && forall i, j :: 0 <= i < j < |f| ==> f[i] != f[j]
    ensures forall n :: n in f[..k] + f[k + 1..] <==> n in f && n != f[k]
  {
    var rest := f[..k] + f[k + 1..];
    forall n | n in f && n != f[k] ensures n in rest {
      var j :| 0 <= j < |f| && f[j] == n;
      assert n == if j < k then rest[j] else rest[j - 1];
    }
  }

  /** A new slab enters the front of a list. */
  lemma EnterEffect(rings: Lists, slabs: Slabs, to: Node, s: nat, h: Slab)
    requires Located(rings, slabs) && s !in slabs && to in rings
    ensures var rings' := rings[to := [s as int] + rings[to]];
            Located(rings', slabs[s := h]) && OnlyOn(rings', to, s) && OthersStay(rings, rings', s)
  {
  }

  lemma IsLooseSlab(rings: Lists, slabs: Slabs, s: nat)
    requires Located(rings, slabs) && s !in slabs
    ensures IsLoose(rings, s)
  {
  }

  lemma OnFront(next: Links, prev: Links, rings: Lists, slabs: Slabs, h: Node)
    requires AllRings(next, prev, rings) && Located(rings, slabs) && h in rings && rings[h] != []
    ensures rings[h][0] >= 0 && rings[h][0] in slabs && OnlyOn(rings, h, rings[h][0])
  {
    ListFacts(next, prev, rings, h);
    hide AllRings;
    var n: Node := rings[h][0];
    assert n in rings[h];
    assert n >= 0 && n in slabs;
  }

  lemma PlacedOnly(rings: Lists, h: Node, s: nat, slab: Slab)
    requires OnlyOn(rings, h, s) && (h == PARTIAL || h == FULL || h == FREE)
    requires (h == PARTIAL ==> slab.free > 0 && slab.inuse > 0) && (h == FULL ==> slab.inuse > 0)
    requires h == FREE ==> slab.inuse == 0
    ensures Placed(rings, s, slab)
  {
  }

  lemma HeadsKnown(rings: Lists, slabs: Slabs)
    requires Located(rings, slabs)
    ensures FULL in rings && PARTIAL in rings && FREE in rings
  {
  }

  lemma SlotPositive(g: Shape, words: Words, slabs: Slabs, chains: Chains, live: set<nat>, s: nat, o: nat)
    requires SlabsOk(g, words, slabs, chains, live) && s in slabs && IsSlot(g, s, o)
    ensures o > 0 && o / PGSIZE * PGSIZE == s
  {
    assert SlabOk(g, words, s, slabs[s], chains[s]);
    SlotSlab(g, s, o);
  }

  /** The front of the free list has become the partial list. */
  ghost predicate ServedFromFree(r: Lists, r': Lists, s: nat) {
    && r.Keys == r'.Keys == {FULL, PARTIAL, FREE} && r[FREE] == [s as int] + r'[FREE]
    && r'[PARTIAL] == [s as int] + r[PARTIAL] && r'[FULL] == r[FULL]
  }

  /** The lists after an allocation from slab `s`, which leaves the partial list for the full one exactly when it has
      no object left. */
  ghost predicate AllocLists(r: Lists, r': Lists, s: nat, full: bool) {
    && r.Keys == r'.Keys == {FULL, PARTIAL, FREE}
    && r'[FREE] == (if r[PARTIAL] == [] && r[FREE] != [] then r[FREE][1..] else r[FREE])
    && var rest := if r[PARTIAL] != [] then r[PARTIAL][1..] else [];
       if full then r'[FULL] == [s as int] + r[FULL] && r'[PARTIAL] == rest
       else r'[FULL] == r[FULL] && r'[PARTIAL] == [s as int] + rest
  }

  /** The lists before an allocation, once its slab is first on the partial list, and after it. */
  lemma AllocListsHold(r: Lists, r0: Lists, r': Lists, s: nat, full: bool)
    requires r.Keys == {FULL, PARTIAL, FREE}
    requires if r[PARTIAL] != [] then r0 == r && r[PARTIAL][0] == s
             else if r[FREE] != [] then ServedFromFree(r, r0, s) else r0 == r[PARTIAL := [s as int]]
    requires PARTIAL in r0 && FULL in r0 && r0[PARTIAL] != []
    requires r' == if full then r0[PARTIAL := r0[PARTIAL][..0] + r0[PARTIAL][1..]][FULL := [s as int] + r0[FULL]]
                   else r0
    ensures AllocLists(r, r', s, full)
  {
    assert r0[PARTIAL] == [s as int] + r0[PARTIAL][1..];
  }

  lemma NotOnFree(rings: Lists, s: nat, h: Slab, from: Node, k: nat)
    requires Placed(rings, s, h) && h.inuse > 0 && from in rings && k < |rings[from]| && rings[from][k] == s
    ensures from != FREE
  {
  }

  /** Replacing the counters of one slab keeps it on its list. */
  lemma SameLists(rings: Lists, slabs: Slabs, s: nat, h: Slab)
    requires Located(rings, slabs) && s in slabs
    ensures Located(rings, slabs[s := h])
  {
  }

  lemma LiveSlab(g: Shape, words: Words, slabs: Slabs, chains: Chains, live: set<nat>, o: nat) returns (s: nat)
    requires SlabsOk(g, words, slabs, chains, live) && o in live
    ensures s in slabs && IsSlot(g, s, o) && o / PGSIZE * PGSIZE == s
  {
    s :| s in slabs && IsSlot(g, s, o);
    SlotPositive(g, words, slabs, chains, live, s, o);
  }

  lemma WhereIs(rings: Lists, slabs: Slabs, s: nat) returns (h: Node, k: nat)
    requires Located(rings, slabs) && s in slabs
    ensures h in rings && k < |rings[h]| && rings[h][k] == s
  {
    h := if On(rings, FULL, s) then FULL else if On(rings, PARTIAL, s) then PARTIAL else FREE;
    assert On(rings, h, s);
    k :| 0 <= k < |rings[h]| && rings[h][k] == s;
  }

  /** A slab that keeps objects in use stays rightly placed after a free. */
  lemma StillPlaced(rings: Lists, s: nat, h: Slab, f: nat)
    requires Placed(rings, s, h) && h.inuse > 0
    ensures h.inuse > 1 ==> Placed(rings, s, Slab(f, h.inuse - 1, h.free + 1))
  {
  }

  lemma EmptyCache(g: Shape, words: Words, rings: Lists)
    requires rings == map[FULL := [], PARTIAL := [], FREE := []]
    ensures GoodCache(g, words, map[], map[], {}, rings) <==> GoodShape(g)
  {
    hide GoodShape;
  }

  class Cache {
    const lists: ListMemory
    const size: nat
    const objsPerPage: nat
    /** Memory by word address: the links in free objects, and whatever clients store. */
    var words: Words
    /** The slab headers, by page address. */
    var slabs: Slabs
    ghost var chains: Chains
    /** The objects handed out and not yet freed. */
    ghost var live: set<nat>

    ghost function G(): Shape { Shape(size, objsPerPage) }

    ghost predicate Valid()
      reads this, lists
    {
      GoodCache(G(), words, slabs, chains, live, lists.rings) && lists.Valid()
    }

    constructor (objSize: nat, memory: Words)
      requires objSize > 0
      ensures Valid() <==> WordsUp(objSize) <= 4048
      ensures fresh(lists) && live == {} && slabs == map[] && words == memory
      ensures Shape(size, objsPerPage) == ShapeFor(objSize)
      ensures size % 8 == 0 && objSize <= size < objSize + 8 && size >= 8
      ensures Valid() ==> size * objsPerPage <= 4048 && (objsPerPage == 512 || 4048 < size * (objsPerPage + 1))
    {
      size := ShapeFor(objSize).size;
      objsPerPage := ShapeFor(objSize).objs;
      words, slabs, chains, live := memory, map[], map[], {};
      lists := new ListMemory();
      new;
      hide AllRings, WordsUp, PerPage, GoodShape, ShapeFor, GoodCache;
      if WordsUp(objSize) <= PGSIZE - HEADER { PackedPage(objSize); }
      UsableIff(objSize);
      ShapeSize(objSize);
      lists.InitHead(FULL);
      lists.InitHead(PARTIAL);
      lists.InitHead(FREE);
      EmptyCache(G(), words, lists.rings);
    }

    /** `cache_grow`: threads a fresh page. */
    method Grow(page: nat)
      requires SlabsOk(G(), words, slabs, chains, live) && page % PGSIZE == 0 && page > 0 && page !in slabs
      modifies this`words, this`slabs, this`chains
      ensures SlabsOk(G(), words, slabs, chains, live)
      ensures slabs == old(slabs)[page := Slab(page + PGSIZE - size * objsPerPage, 0, objsPerPage)]
      ensures page in chains && |chains[page]| == objsPerPage
      ensures forall k :: 0 <= k < objsPerPage ==> chains[page][k] == page + PGSIZE - size * (objsPerPage - k)
      ensures forall a ::
                a in old(words) && !(page <= a < page + PGSIZE) ==> a in words && words[a] == old(words)[a]
    {
      hide SlabOk, IsSlot, Threaded;
      ghost var g := G();
      var obj, freelist: nat := page + PGSIZE, 0;
      EmptyChain(g, words, page);
      for i := 0 to objsPerPage
        invariant slabs == old(slabs) && chains == old(chains) && live == old(live)
        invariant obj == page + PGSIZE - size * i && (i > 0 ==> freelist == obj)
        invariant Threaded(words, freelist, NewChain(g, page, i))
        invariant forall a ::
                    a in old(words) && !(page <= a < page + PGSIZE) ==> a in words && words[a] == old(words)[a]
      {
        SlotInPage(g, page, i);
        NewChainGrows(g, words, page, i, freelist);
        obj := obj - size;
        words := words[obj := freelist];
        freelist := obj;
      }
      GrowKeeps(g, old(words), words, slabs, chains, live, page, freelist);
      slabs := slabs[page := Slab(freelist, 0, objsPerPage)];
      chains := chains[page := NewChain(g, page, objsPerPage)];
    }

    /** What a slab that can serve an allocation looks like: first on the partial list, with a free object, and every
        other slab where it belongs. */
    ghost predicate Serves(s: nat)
      reads this, lists
    {
      && SlabsOk(G(), words, slabs, chains, live) && lists.Valid() && Located(lists.rings, slabs)
      && s in slabs && slabs[s].free > 0 && OnlyOn(lists.rings, PARTIAL, s) && lists.rings[PARTIAL] != []
      && lists.rings[PARTIAL][0] == s
      && forall x :: x in slabs && x != s ==> Placed(lists.rings, x, slabs[x])
    }

    lemma CacheFacts()
      requires Valid()
      ensures objsPerPage > 0 && lists.rings.Keys == {FULL, PARTIAL, FREE}
      ensures SlabsOk(G(), words, slabs, chains, live) && Located(lists.rings, slabs)
      ensures forall x :: x in slabs ==> Placed(lists.rings, x, slabs[x])
    {
    }

    /** The front of the free list moves to the partial list. */
    method ReuseFree() returns (s: nat)
      requires Valid() && lists.rings[FREE] != []
      modifies lists
      ensures Serves(s) && lists.rings.Keys == old(lists.rings).Keys
      ensures ServedFromFree(old(lists.rings), lists.rings, s)
    {
      hide GoodCache, SlabsOk, AllRings, IsLoose, OnlyOn, OthersStay, Placed, Located;
      CacheFacts();
      OnFront(lists.next, lists.prev, lists.rings, slabs, FREE);
      var front := lists.Front(FREE);
      s := front.value;
      FrontServes(G(), words, slabs, chains, live, lists.rings, FREE, s);
      ghost var r0 := lists.rings;
      MoveEffect(lists.next, lists.prev, lists.rings, slabs, FREE, 0, PARTIAL, s);
      lists.MoveFirst(s, PARTIAL, FREE, 0);
      OthersPlaced(r0, lists.rings, slabs, s);
    }

    /** The front of the partial list needs no preparation. */
    lemma PartialServes()
      requires Valid() && PARTIAL in lists.rings && lists.rings[PARTIAL] != []
      ensures lists.rings[PARTIAL][0] >= 0 && Serves(lists.rings[PARTIAL][0])
    {
      hide SlabsOk, AllRings, OnlyOn, Placed;
      CacheFacts();
      OnFront(lists.next, lists.prev, lists.rings, slabs, PARTIAL);
      FrontServes(G(), words, slabs, chains, live, lists.rings, PARTIAL, lists.rings[PARTIAL][0]);
    }

    /** A fresh page joins the partial list. */
    method AddPage(page: nat)
      requires Valid() && page > 0 && page % PGSIZE == 0 && page !in slabs
      modifies this`words, this`slabs, this`chains, lists
      ensures Serves(page) && live == old(live)
      ensures slabs == old(slabs)[page := Slab(page + PGSIZE - size * objsPerPage, 0, objsPerPage)]
      ensures lists.rings == old(lists.rings)[PARTIAL := [page as int] + old(lists.rings)[PARTIAL]]
      ensures forall a :: a in old(words) && !(page <= a < page + PGSIZE) ==> a in words && words[a] == old(words)[a]
    {
      assert objsPerPage > 0;
      hide SlabsOk, AllRings, IsLoose, OnlyOn, OthersStay, Placed;
      Grow(page);
      ghost var r0 := lists.rings;
      IsLooseSlab(r0, old(slabs), page);
      EnterEffect(r0, old(slabs), PARTIAL, page, slabs[page]);
      lists.AddFirst(page, PARTIAL);
      OthersPlaced(r0, lists.rings, slabs, page);
    }

    /** The slab to allocate from, at the front of the partial list; `page` is the address the page allocator would
        return, which fails the test for a page exactly when it is 0. */
    method PickSlab(page: nat) returns (ok: bool, s: nat)
      requires Valid() && (page > 0 ==> page % PGSIZE == 0 && page !in slabs)
      modifies this`words, this`slabs, this`chains, lists
      ensures ok <==> old(lists.rings)[PARTIAL] != [] || old(lists.rings)[FREE] != [] || page > 0
      ensures !ok ==> unchanged(this) && unchanged(lists)
      ensures ok ==> Serves(s) && live == old(live)
      ensures old(lists.rings)[PARTIAL] != [] ==>
                s == old(lists.rings)[PARTIAL][0] && unchanged(this) && unchanged(lists)
      ensures old(lists.rings)[PARTIAL] == [] && old(lists.rings)[FREE] != [] ==>
                ServedFromFree(old(lists.rings), lists.rings, s) && unchanged(this)
      ensures ok && old(lists.rings)[PARTIAL] == old(lists.rings)[FREE] == [] ==>
                && s == page && slabs == old(slabs)[page := Slab(page + PGSIZE - size * objsPerPage, 0, objsPerPage)]
                && lists.rings == old(lists.rings)[PARTIAL := [page as int]]
      ensures forall a ::
                a in old(words) && !(page > 0 && page <= a < page + PGSIZE) ==> a in words && words[a] == old(words)[a]
    {
      hide GoodCache, SlabsOk, AllRings, IsLoose, OnlyOn, OthersStay, Placed, Located, Serves, ServedFromFree;
      CacheFacts();
      ok, s := true, 0;
      var none := lists.Empty(PARTIAL);
      if !none {
        PartialServes();
        var front := lists.Front(PARTIAL);
        s := front.value;
        return;
      }
      none := lists.Empty(FREE);
      if !none {
        s := ReuseFree();
        return;
      }
      if page == 0 {
        ok := false;
        return;
      }
      s := page;
      AddPage(page);
      assert [page as int] + old(lists.rings)[PARTIAL] == [page as int];
    }

    /** The end of `kmem_cache_alloc`: takes the first free object of slab `s`, which moves to the full list when it has
        no other. */
    method TakeFrom(s: nat) returns (obj: nat)
      requires Serves(s)
      modifies this, lists
      ensures Valid() && words == old(words) && obj > 0 && obj !in old(live) && live == old(live) + {obj}
      ensures s in old(slabs) && obj == old(slabs)[s].freelist && obj in words && IsSlot(G(), s, obj)
      ensures slabs == old(slabs)[s := Slab(words[obj], old(slabs)[s].inuse + 1, old(slabs)[s].free - 1)]
      ensures PARTIAL in old(lists.rings) && FULL in old(lists.rings) && old(lists.rings)[PARTIAL] != []
      ensures var r := old(lists.rings);
              lists.rings == if slabs[s].free == 0
                             then r[PARTIAL := r[PARTIAL][..0] + r[PARTIAL][1..]][FULL := [s as int] + r[FULL]] else r
    {
      hide SlabsOk, AllRings, IsSlot, Located, OnlyOn, OthersStay, Placed;
      TakeKeeps(G(), words, slabs, chains, live, s);
      SlotPositive(G(), words, slabs, chains, live, s, slabs[s].freelist);
      obj := slabs[s].freelist;
      HeadsKnown(lists.rings, slabs);
      SameLists(lists.rings, slabs, s, Slab(words[obj], slabs[s].inuse + 1, slabs[s].free - 1));
      slabs := slabs[s := Slab(words[obj], slabs[s].inuse + 1, slabs[s].free - 1)];
      chains := chains[s := chains[s][1..]];
      live := live + {obj};
      ghost var r0 := lists.rings;
      if slabs[s].free == 0 {
        MoveEffect(lists.next, lists.prev, r0, slabs, PARTIAL, 0, FULL, s);
        lists.MoveFirst(s, FULL, PARTIAL, 0);
        OthersPlaced(r0, lists.rings, slabs, s);
      }
      PlacedOnly(lists.rings, if slabs[s].free == 0 then FULL else PARTIAL, s, slabs[s]);
    }

    /** `kmem_cache_alloc`: an object that was free, or 0 when there is neither a slab to serve it nor a page. The slab
        `s` is the front of the partial list, else that of the free list, and only else a new page. */
    method Alloc(page: nat) returns (obj: nat, ghost s: nat)
      requires Valid() && (page > 0 ==> page % PGSIZE == 0 && page !in slabs)
      modifies this, lists
      ensures Valid()
      ensures obj == 0 <==> old(lists.rings)[PARTIAL] == [] && old(lists.rings)[FREE] == [] && page == 0
      ensures obj == 0 ==> live == old(live) && words == old(words)
      ensures obj != 0 ==> obj !in old(live) && live == old(live) + {obj}
      ensures obj != 0 ==> s in slabs && IsSlot(G(), s, obj)
      ensures obj != 0 ==>
                && s == (if old(lists.rings)[PARTIAL] != [] then old(lists.rings)[PARTIAL][0]
                         else if old(lists.rings)[FREE] != [] then old(lists.rings)[FREE][0] else page)
                && AllocLists(old(lists.rings), lists.rings, s, slabs[s].free == 0)
      ensures old(lists.rings)[PARTIAL] != [] || old(lists.rings)[FREE] != [] ==>
                && words == old(words) && s in old(slabs) && obj == old(slabs)[s].freelist && obj in words
                && slabs == old(slabs)[s := Slab(words[obj], old(slabs)[s].inuse + 1, old(slabs)[s].free - 1)]
      ensures obj != 0 && old(lists.rings)[PARTIAL] == old(lists.rings)[FREE] == [] ==>
                && obj == page + PGSIZE - size * objsPerPage
                && slabs == old(slabs)[page := Slab(slabs[page].freelist, 1, objsPerPage - 1)]
      ensures forall a ::
                a in old(words) && !(page > 0 && page <= a < page + PGSIZE) ==> a in words && words[a] == old(words)[a]
    {
      hide GoodCache, SlabsOk, AllRings, IsSlot, Located, OnlyOn, OthersStay, Placed, Serves, AllocLists;
      CacheFacts();
      obj, s := 0, 0;
      var ok, from := PickSlab(page);
      if !ok { return; }
      s := from;
      ghost var r, r0 := old(lists.rings), lists.rings;
      obj := TakeFrom(from);
      AllocListsHold(r, r0, lists.rings, from, slabs[from].free == 0);
    }

    /** `kmem_cache_free` of a live object. */
    method Free(obj: nat)
      requires Valid() && obj in live
      modifies this, lists
      ensures Valid() && live == old(live) - {obj}
      ensures var s := obj / PGSIZE * PGSIZE;
        && s in old(slabs) && words == old(words)[obj := old(slabs)[s].freelist] && old(slabs)[s].inuse > 0
        && slabs == old(slabs)[s := Slab(obj, old(slabs)[s].inuse - 1, old(slabs)[s].free + 1)]
        && if slabs[s].inuse > 0 then lists.rings == old(lists.rings)
           else OnlyOn(lists.rings, FREE, s) && OthersStay(old(lists.rings), lists.rings, s)
                && FREE in old(lists.rings) && lists.rings[FREE] == [s as int] + old(lists.rings)[FREE]
    {
      hide SlabsOk, AllRings, IsSlot, Located, OnlyOn, OthersStay, Placed;
      ghost var home := LiveSlab(G(), words, slabs, chains, live, obj);
      var s := obj / PGSIZE * PGSIZE;
      ReturnKeeps(G(), words, slabs, chains, live, s, obj);
      ghost var from, k := WhereIs(lists.rings, slabs, s);
      NotOnFree(lists.rings, s, slabs[s], from, k);
      SameLists(lists.rings, slabs, s, Slab(obj, slabs[s].inuse - 1, slabs[s].free + 1));
      StillPlaced(lists.rings, s, slabs[s], obj);
      words := words[obj := slabs[s].freelist];
      slabs := slabs[s := Slab(obj, slabs[s].inuse - 1, slabs[s].free + 1)];
      chains := chains[s := [obj] + chains[s]];
      live := live - {obj};
      if slabs[s].inuse == 0 {
        ghost var r0 := lists.rings;
        HeadsKnown(r0, slabs);
        MoveEffect(lists.next, lists.prev, r0, slabs, from, k, FREE, s);
        lists.MoveFirst(s, FREE, from, k);
        OthersPlaced(r0, lists.rings, slabs, s);
        PlacedOnly(lists.rings, FREE, s, slabs[s]);
      }
    }

    /** A client writes a word inside an object it holds. */
    method ClientStore(obj: nat, a: nat, v: nat)
      requires Valid() && obj in live && obj <= a && a + 8 <= obj + size
      modifies this`words
      ensures Valid() && words == old(words)[a := v]
    {
      StoreKeeps(G(), words, slabs, chains, live, obj, a, v);
      words := words[a := v];
    }
  }
}
