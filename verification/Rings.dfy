/** The intrusive circular lists of the kernel: nodes are addresses, and `prev` and `next` are the two words each
    node stores. A ring is a head and the nodes it leads to. */
module Rings {
  import opened Machine

  type Node = int
  type Links = map<Node, Node>

  /** `cycle` lists a ring from its head on; following `next` runs through it, and `prev` runs back. */
  ghost predicate IsRing(next: Links, prev: Links, cycle: seq<Node>) {
    && |cycle| > 0
    && (forall i, j :: 0 <= i < j < |cycle| ==> cycle[i] != cycle[j])
    && (forall i :: 0 <= i < |cycle| ==> cycle[i] in next && cycle[i] in prev)
    && (forall i, j :: 0 <= i && j == i + 1 && j < |cycle| ==> next[cycle[i]] == cycle[j] && prev[cycle[j]] == cycle[i])
    && next[cycle[|cycle| - 1]] == cycle[0] && prev[cycle[0]] == cycle[|cycle| - 1]
  }

  /** The node after position `k` of a ring. */
  function After(cycle: seq<Node>, k: nat): Node
    requires k < |cycle|
  {
    if k + 1 < |cycle| then cycle[k + 1] else cycle[0]
  }

  lemma InsertKeepsRing(next: Links, prev: Links, cycle: seq<Node>, k: nat, node: Node)
    requires IsRing(next, prev, cycle) && k < |cycle| && node !in cycle
    ensures next[cycle[k]] == After(cycle, k)
    ensures IsRing(next[cycle[k] := node][node := After(cycle, k)], prev[After(cycle, k) := node][node := cycle[k]],
                   cycle[..k + 1] + [node] + cycle[k + 1..])
  {
    var c := cycle[..k + 1] + [node] + cycle[k + 1..];
    forall i | 0 <= i < |c|
      ensures c[i] == if i <= k then cycle[i] else if i == k + 1 then node else cycle[i - 1]
    {
    }
  }

  lemma RemoveKeepsRing(next: Links, prev: Links, cycle: seq<Node>, k: nat)
    requires IsRing(next, prev, cycle) && 0 < k < |cycle|
    ensures prev[cycle[k]] == cycle[k - 1] && next[cycle[k]] == After(cycle, k)
    ensures IsRing(next[cycle[k - 1] := After(cycle, k)][cycle[k] := cycle[k]],
                   prev[After(cycle, k) := cycle[k - 1]][cycle[k] := cycle[k]],
                   cycle[..k] + cycle[k + 1..])
  {
    var c := cycle[..k] + cycle[k + 1..];
    forall i | 0 <= i < |c| ensures c[i] == if i < k then cycle[i] else cycle[i + 1] {
    }
  }

  /** A ring none of whose nodes is written stays a ring. */
  lemma OtherRing(next: Links, prev: Links, next': Links, prev': Links, cycle: seq<Node>)
    requires IsRing(next, prev, cycle)
    requires forall n :: n in cycle ==> n in next' && next'[n] == next[n] && n in prev' && prev'[n] == prev[n]
    ensures IsRing(next', prev', cycle)
  {
  }

  type Lists = map<Node, seq<Node>>

  /** Every head of `rings` leads through its nodes and back, and no node is in two rings. */
  ghost predicate AllRings(next: Links, prev: Links, rings: Lists) {
    && (forall h :: h in rings ==> IsRing(next, prev, [h] + rings[h]))
    && (forall h, g, n :: h in rings && g in rings && n in [h] + rings[h] && n in [g] + rings[g] ==> h == g)
  }

  /** `node` is in no ring and is no head. */
  ghost predicate IsLoose(rings: Lists, node: Node) {
    forall h :: h in rings ==> node !in [h] + rings[h]
  }

  /** Changing one ring to `nodes`, out of its own and loose nodes, keeps all rings. */
  lemma OneRingChanged(next: Links, prev: Links, next': Links, prev': Links, rings: Lists, head: Node, nodes: seq<Node>)
    requires AllRings(next, prev, rings) && head in rings && IsRing(next', prev', [head] + nodes)
    requires forall n :: n in nodes ==> n in rings[head] || IsLoose(rings, n)
    requires forall g, n :: g in rings && g != head && n in [g] + rings[g] ==>
               n in next' && next'[n] == next[n] && n in prev' && prev'[n] == prev[n]
    ensures AllRings(next', prev', rings[head := nodes])
  {
    var r := rings[head := nodes];
    forall h | h in r ensures IsRing(next', prev', [h] + r[h]) {
      if h != head { OtherRing(next, prev, next', prev', [h] + r[h]); }
    }
    forall h, g, n | h in r && g in r && n in [h] + r[h] && n in [g] + r[g] ensures h == g {
      assert forall f :: f in r && n in [f] + r[f] && !IsLoose(rings, n) ==> n in [f] + rings[f];
    }
  }

  lemma InsertEffect(next: Links, prev: Links, rings: Lists, head: Node, k: nat, node: Node)
    requires AllRings(next, prev, rings) && head in rings && IsLoose(rings, node) && k <= |rings[head]|
    ensures var c := [head] + rings[head];
            && c[k] in next && next[c[k]] == After(c, k) && (k == |rings[head]| ==> head in prev && prev[head] == c[k])
            && AllRings(next[c[k] := node][node := After(c, k)], prev[After(c, k) := node][node := c[k]],
                        rings[head := rings[head][..k] + [node] + rings[head][k..]])
  {
    var c := [head] + rings[head];
    assert IsRing(next, prev, c) && node !in c;
    InsertKeepsRing(next, prev, c, k, node);
    var nodes := rings[head][..k] + [node] + rings[head][k..];
    assert c[..k + 1] + [node] + c[k + 1..] == [head] + nodes;
    assert c[k] in c && After(c, k) in c;
    hide IsRing;
    OneRingChanged(next, prev, next[c[k] := node][node := After(c, k)], prev[After(c, k) := node][node := c[k]],
      rings, head, nodes);
  }

  lemma RemoveEffect(next: Links, prev: Links, rings: Lists, head: Node, k: nat)
    requires AllRings(next, prev, rings) && head in rings && k < |rings[head]|
    ensures var node := rings[head][k];
            && node in next && node in prev
            && AllRings(next[prev[node] := next[node]][node := node], prev[next[node] := prev[node]][node := node],
                        rings[head := rings[head][..k] + rings[head][k + 1..]])
            && IsLoose(rings[head := rings[head][..k] + rings[head][k + 1..]], node)
  {
    var c := [head] + rings[head];
    var node := rings[head][k];
    assert c[k + 1] == node;
    assert IsRing(next, prev, c);
    RemoveKeepsRing(next, prev, c, k + 1);
    var nodes := rings[head][..k] + rings[head][k + 1..];
    assert c[..k + 1] + c[k + 2..] == [head] + nodes;
    assert prev[node] == c[k] && c[k] in c && next[node] == After(c, k + 1) && After(c, k + 1) in c && node in c;
    assert node !in [head] + nodes;
    hide IsRing;
    OneRingChanged(next, prev, next[prev[node] := next[node]][node := node],
      prev[next[node] := prev[node]][node := node], rings, head, nodes);
  }

  class ListMemory {
    var next: Links
    var prev: Links
    /** The rings in this memory: the nodes each head leads to, in order. */
    ghost var rings: Lists

    ghost predicate Valid()
      reads this
    {
      AllRings(next, prev, rings)
    }

    ghost predicate Loose(node: Node)
      reads this
    {
      IsLoose(rings, node)
    }

    constructor ()
      ensures Valid() && rings == map[]
    {
      next, prev, rings := map[], map[], map[];
    }

    /** `list_init` of a head. */
    method InitHead(head: Node)
      requires Valid() && Loose(head)
      modifies this
      ensures Valid() && rings == old(rings)[head := []]
    {
      next, prev := next[head := head], prev[head := head];
      assert IsRing(next, prev, [head] + []);
      forall h | h in rings ensures IsRing(next, prev, [h] + rings[h]) {
        OtherRing(old(next), old(prev), next, prev, [h] + rings[h]);
      }
      rings := rings[head := []];
    }

    /** `list_init` of a node outside every ring. */
    method InitNode(node: Node)
      requires Valid() && Loose(node)
      modifies this
      ensures Valid() && rings == old(rings)
    {
      next, prev := next[node := node], prev[node := node];
      forall h | h in rings ensures IsRing(next, prev, [h] + rings[h]) {
        OtherRing(old(next), old(prev), next, prev, [h] + rings[h]);
      }
    }

    /** `_list_insert`. */
    method ListInsert(node: Node, p: Node, n: Node)
      requires node != p && node != n
      modifies this`next, this`prev
      ensures next == old(next)[p := node][node := n] && prev == old(prev)[n := node][node := p]
    {
      next := next[p := node];
      prev := prev[n := node];
      prev := prev[node := p];
      next := next[node := n];
    }

    /** `_list_remove`. */
    method ListRemove(self: Node, p: Node, n: Node)
      modifies this`next, this`prev
      ensures next == old(next)[p := n][self := self] && prev == old(prev)[n := p][self := self]
    {
      next := next[p := n];
      prev := prev[n := p];
      next, prev := next[self := self], prev[self := self];
    }

    /** `list_add_last`. */
    method AddLast(node: Node, head: Node)
      requires Valid() && head in rings && Loose(node)
      modifies this
      ensures Valid() && rings == old(rings)[head := old(rings)[head] + [node]]
    {
      ghost var s := rings[head];
      InsertEffect(next, prev, rings, head, |s|, node);
      assert node !in [head] + s && ([head] + s)[|s|] in [head] + s && s[..|s|] + [node] + s[|s|..] == s + [node];
      hide AllRings, IsLoose;
      ListInsert(node, prev[head], head);
      rings := rings[head := s + [node]];
    }

    /** `list_add_first`. */
    method AddFirst(node: Node, head: Node)
      requires Valid() && head in rings && Loose(node)
      modifies this
      ensures Valid() && rings == old(rings)[head := [node] + old(rings)[head]]
    {
      ghost var s := rings[head];
      InsertEffect(next, prev, rings, head, 0, node);
      assert node !in [head] + s && After([head] + s, 0) in [head] + s && s[..0] + [node] + s[0..] == [node] + s;
      hide AllRings, IsLoose;
      ListInsert(node, head, next[head]);
      rings := rings[head := [node] + s];
    }

    /** `list_remove` of the node at position `k` of ring `head`. */
    method Remove(node: Node, ghost head: Node, ghost k: nat)
      requires Valid() && head in rings && k < |rings[head]| && rings[head][k] == node
      modifies this
      ensures Valid() && rings == old(rings)[head := old(rings)[head][..k] + old(rings)[head][k + 1..]]
      ensures Loose(node)
    {
      RemoveEffect(next, prev, rings, head, k);
      hide AllRings, IsLoose;
      ListRemove(node, prev[node], next[node]);
      rings := rings[head := rings[head][..k] + rings[head][k + 1..]];
    }

    /** `list_move`: from position `k` of ring `from` to the front of ring `to`. */
    method MoveFirst(node: Node, to: Node, ghost from: Node, ghost k: nat)
      requires Valid() && from in rings && to in rings && k < |rings[from]| && rings[from][k] == node
      modifies this
      ensures Valid()
      ensures var rest := old(rings)[from := old(rings)[from][..k] + old(rings)[from][k + 1..]];
              rings == rest[to := [node] + rest[to]]
    {
      Remove(node, from, k);
      AddFirst(node, to);
    }

    /** `list_empty`. */
    method Empty(head: Node) returns (b: bool)
      requires Valid() && head in rings
      ensures b <==> rings[head] == []
    {
      ghost var c := [head] + rings[head];
      assert IsRing(next, prev, c);
      assert rings[head] != [] ==> next[c[0]] == c[1];
      b := next[head] == head;
    }

    /** `list_front`: the first entry, and none of an empty list. */
    method Front(head: Node) returns (node: Option<Node>)
      requires Valid() && head in rings
      ensures node == if rings[head] == [] then None else Some(rings[head][0])
    {
      ghost var c := [head] + rings[head];
      assert IsRing(next, prev, c);
      assert rings[head] != [] ==> next[c[0]] == c[1];
      var none := Empty(head);
      node := if none then None else Some(next[head]);
    }
  }
}
