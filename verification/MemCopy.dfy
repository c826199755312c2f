/** `memcpy` and `memmove`. The word-at-a-time `memcpy` refines a byte-by-byte forward copy of a length that is, for
    some alignments, up to seven bytes more than was asked for. */
module MemCopy {
  import opened Machine

  const WORD: nat := 8

  // ---------- Byte-by-byte copies ----------

  predicate Within(m: seq<bv8>, at: nat, n: nat) { at + n <= |m| }

  /** Copying n bytes upwards, one at a time. */
  function Forward(m: seq<bv8>, dst: nat, src: nat, n: nat): (r: seq<bv8>)
    requires Within(m, dst, n) && Within(m, src, n)
    ensures |r| == |m|
    decreases n
  {
    if n == 0 then m else Forward(m[dst := m[src]], dst + 1, src + 1, n - 1)
  }

  /** What a copy is for: the target holds the old source and nothing else changes. */
  function Copied(m: seq<bv8>, dst: nat, src: nat, n: nat): (r: seq<bv8>)
    requires Within(m, dst, n) && Within(m, src, n)
    ensures |r| == |m|
  {
    m[..dst] + m[src..src + n] + m[dst + n..]
  }

  lemma {:induction false} ForwardSplit(m: seq<bv8>, dst: nat, src: nat, a: nat, b: nat)
    requires Within(m, dst, a + b) && Within(m, src, a + b)
    ensures Forward(m, dst, src, a + b) == Forward(Forward(m, dst, src, a), dst + a, src + a, b)
    decreases a
  {
    if a > 0 { ForwardSplit(m[dst := m[src]], dst + 1, src + 1, a - 1, b); }
  }

  lemma ForwardLast(m: seq<bv8>, dst: nat, src: nat, n: nat)
    requires Within(m, dst, n) && Within(m, src, n) && n > 0
    ensures var f := Forward(m, dst, src, n - 1); Forward(m, dst, src, n) == f[dst + n - 1 := f[src + n - 1]]
  {
    ForwardSplit(m, dst, src, n - 1, 1);
    var f := Forward(m, dst, src, n - 1);
    assert Forward(f[dst + n - 1 := f[src + n - 1]], dst + n, src + n, 0) == f[dst + n - 1 := f[src + n - 1]];
  }

  /** A forward copy to a lower address, or to one past the source, copies. */
  lemma {:induction false} ForwardCopies(m: seq<bv8>, dst: nat, src: nat, n: nat)
    requires Within(m, dst, n) && Within(m, src, n) && (dst <= src || src + n <= dst)
    ensures Forward(m, dst, src, n) == Copied(m, dst, src, n)
  {
    if n == 0 {
      assert m[..dst] + [] + m[dst..] == m;
    } else {
      ForwardLast(m, dst, src, n);
      ForwardCopies(m, dst, src, n - 1);
      hide Forward;
      CopiedLast(m, dst, src, n);
    }
  }

  lemma CopiedLast(m: seq<bv8>, dst: nat, src: nat, n: nat)
    requires Within(m, dst, n) && Within(m, src, n) && (dst <= src || src + n <= dst) && n > 0
    ensures var f := Copied(m, dst, src, n - 1); f[dst + n - 1 := f[src + n - 1]] == Copied(m, dst, src, n)
  {
    var f, c := Copied(m, dst, src, n - 1), Copied(m, dst, src, n);
    assert f[src + n - 1] == m[src + n - 1];
    forall k | 0 <= k < |m| ensures f[dst + n - 1 := f[src + n - 1]][k] == c[k] {
      CopiedAt(m, dst, src, n - 1, k);
      CopiedAt(m, dst, src, n, k);
    }
  }

  lemma CopiedAt(m: seq<bv8>, dst: nat, src: nat, n: nat, k: nat)
    requires Within(m, dst, n) && Within(m, src, n) && k < |m|
    ensures Copied(m, dst, src, n)[k] == if dst <= k < dst + n then m[src + (k - dst)] else m[k]
  {
  }

  /** A forward copy to an address inside the source reads what it has written: it repeats the first bytes. */
  lemma ForwardRepeats(m: seq<bv8>, dst: nat, src: nat, n: nat)
    requires Within(m, dst, n) && Within(m, src, n) && src < dst < src + n
    ensures Forward(m, dst, src, n)[dst + (dst - src)] == m[src]
  {
    var k := dst - src;
    ForwardCopies(m, dst, src, k);
    ForwardLast(m, dst, src, k + 1);
    var g := Forward(m, dst, src, k + 1);
    assert g[dst + k] == Forward(m, dst, src, k)[dst] == m[src];
    ForwardSplit(m, dst, src, k + 1, n - k - 1);
    hide Forward;
    Untouched(g, dst + k + 1, src + k + 1, n - k - 1);
    assert Forward(m, dst, src, n)[dst + k] == Forward(m, dst, src, n)[..dst + k + 1][dst + k];
  }

  lemma {:induction false} Untouched(m: seq<bv8>, dst: nat, src: nat, n: nat)
    requires Within(m, dst, n) && Within(m, src, n)
    ensures Forward(m, dst, src, n)[..dst] == m[..dst] && Forward(m, dst, src, n)[dst + n..] == m[dst + n..]
    decreases n
  {
    if n > 0 {
      Untouched(m[dst := m[src]], dst + 1, src + 1, n - 1);
      assert Forward(m, dst, src, n)[..dst] == Forward(m, dst, src, n)[..dst + 1][..dst];
    }
  }

  // ---------- The length that memcpy copies ----------

  function WordUp(a: nat): nat { (a + WORD - 1) / WORD * WORD }

  function WordDown(a: nat): nat { a / WORD * WORD }

  /** The bytes copied one at a time until the target is aligned. */
  function Head(dst: nat, n: nat): nat {
    if WordUp(dst) - dst < n then WordUp(dst) - dst else n
  }

  /** The word loop runs, and the target does not end on a word. */
  predicate Overruns(dst: nat, src: nat, n: nat) {
    src % WORD == dst % WORD && WordUp(dst) + WORD <= dst + n && (dst + n) % WORD != 0
  }

  function Reach(dst: nat, src: nat, n: nat): nat {
    if Overruns(dst, src, n) then WordUp(dst + n) - dst else n
  }

  lemma WordUpIs(a: nat)
    ensures WordUp(a) == a + (WORD - a % WORD) % WORD && WordUp(a) % WORD == 0
    ensures WordDown(a) == a - a % WORD
  {
  }

  /** The words that memcpy goes past lie in any memory of whole words that holds both ranges. */
  lemma ReachStays(dst: nat, src: nat, n: nat, size: nat)
    requires size % WORD == 0 && dst + n <= size && src + n <= size
    ensures n <= Reach(dst, src, n) < n + WORD
    ensures dst + Reach(dst, src, n) <= size && src + Reach(dst, src, n) <= size
    ensures Overruns(dst, src, n) <==> src % 8 == dst % 8 && (dst + 7) / 8 * 8 + 8 <= dst + n && (dst + n) % 8 != 0
    ensures Reach(dst, src, n) == n <==> !Overruns(dst, src, n)
    ensures Overruns(dst, src, n) ==> (dst + Reach(dst, src, n)) % 8 == 0
  {
    WordUpIs(dst + n);
    WordUpFits(dst + n, size);
    WordUpFits(src + n, size);
    if src % WORD == dst % WORD { SameOffset(src, dst, n); }
    hide WordUp;
  }

  lemma SameOffset(a: nat, b: nat, n: nat)
    requires a % WORD == b % WORD
    ensures (a + n) % WORD == (b + n) % WORD
  {
  }

  lemma WordUpFits(a: nat, size: nat)
    requires size % WORD == 0 && a <= size
    ensures WordUp(a) == a + (WORD - a % WORD) % WORD && a <= WordUp(a) <= size
  {
    WordUpIs(a);
  }

  /** The byte after the target is overwritten with the byte after the source. */
  lemma OverrunWrites(m: seq<bv8>, dst: nat, src: nat, n: nat)
    requires Overruns(dst, src, n) && |m| % WORD == 0 && Within(m, dst, n) && Within(m, src, n) && dst < src
    ensures Within(m, dst, Reach(dst, src, n)) && Within(m, src, Reach(dst, src, n))
    ensures Forward(m, dst, src, Reach(dst, src, n))[dst + n] == m[src + n]
  {
    ReachStays(dst, src, n, |m|);
    ForwardCopies(m, dst, src, Reach(dst, src, n));
  }

  // ---------- memcpy ----------

  /** Storing one word: eight bytes read, then eight written. */
  method CopyWord(mem: array<bv8>, d: nat, s: nat)
    requires Whole(d) && Whole(s) && d + WORD <= mem.Length && s + WORD <= mem.Length
    modifies mem
    ensures mem[..] == Forward(old(mem[..]), d, s, WORD)
  {
    var word := mem[s..s + WORD];
    forall i | 0 <= i < WORD {
      mem[d + i] := word[i];
    }
    ForwardCopies(old(mem[..]), d, s, WORD);
    assert mem[..] == Copied(old(mem[..]), d, s, WORD);
  }

  predicate Whole(a: nat) { a % WORD == 0 }

  /** The word loop, from aligned addresses, with `left` bytes to go. Its second condition does not change while it
      runs. */
  method CopyWords(mem: array<bv8>, d: nat, s: nat, left: nat, end: nat) returns (words: nat)
    requires Whole(mem.Length) && d + left <= mem.Length && s + left <= mem.Length
    requires left > 0 ==> Whole(d) && Whole(s)
    modifies mem
    ensures words == if d < end then WordUp(left) else 0
    ensures d + words <= mem.Length && s + words <= mem.Length
    ensures mem[..] == Forward(old(mem[..]), d, s, words)
  {
    hide Forward, WordUp, Whole;
    var sz: int := left;
    words := 0;
    NoBytes(mem[..], d, s);
    NoWords();
    while sz > 0 && d < end
      invariant sz == left - words && Whole(words) && words < left + WORD && (words > 0 ==> d < end)
      invariant left > 0 ==> Whole(d + words) && Whole(s + words)
      invariant d + words <= mem.Length && s + words <= mem.Length
      invariant mem[..] == Forward(old(mem[..]), d, s, words)
    {
      NextWord(d + words, mem.Length);
      NextWord(s + words, mem.Length);
      NextWord(words, words + WORD);
      ForwardSplit(old(mem[..]), d, s, words, WORD);
      CopyWord(mem, d + words, s + words);
      words, sz := words + WORD, sz - WORD;
    }
    WordUpWithin(left, words);
  }

  lemma NoWords()
    ensures Whole(0)
  {
  }

  lemma NoBytes(m: seq<bv8>, dst: nat, src: nat)
    requires dst <= |m| && src <= |m|
    ensures Forward(m, dst, src, 0) == m
  {
  }

  lemma NextWord(a: nat, size: nat)
    requires Whole(a) && a < size
    ensures Whole(a + WORD) && (Whole(size) ==> a + WORD <= size)
  {
  }

  lemma WordUpWithin(a: nat, w: nat)
    requires Whole(w) && w < a + WORD
    ensures w >= a ==> w == WordUp(a)
  {
    WordUpIs(a);
  }

  /** What the three loops copy together. */
  lemma ReachIs(dst: nat, src: nat, n: nat)
    ensures var head := Head(dst, n);
            var words := if (src + head) % WORD == 0 && dst + head < WordDown(dst + n) then WordUp(n - head) else 0;
            && (n > head ==> (dst + head) % WORD == 0)
            && head + (if words > n - head then words else n - head) == Reach(dst, src, n)
  {
    WordUpIs(dst);
    WordUpIs(dst + n);
    hide WordUp, WordDown;
    var head := Head(dst, n);
    if n > head {
      HeadAligned(dst, head);
      SameOffset(dst + head, 0, n - head);
      if src % WORD == dst % WORD { SameOffset(src, dst, head); }
      if (src + head) % WORD == 0 { OffsetBack(src, dst, head); }
      LeftUp(dst + head, n - head);
    }
  }

  lemma HeadAligned(dst: nat, head: nat)
    requires head == WordUp(dst) - dst
    ensures (dst + head) % WORD == 0
  {
    WordUpIs(dst);
  }

  /** Words counted from an aligned address end where words of the whole range do. */
  lemma LeftUp(d: nat, left: nat)
    requires d % WORD == 0
    ensures d + WordUp(left) == WordUp(d + left) && WordUp(left) >= left
    ensures (d + left) % WORD == 0 ==> WordUp(left) == left
    ensures d < WordDown(d + left) <==> WORD <= left
  {
    WordUpIs(left);
    WordUpIs(d + left);
    SameOffset(d, 0, left);
    hide WordUp, WordDown;
  }

  lemma OffsetBack(a: nat, b: nat, n: nat)
    requires (a + n) % WORD == (b + n) % WORD
    ensures a % WORD == b % WORD
  {
  }

  ghost function MemcpyOf(m: seq<bv8>, dst: nat, src: nat, n: nat): (r: seq<bv8>)
    requires |m| % WORD == 0 && Within(m, dst, n) && Within(m, src, n)
    ensures |r| == |m|
  {
    ReachStays(dst, src, n, |m|);
    Forward(m, dst, src, Reach(dst, src, n))
  }

  /** A byte loop: it stops after `left` bytes or when the target reaches `stop`. */
  method CopyBytes(mem: array<bv8>, dst: nat, src: nat, left: nat, stop: nat) returns (done: nat)
    requires dst + left <= mem.Length && src + left <= mem.Length && dst <= stop
    modifies mem
    ensures done == if stop - dst < left then stop - dst else left
    ensures mem[..] == Forward(old(mem[..]), dst, src, done)
  {
    var d, s, sz := dst, src, left;
    while sz > 0 && d < stop
      invariant d == dst + (left - sz) && s == src + (left - sz) && d <= stop
      invariant mem[..] == Forward(old(mem[..]), dst, src, left - sz)
    {
      ForwardLast(old(mem[..]), dst, src, left - sz + 1);
      mem[d] := mem[s];
      d, s, sz := d + 1, s + 1, sz - 1;
    }
    done := left - sz;
  }

  /** `memcpy`, on a memory of whole words: bytes up to the first word of the target, words when the source is then
      aligned too, and bytes for what is left. */
  method Memcpy(mem: array<bv8>, dst: nat, src: nat, n: nat)
    requires mem.Length % WORD == 0 && dst + n <= mem.Length && src + n <= mem.Length
    modifies mem
    ensures mem[..] == MemcpyOf(old(mem[..]), dst, src, n)
  {
    hide Forward, WordUp, WordDown, Reach;
    WordUpFits(dst, mem.Length);
    ReachIs(dst, src, n);
    ReachStays(dst, src, n, mem.Length);
    var head := CopyBytes(mem, dst, src, n, WordUp(dst));
    var d, s, sz := dst + head, src + head, n - head;
    var words := 0;
    ghost var m := mem[..];
    if s % WORD == 0 {
      words := CopyWords(mem, d, s, sz, WordDown(dst + n));
    } else {
      NoBytes(m, d, s);
    }
    ForwardSplit(old(mem[..]), dst, src, head, words);
    if words < sz {
      var tail := CopyBytes(mem, d + words, s + words, sz - words, d + sz);
      ForwardSplit(old(mem[..]), dst, src, head + words, tail);
    }
  }

  /** `memcpy` copies whenever the target does not start inside the source, and changes nothing else unless it runs
      over. */
  lemma MemcpyCopies(m: seq<bv8>, dst: nat, src: nat, n: nat)
    requires |m| % WORD == 0 && Within(m, dst, n) && Within(m, src, n) && (dst <= src || src + n <= dst)
    ensures MemcpyOf(m, dst, src, n)[dst..dst + n] == m[src..src + n]
    ensures MemcpyOf(m, dst, src, n)[..dst] == m[..dst]
    ensures !Overruns(dst, src, n) ==> MemcpyOf(m, dst, src, n) == Copied(m, dst, src, n)
  {
    hide Forward, Overruns, Reach, Copied;
    ReachStays(dst, src, n, |m|);
    var over := Reach(dst, src, n) - n;
    ForwardSplit(m, dst, src, n, over);
    ForwardCopies(m, dst, src, n);
    var f := Copied(m, dst, src, n);
    Untouched(f, dst + n, src + n, over);
    NoBytes(f, dst + n, src + n);
    CopiedIs(m, dst, src, n);
    SharedPrefix(f, Forward(f, dst + n, src + n, over), dst, n);
  }

  lemma SharedPrefix(f: seq<bv8>, g: seq<bv8>, at: nat, n: nat)
    requires |f| == |g| && at + n <= |f| && g[..at + n] == f[..at + n]
    ensures g[..at] == f[..at] && g[at..at + n] == f[at..at + n]
  {
    assert forall h: seq<bv8> | |h| == |f| :: h[..at] == h[..at + n][..at] && h[at..at + n] == h[..at + n][at..];
  }

  /** `memmove`, on addresses that are words of 64 bits: the unsigned difference tells whether the target starts inside
      the source, and only then is the copy made downwards. */
  method Memmove(mem: array<bv8>, dst: nat, src: nat, n: nat)
    requires mem.Length % WORD == 0 && dst + n <= mem.Length < W64 && src + n <= mem.Length
    modifies mem
    ensures mem[dst..dst + n] == old(mem[src..src + n]) && mem[..dst] == old(mem[..dst])
    ensures !Overruns(dst, src, n) || src <= dst < src + n ==> mem[..] == Copied(old(mem[..]), dst, src, n)
    ensures !(src <= dst < src + n) ==> mem[..] == MemcpyOf(old(mem[..]), dst, src, n)
  {
    hide MemcpyOf, Overruns, Copied;
    ghost var m := mem[..];
    CopiedIs(m, dst, src, n);
    if (dst - src) % W64 >= n {
      MemcpyCopies(m, dst, src, n);
      Memcpy(mem, dst, src, n);
    } else {
      CopyDown(mem, dst, src, n);
    }
    assert mem[dst..dst + n] == mem[..][dst..dst + n] && mem[..dst] == mem[..][..dst];
  }

  /** The parts of a copy. */
  lemma CopiedIs(m: seq<bv8>, dst: nat, src: nat, n: nat)
    requires Within(m, dst, n) && Within(m, src, n)
    ensures Copied(m, dst, src, n)[dst..dst + n] == m[src..src + n] && Copied(m, dst, src, n)[..dst] == m[..dst]
    ensures Copied(m, dst, src, 0) == m
  {
  }

  /** The loop of `memmove` that copies from the last byte to the first. */
  method CopyDown(mem: array<bv8>, dst: nat, src: nat, n: nat)
    requires dst + n <= mem.Length && src <= dst
    modifies mem
    ensures mem[..] == Copied(old(mem[..]), dst, src, n)
  {
    hide Copied;
    ghost var m := mem[..];
    var k: nat := n;
    CopiedIs(m, dst + n, src + n, 0);
    while k > 0
      invariant k <= n && mem[..] == Copied(m, dst + k, src + k, n - k)
    {
      k := k - 1;
      CopiedDown(m, dst + k, src + k, n - k);
      mem[dst + k] := mem[src + k];
    }
  }

  /** One byte more, at the lower end, of a copy to a higher address. */
  lemma CopiedDown(m: seq<bv8>, dst: nat, src: nat, n: nat)
    requires Within(m, dst, n) && Within(m, src, n) && src <= dst && n > 0
    ensures var f := Copied(m, dst + 1, src + 1, n - 1); Copied(m, dst, src, n) == f[dst := f[src]]
  {
  }
}
