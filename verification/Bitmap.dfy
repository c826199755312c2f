/** The byte-wise bitmap of the boot allocator: setting and searching bit ranges through head masks, whole bytes
    and tail masks, refined to single bits. */
module Bitmap {
  import opened Machine

  /** Bit `j` of a byte, as a mask. */
  function One(j: nat): bv8
    requires j < 8
  {
    if j == 0 then 1 else if j == 1 then 2 else if j == 2 then 4 else if j == 3 then 8
    else if j == 4 then 16 else if j == 5 then 32 else if j == 6 then 64 else 128
  }

  /** `bit_mask(k)` cut to a byte. */
  function LowMask(k: nat): bv8
    requires k <= 8
  {
    if k == 0 then 0 else if k == 1 then 1 else if k == 2 then 3 else if k == 3 then 7 else if k == 4 then 15
    else if k == 5 then 31 else if k == 6 then 63 else if k == 7 then 127 else 255
  }

  predicate BitOf(b: bv8, j: nat)
    requires j < 8
  {
    b & One(j) != 0
  }

  function SetByte(b: bv8, mask: bv8, value: bool): bv8 { if value then b | mask else b & !mask }

  /** A byte with the bits outside `mask` made to look unlike `value`. */
  function Masked(b: bv8, mask: bv8, value: bool): bv8 { if value then b & mask else b | !mask }

  lemma LowMaskBit(k: nat, j: nat)
    requires k <= 8 && j < 8
    ensures BitOf(LowMask(k), j) <==> j < k
    ensures BitOf(!LowMask(k), j) <==> j >= k
  {
  }

  lemma BitOps(a: bv8, b: bv8, j: nat)
    requires j < 8
    ensures BitOf(a | b, j) <==> BitOf(a, j) || BitOf(b, j)
    ensures BitOf(a & b, j) <==> BitOf(a, j) && BitOf(b, j)
    ensures BitOf(!a, j) <==> !BitOf(a, j)
  {
    OneIsOneBit(j);
    hide One;
    MaskOps(a, b, One(j));
  }

  predicate OneBit(m: bv8) {
    m == 1 || m == 2 || m == 4 || m == 8 || m == 16 || m == 32 || m == 64 || m == 128
  }

  lemma OneIsOneBit(j: nat)
    requires j < 8
    ensures OneBit(One(j))
  {
  }

  lemma MaskOps(a: bv8, b: bv8, m: bv8)
    requires OneBit(m)
    ensures (a | b) & m != 0 <==> a & m != 0 || b & m != 0
    ensures (a & b) & m != 0 <==> a & m != 0 && b & m != 0
    ensures !a & m != 0 <==> a & m == 0
  {
  }

  lemma SetByteBit(b: bv8, mask: bv8, value: bool, j: nat)
    requires j < 8
    ensures BitOf(SetByte(b, mask, value), j) == if BitOf(mask, j) then value else BitOf(b, j)
  {
    BitOps(b, mask, j);
    BitOps(b, !mask, j);
    BitOps(mask, mask, j);
  }

  lemma MaskedBit(b: bv8, mask: bv8, value: bool, j: nat)
    requires j < 8
    ensures BitOf(Masked(b, mask, value), j) == value <==> BitOf(mask, j) && BitOf(b, j) == value
  {
    BitOps(b, mask, j);
    BitOps(b, !mask, j);
    BitOps(mask, mask, j);
  }

  function Skip(value: bool): bv8 { if value then 0 else 0xFF }

  /** A byte differs from the skip pattern exactly when one of its bits has the value looked for. */
  lemma SkipByte(b: bv8, value: bool)
    ensures b == Skip(value) <==> forall j :: 0 <= j < 8 ==> BitOf(b, j) != value
  {
    if b != Skip(value) {
      assert BitOf(b, 0) == value || BitOf(b, 1) == value || BitOf(b, 2) == value || BitOf(b, 3) == value
          || BitOf(b, 4) == value || BitOf(b, 5) == value || BitOf(b, 6) == value || BitOf(b, 7) == value;
    }
  }

  predicate Odd(b: bv8) { b & 1 != 0 }

  function Half(b: bv8): bv8 { b >> 1 }

  /** The position of the lowest clear bit of a byte, 8 when all are set. */
  function LowestClear(b: bv8): nat {
    if !BitOf(b, 0) then 0 else if !BitOf(b, 1) then 1 else if !BitOf(b, 2) then 2 else if !BitOf(b, 3) then 3
    else if !BitOf(b, 4) then 4 else if !BitOf(b, 5) then 5 else if !BitOf(b, 6) then 6
    else if !BitOf(b, 7) then 7 else 8
  }

  lemma LowestClearHalf(b: bv8)
    ensures Odd(b) ==> LowestClear(b) == 1 + LowestClear(Half(b))
    ensures !Odd(b) ==> LowestClear(b) == 0
  {
  }

  /** The byte whose lowest clear bit is the lowest bit of `found` with the value. */
  function Flip(found: bv8, value: bool): bv8 { if value then !found else found }

  lemma FlipBits(found: bv8, value: bool)
    requires found != Skip(value)
    ensures var pos := LowestClear(Flip(found, value));
            pos < 8 && BitOf(found, pos) == value && forall j :: 0 <= j < pos ==> BitOf(found, j) != value
  {
    hide BitOf;
    SkipByte(found, value);
    forall j | 0 <= j < 8
      ensures BitOf(Flip(found, value), j) <==> BitOf(found, j) != value
    {
      BitOps(found, found, j);
    }
  }

  /** The closing loop of `bitmap_find`: the lowest bit with the value looked for. */
  method LowestBit(found: bv8, value: bool) returns (pos: nat)
    requires found != Skip(value)
    ensures pos < 8 && BitOf(found, pos) == value && forall j :: 0 <= j < pos ==> BitOf(found, j) != value
  {
    hide BitOf, Skip, Odd, Half, Flip, LowestClear;
    FlipBits(found, value);
    var byte := Flip(found, value);
    pos := 0;
    LowestClearHalf(byte);
    while Odd(byte)
      invariant pos + LowestClear(byte) == LowestClear(Flip(found, value))
      decreases LowestClear(byte)
    {
      LowestClearHalf(byte);
      pos := pos + 1;
      byte := Half(byte);
    }
    LowestClearHalf(byte);
  }

  function Min(a: nat, b: nat): nat { if a < b then a else b }

  /** The cut points shared by `bitmap_set` and `bitmap_find`: first and end bit, first whole byte, end byte, and
      the bits left over on either side. */
  datatype Span = Span(startBit: nat, endBit: nat, startByte: nat, endByte: nat, head: nat, tail: nat)

  function SpanOf(size: nat, start: nat, len: nat): (s: Span)
    ensures s.head < 8 && s.tail < 8
    ensures s.startByte * 8 == s.startBit + s.head && s.endByte * 8 + s.tail == s.endBit
  {
    var startBit := Min(size, start);
    var endBit := Min(size, (start + len) % W64);
    var startByte := (startBit + 7) / 8;
    Span(startBit, endBit, startByte, endBit / 8, startByte * 8 - startBit, endBit % 8)
  }

  /** Bit `p` of a byte string. */
  predicate Bit(bytes: seq<bv8>, p: nat)
    requires p / 8 < |bytes|
  {
    BitOf(bytes[p / 8], p % 8)
  }

  /** The mask of the bits of byte `y` that lie in [lo, hi). */
  ghost predicate Selects(mask: bv8, y: nat, lo: nat, hi: nat) {
    forall j :: 0 <= j < 8 ==> (BitOf(mask, j) <==> lo <= 8 * y + j < hi)
  }

  lemma HeadMask(s: Span)
    requires s.head < 8 && s.startByte > 0 && s.startByte * 8 == s.startBit + s.head && s.startByte * 8 <= s.endBit
    ensures Selects(!LowMask(8 - s.head), s.startByte - 1, s.startBit, s.endBit)
  {
    hide BitOf, LowMask;
    var mask := !LowMask(8 - s.head);
    forall j | 0 <= j < 8 ensures BitOf(mask, j) <==> 8 - s.head <= j { LowMaskBit(8 - s.head, j); }
  }

  lemma TailMask(s: Span)
    requires s.tail < 8 && s.endByte * 8 + s.tail == s.endBit && s.startBit <= s.endByte * 8
    ensures Selects(LowMask(s.tail), s.endByte, s.startBit, s.endBit)
  {
    hide BitOf, LowMask;
    forall j | 0 <= j < 8 ensures BitOf(LowMask(s.tail), j) <==> j < s.tail { LowMaskBit(s.tail, j); }
  }

  /** The mask of a range inside one byte. */
  lemma InnerMask(s: Span)
    requires s.head < 8 && s.tail < 8 && s.startByte > 0 && s.startByte * 8 == s.startBit + s.head
    ensures Selects(!LowMask(8 - s.head) & LowMask(s.tail), s.startByte - 1, s.startBit, 8 * (s.startByte - 1) + s.tail)
  {
    hide BitOf, LowMask;
    var mask := !LowMask(8 - s.head) & LowMask(s.tail);
    forall j | 0 <= j < 8 ensures BitOf(mask, j) <==> 8 - s.head <= j < s.tail {
      LowMaskBit(8 - s.head, j);
      LowMaskBit(s.tail, j);
      BitOps(!LowMask(8 - s.head), LowMask(s.tail), j);
    }
  }

  /** Byte `y` has been set: its bits in [lo, hi) have the value, the others are as they were. */
  ghost predicate ByteSet(before: bv8, after: bv8, y: nat, lo: nat, hi: nat, value: bool) {
    forall j :: 0 <= j < 8 ==> BitOf(after, j) == if lo <= 8 * y + j < hi then value else BitOf(before, j)
  }

  lemma MaskSets(b: bv8, mask: bv8, value: bool, y: nat, lo: nat, hi: nat)
    requires Selects(mask, y, lo, hi)
    ensures ByteSet(b, SetByte(b, mask, value), y, lo, hi, value)
  {
    forall j | 0 <= j < 8 ensures BitOf(SetByte(b, mask, value), j) == if BitOf(mask, j) then value else BitOf(b, j) {
      SetByteBit(b, mask, value, j);
    }
  }

  lemma FillSets(b: bv8, value: bool, y: nat, lo: nat, hi: nat)
    requires lo <= 8 * y && 8 * y + 8 <= hi
    ensures ByteSet(b, if value then 0xFF else 0, y, lo, hi, value)
  {
    forall j | 0 <= j < 8 ensures BitOf(0xFF, j) && !BitOf(0, j) {
      LowMaskBit(8, j);
      LowMaskBit(0, j);
    }
  }

  /** The range [lo, hi) of the bitmap has been set. */
  ghost predicate RangeSet(before: seq<bv8>, after: seq<bv8>, lo: nat, hi: nat, value: bool) {
    |after| == |before| && forall y :: 0 <= y < |before| ==> ByteSet(before[y], after[y], y, lo, hi, value)
  }

  lemma RangeSetBits(before: seq<bv8>, after: seq<bv8>, lo: nat, hi: nat, value: bool, p: nat)
    requires RangeSet(before, after, lo, hi, value) && p / 8 < |before|
    ensures Bit(after, p) == if lo <= p < hi then value else Bit(before, p)
  {
    assert 8 * (p / 8) + p % 8 == p;
    assert ByteSet(before[p / 8], after[p / 8], p / 8, lo, hi, value);
  }

  lemma ByteUnset(b: bv8, y: nat, lo: nat, hi: nat, value: bool)
    requires 8 * y + 8 <= lo || hi <= 8 * y
    ensures ByteSet(b, b, y, lo, hi, value)
  {
  }

  // ---------- Searching ----------

  /** No bit of byte `y` below position `upto` and in [lo, hi) has the value. */
  ghost predicate Misses(b: bv8, y: nat, lo: nat, hi: nat, value: bool, upto: nat) {
    upto <= 8 && forall j :: 0 <= j < upto && lo <= 8 * y + j < hi ==> BitOf(b, j) != value
  }

  lemma MaskedMisses(b: bv8, mask: bv8, value: bool, y: nat, lo: nat, hi: nat)
    requires Selects(mask, y, lo, hi) && Masked(b, mask, value) == Skip(value)
    ensures Misses(b, y, lo, hi, value, 8)
  {
    SkipByte(Masked(b, mask, value), value);
    forall j | 0 <= j < 8 && lo <= 8 * y + j < hi ensures BitOf(b, j) != value { MaskedBit(b, mask, value, j); }
  }

  lemma MaskedHits(b: bv8, mask: bv8, value: bool, y: nat, lo: nat, hi: nat, pos: nat)
    requires Selects(mask, y, lo, hi) && pos < 8 && BitOf(Masked(b, mask, value), pos) == value
    requires forall j :: 0 <= j < pos ==> BitOf(Masked(b, mask, value), j) != value
    ensures lo <= 8 * y + pos < hi && BitOf(b, pos) == value && Misses(b, y, lo, hi, value, pos)
  {
    MaskedBit(b, mask, value, pos);
    forall j | 0 <= j < pos && lo <= 8 * y + j < hi ensures BitOf(b, j) != value { MaskedBit(b, mask, value, j); }
  }

  lemma FullMask(b: bv8, value: bool, y: nat, lo: nat, hi: nat)
    requires lo <= 8 * y && 8 * y + 8 <= hi
    ensures Selects(0xFF, y, lo, hi)
  {
    forall j | 0 <= j < 8 ensures BitOf(0xFF, j) { LowMaskBit(8, j); }
  }

  lemma MissesOutside(b: bv8, y: nat, lo: nat, hi: nat, value: bool)
    requires 8 * y + 8 <= lo || hi <= 8 * y
    ensures Misses(b, y, lo, hi, value, 8)
  {
  }

  /** `r` is the lowest position of [lo, hi) whose bit has the value, or -1 when there is none. */
  ghost predicate FirstBit(bytes: seq<bv8>, lo: nat, hi: nat, value: bool, r: int) {
    && (r == -1 || lo <= r < hi)
    && (r != -1 && r / 8 < |bytes| ==> Bit(bytes, r) == value)
    && (forall p: nat :: lo <= p < (if r == -1 then hi else r) && p / 8 < |bytes| ==> Bit(bytes, p) != value)
  }

  lemma FirstFound(bytes: seq<bv8>, lo: nat, hi: nat, value: bool, y: nat, pos: nat)
    requires y < |bytes| && pos < 8 && lo <= 8 * y + pos < hi && BitOf(bytes[y], pos) == value
    requires Misses(bytes[y], y, lo, hi, value, pos)
    requires forall x :: 0 <= x < y ==> Misses(bytes[x], x, lo, hi, value, 8)
    ensures FirstBit(bytes, lo, hi, value, 8 * y + pos)
  {
    assert (8 * y + pos) / 8 == y && (8 * y + pos) % 8 == pos;
    forall p: nat | lo <= p < 8 * y + pos && p / 8 < |bytes| ensures Bit(bytes, p) != value {
      assert p == 8 * (p / 8) + p % 8;
    }
  }

  lemma NoneFound(bytes: seq<bv8>, lo: nat, hi: nat, value: bool)
    requires forall x :: 0 <= x < |bytes| ==> Misses(bytes[x], x, lo, hi, value, 8)
    ensures FirstBit(bytes, lo, hi, value, -1)
  {
    forall p: nat | lo <= p < hi && p / 8 < |bytes| ensures Bit(bytes, p) != value {
      assert p == 8 * (p / 8) + p % 8;
    }
  }

  lemma SpanBounds(size: nat, start: nat, len: nat)
    requires start < W64 && len < W64 && size < W64 && (start + len < W64 || start >= size)
    ensures var s := SpanOf(size, start, len);
      && s.startBit == Min(size, start) && s.startByte * 8 < size + 8 && s.endBit <= size
      && (s.endByte >= s.startByte ==> s.startBit <= s.endBit)
      && (s.endByte < s.startByte ==> 0 < s.startByte && 8 * (s.startByte - 1) + s.tail < size + 8)
      && (start + len < W64 ==> s.endBit == Min(size, start + len)
                                && (s.endByte < s.startByte ==> 8 * (s.startByte - 1) + s.tail == s.endBit))
  {
  }

  /** A first bit of the clamped range is a first bit of the range asked for. */
  lemma FirstBitAt(bytes: seq<bv8>, size: nat, start: nat, end: nat, value: bool, lo: nat, hi: nat, r: int)
    requires FirstBit(bytes, lo, hi, value, r) && size <= 8 * |bytes| && lo == Min(size, start)
    ensures r >= -1 && (r == -1 || r < hi) && (start >= size ==> r == -1 || r >= size)
    ensures hi == Min(size, end) ==>
              && (r != -1 ==> start <= r < end && r < size && Bit(bytes, r) == value)
              && (forall p: nat :: p < size && start <= p < (if r == -1 then end else r) ==> Bit(bytes, p) != value)
  {
    hide BitOf, Bit;
  }

  class BitArray {
    const bytes: array<bv8>
    const size: nat

    ghost predicate Valid() { size <= 8 * bytes.Length && size < W64 }

    /** `bitmap_init`. */
    constructor (buffer: array<bv8>, bits: nat)
      requires bits <= 8 * buffer.Length && bits < W64
      ensures Valid() && bytes == buffer && size == bits
    {
      bytes, size := buffer, bits;
    }

    /** The bit of page `p`. */
    predicate At(p: nat)
      requires p < size && Valid()
      reads bytes
    {
      Bit(bytes[..], p)
    }

    /** `bitmap_set`. A range may end past the bitmap; its end may wrap only when it also starts past it. */
    method Set(value: bool, start: nat, len: nat)
      requires Valid() && start < W64 && len < W64 && (start + len < W64 || start >= size)
      modifies bytes
      ensures forall p: nat :: p < size ==> At(p) == if start <= p < start + len then value else old(At(p))
    {
      hide BitOf, LowMask, RangeSet, SpanOf;
      ghost var before := bytes[..];
      var s := SpanOf(size, start, len);
      SpanBounds(size, start, len);
      ghost var hi := if s.endByte < s.startByte then 8 * (s.startByte - 1) + s.tail else s.endBit;
      if s.endByte < s.startByte {
        SetWithin(s, value);
      } else {
        SetAcross(s, value);
      }
      forall p: nat | p < size ensures At(p) == if start <= p < start + len then value else Bit(before, p) {
        RangeSetBits(before, bytes[..], s.startBit, hi, value, p);
      }
    }

    method SetMasked(y: nat, mask: bv8, value: bool)
      requires y < bytes.Length
      modifies bytes
      ensures bytes[..] == old(bytes[..])[y := SetByte(old(bytes[y]), mask, value)]
    {
      bytes[y] := SetByte(bytes[y], mask, value);
    }

    /** A range inside one byte. */
    method SetWithin(s: Span, value: bool)
      requires s.head < 8 && s.tail < 8 && 0 < s.startByte <= bytes.Length && s.startByte * 8 == s.startBit + s.head
      modifies bytes
      ensures RangeSet(old(bytes[..]), bytes[..], s.startBit, 8 * (s.startByte - 1) + s.tail, value)
    {
      hide BitOf, LowMask, Selects, SetByte;
      InnerMask(s);
      MaskSets(bytes[s.startByte - 1], !LowMask(8 - s.head) & LowMask(s.tail), value, s.startByte - 1,
               s.startBit, 8 * (s.startByte - 1) + s.tail);
      SetMasked(s.startByte - 1, !LowMask(8 - s.head) & LowMask(s.tail), value);
    }

    /** A range that reaches a byte boundary: head mask, whole bytes, tail mask. */
    method SetAcross(s: Span, value: bool)
      requires Valid() && s.head < 8 && s.tail < 8 && s.endBit <= size && s.startBit <= s.endBit
      requires s.startByte * 8 == s.startBit + s.head && s.endByte * 8 + s.tail == s.endBit && s.startByte <= s.endByte
      modifies bytes
      ensures RangeSet(old(bytes[..]), bytes[..], s.startBit, s.endBit, value)
    {
      hide BitOf, LowMask, Selects, SetByte, ByteSet;
      ghost var before := bytes[..];
      if s.head > 0 {
        HeadMask(s);
        MaskSets(bytes[s.startByte - 1], !LowMask(8 - s.head), value, s.startByte - 1, s.startBit, s.endBit);
        SetMasked(s.startByte - 1, !LowMask(8 - s.head), value);
      }
      forall x | 0 <= x < s.startByte ensures ByteSet(before[x], bytes[x], x, s.startBit, s.endBit, value) {
        if x < s.startByte - 1 || s.head == 0 { ByteUnset(before[x], x, s.startBit, s.endBit, value); }
      }
      for y := s.startByte to s.endByte
        invariant forall x :: 0 <= x < y ==> ByteSet(before[x], bytes[x], x, s.startBit, s.endBit, value)
        invariant forall x :: y <= x < bytes.Length ==> bytes[x] == before[x]
      {
        FillSets(bytes[y], value, y, s.startBit, s.endBit);
        bytes[y] := if value then 0xFF else 0;
      }
      if s.tail > 0 {
        TailMask(s);
        MaskSets(bytes[s.endByte], LowMask(s.tail), value, s.endByte, s.startBit, s.endBit);
        SetMasked(s.endByte, LowMask(s.tail), value);
      }
      forall x | s.endByte <= x < bytes.Length ensures ByteSet(before[x], bytes[x], x, s.startBit, s.endBit, value) {
        if x > s.endByte || s.tail == 0 { ByteUnset(before[x], x, s.startBit, s.endBit, value); }
      }
    }

    /** What `bitmap_find` looks for: the lowest index in the clamped range that holds the value, or -1. A range that
        starts past the bitmap and whose end wraps finds nothing below `size`. */
    ghost predicate IsFirst(value: bool, start: nat, len: nat, r: int)
      requires Valid()
      reads this, bytes
    {
      && -1 <= r < size + 8
      && (start + len < W64 ==>
            && (r != -1 ==> start <= r < start + len && r < size && At(r) == value)
            && (forall p: nat :: p < size && start <= p < (if r == -1 then start + len else r) ==> At(p) != value))
      && (start >= size ==> r == -1 || r >= size)
    }

    method FindIndex(value: bool, start: nat, len: nat) returns (r: int)
      requires Valid() && start < W64 && len < W64 && (start + len < W64 || start >= size)
      ensures IsFirst(value, start, len, r)
    {
      hide BitOf, LowMask, Selects, Masked, Misses, Bit, FirstBit, SpanOf;
      var s := SpanOf(size, start, len);
      SpanBounds(size, start, len);
      if s.endByte < s.startByte {
        r := FindWithin(s, value);
        FirstBitAt(bytes[..], size, start, start + len, value, s.startBit, 8 * (s.startByte - 1) + s.tail, r);
      } else {
        r := FindAcross(s, value);
        FirstBitAt(bytes[..], size, start, start + len, value, s.startBit, s.endBit, r);
      }
    }

    /** `bitmap_find`, whose result is an `int`: indices from 2^31 on do not survive it. */
    method Find(value: bool, start: nat, len: nat) returns (r: int)
      requires Valid() && start < W64 && len < W64 && (start + len < W64 || start >= size)
      ensures exists index: int :: IsFirst(value, start, len, index) && r == AsInt(index)
      ensures size + 8 <= W31 ==> IsFirst(value, start, len, r)
    {
      var index := FindIndex(value, start, len);
      r := AsInt(index);
    }

    /** Looks for the value in the masked bits of one byte. */
    method Probe(y: nat, mask: bv8, value: bool, ghost lo: nat, ghost hi: nat) returns (hit: bool, pos: nat)
      requires y < bytes.Length && Selects(mask, y, lo, hi)
      ensures !hit ==> Misses(bytes[y], y, lo, hi, value, 8)
      ensures hit ==> pos < 8 && lo <= 8 * y + pos < hi && BitOf(bytes[y], pos) == value
      ensures hit ==> Misses(bytes[y], y, lo, hi, value, pos)
    {
      hide BitOf, Selects, Masked, Misses, Skip;
      var byte := Masked(bytes[y], mask, value);
      hit, pos := byte != Skip(value), 0;
      if hit {
        pos := LowestBit(byte, value);
        MaskedHits(bytes[y], mask, value, y, lo, hi, pos);
      } else {
        MaskedMisses(bytes[y], mask, value, y, lo, hi);
      }
    }

    /** A range inside one byte. */
    method FindWithin(s: Span, value: bool) returns (r: int)
      requires s.head < 8 && s.tail < 8 && 0 < s.startByte <= bytes.Length && s.startByte * 8 == s.startBit + s.head
      ensures FirstBit(bytes[..], s.startBit, 8 * (s.startByte - 1) + s.tail, value, r)
    {
      hide BitOf, LowMask, Selects, Masked, Misses, Bit, FirstBit;
      ghost var hi := 8 * (s.startByte - 1) + s.tail;
      InnerMask(s);
      var hit, pos := Probe(s.startByte - 1, !LowMask(8 - s.head) & LowMask(s.tail), value, s.startBit, hi);
      forall x | 0 <= x < bytes.Length && x != s.startByte - 1 ensures Misses(bytes[x], x, s.startBit, hi, value, 8) {
        MissesOutside(bytes[x], x, s.startBit, hi, value);
      }
      if hit {
        FirstFound(bytes[..], s.startBit, hi, value, s.startByte - 1, pos);
        r := 8 * (s.startByte - 1) + pos;
      } else {
        NoneFound(bytes[..], s.startBit, hi, value);
        r := -1;
      }
    }

    /** A range that reaches a byte boundary: head byte, whole bytes, tail byte. */
    method FindAcross(s: Span, value: bool) returns (r: int)
      requires Valid() && s.head < 8 && s.tail < 8 && s.endBit <= size && s.startBit <= s.endBit
      requires s.startByte * 8 == s.startBit + s.head && s.endByte * 8 + s.tail == s.endBit && s.startByte <= s.endByte
      ensures FirstBit(bytes[..], s.startBit, s.endBit, value, r)
    {
      hide BitOf, LowMask, Selects, Masked, Misses, Bit, FirstBit;
      forall x | 0 <= x < bytes.Length && (8 * x + 8 <= s.startBit || s.endBit <= 8 * x)
        ensures Misses(bytes[x], x, s.startBit, s.endBit, value, 8)
      {
        MissesOutside(bytes[x], x, s.startBit, s.endBit, value);
      }
      if s.head > 0 {
        HeadMask(s);
        var hit, pos := Probe(s.startByte - 1, !LowMask(8 - s.head), value, s.startBit, s.endBit);
        if hit {
          FirstFound(bytes[..], s.startBit, s.endBit, value, s.startByte - 1, pos);
          return 8 * (s.startByte - 1) + pos;
        }
      }
      for y := s.startByte to s.endByte
        invariant forall x :: 0 <= x < y ==> Misses(bytes[x], x, s.startBit, s.endBit, value, 8)
      {
        FullMask(bytes[y], value, y, s.startBit, s.endBit);
        var hit, pos := Probe(y, 0xFF, value, s.startBit, s.endBit);
        if hit {
          FirstFound(bytes[..], s.startBit, s.endBit, value, y, pos);
          return 8 * y + pos;
        }
      }
      if s.tail > 0 {
        TailMask(s);
        var hit, pos := Probe(s.endByte, LowMask(s.tail), value, s.startBit, s.endBit);
        if hit {
          FirstFound(bytes[..], s.startBit, s.endBit, value, s.endByte, pos);
          return 8 * s.endByte + pos;
        }
      }
      NoneFound(bytes[..], s.startBit, s.endBit, value);
      r := -1;
    }
  }
}
