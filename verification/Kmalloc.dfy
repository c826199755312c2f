/** The size classes of `kmalloc`. Requests of up to 2048 bytes fit sixteen bits. */
module Kmalloc {
  const CLASSES: seq<bv16> := [8, 16, 32, 64, 96, 128, 192, 256, 512, 1024, 2048]

  /** The smallest class that holds `size` bytes is `index`. */
  predicate BestFit(size: bv16, index: nat) {
    index < |CLASSES| && CLASSES[index] >= size && forall k :: 0 <= k < |CLASSES| && CLASSES[k] >= size ==> index <= k
  }

  lemma BestFitStep(size: bv16, index: nat)
    requires index < |CLASSES| && CLASSES[index] >= size
    ensures BestFit(size, index) <==> index == 0 || CLASSES[index - 1] < size
  {
    assert forall i, j :: 0 <= i < j < |CLASSES| ==> CLASSES[i] < CLASSES[j];
  }

  /** `kmalloc_size_index`: the class always holds the request, and it is the smallest that does exactly for
      requests of at most 48 or more than 192 bytes; those between get 96, 192 or 256 bytes. */
  method SizeIndex(request: bv16) returns (index: nat)
    requires 1 <= request <= 2048
    ensures index < |CLASSES| && CLASSES[index] >= request
    ensures BestFit(request, index) <==> request <= 48 || request > 192
    ensures 48 < request <= 64 ==> CLASSES[index] == 96
    ensures 64 < request <= 128 ==> CLASSES[index] == 192
    ensures 128 < request <= 192 ==> CLASSES[index] == 256
  {
    var fls: int := 1;
    var size := ((request + 7) & 0xFFF8) - 1;
    if size & 0xFF00 != 0 {
      fls := fls + 8;
      size := size >> 8;
    }
    if size & 0xF0 != 0 {
      fls := fls + 4;
      size := size >> 4;
    }
    if size & 0xC != 0 {
      fls := fls + 2;
      size := size >> 2;
    }
    var last2bit := size;
    if size & 0x2 != 0 {
      fls := fls + 1;
      size := size >> 1;
    }
    var at := fls - 3;
    if (fls == 6 || fls == 7) && last2bit & 1 != 0 {
      at := at + 1;
    }
    if fls == 7 {
      at := at + 1;
    } else if fls > 7 {
      at := at + 2;
    }
    index := at;
    BestFitStep(request, index);
  }
}
