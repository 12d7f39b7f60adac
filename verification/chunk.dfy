/** Size classes and the per-class block arrays built from mapped pages. */
module Chunk {
  import Util
  import opened LedgerBlock
  import opened RawSlices

  /** The page size of the target (4 KiB). */
  const PAGE_SIZE: nat := 4096

  const EIGHT_BYTES: nat := 8
  const SIXTEEN_BYTES: nat := 16
  const THIRTY_TWO_BYTES: nat := 32
  const SIXTY_FOUR_BYTES: nat := 64

  /** `!0`: the answer for sizes that have no class. */
  const NO_CLASS: nat := Util.USIZE_MAX

  /** The four size classes, smallest first. */
  const CLASSES: seq<nat> := [EIGHT_BYTES, SIXTEEN_BYTES, THIRTY_TWO_BYTES, SIXTY_FOUR_BYTES]

  predicate IsPowerOfTwo(n: nat)
    decreases n
  {
    n == 1 || (n > 1 && n % 2 == 0 && IsPowerOfTwo(n / 2))
  }

  /** The smallest class that holds `size`, or `NO_CLASS` for 0 and for
      sizes above the largest class. */
  function SizeToClass(size: nat): (c: nat)
    ensures size == 0 || size > SIXTY_FOUR_BYTES <==> c == NO_CLASS
    ensures 1 <= size <= SIXTY_FOUR_BYTES ==>
              c in CLASSES && size <= c &&
              forall i :: 0 <= i < |CLASSES| && size <= CLASSES[i] ==> c <= CLASSES[i]
  {
    if size == 0 then NO_CLASS
    else if size <= EIGHT_BYTES then EIGHT_BYTES
    else if size <= SIXTEEN_BYTES then SIXTEEN_BYTES
    else if size <= THIRTY_TWO_BYTES then THIRTY_TWO_BYTES
    else if size <= SIXTY_FOUR_BYTES then SIXTY_FOUR_BYTES
    else NO_CLASS
  }

  /** Every class is a power of two, and a class is less than twice the
      size it serves (or the smallest class). */
  lemma ClassIsTightPowerOfTwo(size: nat)
    requires 1 <= size <= SIXTY_FOUR_BYTES
    ensures IsPowerOfTwo(SizeToClass(size))
    ensures SizeToClass(size) < 2 * size || SizeToClass(size) == EIGHT_BYTES
  {
    assert IsPowerOfTwo(1);
    assert IsPowerOfTwo(2);
    assert IsPowerOfTwo(4);
    assert IsPowerOfTwo(8);
    assert IsPowerOfTwo(16);
    assert IsPowerOfTwo(32);
    assert IsPowerOfTwo(64);
  }

  /** Larger sizes never get a smaller class. */
  lemma ClassMonotone(s: nat, t: nat)
    requires 1 <= s <= t <= SIXTY_FOUR_BYTES
    ensures SizeToClass(s) <= SizeToClass(t)
  {
  }

  /** A chunk: the class it serves and the blocks carved from its pages. */
  datatype Chunk = Chunk(sizeClass: nat, blks: RawSlice<Block>)

  /** A chunk over `pageMultiple` pages at `data`, empty, with room for as
      many blocks of the class as fit in the pages. */
  function New(data: nat, sizeClass: nat, pageMultiple: nat): (c: Chunk)
    requires data != 0
    requires PAGE_SIZE * pageMultiple <= Util.USIZE_MAX
    ensures c.sizeClass == sizeClass && c.blks.Len() == 0 && c.blks.base == data
    ensures c.blks.cap * SizeToClass(sizeClass) <= PAGE_SIZE * pageMultiple
              < (c.blks.cap + 1) * SizeToClass(sizeClass)
    ensures SizeToClass(sizeClass) == NO_CLASS ==> c.blks.cap == 0
  {
    Chunk(sizeClass, RawSlices.New(data, [], (PAGE_SIZE * pageMultiple) / SizeToClass(sizeClass)))
  }
}
