/** The block record of the array-backed ledger: a size, the address of the
    memory it describes, and whether it is free.  Blocks are ordered by
    address alone. */
module LedgerBlock {
  import opened Ledger

  datatype Block = Block(size: nat, data: nat, free: bool)

  /** A new block is in use. */
  function New(data: nat, size: nat): (b: Block)
    ensures !b.free && b.data == data && b.size == size
  {
    Block(size, data, false)
  }

  /** The address 0x1 marks a null block. */
  predicate IsNull(b: Block) {
    b.data == 1
  }

  datatype Ordering = Less | Equal | Greater

  /** Block comparison: by address only. */
  function Cmp(a: Block, b: Block): (r: Ordering)
    ensures r == Less <==> a.data < b.data
    ensures r == Equal <==> a.data == b.data
    ensures r == Greater <==> a.data > b.data
  {
    if a.data < b.data then Less else if a.data == b.data then Equal else Greater
  }

  /** The order ignores size and state, and is antisymmetric. */
  lemma CmpOnlyAddress(a: Block, a': Block, b: Block, b': Block)
    requires a.data == a'.data && b.data == b'.data
    ensures Cmp(a, b) == Cmp(a', b')
    ensures Cmp(a, b) == Less <==> Cmp(b, a) == Greater
    ensures Cmp(a, b) == Equal <==> Cmp(b, a) == Equal
  {
  }

  /** Where the usable memory of a block starts, given how far its payload
      sits past the block's address: 0 when the record lives elsewhere (the
      ledger), the record size when the record is a header in front of the
      payload. */
  function RawData(b: Block, headerOffset: nat): (p: nat)
    ensures p >= b.data
    ensures p - b.data == headerOffset
  {
    b.data + headerOffset
  }

  /** Absorbs the block `next` into `b`: the sizes add up; the address and
      state of `b` are kept.  Always succeeds. */
  function MergeRight(b: Block, next: Block): (r: (Block, EmptyResult))
    ensures r.1 == Ok
    ensures r.0.size == b.size + next.size
    ensures r.0.data == b.data && r.0.free == b.free
  {
    (b.(size := b.size + next.size), Ok)
  }

  /** Halves `b`: `b` keeps the lower half; the returned in-use block
      covers the upper half.  The source asserts that the size is even and
      that a half still fits the request. */
  function Split(b: Block, request: nat): (r: (Block, Block))
    requires b.size % 2 == 0
    requires b.size / SPLIT_FACTOR >= request
    ensures r.0.size == r.1.size && r.0.size + r.1.size == b.size
    ensures r.0.size >= request
    ensures r.0.data == b.data && r.0.free == b.free
    ensures r.1.data == r.0.data + r.0.size && !r.1.free
  {
    var half := b.size / SPLIT_FACTOR;
    (b.(size := half), New(b.data + half, half))
  }

  /** Merging the split-off half back restores the original size. */
  lemma MergeUndoesSplit(b: Block, request: nat)
    requires b.size % 2 == 0 && b.size / SPLIT_FACTOR >= request
    ensures var (lo, hi) := Split(b, request); MergeRight(lo, hi).0 == b
  {
  }
}
