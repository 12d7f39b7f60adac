/** Shared constants of the array-backed ledger and its unit-like result. */
module Ledger {
  import W = Wrappers
  import Util

  /** A free block is split when it is more than this many times larger
      than the request. */
  const SPLIT_FACTOR: nat := 2

  /** `size_of::<Block>()` for the ledger block record on a 64-bit target:
      a `usize`, a non-null pointer and a `bool`, padded to 8 bytes. */
  const BLOCK_STRUCT_SIZE: nat := 24

  /** The block record size rounded up to 4 bytes. */
  const BLOCK_ALIGN: nat := Util.Align(BLOCK_STRUCT_SIZE)

  lemma BlockAlignFacts()
    ensures BLOCK_ALIGN % Util.WORD == 0
    ensures BLOCK_STRUCT_SIZE <= BLOCK_ALIGN
    ensures BLOCK_ALIGN == 24
  {
  }

  /** A result that carries no value, as returned by `push` and `resize`. */
  datatype EmptyResult = Ok | Err {
    predicate IsOk() {
      this == Ok
    }

    predicate IsErr() {
      this == Err
    }
  }

  /** Exactly one of `IsOk` and `IsErr` holds. */
  lemma EmptyResultExclusive(e: EmptyResult)
    ensures e.IsOk() != e.IsErr()
    ensures e.IsOk() <==> e.Ok?
    ensures e.IsErr() <==> e.Err?
  {
  }

  /** `unwrap`: nothing on success, an abort on error. */
  function Unwrap(e: EmptyResult): (r: W.Result<()>)
    ensures r.Ok? <==> e.IsOk()
    ensures r.Err? ==> r.IsPanic()
  {
    if e.IsErr() then W.Err(W.Panic("unwrap on an error value")) else W.Ok(())
  }
}
