/** Size arithmetic of the allocator: 4-byte rounding and the break growth
    heuristic.  Machine words are 64-bit `usize`; an arithmetic overflow
    panics (debug build), so inputs that would overflow are excluded by
    preconditions. */
module Util {

  const USIZE_MAX: nat := 0xFFFF_FFFF_FFFF_FFFF

  /** The largest size `Align` accepts: beyond it `+ 4` overflows. */
  const ALIGN_MAX: nat := USIZE_MAX - 3

  /** The granularity `Align` rounds to. */
  const WORD: nat := 4

  /** `((size - 1) >> 2) << 2) + 4`: the shifts clear the two low bits of
      `size - 1`, i.e. round it down to a multiple of 4. */
  function Align(size: nat): (r: nat)
    requires 1 <= size <= ALIGN_MAX
    ensures r % WORD == 0
    ensures size <= r < size + WORD
    ensures r <= USIZE_MAX
  {
    (size - 1) / 4 * 4 + 4
  }

  /** Rounding is idempotent: an aligned size is a fixed point. */
  lemma AlignIdempotent(size: nat)
    requires 1 <= size <= ALIGN_MAX
    ensures Align(Align(size)) == Align(size)
  {
    AlignOfMultiple(Align(size));
  }

  /** A positive multiple of 4 is left unchanged. */
  lemma AlignOfMultiple(size: nat)
    requires 1 <= size <= ALIGN_MAX
    requires size % WORD == 0
    ensures Align(size) == size
  {
  }

  /** Align is the least multiple of 4 that is at least `size`. */
  lemma AlignIsLeastMultiple(size: nat, m: nat)
    requires 1 <= size <= ALIGN_MAX
    requires m % WORD == 0 && size <= m
    ensures Align(size) <= m
  {
  }

  /** Align is monotone. */
  lemma AlignMonotone(s: nat, t: nat)
    requires 1 <= s <= t <= ALIGN_MAX
    ensures Align(s) <= Align(t)
  {
    AlignIsLeastMultiple(s, Align(t));
  }

  const MULTIPLIER: nat := 2
  const MIN_EXTRA: nat := 1024
  const MAX_EXTRA: nat := 65536

  function Max(a: nat, b: nat): nat { if a < b then b else a }
  function Min(a: nat, b: nat): nat { if a < b then a else b }

  /** How much to grow the break for a request of `size` bytes: twice the
      request, clamped to [MIN_EXTRA, MAX_EXTRA]. */
  function ExtraBrk(size: nat): (r: nat)
    requires MULTIPLIER * size <= USIZE_MAX
    ensures MIN_EXTRA <= r <= MAX_EXTRA
    ensures MIN_EXTRA <= MULTIPLIER * size <= MAX_EXTRA ==> r == MULTIPLIER * size
    ensures MULTIPLIER * size < MIN_EXTRA ==> r == MIN_EXTRA
    ensures MAX_EXTRA < MULTIPLIER * size ==> r == MAX_EXTRA
  {
    Max(MIN_EXTRA, Min(MULTIPLIER * size, MAX_EXTRA))
  }

  /** Within the linear band the growth is exactly twice the request. */
  lemma ExtraBrkLinearBand(size: nat)
    requires 512 <= size <= 32768
    ensures ExtraBrk(size) == 2 * size
  {
  }

  lemma ExtraBrkMonotone(s: nat, t: nat)
    requires s <= t
    requires MULTIPLIER * t <= USIZE_MAX
    ensures ExtraBrk(s) <= ExtraBrk(t)
  {
  }
}
