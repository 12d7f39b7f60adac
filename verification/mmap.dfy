/** The anonymous-mapping wrapper: the same cached-boundary state machine,
    where the boundary is the end of the most recent mapping and the OS
    answers are the addresses `mmap` returned. */
module MMap {
  import opened Wrappers
  import opened Boundary

  /** Bytes mapped by the query `_mmap(null, 1024)` that fills the cache. */
  const PROBE_LEN: nat := 1024

  /** The current mapping boundary; the OS is only asked (with a fresh
      probe mapping, whose address is `osPage`) while nothing is cached. */
  function CurrentPage(c: Cache, osPage: nat, debug: bool): (r: Result<(Cache, nat)>)
    ensures c.IsNull() ==> r == Ok((Cache(osPage), osPage))
    ensures !c.IsNull() && !debug ==> r == Ok((c, c.current))
    ensures !c.IsNull() && debug ==> (r.Ok? <==> c.current == osPage)
  {
    Current(c, osPage, debug)
  }

  /** Maps `size` bytes at the current boundary; `mapped` is the address
      the OS placed the mapping at.  Only a mapping placed exactly at the
      boundary plus `size` is accepted; one placed at the old boundary is a
      refusal, and anything else, a cache out of step in a debug build or a
      target below address 0 aborts. */
  function Mmap(c: Cache, size: int, osPage: nat, mapped: nat, debug: bool): (r: Reply)
    ensures CurrentPage(c, osPage, debug).Err? ==> r.cache == c && r.result.IsPanic()
    ensures var was := Before(c, osPage);
            r.result.Ok? <==> CurrentPage(c, osPage, debug).Ok? && was + size >= 0 && mapped == was + size
    ensures var was := Before(c, osPage);
            r.result.Ok? ==> r == Reply(Cache(was + size), Ok(was))
    ensures var was := Before(c, osPage);
            r.result.Err? ==> r.cache.current == was || r.cache == c
    ensures var was := Before(c, osPage);
            r.result == Err(OutOfMemory) <==>
              CurrentPage(c, osPage, debug).Ok? && was + size >= 0 && mapped != was + size && mapped == was
    ensures r.result.Err? && r.result != Err(OutOfMemory) ==> r.result.IsPanic()
  {
    Grow(c, size, osPage, mapped, debug)
  }
}
