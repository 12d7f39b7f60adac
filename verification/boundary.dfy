/** The cached-boundary state machine shared by the program-break wrappers
    and the anonymous-mapping wrapper: a process-wide cache of the current
    boundary, filled from the OS on first use, and a grow request that
    asks the OS to move the boundary by a signed delta and believes the
    move only when the OS reports exactly the expected new boundary.

    The OS is not called here: its answers are inputs.  `osNow` is what the
    OS reports as the current boundary when queried, `reply` is what it
    returns for the move request. */
module Boundary {
  import opened Wrappers

  /** The raw null pointer: the cache has not been filled yet. */
  const NULL: nat := 0

  datatype Cache = Cache(current: nat) {
    predicate IsNull() {
      current == NULL
    }
  }

  /** The cache as the process starts. */
  const UNSET: Cache := Cache(NULL)

  /** The boundary the cache stands for: the cached value, or what the OS
      reports when nothing is cached. */
  function Before(c: Cache, osNow: nat): nat {
    if c.IsNull() then osNow else c.current
  }

  /** Reads the boundary.  An empty cache is filled from the OS; a filled
      cache is returned as is, and in a debug build a cache that disagrees
      with the OS aborts. */
  function Current(c: Cache, osNow: nat, debug: bool): (r: Result<(Cache, nat)>)
    ensures r.Err? <==> !c.IsNull() && debug && c.current != osNow
    ensures r.Err? ==> r.IsPanic()
    ensures r.Ok? ==> r.value.1 == Before(c, osNow) && r.value.0.current == Before(c, osNow)
    ensures r.Ok? && !c.IsNull() ==> r.value.0 == c
  {
    if !c.IsNull() then
      if debug && c.current != osNow then Err(Panic("cached boundary out of sync"))
      else Ok((c, c.current))
    else
      Ok((Cache(osNow), osNow))
  }

  /** Once the cache holds a value, a release build never asks the OS
      again: the answer no longer depends on what the OS would say. */
  lemma CurrentQueriesOnce(c: Cache, os1: nat, os2: nat)
    requires Current(c, os1, false).Ok?
    requires !Current(c, os1, false).value.0.IsNull()
    ensures var c1 := Current(c, os1, false).value.0;
            Current(c1, os2, false) == Ok((c1, Current(c, os1, false).value.1))
  {
  }

  /** The state after a grow request and what the request returned. */
  datatype Reply = Reply(cache: Cache, result: Result<nat>)

  /** Asks the OS to move the boundary by `delta` bytes.  On success the
      cache moves to the new boundary and the old boundary is returned.  A
      failing OS reports the old boundary unchanged; any other answer means
      the cache is out of sync and aborts.  A target below address 0 is
      undefined behaviour in the source and aborts here. */
  function Grow(c: Cache, delta: int, osNow: nat, reply: nat, debug: bool): (r: Reply)
    ensures var was := Before(c, osNow);
            r.result.Ok? <==>
              Current(c, osNow, debug).Ok? && was + delta >= 0 && reply == was + delta
    ensures var was := Before(c, osNow);
            r.result.Ok? ==> r.result.value == was && r.cache.current == was + delta
    ensures var was := Before(c, osNow);
            r.result == Err(OutOfMemory) <==>
              Current(c, osNow, debug).Ok? && was + delta >= 0 && reply != was + delta && reply == was
    ensures r.result == Err(OutOfMemory) ==> r.cache.current == Before(c, osNow)
    ensures r.result.Err? && r.result.failure != OutOfMemory ==> r.result.IsPanic()
  {
    match Current(c, osNow, debug)
    case Err(f) => Reply(c, Err(f))
    case Ok((c1, was)) =>
      var target := was + delta;
      if target < 0 then Reply(c1, Err(Panic("pointer offset out of range")))
      else if reply == target then Reply(Cache(target), Ok(was))
      else if reply == was then Reply(c1, Err(OutOfMemory))
      else Reply(c1, Err(Panic("boundary moved unexpectedly")))
  }

  /** The cached value changes only when the OS confirmed the requested
      boundary, and then it is exactly that boundary. */
  lemma GrowUpdatesOnlyOnConfirmation(c: Cache, delta: int, osNow: nat, reply: nat, debug: bool)
    requires Current(c, osNow, debug).Ok?
    ensures var r := Grow(c, delta, osNow, reply, debug);
            r.cache.current != Before(c, osNow) ==> r.result.Ok? && r.cache.current == reply
  {
  }

  /** A zero delta targets the current boundary: when the OS confirms it,
      the cache ends where it started. */
  lemma GrowByZeroKeepsBoundary(c: Cache, osNow: nat, debug: bool)
    requires Current(c, osNow, debug).Ok?
    ensures var r := Grow(c, 0, osNow, Before(c, osNow), debug);
            r.result == Ok(Before(c, osNow)) && r.cache.current == Before(c, osNow)
  {
  }
}
