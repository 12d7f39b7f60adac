/** The older break wrapper: the same cached-break state machine as
    `Breaks`, exposed through an `sbrk` that turns the error into a
    panic. */
module Brk {
  import opened Wrappers
  import opened Boundary
  import Breaks

  /** `sbrk(delta)`: the old break, or an abort when the OS refused, when
      the cache is out of step in a debug build, or when the target lies
      below address 0. */
  function SbrkOrPanic(c: Cache, delta: int, osNow: nat, reply: nat, debug: bool): (r: Reply)
    ensures r.result.Ok? || r.result.IsPanic()
    ensures r.result.Ok? <==>
              Breaks.CurrentBrk(c, osNow, debug).Ok? && Before(c, osNow) + delta >= 0
              && reply == Before(c, osNow) + delta
    ensures r.result.Ok? ==>
              r.result.value == Before(c, osNow) && r.cache.current == Before(c, osNow) + delta
    ensures r.result.Err? ==> r.cache.current == Before(c, osNow) || r.cache == c
  {
    var r := Breaks.Sbrk(c, delta, osNow, reply, debug);
    if r.result == Err(OutOfMemory) then Reply(r.cache, Err(Panic("break state out of sync with memory")))
    else r
  }
}
