/** The program-break wrapper: `sbrk` over the cached break, and a model
    of the kernel's `brk` call so that callers can be run against a
    concrete OS. */
module Breaks {
  import opened Wrappers
  import opened Boundary

  /** The current break, filled from the OS on first use. */
  function CurrentBrk(c: Cache, osNow: nat, debug: bool): (r: Result<(Cache, nat)>)
    ensures c.IsNull() ==> r == Ok((Cache(osNow), osNow))
    ensures !c.IsNull() && !debug ==> r == Ok((c, c.current))
    ensures !c.IsNull() && debug ==> (r.Ok? <==> c.current == osNow)
  {
    Current(c, osNow, debug)
  }

  /** Moves the break by `size` bytes and returns the previous break.  A
      cache out of step with the OS in a debug build, a target below
      address 0, and a reply that is neither the target nor the old break
      abort; a reply equal to the old break is a refusal. */
  function Sbrk(c: Cache, size: int, osNow: nat, reply: nat, debug: bool): (r: Reply)
    ensures CurrentBrk(c, osNow, debug).Err? ==> r.cache == c && r.result.IsPanic()
    ensures var was := Before(c, osNow);
            CurrentBrk(c, osNow, debug).Ok? && was + size < 0 ==> r.result.IsPanic()
    ensures var was := Before(c, osNow);
            CurrentBrk(c, osNow, debug).Ok? && was + size >= 0 && reply == was + size ==>
              r == Reply(Cache(was + size), Ok(was))
    ensures var was := Before(c, osNow);
            CurrentBrk(c, osNow, debug).Ok? && was + size >= 0 && reply != was + size && reply == was ==>
              r == Reply(Cache(was), Err(OutOfMemory))
    ensures var was := Before(c, osNow);
            reply != was + size && reply != was ==> r.result.IsPanic()
  {
    Grow(c, size, osNow, reply, debug)
  }

  /** The kernel's view of the program break.  `brk(p)` moves the break to
      `p` when `p` lies between the start of the data segment and the
      memory limit, and otherwise leaves it; either way it answers with the
      break it ended at.  `brk(null)` is therefore a query. */
  datatype Kernel = Kernel(start: nat, brk: nat, limit: nat) {
    predicate Valid() {
      NULL < start <= brk <= limit
    }
  }

  function BrkCall(k: Kernel, target: nat): (r: (Kernel, nat))
    requires k.Valid()
    ensures r.0.Valid() && r.1 == r.0.brk
    ensures r.0.start == k.start && r.0.limit == k.limit
    ensures r.1 == target <==> k.start <= target <= k.limit
    ensures r.1 != target ==> r.0 == k
  {
    if k.start <= target <= k.limit then (k.(brk := target), target) else (k, k.brk)
  }

  /** The cache agrees with the kernel (or has not been filled yet). */
  predicate InSync(c: Cache, k: Kernel) {
    c.IsNull() || c.current == k.brk
  }

  /** `sbrk` run against the kernel: the query answer is `brk(null)`, the
      move answer is `brk(target)`. */
  function SbrkOn(c: Cache, size: int, k: Kernel, debug: bool): (r: (Kernel, Reply))
    requires k.Valid()
  {
    var osNow := BrkCall(k, NULL).1;
    var target := Before(c, osNow) + size;
    var (k', reply) := if target >= 0 then BrkCall(k, target) else (k, osNow);
    (k', Grow(c, size, osNow, reply, debug))
  }

  /** While the cache agrees with the kernel, `sbrk` never aborts, keeps
      them in agreement, and succeeds exactly when the kernel can place
      the break at the target; on success it returns the old break and
      the kernel's break moved by `size`. */
  lemma SbrkOnKeepsSync(c: Cache, size: int, k: Kernel, debug: bool)
    requires k.Valid() && InSync(c, k)
    requires k.brk + size >= 0
    ensures var (k', r) := SbrkOn(c, size, k, debug);
            && k'.Valid() && InSync(r.cache, k') && !r.result.IsPanic()
            && k'.start == k.start && k'.limit == k.limit
            && (r.result.Ok? <==> k.start <= k.brk + size <= k.limit)
            && (r.result.Ok? ==> r.result.value == k.brk && k'.brk == k.brk + size)
            && (r.result.Err? ==> k' == k && r.result == Err(OutOfMemory))
  {
    var osNow := BrkCall(k, NULL).1;
    assert osNow == k.brk;
    assert Before(c, osNow) == k.brk;
  }

  /** The program-break side of the world as the allocators see it: the
      process-wide break cache, the kernel behind it, and whether debug
      assertions are compiled in. */
  datatype Env = Env(brk: Cache, kernel: Kernel, debug: bool) {
    predicate Valid() {
      kernel.Valid() && InSync(brk, kernel)
    }
  }

  /** `sbrk(size)` run in an environment: the environment afterwards and
      what the call returned. */
  function SbrkEnv(env: Env, size: int): (r: (Env, Result<nat>))
    requires env.kernel.Valid()
    ensures r.0.kernel.Valid() && r.0.debug == env.debug
  {
    var (k, reply) := SbrkOn(env.brk, size, env.kernel, env.debug);
    (Env(reply.cache, k, env.debug), reply.result)
  }

  /** In a consistent environment `sbrk` keeps it consistent, succeeds
      exactly when the kernel can move the break by `size`, returns the old
      break and moves it by `size`; on failure nothing changes and the
      failure is out-of-memory. */
  lemma SbrkEnvSpec(env: Env, size: int)
    requires env.Valid() && env.kernel.brk + size >= 0
    ensures var (env', r) := SbrkEnv(env, size);
            && env'.Valid()
            && env'.kernel.start == env.kernel.start && env'.kernel.limit == env.kernel.limit
            && (r.Ok? <==> env.kernel.start <= env.kernel.brk + size <= env.kernel.limit)
            && (r.Ok? ==> r.value == env.kernel.brk && env'.kernel.brk == env.kernel.brk + size)
            && (r.Err? ==> env'.kernel == env.kernel && r == Err(OutOfMemory))
  {
    SbrkOnKeepsSync(env.brk, size, env.kernel, env.debug);
  }
}
