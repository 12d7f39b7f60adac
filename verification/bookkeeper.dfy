/** The arena that hands out heap memory: a `free` and a `used` ledger of
    blocks, both kept in page-sized arrays obtained from the mapping
    allocator, and a heap that grows at the program break.

    The two copies of the arena in the repository differ only in where a
    block's payload starts: at the block's own address (`LEDGER_OFFSET`)
    or after a 24-byte header (`HEADER_OFFSET`).  Every operation takes
    that offset as a parameter. */
module BookKeeper {
  import opened Wrappers
  import Util
  import opened Boundary
  import Breaks
  import L = Ledger
  import opened LedgerBlock
  import RawSlices
  import Pointer
  import opened LedgerFind
  import Chunk
  import MMap

  /** Payload offset of the ledger arena: the payload is the block address. */
  const LEDGER_OFFSET: nat := 0
  /** Payload offset of the top-level arena: the payload follows the header. */
  const HEADER_OFFSET: nat := L.BLOCK_STRUCT_SIZE

  /** How many block records one page of ledger holds. */
  const CAPACITY: nat := Chunk.PAGE_SIZE / L.BLOCK_ALIGN

  lemma CapacityValue()
    ensures CAPACITY == 170
  {
    L.BlockAlignFacts();
  }

  datatype BookKeeper = BookKeeper(free: RawSlices.RawSlice<Block>, used: RawSlices.RawSlice<Block>)

  /** The arena before its first allocation: both ledgers are null. */
  function Init(): (bk: BookKeeper)
    ensures bk.free.IsNull() && bk.used.IsNull()
    ensures bk.free.Len() == 0 && bk.used.Len() == 0
  {
    BookKeeper(RawSlices.Empty(), RawSlices.Empty())
  }

  type Env = Breaks.Env

  /** What a successful allocation leaves behind: the arena, the break
      side, the block backing the allocation and the pointer handed out. */
  datatype Grant = Grant(bk: BookKeeper, env: Env, blk: Block, ptr: nat)

  // ----- binary search over the address-ordered `used` ledger -----

  predicate Sorted(s: seq<Block>) {
    forall i, j :: 0 <= i < j < |s| ==> s[i].data < s[j].data
  }

  datatype Search = Found(idx: nat) | Missing(idx: nat)

  /** Bisection of `s[lo..hi]` by block address, comparing with the
      address-only block ordering. */
  function Bisect(s: seq<Block>, key: nat, lo: nat, hi: nat): (r: Search)
    requires lo <= hi <= |s|
    decreases hi - lo
    ensures r.Found? ==> lo <= r.idx < hi && s[r.idx].data == key
    ensures r.Missing? ==> lo <= r.idx <= hi
    ensures Sorted(s) && r.Missing? ==>
              (forall i :: lo <= i < r.idx ==> s[i].data < key) &&
              (forall i :: r.idx <= i < hi ==> key < s[i].data)
  {
    if lo == hi then Missing(lo)
    else
      var mid := (lo + hi) / 2;
      match Cmp(s[mid], New(key, 0))
      case Less => Bisect(s, key, mid + 1, hi)
      case Greater => Bisect(s, key, lo, mid)
      case Equal => Found(mid)
  }

  /** `binary_search` on a ledger: on a sorted ledger it finds the address
      exactly when it is recorded, and otherwise names the one position
      where inserting it keeps the order. */
  function BinarySearch(s: seq<Block>, key: nat): (r: Search)
    ensures r.Found? ==> r.idx < |s| && s[r.idx].data == key
    ensures r.Missing? ==> r.idx <= |s|
    ensures Sorted(s) ==> (r.Found? <==> exists i :: 0 <= i < |s| && s[i].data == key)
    ensures Sorted(s) && r.Missing? ==>
              (forall i :: 0 <= i < r.idx ==> s[i].data < key) &&
              (forall i :: r.idx <= i < |s| ==> key < s[i].data)
  {
    Bisect(s, key, 0, |s|)
  }

  /** Inserting at the position the search names keeps a ledger sorted and
      adds exactly the new block. */
  lemma InsertAtSearchPosition(s: RawSlices.RawSlice<Block>, b: Block)
    requires Sorted(s.items)
    requires BinarySearch(s.items, b.data).Missing?
    requires s.cap > s.Len() + 1
    ensures RawSlices.Insert(s, BinarySearch(s.items, b.data).idx, b).Ok?
    ensures var t := RawSlices.Insert(s, BinarySearch(s.items, b.data).idx, b).value;
            Sorted(t.items) && multiset(t.items) == multiset(s.items) + multiset{b}
  {
    var idx := BinarySearch(s.items, b.data).idx;
    var t := RawSlices.Insert(s, idx, b).value;
    assert t.items == s.items[..idx] + [b] + s.items[idx..] by {
      assert t.items == t.items[..idx] + [t.items[idx]] + t.items[idx + 1..];
    }
    assert s.items == s.items[..idx] + s.items[idx..];
    forall i, j | 0 <= i < j < |t.items| ensures t.items[i].data < t.items[j].data {
      if j < idx {
        assert t.items[i] == s.items[i] && t.items[j] == s.items[j];
      } else if j == idx {
        assert t.items[i] == s.items[i];
      } else if i < idx {
        assert t.items[i] == s.items[i] && t.items[j] == s.items[j - 1];
      } else if i == idx {
        assert t.items[j] == s.items[j - 1];
      } else {
        assert t.items[i] == s.items[i - 1] && t.items[j] == s.items[j - 1];
      }
    }
  }

  // ----- growing the heap -----

  /** `extend_heap` with the break grown by `growth` bytes: a block of
      `size` bytes is recorded at the old break, the break is moved, and
      the block goes into `used` at its sorted position.  A failed break
      query, a failed growth, an address already recorded and a full
      ledger all abort. */
  function ExtendHeapBy(bk: BookKeeper, size: nat, growth: nat, env: Env, offset: nat): (r: Result<Grant>)
    requires env.kernel.Valid()
    ensures r.Err? ==> r.IsPanic()
    ensures r.Ok? ==> r.value.blk.size == size && !r.value.blk.free
    ensures r.Ok? ==> r.value.ptr == RawData(r.value.blk, offset) && r.value.bk.free == bk.free
    ensures r.Ok? ==> r.value.env.kernel.Valid() && r.value.env.debug == env.debug
  {
    var (k1, q) := Breaks.SbrkOn(env.brk, 0, env.kernel, env.debug);
    match q.result
    case Err(_) => Err(Panic("break query failed"))
    case Ok(was) =>
      var b := New(was, size);
      var (k2, g) := Breaks.SbrkOn(q.cache, growth, k1, env.debug);
      if g.result.Err? then Err(Panic("NEXT PAGE IS OOM??"))
      else
        match BinarySearch(bk.used.items, b.data)
        case Found(_) => Err(Panic("address already recorded"))
        case Missing(idx) =>
          match RawSlices.Insert(bk.used, idx, b)
          case Err(f) => Err(f)
          case Ok(used') => Ok(Grant(bk.(used := used'), Breaks.Env(g.cache, k2, env.debug), b, RawData(b, offset)))
  }

  /** With the cache in step with the kernel: the new block sits at the old
      break, the break moves by exactly `growth`, the ledger gains exactly
      that block and stays sorted, and the call succeeds exactly when the
      kernel can grant the growth, the address is new and the ledger has
      room. */
  lemma ExtendHeapBySpec(bk: BookKeeper, size: nat, growth: nat, env: Env, offset: nat)
    requires env.Valid()
    ensures var r := ExtendHeapBy(bk, size, growth, env, offset);
            r.Ok? ==>
              && r.value.env.Valid()
              && r.value.env.kernel.start == env.kernel.start
              && r.value.env.kernel.brk == env.kernel.brk + growth
              && r.value.blk == New(env.kernel.brk, size)
              && r.value.bk.used.Valid()
              && r.value.bk.used.cap == bk.used.cap && r.value.bk.used.base == bk.used.base
              && multiset(r.value.bk.used.items) == multiset(bk.used.items) + multiset{r.value.blk}
    ensures var r := ExtendHeapBy(bk, size, growth, env, offset);
            r.Ok? && Sorted(bk.used.items) ==> Sorted(r.value.bk.used.items)
    ensures Sorted(bk.used.items) ==>
              (ExtendHeapBy(bk, size, growth, env, offset).Ok? <==>
                 && env.kernel.brk + growth <= env.kernel.limit
                 && bk.used.cap > bk.used.Len() + 1
                 && forall i :: 0 <= i < bk.used.Len() ==> bk.used.items[i].data != env.kernel.brk)
  {
    Breaks.SbrkOnKeepsSync(env.brk, 0, env.kernel, env.debug);
    var (k1, q) := Breaks.SbrkOn(env.brk, 0, env.kernel, env.debug);
    assert q.result == Ok(env.kernel.brk) && k1 == env.kernel;
    Breaks.SbrkOnKeepsSync(q.cache, growth, k1, env.debug);
    var b := New(env.kernel.brk, size);
    var (k2, g) := Breaks.SbrkOn(q.cache, growth, k1, env.debug);
    var sr := BinarySearch(bk.used.items, b.data);
    if g.result.Ok? && sr.Missing? && bk.used.cap > bk.used.Len() + 1 {
      var t := RawSlices.Insert(bk.used, sr.idx, b).value;
      assert t.items == bk.used.items[..sr.idx] + [b] + bk.used.items[sr.idx..] by {
        assert t.items == t.items[..sr.idx] + [t.items[sr.idx]] + t.items[sr.idx + 1..];
      }
      assert bk.used.items == bk.used.items[..sr.idx] + bk.used.items[sr.idx..];
      if Sorted(bk.used.items) {
        InsertAtSearchPosition(bk.used, b);
      }
    }
  }

  /** `extend_heap` growing the break by the payload only, as both copies
      of the arena write it. */
  function ExtendHeapAsWritten(bk: BookKeeper, size: nat, env: Env, offset: nat): (r: Result<Grant>)
    requires env.kernel.Valid()
    ensures r.Ok? ==> r.value.blk.size == size && r.value.ptr == RawData(r.value.blk, offset)
  {
    ExtendHeapBy(bk, size, size, env, offset)
  }

  /** With the header in front of the payload, the break grown by the
      payload size alone stops `HEADER_OFFSET` bytes short of the end of
      the payload that was handed out. */
  lemma ExtendHeapAsWrittenOverruns(bk: BookKeeper, size: nat, env: Env)
    requires env.Valid()
    ensures var r := ExtendHeapAsWritten(bk, size, env, HEADER_OFFSET);
            r.Ok? ==> r.value.ptr + size == r.value.env.kernel.brk + HEADER_OFFSET
  {
    ExtendHeapBySpec(bk, size, size, env, HEADER_OFFSET);
  }

  /** A concrete run: an empty arena asks for 4 bytes on a heap starting at
      0x1000; the payload is 0x1018..0x101C but the break ends at 0x1004. */
  lemma ExtendHeapAsWrittenExample()
    ensures var bk := BookKeeper(RawSlices.New(0x7000, [], CAPACITY), RawSlices.New(0x8000, [], CAPACITY));
            var env := Breaks.Env(UNSET, Breaks.Kernel(0x1000, 0x1000, 0x10000), false);
            var r := ExtendHeapAsWritten(bk, 4, env, HEADER_OFFSET);
            r.Ok? && r.value.ptr == 0x1018 && r.value.env.kernel.brk == 0x1004
  {
    var bk := BookKeeper(RawSlices.New(0x7000, [], CAPACITY), RawSlices.New(0x8000, [], CAPACITY));
    var env := Breaks.Env(UNSET, Breaks.Kernel(0x1000, 0x1000, 0x10000), false);
    CapacityValue();
    ExtendHeapBySpec(bk, 4, 4, env, HEADER_OFFSET);
  }

  /** `extend_heap` corrected: the break grows by the header offset plus the
      payload, so the payload ends exactly at the new break.  For the ledger
      arena (offset 0) this is the code as written. */
  function ExtendHeap(bk: BookKeeper, size: nat, env: Env, offset: nat): (r: Result<Grant>)
    requires env.kernel.Valid()
    ensures r.Ok? ==> r.value.blk.size == size && r.value.ptr == RawData(r.value.blk, offset)
  {
    ExtendHeapBy(bk, size, size + offset, env, offset)
  }

  /** For the ledger arena the correction changes nothing. */
  lemma LedgerExtendHeapUnchanged(bk: BookKeeper, size: nat, env: Env)
    requires env.kernel.Valid()
    ensures ExtendHeap(bk, size, env, LEDGER_OFFSET) == ExtendHeapAsWritten(bk, size, env, LEDGER_OFFSET)
  {
  }

  /** The arena's standing invariant: the break cache agrees with the
      kernel, both ledgers are well formed, `used` is address-ordered, and
      every recorded block's payload lies inside the heap. */
  predicate Inv(bk: BookKeeper, env: Env, offset: nat) {
    && env.Valid()
    && bk.free.Valid() && bk.used.Valid()
    && Sorted(bk.used.items)
    && forall i :: 0 <= i < bk.used.Len() ==>
         var b := bk.used.items[i];
         env.kernel.start <= b.data && 0 < b.size && b.data + offset + b.size <= env.kernel.brk
  }

  /** The corrected growth keeps the invariant and hands out a payload
      that ends exactly at the new break. */
  lemma ExtendHeapKeepsInv(bk: BookKeeper, size: nat, env: Env, offset: nat)
    requires Inv(bk, env, offset) && 0 < size
    ensures var r := ExtendHeap(bk, size, env, offset);
            r.Ok? ==> Inv(r.value.bk, r.value.env, offset) && r.value.ptr + size == r.value.env.kernel.brk
  {
    ExtendHeapBySpec(bk, size, size + offset, env, offset);
    var r := ExtendHeapBy(bk, size, size + offset, env, offset);
    if r.Ok? {
      GrantKeepsInv(bk, env, r.value, size, offset);
    }
  }

  /** A grant whose block sits at the old break, whose break grew past the
      block's payload and whose `used` gained exactly that block, sorted,
      keeps the invariant. */
  lemma GrantKeepsInv(bk: BookKeeper, env: Env, g: Grant, size: nat, offset: nat)
    requires Inv(bk, env, offset) && 0 < size
    requires g.env.Valid() && g.env.kernel.start == env.kernel.start
    requires g.env.kernel.brk == env.kernel.brk + size + offset
    requires g.blk == New(env.kernel.brk, size)
    requires g.bk.free == bk.free && g.bk.used.Valid() && Sorted(g.bk.used.items)
    requires multiset(g.bk.used.items) == multiset(bk.used.items) + multiset{g.blk}
    ensures Inv(g.bk, g.env, offset)
  {
    NewBlockKeepsBounds(bk.used.items, g.bk.used.items, g.blk, env.kernel.start,
                        env.kernel.brk, g.env.kernel.brk, offset);
  }

  /** Under the invariant the corrected growth succeeds exactly when the
      kernel can grant it and the ledger has room: a fresh break address is
      never already recorded. */
  lemma ExtendHeapSucceeds(bk: BookKeeper, size: nat, env: Env, offset: nat)
    requires Inv(bk, env, offset) && 0 < size
    ensures ExtendHeap(bk, size, env, offset).Ok? <==>
              env.kernel.brk + size + offset <= env.kernel.limit && bk.used.cap > bk.used.Len() + 1
  {
    ExtendHeapBySpec(bk, size, size + offset, env, offset);
    forall i | 0 <= i < bk.used.Len() ensures bk.used.items[i].data != env.kernel.brk {
      var b := bk.used.items[i];
      assert b.data + offset + b.size <= env.kernel.brk;
    }
  }

  /** Adding a block that fits below the new break to blocks that fit below
      the old one gives blocks that all fit below the new one. */
  lemma NewBlockKeepsBounds(s: seq<Block>, t: seq<Block>, b: Block, start: nat, brk: nat, brk': nat, offset: nat)
    requires multiset(t) == multiset(s) + multiset{b}
    requires brk <= brk' && start <= b.data && 0 < b.size && b.data + offset + b.size <= brk'
    requires forall i :: 0 <= i < |s| ==> start <= s[i].data && 0 < s[i].size && s[i].data + offset + s[i].size <= brk
    ensures forall i :: 0 <= i < |t| ==> start <= t[i].data && 0 < t[i].size && t[i].data + offset + t[i].size <= brk'
  {
    forall i | 0 <= i < |t|
      ensures start <= t[i].data && 0 < t[i].size && t[i].data + offset + t[i].size <= brk'
    {
      assert t[i] in multiset(t);
      if t[i] != b {
        assert t[i] in multiset(s);
        var j :| 0 <= j < |s| && s[j] == t[i];
      }
    }
  }

  /** The growth as written breaks the invariant of the top-level arena:
      the new block's payload runs past the break. */
  lemma ExtendHeapAsWrittenBreaksInv(bk: BookKeeper, size: nat, env: Env)
    requires Inv(bk, env, HEADER_OFFSET) && 0 < size
    ensures var r := ExtendHeapAsWritten(bk, size, env, HEADER_OFFSET);
            r.Ok? ==> !Inv(r.value.bk, r.value.env, HEADER_OFFSET)
  {
    ExtendHeapBySpec(bk, size, size, env, HEADER_OFFSET);
    var r := ExtendHeapAsWritten(bk, size, env, HEADER_OFFSET);
    if r.Ok? {
      var t := r.value.bk.used.items;
      assert r.value.blk in multiset(t);
      var i :| 0 <= i < |t| && t[i] == r.value.blk;
      assert t[i].data + HEADER_OFFSET + t[i].size > r.value.env.kernel.brk;
    }
  }

  // ----- allocation -----

  /** What the OS answers to one `mmap(PAGE_SIZE)`: the address of the probe
      mapping made while the page cache is consulted, and the address the
      page itself was mapped at. */
  datatype PageReply = PageReply(probe: nat, mapped: nat)

  /** The OS answers to the two page requests of a first allocation. */
  datatype PageReplies = PageReplies(first: PageReply, second: PageReply)

  /** `mmap(PAGE_SIZE).unwrap()`: a page at the current mapping boundary,
      with the boundary moved past it; any failure aborts. */
  function MapPage(pages: Cache, reply: PageReply, debug: bool): (r: Result<(Cache, nat)>)
    ensures r.Err? ==> r.IsPanic()
    ensures r.Ok? <==>
              MMap.CurrentPage(pages, reply.probe, debug).Ok?
              && reply.mapped == Before(pages, reply.probe) + Chunk.PAGE_SIZE
    ensures r.Ok? ==>
              r.value.1 == Before(pages, reply.probe) && r.value.0 == Cache(r.value.1 + Chunk.PAGE_SIZE)
  {
    var rep := MMap.Mmap(pages, Chunk.PAGE_SIZE, reply.probe, reply.mapped, debug);
    match rep.result
    case Ok(p) => Ok((rep.cache, p))
    case Err(_) => Err(Panic("called `Result::unwrap()` on an `Err` value"))
  }

  /** The arena has not allocated yet: both ledgers are unbacked. */
  predicate Untouched(bk: BookKeeper) {
    bk.free.IsNull() && bk.used.IsNull()
  }

  /** The first-call set-up: two mapped pages, each backing an empty ledger
      of `CAPACITY` records.  A null page is undefined behaviour in the
      source and aborts here. */
  function MapLedgers(pages: Cache, maps: PageReplies, debug: bool): (r: Result<(BookKeeper, Cache)>)
    ensures r.Err? ==> r.IsPanic()
    ensures r.Ok? <==>
              && MapPage(pages, maps.first, debug).Ok?
              && MapPage(MapPage(pages, maps.first, debug).value.0, maps.second, debug).Ok?
              && Before(pages, maps.first.probe) != Pointer.RAW_NULL
    ensures r.Ok? ==>
              var fp := Before(pages, maps.first.probe);
              && r.value.0.free == RawSlices.New(fp, [], CAPACITY)
              && r.value.0.used == RawSlices.New(fp + Chunk.PAGE_SIZE, [], CAPACITY)
              && r.value.1 == Cache(fp + 2 * Chunk.PAGE_SIZE)
  {
    match MapPage(pages, maps.first, debug)
    case Err(f) => Err(f)
    case Ok((pages1, fp)) =>
      match MapPage(pages1, maps.second, debug)
      case Err(f) => Err(f)
      case Ok((pages2, up)) =>
        if fp == Pointer.RAW_NULL then Err(Panic("null page"))
        else Ok((BookKeeper(RawSlices.New(fp, [], CAPACITY), RawSlices.New(up, [], CAPACITY)), pages2))
  }

  /** `allocate` as both copies of the arena write it: the request is
      rounded up with `align`.  On first use both ledgers are set up on
      freshly mapped pages and the heap is grown by the aligned size;
      afterwards the last free block, as `find` hands it back, is recorded
      as used (the refused push is ignored), and with no free block the heap
      is grown by the aligned size.  The page cache is returned with the
      grant. */
  function AllocateAsWritten(bk: BookKeeper, size: nat, env: Env, pages: Cache, maps: PageReplies,
                             offset: nat): (r: Result<(Grant, Cache)>)
    requires 1 <= size <= Util.ALIGN_MAX
    requires env.kernel.Valid() && bk.free.Valid() && bk.used.Valid()
    ensures r.Err? ==> r.IsPanic()
    ensures r.Ok? ==> r.value.0.ptr == RawData(r.value.0.blk, offset)
    ensures r.Ok? && !Untouched(bk) ==> r.value.1 == pages
    ensures r.Ok? && (Untouched(bk) || bk.free.IsEmpty()) ==>
              r.value.0.blk.size == Util.Align(size) && !r.value.0.blk.free
    ensures r.Ok? && !Untouched(bk) && !bk.free.IsEmpty() ==>
              && r.value.0.env == env
              && r.value.0.blk.data == bk.free.items[bk.free.Len() - 1].data
              && r.value.0.bk.used == RawSlices.Push(bk.used, r.value.0.blk).0
  {
    var aligned := Util.Align(size);
    if Untouched(bk) then
      match MapLedgers(pages, maps, env.debug)
      case Err(f) => Err(f)
      case Ok((bk1, pages1)) =>
        match ExtendHeapAsWritten(bk1, aligned, env, offset)
        case Err(f) => Err(f)
        case Ok(g) => Ok((g, pages1))
    else
      match Find(bk.free, aligned)
      case Err(f) => Err(f)
      case Ok((free1, None)) =>
        (match ExtendHeapAsWritten(bk.(free := free1), aligned, env, offset)
         case Err(f) => Err(f)
         case Ok(g) => Ok((g, pages)))
      case Ok((free1, Some(blk))) =>
        Ok((Grant(BookKeeper(free1, RawSlices.Push(bk.used, blk).0), env, blk, RawData(blk, offset)), pages))
  }

  /** The reuse path as written hands out a block smaller than the request
      whenever the free blocks together are too small: `find` merges them
      all and returns the merge. */
  lemma AllocateAsWrittenReturnsTooSmallBlock(bk: BookKeeper, size: nat, env: Env, pages: Cache,
                                              maps: PageReplies, offset: nat)
    requires 1 <= size <= Util.ALIGN_MAX
    requires env.kernel.Valid() && bk.free.Valid() && bk.used.Valid() && !Untouched(bk)
    requires !bk.free.IsEmpty() && AllEven(bk.free.items) && Total(bk.free.items) < Util.Align(size)
    ensures var r := AllocateAsWritten(bk, size, env, pages, maps, offset);
            && r.Ok? && r.value.0.blk.size < Util.Align(size)
            && r.value.0.blk.size == Total(bk.free.items) && r.value.0.bk.free.IsEmpty()
  {
    var aligned := Util.Align(size);
    FindReturnsTooSmallBlock(bk.free, aligned);
    FindTooSmallMeansAllMerged(bk.free, aligned);
  }

  /** The smallest instance: one free 8-byte block, a 16-byte request, and
      the 8-byte block is what the caller gets. */
  lemma AllocateAsWrittenTooSmallExample(used: RawSlices.RawSlice<Block>, env: Env, pages: Cache,
                                         maps: PageReplies, offset: nat)
    requires env.kernel.Valid() && used.Valid() && !used.IsNull()
    ensures var bk := BookKeeper(RawSlices.RawSlice([Block(8, 0x2000, true)], 170, 0x1000), used);
            var r := AllocateAsWritten(bk, 16, env, pages, maps, offset);
            r.Ok? && r.value.0.blk == Block(8, 0x2000, true) && r.value.0.ptr == 0x2000 + offset
  {
    assert Util.Align(16) == 16;
    FindTooSmallExample();
  }

  /** `allocate` corrected: reuse goes through the corrected search, which
      never returns a block smaller than the request, and growth goes
      through the corrected `extend_heap`.  A granted block is at least the
      aligned request. */
  function Allocate(bk: BookKeeper, size: nat, env: Env, pages: Cache, maps: PageReplies,
                    offset: nat): (r: Result<(Grant, Cache)>)
    requires 1 <= size <= Util.ALIGN_MAX
    requires env.kernel.Valid() && bk.free.Valid() && bk.used.Valid()
    ensures r.Err? ==> r.IsPanic()
    ensures r.Ok? ==> r.value.0.blk.size >= Util.Align(size) >= size
    ensures r.Ok? ==> r.value.0.ptr == RawData(r.value.0.blk, offset)
    ensures r.Ok? && !Untouched(bk) ==> r.value.1 == pages
  {
    var aligned := Util.Align(size);
    if Untouched(bk) then
      match MapLedgers(pages, maps, env.debug)
      case Err(f) => Err(f)
      case Ok((bk1, pages1)) =>
        match ExtendHeap(bk1, aligned, env, offset)
        case Err(f) => Err(f)
        case Ok(g) => Ok((g, pages1))
    else
      match FindFit(bk.free, aligned)
      case Err(f) => Err(f)
      case Ok((free1, None)) =>
        (match ExtendHeap(bk.(free := free1), aligned, env, offset)
         case Err(f) => Err(f)
         case Ok(g) => Ok((g, pages)))
      case Ok((free1, Some(blk))) =>
        Ok((Grant(BookKeeper(free1, RawSlices.Push(bk.used, blk).0), env, blk, RawData(blk, offset)), pages))
  }

  /** For the ledger arena with an empty free list (the only state the
      arena ever reaches) the correction changes nothing. */
  lemma LedgerAllocateUnchanged(bk: BookKeeper, size: nat, env: Env, pages: Cache, maps: PageReplies)
    requires 1 <= size <= Util.ALIGN_MAX
    requires env.kernel.Valid() && bk.free.Valid() && bk.used.Valid() && bk.free.IsEmpty()
    ensures AllocateAsWritten(bk, size, env, pages, maps, LEDGER_OFFSET)
            == Allocate(bk, size, env, pages, maps, LEDGER_OFFSET)
  {
    var aligned := Util.Align(size);
    assert Find(bk.free, aligned) == Ok((bk.free, None));
    assert FindFit(bk.free, aligned) == Ok((bk.free, None));
    if Untouched(bk) {
      match MapLedgers(pages, maps, env.debug)
      case Err(_) =>
      case Ok((bk1, _)) =>
        LedgerExtendHeapUnchanged(bk1, aligned, env);
    } else {
      LedgerExtendHeapUnchanged(bk.(free := bk.free), aligned, env);
    }
  }

  /** The first allocation as written maps both ledgers with room for
      `CAPACITY` records on consecutive pages, leaves `free` empty, records
      exactly one block of the aligned size at the old break and moves the
      break by that size; the payload starts `offset` bytes into the
      block. */
  lemma AllocateFirstCall(size: nat, env: Env, maps: PageReplies, offset: nat)
    requires 1 <= size <= Util.ALIGN_MAX
    requires env.Valid() && env.kernel.brk + Util.Align(size) <= env.kernel.limit
    requires 0 < maps.first.probe && maps.first.mapped == maps.first.probe + Chunk.PAGE_SIZE
    requires env.debug ==> maps.second.probe == maps.first.mapped
    requires maps.second.mapped == maps.first.mapped + Chunk.PAGE_SIZE
    ensures var r := AllocateAsWritten(Init(), size, env, UNSET, maps, offset);
            var p := maps.first.probe;
            && r.Ok?
            && r.value.0.bk.free == RawSlices.New(p, [], CAPACITY)
            && r.value.0.bk.used == RawSlices.New(p + Chunk.PAGE_SIZE, [New(env.kernel.brk, Util.Align(size))], CAPACITY)
            && r.value.0.ptr == env.kernel.brk + offset
            && r.value.0.env.kernel.brk == env.kernel.brk + Util.Align(size)
            && r.value.1 == Cache(p + 2 * Chunk.PAGE_SIZE)
            && Inv(r.value.0.bk, r.value.0.env, LEDGER_OFFSET)
  {
    CapacityValue();
    var p := maps.first.probe;
    var bk := BookKeeper(RawSlices.New(p, [], CAPACITY), RawSlices.New(p + Chunk.PAGE_SIZE, [], CAPACITY));
    assert MapLedgers(UNSET, maps, env.debug) == Ok((bk, Cache(p + 2 * Chunk.PAGE_SIZE)));
    assert Inv(bk, env, LEDGER_OFFSET);
    ExtendHeapKeepsInv(bk, Util.Align(size), env, LEDGER_OFFSET);
    ExtendHeapSucceeds(bk, Util.Align(size), env, LEDGER_OFFSET);
    ExtendHeapBySpec(bk, Util.Align(size), Util.Align(size), env, LEDGER_OFFSET);
    var r := ExtendHeapAsWritten(bk, Util.Align(size), env, offset);
    ExtendHeapBySpec(bk, Util.Align(size), Util.Align(size), env, offset);
    assert r.value.bk.used.items == ExtendHeap(bk, Util.Align(size), env, LEDGER_OFFSET).value.bk.used.items;
    assert multiset(r.value.bk.used.items) == multiset{New(env.kernel.brk, Util.Align(size))};
    assert |r.value.bk.used.items| == 1;
    assert r.value.bk.used.items[0] in multiset(r.value.bk.used.items);
  }

  /** With the free list empty, the corrected allocation grows the heap,
      keeps the invariant, and hands out a payload that ends at the new
      break. */
  lemma AllocateKeepsInv(bk: BookKeeper, size: nat, env: Env, pages: Cache, maps: PageReplies, offset: nat)
    requires 1 <= size <= Util.ALIGN_MAX
    requires Inv(bk, env, offset) && !bk.used.IsNull() && bk.free.IsEmpty()
    ensures var r := Allocate(bk, size, env, pages, maps, offset);
            r.Ok? ==> Inv(r.value.0.bk, r.value.0.env, offset) && r.value.0.bk.free.IsEmpty()
                      && r.value.0.ptr + Util.Align(size) == r.value.0.env.kernel.brk
  {
    var aligned := Util.Align(size);
    assert FindFit(bk.free, aligned) == Ok((bk.free, None));
    ExtendHeapKeepsInv(bk, aligned, env, offset);
  }

  /** The ledger arena as written: nothing ever fills `free`, so after the
      first call every allocation grows the heap, keeps the invariant and
      hands out a block that ends at the new break. */
  lemma LedgerAllocateKeepsInv(bk: BookKeeper, size: nat, env: Env, pages: Cache, maps: PageReplies)
    requires 1 <= size <= Util.ALIGN_MAX
    requires Inv(bk, env, LEDGER_OFFSET) && !bk.used.IsNull() && bk.free.IsEmpty()
    ensures var r := AllocateAsWritten(bk, size, env, pages, maps, LEDGER_OFFSET);
            r.Ok? ==> Inv(r.value.0.bk, r.value.0.env, LEDGER_OFFSET) && r.value.0.bk.free.IsEmpty()
                      && r.value.0.ptr + Util.Align(size) == r.value.0.env.kernel.brk
  {
    LedgerAllocateUnchanged(bk, size, env, pages, maps);
    AllocateKeepsInv(bk, size, env, pages, maps, LEDGER_OFFSET);
  }

  /** The run of the arena's own allocation test as written: the first
      request for a 4-byte value on an untouched heap at 0x1000 returns
      0x1018, but the break only moves to 0x1004, so the value the test
      writes and reads back lies past the break. */
  lemma AllocScenario()
    ensures var env := Breaks.Env(UNSET, Breaks.Kernel(0x1000, 0x1000, 0x100000), true);
            var maps := PageReplies(PageReply(0x7000_0000, 0x7000_1000), PageReply(0x7000_1000, 0x7000_2000));
            var r := AllocateAsWritten(Init(), 4, env, UNSET, maps, HEADER_OFFSET);
            && r.Ok? && r.value.0.ptr == 0x1018 && r.value.0.env.kernel.brk == 0x1004
            && r.value.0.ptr + 4 > r.value.0.env.kernel.brk
  {
    var env := Breaks.Env(UNSET, Breaks.Kernel(0x1000, 0x1000, 0x100000), true);
    var maps := PageReplies(PageReply(0x7000_0000, 0x7000_1000), PageReply(0x7000_1000, 0x7000_2000));
    assert Util.Align(4) == 4;
    AllocateFirstCall(4, env, maps, HEADER_OFFSET);
  }

  /** The header layout test: a 4-byte block on a buffer puts its payload
      `HEADER_OFFSET` bytes in, and the ledger copy puts it at the block. */
  lemma BlockOffsetScenario(buf: nat)
    ensures RawData(New(buf, 4), HEADER_OFFSET) == buf + 24
    ensures RawData(New(buf, 4), LEDGER_OFFSET) == buf
  {
  }

  // ----- freeing -----

  /** `free` looks the pointer up in `used` and discards the answer: the
      arena is returned unchanged, together with the position the lookup
      computed (the match, or where the address would go).  The lookup
      reaches the ledger through its dereference, so an arena that has not
      allocated yet aborts. */
  function Free(bk: BookKeeper, ptr: nat): (r: Result<(BookKeeper, nat)>)
    ensures r.Err? <==> bk.used.IsNull()
    ensures r.Err? ==> r.IsPanic()
    ensures r.Ok? ==> r.value.0 == bk && r.value.1 <= bk.used.Len()
    ensures r.Ok? && Sorted(bk.used.items) ==>
              (forall i :: 0 <= i < r.value.1 ==> bk.used.items[i].data < ptr) &&
              (forall i :: r.value.1 < i < bk.used.Len() ==> ptr < bk.used.items[i].data)
  {
    match RawSlices.Deref(bk.used)
    case Err(f) => Err(f)
    case Ok(items) =>
      match BinarySearch(items, New(ptr, 0).data)
      case Found(i) => Ok((bk, i))
      case Missing(i) => Ok((bk, i))
  }
}
