/** The intrusive block chain: every block of the heap starts with a
    header holding its payload size, whether it is in use, a pointer to
    itself and links to the next and previous headers.  Memory is a map
    from header address to header; a `Ptr` with address 0x1 is the empty
    link.  The address of the first header (the chain's global head) is a
    parameter. */
module Chain {
  import opened Wrappers
  import Util
  import opened Pointer
  import Breaks
  import Boundary

  /** The size of a header record: a machine word, three pointers and a
      one-byte state, padded to word alignment. */
  const BLOCK_STRUCT_SIZE: nat := 40

  /** Header size rounded with `align`. */
  const BLOCK_SIZE: nat := Util.Align(BLOCK_STRUCT_SIZE)

  lemma BlockSizeValue()
    ensures BLOCK_SIZE == 40 && BLOCK_SIZE % Util.WORD == 0
  {
    Util.AlignOfMultiple(BLOCK_STRUCT_SIZE);
  }

  datatype State = InUse | Free

  datatype Header = Header(size: nat, state: State, data: Ptr, next: Ptr, prev: Ptr)

  type Heap = map<nat, Header>

  // ----- the shape of a well-formed chain -----

  /** A header sits at `a` and points at itself. */
  predicate Node(h: Heap, a: nat) {
    a in h && a > EMPTY_ADDR && h[a].data == Ptr(a)
  }

  /** `b` follows `a`: linked both ways, and `b` starts right where `a`'s
      payload ends. */
  predicate Adjacent(h: Heap, a: nat, b: nat)
    requires a in h && b in h
  {
    h[a].next == Ptr(b) && h[b].prev == Ptr(a) && b == a + BLOCK_SIZE + h[a].size
  }

  /** The headers at the addresses `c`, in order, form the heap: each one
      starts where the previous one ends, the links agree both ways, and
      the first has no predecessor and the last no successor. */
  predicate WellFormed(h: Heap, c: seq<nat>) {
    && |c| > 0
    && (forall i :: 0 <= i < |c| ==> Node(h, c[i]))
    && (forall i :: 0 <= i < |c| - 1 ==> Adjacent(h, c[i], c[i + 1]))
    && h[c[0]].prev.IsNull()
    && h[c[|c| - 1]].next.IsNull()
  }

  /** Only the forward links, which is all the search needs. */
  predicate Linked(h: Heap, c: seq<nat>) {
    && |c| > 0
    && (forall i :: 0 <= i < |c| ==> c[i] in h && c[i] > EMPTY_ADDR)
    && (forall i :: 0 <= i < |c| - 1 ==> h[c[i]].next == Ptr(c[i + 1]))
    && h[c[|c| - 1]].next.IsNull()
  }

  lemma WellFormedIsLinked(h: Heap, c: seq<nat>)
    requires WellFormed(h, c)
    ensures Linked(h, c)
  {
  }

  /** Where the heap described by `c` ends. */
  function End(h: Heap, c: seq<nat>): nat
    requires |c| > 0 && c[|c| - 1] in h
  {
    c[|c| - 1] + BLOCK_SIZE + h[c[|c| - 1]].size
  }

  /** Blocks further along the chain start after earlier blocks end. */
  lemma {:induction false} Increasing(h: Heap, c: seq<nat>, i: nat, j: nat)
    requires WellFormed(h, c) && i < j < |c|
    ensures c[i] + BLOCK_SIZE + h[c[i]].size <= c[j]
    decreases j - i
  {
    assert Adjacent(h, c[i], c[i + 1]);
    if i + 1 < j {
      Increasing(h, c, i + 1, j);
    }
  }

  /** Every block of a well-formed chain lies below its end. */
  lemma BelowEnd(h: Heap, c: seq<nat>)
    requires WellFormed(h, c)
    ensures forall i :: 0 <= i < |c| ==> c[i] + BLOCK_SIZE + h[c[i]].size <= End(h, c)
  {
    forall i | 0 <= i < |c| ensures c[i] + BLOCK_SIZE + h[c[i]].size <= End(h, c) {
      if i < |c| - 1 {
        Increasing(h, c, i, |c| - 1);
      }
    }
  }

  // ----- headers -----

  /** Reads the header a pointer points at; a pointer to no header is a bad
      dereference and aborts. */
  function Read(h: Heap, p: Ptr): (r: Result<Header>)
    ensures r.Ok? <==> p.addr in h
    ensures r.Ok? ==> r.value == h[p.addr]
  {
    if p.addr in h then Ok(h[p.addr]) else Err(Panic("bad dereference"))
  }

  /** Writes a fresh in-use header with no successor at a non-null address. */
  function Place(h: Heap, addr: nat, size: nat, prev: Ptr): (r: (Heap, Header))
    requires addr != RAW_NULL
    ensures r.1 == Header(size, InUse, Ptr(addr), Empty(), prev)
    ensures r.0 == h[addr := r.1]
  {
    var blk := Header(size, InUse, Ptr(addr), Empty(), prev);
    (h[addr := blk], blk)
  }

  /** `from_raw`: a header for `size` payload bytes at `ptr`, in use, with
      no successor and the given predecessor, written to memory and
      returned.  A raw null aborts. */
  function FromRaw(h: Heap, ptr: nat, size: nat, prev: Ptr): (r: Result<(Heap, Header)>)
    ensures r.Ok? <==> ptr != RAW_NULL
    ensures r.Ok? ==> Read(r.value.0, Ptr(ptr)) == Ok(r.value.1)
    ensures r.Ok? ==> r.value.1.state == InUse && r.value.1.next.IsNull() && r.value.1.prev == prev
                      && r.value.1.size == size && r.value.1.data.Get() == ptr
    ensures r.Ok? ==> forall a :: a in h && a != ptr ==> a in r.value.0 && r.value.0[a] == h[a]
  {
    if ptr == RAW_NULL then Err(Panic("null")) else Ok(Place(h, ptr, size, prev))
  }

  /** The header of the block whose payload starts at `payload`: one header
      size before it.  Pointer arithmetic below address 0 is undefined and
      is excluded. */
  function GetBlock(payload: nat): (r: Result<Ptr>)
    requires payload >= BLOCK_SIZE
    ensures r.Ok? <==> payload != BLOCK_SIZE
    ensures r.Ok? ==> r.value.Get() + BLOCK_SIZE == payload
  {
    Offset(Ptr(payload), -1, BLOCK_SIZE)
  }

  /** Going from a header to its payload and back finds the header. */
  lemma GetBlockOfPayload(h: Heap, c: seq<nat>, i: nat)
    requires WellFormed(h, c) && i < |c|
    ensures GetBlock(c[i] + BLOCK_SIZE) == Ok(h[c[i]].data)
  {
  }

  // ----- first fit -----

  predicate Fits(b: Header, size: nat) {
    b.state == Free && b.size >= size
  }

  /** `find_block`: from the head, the first free block of at least `size`
      bytes, or the last block if none fits; the empty link when the head
      is null.  `k` is the position of the answer along the chain. */
  method FindBlock(h: Heap, head: nat, size: nat, ghost c: seq<nat>) returns (r: Ptr, ghost k: nat)
    requires head != RAW_NULL ==> Linked(h, c) && c[0] == head
    ensures head == RAW_NULL ==> r.IsNull()
    ensures head != RAW_NULL ==>
              && k < |c| && r == Ptr(c[k])
              && (forall j :: 0 <= j < k ==> !Fits(h[c[j]], size))
              && (Fits(h[c[k]], size) || k == |c| - 1)
  {
    if head == RAW_NULL {
      return Empty(), 0;
    }
    var b := Ptr(head);
    k := 0;
    assert b == Ptr(c[0]);
    while !(b.IsNull() || Fits(h[b.addr], size))
      invariant k < |c| && b == Ptr(c[k])
      invariant forall j :: 0 <= j < k ==> !Fits(h[c[j]], size)
      decreases |c| - k
    {
      if h[b.addr].next.IsNull() {
        assert k < |c| - 1 ==> h[c[k]].next == Ptr(c[k + 1]) && c[k + 1] > EMPTY_ADDR;
        return b, k;
      }
      assert k < |c| - 1;
      b := h[b.addr].next;
      k := k + 1;
    }
    r := b;
  }

  // ----- growing the heap -----

  /** Links `p` after `last` unless `last` is the empty link. */
  function Link(h: Heap, last: Ptr, p: Ptr): (r: Result<Heap>)
    ensures r.Ok? <==> last.IsNull() || last.addr in h
    ensures r.Ok? && last.IsNull() ==> r.value == h
    ensures r.Ok? && !last.IsNull() ==> r.value == h[last.addr := h[last.addr].(next := p)]
  {
    if last.IsNull() then Ok(h)
    else if last.addr !in h then Err(Panic("bad dereference"))
    else Ok(h[last.addr := h[last.addr].(next := p)])
  }

  /** Header plus payload for a `size`-byte request, rounded with `align`. */
  function NeedSize(size: nat): (n: nat)
    requires size <= Util.ALIGN_MAX - BLOCK_SIZE
    ensures n % Util.WORD == 0
    ensures BLOCK_SIZE + size <= n < BLOCK_SIZE + size + Util.WORD
  {
    Util.Align(BLOCK_SIZE + size)
  }

  /** What a grown heap hands back: memory, environment, the new header. */
  datatype Grown = Grown(heap: Heap, env: Breaks.Env, blk: Ptr)

  /** `extend_heap` as written: one `sbrk` for the header, a second for the
      aligned header-plus-payload, a header at the first old break, and the
      new block linked after `last`. */
  function ExtendHeapAsWritten(h: Heap, env: Breaks.Env, last: Ptr, size: nat): (r: Result<Grown>)
    requires env.kernel.Valid()
    requires size <= Util.ALIGN_MAX - BLOCK_SIZE
    ensures r.Err? ==> r.IsPanic()
    ensures r.Ok? ==> r.value.blk.addr in r.value.heap && r.value.heap[r.value.blk.addr].size >= size
  {
    var need := NeedSize(size);
    var (env1, r1) := Breaks.SbrkEnv(env, BLOCK_SIZE);
    if r1.Err? then Err(Panic("break query failed"))
    else
      match FromRaw(h, r1.value, need - BLOCK_SIZE, last)
      case Err(f) => Err(f)
      case Ok((h1, b)) =>
        var (env2, r2) := Breaks.SbrkEnv(env1, need);
        if r2.Err? then Err(Panic("NEXT PAGE IS OOM??"))
        else
          match Link(h1, last, b.data)
          case Err(f) => Err(f)
          case Ok(h2) => Ok(Grown(h2, env2, b.data))
  }

  /** `extend_heap` corrected: the break grows once, by the aligned header
      plus payload, and the new header sits at the old break. */
  function ExtendHeap(h: Heap, env: Breaks.Env, last: Ptr, size: nat): (r: Result<Grown>)
    requires env.kernel.Valid()
    requires size <= Util.ALIGN_MAX - BLOCK_SIZE
    ensures r.Err? ==> r.IsPanic()
  {
    var need := NeedSize(size);
    var (env1, r1) := Breaks.SbrkEnv(env, need);
    if r1.Err? then Err(Panic("NEXT PAGE IS OOM??"))
    else
      match FromRaw(h, r1.value, need - BLOCK_SIZE, last)
      case Err(f) => Err(f)
      case Ok((h1, b)) =>
        match Link(h1, last, b.data)
        case Err(f) => Err(f)
        case Ok(h2) => Ok(Grown(h2, env1, b.data))
  }

  /** Appending a fresh in-use header at the end of a well-formed heap and
      linking it after the old last block gives a well-formed heap one
      block longer. */
  lemma AppendKeepsWellFormed(h: Heap, c: seq<nat>, size: nat)
    requires WellFormed(h, c)
    ensures var p := End(h, c);
            var last := c[|c| - 1];
            var h1 := Place(h, p, size, Ptr(last)).0;
            var h2 := h1[last := h1[last].(next := Ptr(p))];
            WellFormed(h2, c + [p]) && End(h2, c + [p]) == p + BLOCK_SIZE + size
  {
    var p := End(h, c);
    var last := c[|c| - 1];
    var h1 := Place(h, p, size, Ptr(last)).0;
    var h2 := h1[last := h1[last].(next := Ptr(p))];
    var c' := c + [p];
    BelowEnd(h, c);
    assert forall i :: 0 <= i < |c| ==> c[i] != p && c[i] in h2;
    forall i | 0 <= i < |c'| ensures Node(h2, c'[i]) {
      if i < |c| {
        assert c'[i] == c[i] && Node(h, c[i]);
      }
    }
    forall i | 0 <= i < |c'| - 1 ensures Adjacent(h2, c'[i], c'[i + 1]) {
      if i < |c| - 1 {
        assert c'[i] == c[i] && c'[i + 1] == c[i + 1] && Adjacent(h, c[i], c[i + 1]);
        assert h2[c[i + 1]].prev == h[c[i + 1]].prev;
      }
    }
    if |c| > 1 {
      assert h2[c'[0]].prev == h[c[0]].prev;
    }
  }

  /** The corrected growth on a heap that ends at the break: it succeeds
      exactly when the kernel can move the break by the aligned
      header-plus-payload size; the new block starts at the old break, is
      in use with at least the requested payload, follows the old last
      block, and the heap again ends exactly at the break. */
  lemma ExtendHeapKeepsChain(h: Heap, c: seq<nat>, env: Breaks.Env, size: nat)
    requires WellFormed(h, c) && env.Valid() && End(h, c) == env.kernel.brk
    requires size <= Util.ALIGN_MAX - BLOCK_SIZE
    ensures var r := ExtendHeap(h, env, Ptr(c[|c| - 1]), size);
            r.Ok? <==> env.kernel.brk + NeedSize(size) <= env.kernel.limit
    ensures var r := ExtendHeap(h, env, Ptr(c[|c| - 1]), size);
            var p := env.kernel.brk;
            r.Ok? ==>
              && r.value.blk == Ptr(p) && r.value.env.Valid()
              && WellFormed(r.value.heap, c + [p])
              && End(r.value.heap, c + [p]) == r.value.env.kernel.brk
              && r.value.heap[p].state == InUse && r.value.heap[p].size >= size
  {
    var need := NeedSize(size);
    Breaks.SbrkEnvSpec(env, need);
    AppendKeepsWellFormed(h, c, need - BLOCK_SIZE);
  }

  /** The first block of an empty heap. */
  lemma ExtendHeapStartsChain(h: Heap, env: Breaks.Env, size: nat)
    requires env.Valid() && env.kernel.start > EMPTY_ADDR
    requires size <= Util.ALIGN_MAX - BLOCK_SIZE
    ensures var r := ExtendHeap(h, env, Empty(), size);
            r.Ok? <==> env.kernel.brk + NeedSize(size) <= env.kernel.limit
    ensures var r := ExtendHeap(h, env, Empty(), size);
            var p := env.kernel.brk;
            r.Ok? ==>
              && r.value.blk == Ptr(p) && r.value.env.Valid()
              && WellFormed(r.value.heap, [p])
              && End(r.value.heap, [p]) == r.value.env.kernel.brk
  {
    Breaks.SbrkEnvSpec(env, NeedSize(size));
  }

  /** The growth as written keeps the chain linked but stops one header
      short of the break: the first `sbrk` reserves a header that the
      second one, which already counts the header, reserves again. */
  lemma ExtendHeapAsWrittenLeavesGap(h: Heap, c: seq<nat>, env: Breaks.Env, size: nat)
    requires WellFormed(h, c) && env.Valid() && End(h, c) == env.kernel.brk
    requires size <= Util.ALIGN_MAX - BLOCK_SIZE
    ensures var r := ExtendHeapAsWritten(h, env, Ptr(c[|c| - 1]), size);
            var p := env.kernel.brk;
            r.Ok? ==>
              && r.value.blk == Ptr(p) && r.value.env.Valid()
              && WellFormed(r.value.heap, c + [p])
              && r.value.env.kernel.brk == End(r.value.heap, c + [p]) + BLOCK_SIZE
  {
    var need := NeedSize(size);
    Breaks.SbrkEnvSpec(env, BLOCK_SIZE);
    var (env1, r1) := Breaks.SbrkEnv(env, BLOCK_SIZE);
    if r1.Ok? {
      Breaks.SbrkEnvSpec(env1, need);
      AppendKeepsWellFormed(h, c, need - BLOCK_SIZE);
    }
  }

  /** One request on a heap of one 60-byte block at 0x1000 whose break is
      at 0x1064: the new header lands at 0x1064, its block ends at 0x10A4,
      and the break is left at 0x10CC. */
  lemma ExtendHeapAsWrittenExample()
    ensures var h := map[0x1000 := Header(60, InUse, Ptr(0x1000), Empty(), Empty())];
            var env := Breaks.Env(Boundary.UNSET, Breaks.Kernel(0x1000, 0x1064, 0x10000), false);
            var r := ExtendHeapAsWritten(h, env, Ptr(0x1000), 24);
            r.Ok? && r.value.blk == Ptr(0x1064) && r.value.heap[0x1064].size == 24
            && r.value.env.kernel.brk == 0x10CC
  {
    BlockSizeValue();
    var h := map[0x1000 := Header(60, InUse, Ptr(0x1000), Empty(), Empty())];
    var env := Breaks.Env(Boundary.UNSET, Breaks.Kernel(0x1000, 0x1064, 0x10000), false);
    assert Util.Align(64) == 64 by { Util.AlignOfMultiple(64); }
    assert WellFormed(h, [0x1000]);
    ExtendHeapAsWrittenLeavesGap(h, [0x1000], env, 24);
  }

  // ----- coalescing -----

  /** `absorb`: a free block swallows its successor, header and all, takes
      over the successor's successor and becomes its predecessor.  An
      in-use block and the empty link are left alone; a free block whose
      successor is not a header (the last block, in particular) is a bad
      dereference. */
  function Absorb(h: Heap, p: Ptr): (r: Result<Heap>)
    ensures r.Err? ==> r.IsPanic()
    ensures p.IsNull() ==> r == Ok(h)
    ensures !p.IsNull() && p.addr in h && h[p.addr].state == InUse ==> r == Ok(h)
  {
    if p.IsNull() then Ok(h)
    else
      match Read(h, p)
      case Err(f) => Err(f)
      case Ok(b) =>
        if b.state != Free then Ok(h)
        else
          match Read(h, b.next)
          case Err(f) => Err(f)
          case Ok(n) =>
            var h1 := h[p.addr := b.(size := b.size + BLOCK_SIZE + n.size)];
            var h2 := h1[p.addr := h1[p.addr].(next := n.next)];
            if n.next.IsNull() then Ok(h2)
            else
              match Read(h2, n.next)
              case Err(f) => Err(f)
              case Ok(m) => Ok(h2[n.next.addr := m.(prev := p)])
  }

  /** Absorbing into a free block that has a successor keeps the heap well
      formed with the successor gone, keeps where the heap ends, and grows
      the block by exactly the successor's header and payload. */
  lemma AbsorbKeepsChain(h: Heap, c: seq<nat>, k: nat)
    requires WellFormed(h, c) && k + 1 < |c| && h[c[k]].state == Free
    ensures var r := Absorb(h, Ptr(c[k]));
            var c' := c[..k + 1] + c[k + 2..];
            && r.Ok?
            && WellFormed(r.value, c')
            && End(r.value, c') == End(h, c)
            && r.value[c[k]].size == h[c[k]].size + BLOCK_SIZE + h[c[k + 1]].size
  {
    var p := c[k];
    var q := c[k + 1];
    var b := h[p];
    var n := h[q];
    assert Adjacent(h, p, q);
    var h1 := h[p := b.(size := b.size + BLOCK_SIZE + n.size)];
    var h2 := h1[p := h1[p].(next := n.next)];
    var c' := c[..k + 1] + c[k + 2..];
    assert |c'| == |c| - 1;
    assert forall i :: 0 <= i <= k ==> c'[i] == c[i];
    assert forall i :: k < i < |c'| ==> c'[i] == c[i + 1];
    if k + 2 < |c| {
      var m := c[k + 2];
      assert Adjacent(h, q, m);
      Increasing(h, c, k, k + 2);
      var h3 := h2[m := h2[m].(prev := Ptr(p))];
      assert Absorb(h, Ptr(p)) == Ok(h3);
      forall i | 0 <= i < |c| && i != k + 1 ensures c[i] != q { if i < k + 1 { Increasing(h, c, i, k + 1); } else { Increasing(h, c, k + 1, i); } }
      forall i | 0 <= i < |c| && i != k + 2 ensures c[i] != m { if i < k + 2 { Increasing(h, c, i, k + 2); } else { Increasing(h, c, k + 2, i); } }
      forall i | 0 <= i < |c| && i != k ensures c[i] != p { if i < k { Increasing(h, c, i, k); } else { Increasing(h, c, k, i); } }
      forall i | 0 <= i < |c'| ensures Node(h3, c'[i]) {
        if i <= k { assert Node(h, c[i]); } else { assert Node(h, c[i + 1]); }
      }
      forall i | 0 <= i < |c'| - 1 ensures Adjacent(h3, c'[i], c'[i + 1]) {
        if i < k {
          assert Adjacent(h, c[i], c[i + 1]);
        } else if i > k {
          assert Adjacent(h, c[i + 1], c[i + 2]);
        }
      }
      if k > 0 {
        assert h3[c'[0]] == h[c[0]];
      }
      assert h3[c'[|c'| - 1]].next == h[c[|c| - 1]].next;
    } else {
      assert Absorb(h, Ptr(p)) == Ok(h2);
      forall i | 0 <= i < |c| && i != k ensures c[i] != p { if i < k { Increasing(h, c, i, k); } else { Increasing(h, c, k, i); } }
      forall i | 0 <= i < |c'| ensures Node(h2, c'[i]) {
        assert Node(h, c[i]);
      }
      forall i | 0 <= i < |c'| - 1 ensures Adjacent(h2, c'[i], c'[i + 1]) {
        assert Adjacent(h, c[i], c[i + 1]);
      }
      if k > 0 {
        assert h2[c'[0]] == h[c[0]];
      }
    }
  }

  /** Absorbing into a free last block dereferences the empty link. */
  lemma AbsorbLastBlockAborts(h: Heap, c: seq<nat>)
    requires WellFormed(h, c) && h[c[|c| - 1]].state == Free && EMPTY_ADDR !in h
    ensures Absorb(h, Ptr(c[|c| - 1])).Err?
  {
  }

  // ----- splitting -----

  /** Where `split_block(p, size)` puts the new header. */
  function SplitPoint(p: Ptr, size: nat): nat {
    p.addr + size + BLOCK_SIZE
  }

  /** `split_block` as written: `p` keeps `size` payload bytes, a new free
      header takes the rest right after them, and `p` links forward to the
      new block, which links forward to `p`'s old successor and back to
      `p`.  The old successor is not touched. */
  function SplitBlockAsWritten(h: Heap, p: Ptr, size: nat): (r: Heap)
    requires p.addr in h && size + BLOCK_SIZE < h[p.addr].size
    ensures var n := SplitPoint(p, size);
            n in r && p.addr in r && r[p.addr].size == size && r[p.addr].next == Ptr(n)
    ensures var n := SplitPoint(p, size);
            r[n] == Header(h[p.addr].size - size - BLOCK_SIZE, Free, Ptr(n), h[p.addr].next, p)
    ensures forall a :: a in h && a != p.addr && a != SplitPoint(p, size) ==> a in r && r[a] == h[a]
  {
    var b := h[p.addr];
    var n := SplitPoint(p, size);
    var h1 := Place(h, n, b.size - size - BLOCK_SIZE, p).0;
    var h2 := h1[n := h1[n].(next := h1[p.addr].next)];
    var h3 := h2[n := h2[n].(state := Free)];
    var h4 := h3[p.addr := h3[p.addr].(size := size)];
    h4[p.addr := h4[p.addr].(next := Ptr(n))]
  }

  /** `split_block` corrected: the old successor, when there is one, also
      links back to the new block. */
  function SplitBlock(h: Heap, p: Ptr, size: nat): (r: Result<Heap>)
    requires p.addr in h && size + BLOCK_SIZE < h[p.addr].size
    ensures r.Err? ==> r.IsPanic()
  {
    var h5 := SplitBlockAsWritten(h, p, size);
    var next := h[p.addr].next;
    if next.IsNull() then Ok(h5)
    else
      match Read(h5, next)
      case Err(f) => Err(f)
      case Ok(m) => Ok(h5[next.addr := m.(prev := Ptr(SplitPoint(p, size)))])
  }

  /** The new header lies strictly inside the block being split, so it is
      none of the chain's headers. */
  lemma SplitPointIsFresh(h: Heap, c: seq<nat>, k: nat, size: nat)
    requires WellFormed(h, c) && k < |c| && size + BLOCK_SIZE < h[c[k]].size
    ensures forall i :: 0 <= i < |c| ==> c[i] != SplitPoint(Ptr(c[k]), size)
    ensures forall i :: 0 <= i < |c| && i != k ==> c[i] != c[k]
  {
    forall i | 0 <= i < |c| && i != k ensures c[i] != c[k] && c[i] != SplitPoint(Ptr(c[k]), size) {
      if i < k { Increasing(h, c, i, k); } else { Increasing(h, c, k, i); }
    }
  }

  /** Splitting a block of a well-formed heap, corrected, gives a
      well-formed heap with the new free block right after the split one,
      ending where it ended before. */
  lemma SplitBlockKeepsChain(h: Heap, c: seq<nat>, k: nat, size: nat)
    requires WellFormed(h, c) && k < |c| && size + BLOCK_SIZE < h[c[k]].size
    ensures var r := SplitBlock(h, Ptr(c[k]), size);
            var n := SplitPoint(Ptr(c[k]), size);
            var c' := c[..k + 1] + [n] + c[k + 1..];
            && r.Ok?
            && WellFormed(r.value, c')
            && End(r.value, c') == End(h, c)
            && r.value[c[k]].size == size && r.value[n].state == Free
  {
    SplitPointIsFresh(h, c, k, size);
    if k + 1 < |c| {
      SplitInside(h, c, k, size);
    } else {
      SplitLast(h, c, size);
    }
  }

  lemma SplitInside(h: Heap, c: seq<nat>, k: nat, size: nat)
    requires WellFormed(h, c) && k + 1 < |c| && size + BLOCK_SIZE < h[c[k]].size
    requires forall i :: 0 <= i < |c| ==> c[i] != SplitPoint(Ptr(c[k]), size)
    requires forall i :: 0 <= i < |c| && i != k ==> c[i] != c[k]
    ensures var r := SplitBlock(h, Ptr(c[k]), size);
            var n := SplitPoint(Ptr(c[k]), size);
            var c' := c[..k + 1] + [n] + c[k + 1..];
            && r.Ok?
            && WellFormed(r.value, c')
            && End(r.value, c') == End(h, c)
            && r.value[c[k]].size == size && r.value[n].state == Free
  {
    var p := c[k];
    var n := SplitPoint(Ptr(p), size);
    var h5 := SplitBlockAsWritten(h, Ptr(p), size);
    var q := c[k + 1];
    assert Adjacent(h, p, q);
    var h6 := h5[q := h5[q].(prev := Ptr(n))];
    assert SplitBlock(h, Ptr(p), size) == Ok(h6);
    forall i | 0 <= i < |c| && i != k + 1 ensures c[i] != q {
      if i < k + 1 { Increasing(h, c, i, k + 1); } else { Increasing(h, c, k + 1, i); }
    }
    SplitRelinks(h, c, k, n, h6);
  }

  /** The links after a split inside the chain: `n` sits between `c[k]`
      and `c[k + 1]`, and every other header is as it was. */
  lemma SplitRelinks(h: Heap, c: seq<nat>, k: nat, n: nat, h6: Heap)
    requires WellFormed(h, c) && k + 1 < |c|
    requires forall i :: 0 <= i < |c| ==> c[i] != n
    requires forall i :: 0 <= i < |c| && i != k ==> c[i] != c[k]
    requires forall i :: 0 <= i < |c| && i != k + 1 ==> c[i] != c[k + 1]
    requires forall a :: a in h && a != c[k] && a != n && a != c[k + 1] ==> a in h6 && h6[a] == h[a]
    requires Node(h6, n) && c[k] in h6 && c[k + 1] in h6
    requires h6[c[k]] == h[c[k]].(size := h6[c[k]].size, next := Ptr(n))
    requires h6[c[k + 1]] == h[c[k + 1]].(prev := Ptr(n))
    requires h6[n].prev == Ptr(c[k]) && h6[n].next == Ptr(c[k + 1])
    requires n == c[k] + BLOCK_SIZE + h6[c[k]].size && c[k + 1] == n + BLOCK_SIZE + h6[n].size
    ensures var c' := c[..k + 1] + [n] + c[k + 1..];
            WellFormed(h6, c') && End(h6, c') == End(h, c)
  {
    var c' := c[..k + 1] + [n] + c[k + 1..];
    assert |c'| == |c| + 1;
    assert forall i :: 0 <= i <= k ==> c'[i] == c[i];
    assert c'[k + 1] == n;
    assert forall i :: k + 1 < i < |c'| ==> c'[i] == c[i - 1];
    forall i | 0 <= i < |c'| ensures Node(h6, c'[i]) {
      if i <= k { assert Node(h, c[i]); } else if i > k + 1 { assert Node(h, c[i - 1]); }
    }
    forall i | 0 <= i < |c'| - 1 ensures Adjacent(h6, c'[i], c'[i + 1]) {
      if i < k {
        assert Adjacent(h, c[i], c[i + 1]);
      } else if i > k + 1 {
        assert Adjacent(h, c[i - 1], c[i]);
      }
    }
    if k > 0 {
      assert h6[c'[0]] == h[c[0]];
    }
    assert h6[c'[|c'| - 1]].next == h[c[|c| - 1]].next;
  }

  lemma SplitLast(h: Heap, c: seq<nat>, size: nat)
    requires WellFormed(h, c) && size + BLOCK_SIZE < h[c[|c| - 1]].size
    requires forall i :: 0 <= i < |c| ==> c[i] != SplitPoint(Ptr(c[|c| - 1]), size)
    requires forall i :: 0 <= i < |c| - 1 ==> c[i] != c[|c| - 1]
    ensures var k := |c| - 1;
            var r := SplitBlock(h, Ptr(c[k]), size);
            var n := SplitPoint(Ptr(c[k]), size);
            var c' := c[..k + 1] + [n] + c[k + 1..];
            && r.Ok?
            && WellFormed(r.value, c')
            && End(r.value, c') == End(h, c)
            && r.value[c[k]].size == size && r.value[n].state == Free
  {
    var k := |c| - 1;
    var p := c[k];
    var n := SplitPoint(Ptr(p), size);
    var h5 := SplitBlockAsWritten(h, Ptr(p), size);
    var c' := c[..k + 1] + [n] + c[k + 1..];
    assert c' == c + [n];
    assert SplitBlock(h, Ptr(p), size) == Ok(h5);
    forall i | 0 <= i < |c'| ensures Node(h5, c'[i]) {
      if i <= k { assert Node(h, c[i]); }
    }
    forall i | 0 <= i < |c'| - 1 ensures Adjacent(h5, c'[i], c'[i + 1]) {
      if i < k {
        assert Adjacent(h, c[i], c[i + 1]);
      }
    }
    if k > 0 {
      assert h5[c'[0]] == h[c[0]];
    }
  }

  /** Splitting as written a block that has a successor leaves the
      successor pointing back at the split block instead of the new one, so
      the heap is no longer well formed. */
  lemma SplitBlockAsWrittenBreaksBackLink(h: Heap, c: seq<nat>, k: nat, size: nat)
    requires WellFormed(h, c) && k + 1 < |c| && size + BLOCK_SIZE < h[c[k]].size
    ensures var r := SplitBlockAsWritten(h, Ptr(c[k]), size);
            var n := SplitPoint(Ptr(c[k]), size);
            && r[c[k + 1]].prev == Ptr(c[k]) != Ptr(n)
            && !WellFormed(r, c[..k + 1] + [n] + c[k + 1..])
  {
    var n := SplitPoint(Ptr(c[k]), size);
    SplitPointIsFresh(h, c, k, size);
    assert Adjacent(h, c[k], c[k + 1]);
    var c' := c[..k + 1] + [n] + c[k + 1..];
    assert c'[k + 1] == n && c'[k + 2] == c[k + 1];
  }
}
