/** `RawSlice<Block>::find`: the search of the ledger's free list.  It pops
    blocks off the end, merging each popped block into the first one until
    that block is large enough, halves a block that is more than twice the
    request, and puts the last popped block back. */
module LedgerFind {
  import opened Wrappers
  import L = Ledger
  import opened LedgerBlock
  import opened RawSlices

  /** The sum of the block sizes, accumulated from the end (pop order). */
  function Total(s: seq<Block>): nat {
    if |s| == 0 then 0 else Total(s[..|s| - 1]) + s[|s| - 1].size
  }

  lemma TotalAppend(s: seq<Block>, b: Block)
    ensures Total(s + [b]) == Total(s) + b.size
  {
    assert (s + [b])[..|s|] == s;
  }

  /** No two blocks describe the same address. */
  predicate DistinctData(s: seq<Block>) {
    forall i, j :: 0 <= i < j < |s| ==> s[i].data != s[j].data
  }

  predicate AllEven(s: seq<Block>) {
    forall i :: 0 <= i < |s| ==> s[i].size % 2 == 0
  }

  /** What a search leaves behind and what it found. */
  type Found = (RawSlice<Block>, Option<Block>)

  /** The loop of `find` once a first block `curr` has been popped; `s`
      holds the blocks not yet popped and has room for the one pop. */
  function Gather(s: RawSlice<Block>, curr: Block, size: nat): (r: Result<Found>)
    requires s.Valid() && s.Len() < s.cap
    ensures r.Err? ==> r.IsPanic()
    ensures AllEven(s.items) && curr.size % 2 == 0 ==> r.Ok?
    ensures r.Ok? ==> r.value.0.Valid() && r.value.0.cap == s.cap && r.value.1.Some?
    ensures r.Ok? ==> r.value.1.value.data == curr.data && r.value.1.value.free == curr.free
    ensures r.Ok? ==> r.value.1.value.size <= Total(s.items) + curr.size
    ensures r.Ok? && r.value.1.value.size < size ==>
              r.value.0.items == [] && r.value.1.value.size == Total(s.items) + curr.size
    ensures r.Ok? && DistinctData(s.items + [curr]) ==>
              Total(r.value.0.items) + r.value.1.value.size == Total(s.items) + curr.size
    decreases s.Len()
  {
    var (s1, popped) := Pop(s);
    match popped
    case None => Ok((s1, Some(curr)))
    case Some(next) =>
      assert s.items == s1.items + [next];
      TotalAppend(s1.items, next);
      if curr.size >= size then
        assert DistinctData(s.items + [curr]) ==> curr.data != next.data by {
          assert (s.items + [curr])[|s.items| - 1] == next;
          assert (s.items + [curr])[|s.items|] == curr;
        }
        Settle(s1, curr, next, size)
      else
        var merged := MergeRight(curr, next).0;
        MergeKeepsDistinct(s1.items, next, curr, merged);
        assert AllEven(s.items) && curr.size % 2 == 0 ==> AllEven(s1.items) && merged.size % 2 == 0 by {
          if AllEven(s.items) {
            assert next == s.items[|s.items| - 1];
            forall i | 0 <= i < |s1.items| ensures s1.items[i].size % 2 == 0 {
              assert s1.items[i] == s.items[i];
            }
          }
        }
        var r := Gather(s1, merged, size);
        assert r.Ok? ==> r.value.1.value.size <= Total(s.items) + curr.size;
        r
  }

  lemma MergeKeepsDistinct(rest: seq<Block>, next: Block, curr: Block, merged: Block)
    requires merged.data == curr.data
    ensures DistinctData(rest + [next] + [curr]) ==> DistinctData(rest + [merged])
  {
    if DistinctData(rest + [next] + [curr]) {
      var before := rest + [next] + [curr];
      var after := rest + [merged];
      forall i, j | 0 <= i < j < |after|
        ensures after[i].data != after[j].data
      {
        assert after[i] == before[i];
        if j < |rest| {
          assert after[j] == before[j];
        } else {
          assert before[|rest| + 1] == curr;
        }
      }
    }
  }

  /** The request fits in `curr`: halve it when it is more than twice the
      request (the upper half goes on the free list), then put `next`
      back. */
  function Settle(s: RawSlice<Block>, curr: Block, next: Block, size: nat): (r: Result<Found>)
    requires s.Valid() && s.Len() + 1 < s.cap
    requires curr.size >= size
    ensures r.Err? ==> r.IsPanic()
    ensures curr.size % 2 == 0 ==> r.Ok?
    ensures r.Ok? ==> r.value.0.Valid() && r.value.0.cap == s.cap && r.value.1.Some?
    ensures r.Ok? ==> r.value.1.value.data == curr.data && r.value.1.value.free == curr.free
    ensures r.Ok? ==> size <= r.value.1.value.size <= curr.size
    ensures r.Ok? && curr.data != next.data ==>
              Total(r.value.0.items) + r.value.1.value.size == Total(s.items) + next.size + curr.size
  {
    if curr.size > size * L.SPLIT_FACTOR then
      if curr.size % 2 != 0 then Err(Panic("split of an odd-sized block"))
      else
        var (kept, upper) := Split(curr, size);
        // The source ignores whether this push succeeded.
        var (s2, _) := Push(s, upper);
        TotalAppend(s.items, upper);
        TotalAppend(s2.items, next);
        PutBack(s2, kept, next)
    else
      TotalAppend(s.items, next);
      PutBack(s, curr, next)
  }

  /** Ends the search with `curr`: the block `next` popped last goes back
      unless it equals `curr`. */
  function PutBack(s: RawSlice<Block>, curr: Block, next: Block): (r: Result<Found>)
    requires s.Valid() && s.Len() < s.cap
    ensures r.Ok? && r.value.1 == Some(curr) && r.value.0.Valid() && r.value.0.cap == s.cap
    ensures curr != next ==> r.value.0.items == s.items + [next]
  {
    if curr != next then
      var (s1, e) := Push(s, next);
      match L.Unwrap(e)
      case Ok(_) => Ok((s1, Some(curr)))
      case Err(f) => Err(f)
    else
      Ok((s, Some(curr)))
  }

  /** The search as the source writes it. */
  function Find(s: RawSlice<Block>, size: nat): (r: Result<Found>)
    requires s.Valid()
    ensures r.Err? ==> r.IsPanic()
    ensures AllEven(s.items) ==> r.Ok?
    ensures r.Ok? ==> r.value.0.Valid() && r.value.0.cap == s.cap
    ensures r.Ok? ==> (r.value.1.None? <==> s.IsEmpty())
    ensures r.Ok? && r.value.1.Some? ==>
              r.value.1.value.data == s.items[s.Len() - 1].data
              && r.value.1.value.free == s.items[s.Len() - 1].free
    ensures r.Ok? && r.value.1.Some? && DistinctData(s.items) ==>
              Total(r.value.0.items) + r.value.1.value.size == Total(s.items)
  {
    var (s1, first) := Pop(s);
    match first
    case None => Ok((s1, None))
    case Some(b) =>
      assert s.items == s1.items + [b];
      TotalAppend(s1.items, b);
      Gather(s1, b, size)
  }

  /** When the free list holds less than the request in total, the source's
      search still hands out a block: the merge of every free block, which
      is smaller than the request. */
  lemma FindReturnsTooSmallBlock(s: RawSlice<Block>, size: nat)
    requires s.Valid() && !s.IsEmpty() && AllEven(s.items)
    requires Total(s.items) < size
    ensures Find(s, size).Ok? && Find(s, size).value.1.Some?
    ensures Find(s, size).value.1.value.size < size
    ensures Find(s, size).value.0.items == []
  {
    var (s1, b) := Pop(s);
    assert s.items == s1.items + [b.value];
    TotalAppend(s1.items, b.value);
  }

  /** The smallest instance: one free 8-byte block and a 16-byte request. */
  lemma FindTooSmallExample()
    ensures var s := RawSlice([Block(8, 0x2000, true)], 170, 0x1000);
            Find(s, 16) == Ok((RawSlice([], 170, 0x1000), Some(Block(8, 0x2000, true))))
  {
    var s := RawSlice([Block(8, 0x2000, true)], 170, 0x1000);
    assert s.items[..0] == [];
  }

  /** The search with the discrepancy corrected: a merged block that is
      still too small goes back on the free list and nothing is found. */
  function FindFit(s: RawSlice<Block>, size: nat): (r: Result<Found>)
    requires s.Valid()
    ensures r.Err? ==> r.IsPanic()
    ensures AllEven(s.items) ==> r.Ok?
    ensures r.Ok? ==> r.value.0.Valid() && r.value.0.cap == s.cap
    ensures r.Ok? && r.value.1.Some? ==> r.value.1.value.size >= size
    ensures r.Ok? ==> (r.value.1.None? <==> s.IsEmpty() || Total(s.items) < size)
    ensures r.Ok? && r.value.1.None? ==> Total(r.value.0.items) == Total(s.items)
    ensures r.Ok? && r.value.1.Some? && DistinctData(s.items) ==>
              Total(r.value.0.items) + r.value.1.value.size == Total(s.items)
  {
    FindTooSmallMeansAllMerged(s, size);
    match Find(s, size)
    case Ok((s1, Some(b))) =>
      if b.size < size then
        TotalAppend(s1.items, b);
        Ok((Push(s1, b).0, None))
      else
        Ok((s1, Some(b)))
    case r => r
  }

  /** A block smaller than the request can only come out of `Find` after
      every free block was merged into it, and every block it returns is
      at most the total. */
  lemma FindTooSmallMeansAllMerged(s: RawSlice<Block>, size: nat)
    requires s.Valid()
    ensures var r := Find(s, size);
            r.Ok? && r.value.1.Some? ==> r.value.1.value.size <= Total(s.items)
    ensures var r := Find(s, size);
            r.Ok? && r.value.1.Some? && r.value.1.value.size < size ==>
              r.value.0.items == [] && r.value.1.value.size == Total(s.items)
  {
    if !s.IsEmpty() {
      var (s1, b) := Pop(s);
      assert s.items == s1.items + [b.value];
      TotalAppend(s1.items, b.value);
    }
  }
}
