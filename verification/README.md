# dalek allocator model

A Dafny model of the core of `dalek`, an unfinished heap allocator written
in Rust. The model covers the following parts:

- **Size arithmetic.** `align` rounds a request up to a multiple of 4.
  `extra_brk` clamps a growth amount. `size_to_class` buckets small
  requests into the classes 8, 16, 32 and 64.
- **The array-backed ledger.** `RawSlice` is a bounded vector living in
  raw memory. The ledger `Block` is an address-ordered record with
  `merge_right` and `split`. `RawSlice<Block>::find` pops, merges and
  splits free blocks. `BookKeeper` puts these together into `allocate`,
  `extend_heap` and `free`. The repository holds two copies of the arena.
  `src/bookkeeper.rs` puts the payload after a 24-byte header;
  `src/ledger/` puts it at the block address. The model takes that
  offset as a parameter.
- **The intrusive block chain** (`src/block.rs`). Each heap block starts
  with a header carrying its size, its state and `next`/`prev` links; the
  address `0x1` is the empty link. The chain supports first-fit search,
  heap growth, coalescing and splitting.
- **Red-black tree nodes** (`src/tree/mod.rs`). This covers the family
  lookups, both rotations and the four insertion-rebalancing cases, on
  an index arena. An abstract `Tree` and a representation predicate
  `Rep` connect the arena to the tree it encodes.
- **The cached-boundary state machine** shared by `src/breaks.rs`,
  `src/brk.rs` and `src/mmap.rs`. The cache moves only when the OS
  reports exactly the boundary that was asked for.

Modelling conventions:

- Addresses and sizes are `nat`. A usize overflow, which panics in a debug
  build, is a precondition.
- A Rust panic, an assertion failure and a null or dangling dereference
  all become `Err(Panic(..))`. The exceptions are listed under "Left out". A refused break growth is
  `Err(OutOfMemory)`.
- The OS is never called. What it would answer is an input. For
  composition, `Breaks.Kernel` models the Linux `brk` call: it moves the
  break when the target lies between the data-segment start and the
  limit, and otherwise leaves it.

Files and modules:

| file | module | models |
|---|---|---|
| wrappers.dfy | Wrappers | `Option`, and `Result` with the failures `Panic` and `OutOfMemory` |
| util.dfy | Util | `align`, `extra_brk` |
| pointer.dfy | Pointer | `Pointer<T>` |
| boundary.dfy | Boundary | the cached-boundary state machine |
| breaks.dfy, brk.dfy, mmap.dfy | Breaks, Brk, MMap | the three OS wrappers |
| ledger.dfy | Ledger | `SPLIT_FACTOR`, `BLOCK_ALIGN`, `EmptyResult` |
| raw_slice.dfy, raw_slice_scenarios.dfy | RawSlices, RawSliceScenarios | `RawSlice<T>` and its unit tests |
| ledger_block.dfy | LedgerBlock | the ledger `Block` |
| ledger_find.dfy | LedgerFind | `RawSlice<Block>::find` |
| chunk.dfy | Chunk | `size_to_class`, `Chunk::new` |
| bookkeeper.dfy | BookKeeper | both `BookKeeper` copies |
| chain.dfy | Chain | the chain `Block` of `src/block.rs` |
| tree.dfy | Tree | nodes, family lookups, rotations |
| tree_balance.dfy | TreeBalance | `balance_insert` and its four cases |

## Model

| member | source | states |
|---|---|---|
| Util.Align | src/util.rs:44-46 | For 1 ≤ size ≤ 2^64−4, the result is a multiple of 4 with size ≤ result < size + 4 and stays within usize. |
| Util.AlignIdempotent | src/lib.rs:8-10 | Rounding an already rounded size changes nothing. |
| Util.AlignOfMultiple | src/lib.rs:8-10 | A positive multiple of 4 is returned unchanged. |
| Util.AlignIsLeastMultiple | src/util.rs:44-46 | No multiple of 4 that is at least the size is smaller than the result, so `align` is the least such multiple. |
| Util.AlignMonotone | src/util.rs:44-46 | A larger request never rounds to a smaller size. |
| Util.ExtraBrk | src/util.rs:28-41 | The growth always lies in 1024..65536. It is twice the size inside the linear band and the nearer bound outside it. |
| Util.ExtraBrkLinearBand | src/util.rs:34-40 | For 512 ≤ size ≤ 32768 the growth is exactly 2·size. |
| Util.ExtraBrkMonotone | src/util.rs:40 | The growth never decreases as the request grows. |
| Pointer.New | src/pointer.rs:14-21 | Wrapping succeeds exactly for a non-null raw pointer; the wrapped address reads back; it is the empty pointer exactly at 0x1. |
| Pointer.Empty | src/pointer.rs:23-34 | The empty pointer tests as null and is not the raw null. |
| Pointer.Cast | src/pointer.rs:37-39 | A cast keeps the address and whether the pointer is empty. |
| Pointer.Offset | src/pointer.rs:46-48 | The address moves by count·element size. Landing on the raw null aborts, exactly then. |
| Pointer.NewGetRoundTrip | src/pointer.rs:14-21 | `get` after `new` returns the raw pointer given to `new`. |
| Pointer.OffsetCompose | src/pointer.rs:46-48 | Offsetting by a and then by b equals offsetting by a + b. |
| Boundary.Current | src/breaks.rs:53-68 | An empty cache is filled from the OS and returned. A filled cache is returned as is. It aborts only in a debug build when it disagrees with the OS. |
| Boundary.CurrentQueriesOnce | src/brk.rs:39-54 | Once filled, a release-build read no longer depends on the OS answer. |
| Boundary.Grow | src/breaks.rs:36-51 | Succeeds exactly when the OS reports old + delta; then the cache moves there and the old boundary is returned. Out-of-memory exactly when the OS reports the old boundary, with the cache unchanged. Any other answer aborts. |
| Boundary.GrowUpdatesOnlyOnConfirmation | src/breaks.rs:42-50 | The cache changes only on success, and then to the OS-confirmed boundary. |
| Boundary.GrowByZeroKeepsBoundary | src/breaks.rs:37-44 | A zero delta confirmed by the OS leaves the cache where it was and returns it. |
| Breaks.CurrentBrk | src/breaks.rs:53-73 | A null cache is filled from `brk(null)`. A filled cache is returned untouched in release builds and checked in debug builds. |
| Breaks.Sbrk | src/breaks.rs:20-67 | OS confirmation gives the new cache and the old break. An OS report of the old break gives out-of-memory with the cache kept. Any other reply aborts. So does a debug-build cache that disagrees with the OS (cache unchanged), and so does a target below address 0. |
| Breaks.BrkCall | src/breaks.rs:76-78 | The kernel answers with the break it ends at. It moves exactly when the target is inside the segment, and nothing changes otherwise. |
| Breaks.SbrkOnKeepsSync | src/breaks.rs:36-51 | Against the kernel, a cache in sync never aborts and stays in sync. It succeeds exactly when the kernel can place the new break, then returns the old break with the break moved by size. On failure it returns out-of-memory with the kernel unchanged. |
| Breaks.SbrkEnv | src/breaks.rs:20-25 | `sbrk` in an environment keeps the kernel valid and the build mode. |
| Breaks.SbrkEnvSpec | src/breaks.rs:20-51 | In a consistent environment, `sbrk` keeps it consistent. It succeeds exactly when the kernel can move the break by size, and then returns the old break. |
| Brk.SbrkOrPanic | src/brk.rs:9-54 | Either succeeds or aborts. It succeeds exactly when the cache check passes, the target is not below 0 and the OS confirms old + delta. It then returns the old break with the cache moved. |
| MMap.CurrentPage | src/mmap.rs:63-83 | The probe mapping is used only while the cache is null. A filled cache is returned as is, with the debug-only check. |
| MMap.Mmap | src/mmap.rs:46-78 | Succeeds exactly when the page-cache check passes, the target is not below 0 and the mapping was placed at old + size. It then moves the cache and returns old. Out-of-memory happens exactly when the mapping came back at old. Every other failure aborts. |
| Ledger.BlockAlignFacts | src/ledger/mod.rs:13 | `BLOCK_ALIGN` is 24, a multiple of 4, and at least the record size. |
| Ledger.EmptyResultExclusive | src/ledger/mod.rs:20-30 | `is_ok` holds exactly for `Ok`, `is_err` exactly for `Err`, and exactly one of them holds. |
| Ledger.Unwrap | src/ledger/mod.rs:31-36 | `unwrap` succeeds on `Ok` and aborts on `Err`. |
| RawSlices.Empty | src/ledger/raw_slice.rs:22-34 | The unbacked slice has length 0, capacity 0 and is null. |
| RawSlices.New | src/ledger/raw_slice.rs:40-46 | A slice over memory holds the given elements, capacity and base. |
| RawSlices.Push | src/ledger/raw_slice.rs:60-71 | Fails exactly when full, leaving the slice unchanged. Otherwise appends the item. Capacity and base never change. |
| RawSlices.Pop | src/ledger/raw_slice.rs:73-81 | Returns nothing exactly when empty, leaving the slice unchanged. Otherwise returns the last element and keeps the rest. |
| RawSlices.Remove | src/ledger/raw_slice.rs:83-101 | Aborts exactly when the index is not below the length. Otherwise returns that element and leaves the others in order. |
| RawSlices.Insert | src/ledger/raw_slice.rs:103-128 | Aborts exactly unless index ≤ len < cap − 1. Otherwise puts the item at the index with the prefix before it and the old suffix after it. |
| RawSlices.Resize | src/ledger/raw_slice.rs:130-144 | Aborts exactly when the elements fit but the slice is unbacked, since the old elements are read through the dereference. Otherwise it succeeds exactly when the elements fit the new capacity, keeping them at the new base; when they do not fit, nothing changes. |
| RawSlices.Deref | src/ledger/raw_slice.rs:200-213 | Dereferencing aborts exactly for a null slice and otherwise yields the elements. |
| RawSlices.PopUndoesPush | src/ledger/raw_slice.rs:60-81 | Popping right after a successful push restores the slice and returns the pushed item. |
| RawSlices.PushUndoesPop | src/ledger/raw_slice.rs:60-81 | Pushing back what was popped restores the slice. |
| RawSlices.RemoveUndoesInsert | src/ledger/raw_slice.rs:83-128 | Removing at the index just inserted at restores the slice and returns the item. |
| RawSlices.ResizeKeepsDeref | src/ledger/raw_slice.rs:130-144 | Resizing a backed slice into enough room succeeds and keeps the visible contents. |
| RawSliceScenarios.PushMany | src/ledger/bookkeeper.rs:116-118 | n pushes succeed exactly when n more elements fit, and then append n copies. |
| RawSliceScenarios.PopMany | src/ledger/bookkeeper.rs:128-130 | n pops all return an element exactly when n ≤ len, and then drop the last n. |
| RawSliceScenarios.PushPopScenario | src/ledger/bookkeeper.rs:101-136 | The push/pop test: the pushes until the 33rd is refused, the exact contents, then 32 pops that leave the slice empty. The refused pops that close the test are stated for any empty slice by RawSliceScenarios.DrainedPopsScenario. |
| RawSliceScenarios.DrainedPopsScenario | src/ledger/bookkeeper.rs:132-135 | The four closing pops of that test: on an empty slice, each of four pops in a row finds nothing and leaves the slice unchanged. |
| RawSliceScenarios.RemoveScenario | src/ledger/bookkeeper.rs:148-171 | The remove test's returned values and remaining contents. |
| RawSliceScenarios.InsertScenario | src/ledger/bookkeeper.rs:173-192 | The insert test's contents and lengths, including inserts at the front and at the end. |
| RawSliceScenarios.ResizeScenario | src/ledger/bookkeeper.rs:138-146 | A full slice of 16 resizes into 20 slots and then accepts a push. |
| RawSliceScenarios.EmptyScenario | src/ledger/bookkeeper.rs:103 | The unbacked slice is null, cannot be dereferenced, refuses pushes and pops nothing. |
| LedgerBlock.New | src/ledger/block.rs:42-48 | A new block is in use, with the given address and size. |
| LedgerBlock.Cmp | src/ledger/block.rs:22-36 | Blocks compare as their addresses compare. |
| LedgerBlock.CmpOnlyAddress | src/ledger/block.rs:22-36 | Size and state never affect the comparison, and the order is antisymmetric. |
| LedgerBlock.RawData | src/bookkeeper.rs:300-302 | The payload lies exactly the header offset past the block address. |
| LedgerBlock.MergeRight | src/ledger/block.rs:61-71 | The sizes add up, address and state are kept, and the result is always `Ok`. |
| LedgerBlock.Split | src/ledger/block.rs:73-86 | Two equal halves that sum to the old size. The lower half keeps address and state and still fits the request. The upper half is in use and starts where the lower one ends. |
| LedgerBlock.MergeUndoesSplit | src/ledger/block.rs:61-86 | Merging the split-off half back gives the original block. |
| LedgerFind.Gather | src/ledger/raw_slice.rs:166-194 | The merging loop keeps the current block's address and state and never exceeds the total. It is still below the request only after everything was merged. On distinct addresses, sizes are conserved. |
| LedgerFind.Settle | src/ledger/raw_slice.rs:170-187 | A fitting block is halved only when more than twice the request. The result still fits, and sizes are conserved when the last popped block is put back. |
| LedgerFind.PutBack | src/ledger/raw_slice.rs:181-187 | The last popped block goes back on the list unless it equals the result. |
| LedgerFind.Find | src/ledger/raw_slice.rs:164-197 | As written: nothing is found exactly when the list was empty. The result carries the last free block's address and state. On distinct addresses, the sizes of result plus remainder are conserved. |
| LedgerFind.FindReturnsTooSmallBlock | src/ledger/raw_slice.rs:164-197 | When the free blocks total less than the request, `find` empties the list and returns a block smaller than the request. |
| LedgerFind.FindTooSmallExample | src/ledger/raw_slice.rs:164-197 | One free 8-byte block and a 16-byte request: the 8-byte block comes back. |
| LedgerFind.FindFit | src/ledger/raw_slice.rs:164-197 | Corrected: a returned block always fits. Nothing is found exactly when the list is empty or its total is too small, and then the total stays on the list. |
| LedgerFind.FindTooSmallMeansAllMerged | src/ledger/raw_slice.rs:166-194 | A block returned by `find` is at most the total. One below the request is the merge of every free block. |
| Chunk.SizeToClass | src/ledger/chunk.rs:20-29 | 0 and sizes above 64 map to `!0`. 1–8, 9–16, 17–32 and 33–64 map to 8, 16, 32 and 64. |
| Chunk.ClassIsTightPowerOfTwo | src/ledger/chunk.rs:23-26 | Every class is a power of two, and less than twice the size unless it is the smallest class. |
| Chunk.ClassMonotone | src/ledger/chunk.rs:23-26 | Larger sizes never get a smaller class. |
| Chunk.New | src/ledger/chunk.rs:41-52 | Stores the class and base with no blocks. The capacity times the class size fits in the pages. A classless size gets capacity 0. |
| BookKeeper.CapacityValue | src/ledger/bookkeeper.rs:64-73 | A page of ledger holds 4096 / 24 = 170 records. |
| BookKeeper.Init | src/ledger/bookkeeper.rs:26-33 | A fresh arena has both ledgers null and empty. |
| BookKeeper.Bisect | src/ledger/bookkeeper.rs:48 | A hit names a recorded address. A miss on a sorted range splits it into smaller and larger addresses. |
| BookKeeper.BinarySearch | src/ledger/bookkeeper.rs:48 | On a sorted ledger, finds the address exactly when it is recorded, and otherwise names the one order-keeping insertion point. |
| BookKeeper.InsertAtSearchPosition | src/ledger/bookkeeper.rs:48-49 | Inserting at the missed position keeps `used` sorted and adds exactly the new block. |
| BookKeeper.ExtendHeapBy | src/ledger/bookkeeper.rs:40-54 | Growth with any break increment. A granted block has the requested size and is in use. The payload is at the header offset, and `free` is untouched. Failures abort, including the full-ledger assertion of `insert`. |
| BookKeeper.ExtendHeapBySpec | src/ledger/bookkeeper.rs:40-54 | With the cache in sync: the block sits at the old break and the break moves by the increment. `used` gains exactly that block and stays sorted. Success happens exactly when the kernel grants the growth, the address is new and the ledger has room. |
| BookKeeper.ExtendHeapAsWritten | src/bookkeeper.rs:352-367 | As written: the break grows by the payload size only, and the block has the requested size. |
| BookKeeper.ExtendHeapAsWrittenOverruns | src/bookkeeper.rs:352-367 | With the 24-byte header, the handed-out payload ends 24 bytes past the new break. |
| BookKeeper.ExtendHeapAsWrittenExample | src/bookkeeper.rs:352-367 | A 4-byte request at break 0x1000 returns 0x1018 but leaves the break at 0x1004. |
| BookKeeper.ExtendHeapAsWrittenBreaksInv | src/bookkeeper.rs:352-367 | The growth as written breaks the arena invariant that every payload lies below the break. |
| BookKeeper.ExtendHeap | src/ledger/bookkeeper.rs:40-54 | Corrected: the break grows by header offset plus payload. The block has the requested size and the payload sits at the offset. |
| BookKeeper.LedgerExtendHeapUnchanged | src/ledger/bookkeeper.rs:40-54 | For the ledger copy (offset 0) the correction is the code as written. |
| BookKeeper.ExtendHeapKeepsInv | src/ledger/bookkeeper.rs:40-54 | The corrected growth keeps the invariant: cache in sync, sorted `used`, and payloads inside the heap. The payload ends exactly at the new break. |
| BookKeeper.ExtendHeapSucceeds | src/ledger/bookkeeper.rs:40-54 | Under the invariant, growth succeeds exactly when the kernel can grant it and `used` has room. |
| BookKeeper.MapPage | src/ledger/bookkeeper.rs:66 | `mmap(PAGE_SIZE).unwrap()`: succeeds exactly when the mapping succeeds, returning the old mapping boundary with the cache one page further on. Otherwise aborts. |
| BookKeeper.MapLedgers | src/ledger/bookkeeper.rs:63-74 | The two page requests give empty ledgers of capacity 170 on consecutive pages, with the page cache two pages on. Any mapping failure or a null page aborts. |
| BookKeeper.AllocateAsWritten | src/ledger/bookkeeper.rs:57-87 | `allocate` as written. Growth paths grant a block of exactly `align(size)`. The reuse path returns the last free block as `find` hands it back (so not necessarily large enough), pushes it on `used`, and leaves the break alone. The page cache changes only on the first call. Failures abort. |
| BookKeeper.AllocateAsWrittenReturnsTooSmallBlock | src/bookkeeper.rs:369-399 | When all free blocks together are smaller than the aligned request, the call succeeds with their merge, a block smaller than asked, and empties `free`. |
| BookKeeper.AllocateAsWrittenTooSmallExample | src/bookkeeper.rs:391-395 | With one free 8-byte block, a 16-byte request is granted that 8-byte block. |
| BookKeeper.Allocate | src/ledger/bookkeeper.rs:57-87 | `allocate` with `find` and `extend_heap` replaced by their corrections. A granted block is at least `align(size)` bytes and its payload is at the offset. Failures abort. |
| BookKeeper.LedgerAllocateUnchanged | src/ledger/bookkeeper.rs:57-87 | For the ledger copy (offset 0) with an empty free list, the correction gives exactly the result as written. |
| BookKeeper.AllocateFirstCall | src/ledger/bookkeeper.rs:57-77 | The first call as written maps both ledgers (capacity 170) on consecutive pages and leaves `free` empty. It records one aligned block at the old break, moves the break by the aligned size, and puts the payload at the offset. |
| BookKeeper.AllocateKeepsInv | src/ledger/bookkeeper.rs:78-87 | Corrected: with `free` empty, later calls grow the heap and keep the invariant. The payload ends at the new break. |
| BookKeeper.LedgerAllocateKeepsInv | src/ledger/bookkeeper.rs:57-87 | The ledger copy as written: with `free` empty (nothing ever fills it), later calls keep the invariant, and the block ends at the new break. |
| BookKeeper.AllocScenario | src/bookkeeper.rs:534-543 | The allocation test as written: a 4-byte request on an untouched heap at 0x1000 returns 0x1018, but the break ends at 0x1004. The value the test writes therefore lies past the break. |
| BookKeeper.BlockOffsetScenario | src/bookkeeper.rs:506-532 | A 4-byte block's payload starts 24 bytes in with the header, or at the block without it. |
| BookKeeper.Free | src/ledger/bookkeeper.rs:89-94 | `free` aborts exactly when `used` is still unbacked (a free before the first allocation), since the lookup dereferences it. Otherwise it leaves the arena unchanged, and the position it computes separates smaller from larger recorded addresses. |
| Chain.BlockSizeValue | src/block.rs:20 | The header size `align(40)` is 40, a multiple of 4. |
| Chain.Read | src/block.rs:141-168 | Reading a pointer succeeds exactly when a header lives there. |
| Chain.Place | src/block.rs:81-91 | Writes an in-use header with no successor at the address; nothing else changes. |
| Chain.FromRaw | src/block.rs:81-91 | Succeeds exactly for a non-null address. The header reads back as in use with an empty `next` and the given `prev`, and no other header changes. |
| Chain.GetBlock | src/block.rs:141-144 | The header is one header size before the payload. Aborts exactly when that lands on null. |
| Chain.GetBlockOfPayload | src/block.rs:141-144 | In a well-formed heap, the header found from a block's payload is that block. |
| Chain.FindBlock | src/block.rs:93-111 | With a null head the answer is empty. Otherwise it is the first block along `next` that is free and large enough, or the last block when none is. |
| Chain.Link | src/block.rs:129-131 | Links the block after `last` unless `last` is empty. Aborts exactly when `last` is not a header. |
| Chain.NeedSize | src/block.rs:119-120 | Header plus payload rounded up, a multiple of 4 less than 4 bytes above header + size. |
| Chain.ExtendHeapAsWritten | src/block.rs:118-136 | As written: two `sbrk` calls, a header at the first old break with payload at least the request, linked after `last`. Failures abort. |
| Chain.ExtendHeapAsWrittenLeavesGap | src/block.rs:118-136 | The chain stays well formed, but the break ends one header size past the end of the new block. |
| Chain.ExtendHeapAsWrittenExample | src/block.rs:118-136 | After a 60-byte block at 0x1000, a 24-byte request puts the header at 0x1064, ending at 0x10A4, with the break at 0x10CC. |
| Chain.ExtendHeap | src/block.rs:118-136 | Corrected: one growth by `align(BLOCK_SIZE + size)`, the header at the old break, linked after `last`. Failures abort. |
| Chain.ExtendHeapKeepsChain | src/block.rs:118-136 | On a heap that ends at the break, succeeds exactly when the kernel grants the growth. The heap is then one in-use block longer, well formed, and again ends at the break. |
| Chain.ExtendHeapStartsChain | src/block.rs:118-136 | With an empty `last`, the new block alone forms a well-formed heap that ends at the break. |
| Chain.Absorb | src/block.rs:150-168 | The empty link and an in-use block are left alone. Dereferencing a missing successor aborts. |
| Chain.AbsorbKeepsChain | src/block.rs:150-168 | A free block with a successor swallows it, header and all. The heap stays well formed without it, ends where it did, and the block grows by the successor's header and size. |
| Chain.AbsorbLastBlockAborts | src/block.rs:154-158 | Absorbing into a free last block dereferences the empty link and aborts. |
| Chain.SplitBlockAsWritten | src/block.rs:175-194 | The block keeps `size`. A new free header follows its payload with the remainder, linked after the block and before the old successor. The old successor is untouched. |
| Chain.SplitBlockAsWrittenBreaksBackLink | src/block.rs:175-194 | With a successor, the successor still points back at the split block, so the heap is not well formed. |
| Chain.SplitBlock | src/block.rs:175-194 | Corrected: the old successor also links back to the new block. Only an unreadable successor aborts. |
| Chain.SplitPointIsFresh | src/block.rs:176-179 | The new header lies strictly inside the block being split, so it is none of the heap's headers. |
| Chain.SplitBlockKeepsChain | src/block.rs:175-194 | Corrected split: the heap stays well formed with the new free block right after the split one and ends where it did; the split block keeps `size`. |
| Tree.NewNode | src/tree/mod.rs:70-85 | A new node is red, with no parent and no children, and keeps its address and key. |
| Tree.NewNodeKeepsClosed | src/tree/mod.rs:70-85 | A node written at the next free slot keeps every link of the arena in range. |
| Tree.Grandparent | src/tree/mod.rs:107-113 | Null without a parent, otherwise the parent's parent. |
| Tree.Sibling | src/tree/mod.rs:115-127 | Null without a parent; otherwise the parent's right child when the node is the left one, and the left child otherwise. |
| Tree.Uncle | src/tree/mod.rs:133-141 | Null without a parent, otherwise the parent's sibling. |
| Tree.FamilyInTree | src/tree/mod.rs:107-141 | In an arena holding a tree, a grandchild's grandparent is the root and its uncle is the other subtree's root. |
| Tree.RotateLeft | src/tree/mod.rs:143-188 | Aborts exactly when there is no right child. Otherwise all links stay in range and no key or address changes. |
| Tree.RotateRight | src/tree/mod.rs:190-220 | Aborts exactly when there is no left child. Otherwise all links stay in range and no key or address changes. |
| Tree.RotateLeftWrites | src/tree/mod.rs:143-188 | The exact writes: x takes y's left subtree and y as parent, y takes x and x's old parent, the moved subtree is re-parented, and the parent's link moves to y. |
| Tree.RotateLeftFrame | src/tree/mod.rs:143-188 | No node other than x, y, the moved child and the parent changes. |
| Tree.RotateRightWrites | src/tree/mod.rs:190-220 | The mirror image of the left-rotation writes. |
| Tree.RotateRightFrame | src/tree/mod.rs:190-220 | No node other than x, y, the moved child and the parent changes. |
| Tree.RotationsKeepOrder | src/tree/mod.rs:143-220 | On the abstract tree, each rotation keeps the in-order sequence and the other rotation undoes it. |
| Tree.RotateLeftSpec | src/tree/mod.rs:143-188 | An arena holding a subtree with a right child holds the left-rotated subtree afterwards. The parent's link moves to the new root and nothing outside the subtree changes. |
| Tree.RotateRightSpec | src/tree/mod.rs:190-220 | The same for the right rotation. |
| Tree.RotateRightUndoesRotateLeft | src/tree/mod.rs:143-220 | Rotating right at the lifted node gives back exactly the arena the left rotation started from. |
| TreeBalance.Balance1 | src/tree/mod.rs:243-249 | Case 1 makes the node black and recolours nothing else. |
| TreeBalance.Balance1BlackensRoot | src/tree/mod.rs:243-249 | A root over two valid subtrees of black height h becomes a valid red-black tree of height h + 1. |
| TreeBalance.Balance3 | src/tree/mod.rs:256-265 | Aborts exactly when the parent, uncle or grandparent is missing. Otherwise the parent and uncle turn black and the grandparent red, and rebalancing continues at the grandparent. |
| TreeBalance.Balance3InTree | src/tree/mod.rs:256-265 | On a grandchild of a tree's root, case 3 recolours exactly the two children of the root and the root. |
| TreeBalance.Balance3PushesUp | src/tree/mod.rs:256-265 | Afterwards the tree keeps its shape, and the grandparent's subtree is red-black with a red root, one black level above its four subtrees. |
| TreeBalance.Straighten | src/tree/mod.rs:271-279 | The inner-grandchild rotation keeps the arena closed and its keys. A missing parent or grandparent aborts. |
| TreeBalance.Recolour4 | src/tree/mod.rs:291-292 | The parent turns black and the grandparent red; nothing else changes. Aborts exactly without a grandparent. |
| TreeBalance.Balance4AsWritten | src/tree/mod.rs:267-294 | As written, rotating the parent: links stay in range and keys are kept. |
| TreeBalance.Balance4AsWrittenLeavesRedRed | src/tree/mod.rs:282-292 | On the line 30-20-10, the result has a red root with a red child, and no black height makes it red-black. |
| TreeBalance.Balance4 | src/tree/mod.rs:267-294 | Corrected, rotating the grandparent: links stay in range and keys are kept. |
| TreeBalance.Balance4FixesOuterLeft | src/tree/mod.rs:267-294 | For an outer left grandchild under a black grandparent: the grandparent rotates right and the parent heads the subtree, black. The subtree is red-black one level higher and keeps its in-order sequence. |
| TreeBalance.Balance4OuterLeftFrame | src/tree/mod.rs:267-294 | In that case, the link above the subtree moves to the parent, and nothing outside the subtree changes. |
| TreeBalance.Balance4FixesInnerLeft | src/tree/mod.rs:267-294 | For an inner left grandchild: two rotations lift the node to the top, black. The subtree is red-black one level higher and keeps its in-order sequence. |
| TreeBalance.Balance4BalancesLine | src/tree/mod.rs:267-294 | On the line 30-20-10, the corrected case gives a black 20 over red 10 and red 30. |
| TreeBalance.BalanceInsertAsWritten | src/tree/mod.rs:222-241 | The dispatch as written: no parent gives case 1, a black parent gives case 2 (nothing changes), a red uncle gives case 3, anything else gives case 4 as written. Keys are always kept, links stay in range, and failures abort. |
| TreeBalance.BalanceInsertAsWrittenLine | src/tree/mod.rs:222-241 | Inserting 10 below 30-20 takes case 4 as written. The result has a red root 30 over a red 10, and no black height makes it red-black. |
| TreeBalance.BalanceInsert | src/tree/mod.rs:222-241 | The same dispatch with the corrected case 4. Keys are always kept and links stay in range. |
| TreeBalance.BalanceInsertLine | src/tree/mod.rs:222-241 | The corrected dispatch on the same insertion yields a valid red-black tree headed by 20. |
| TreeBalance.BalanceInsertBush | src/tree/mod.rs:222-265 | Inserting 5 below a black root with two red children takes case 3, then case 1, as written and corrected alike. The result is red-black with black height 2. |

## Left out

- Raw system calls and inline assembly (`src/sc/mod.rs`) are left out, as are the `brk` and `_mmap` wrappers around them. They are foreign calls, so their answers are inputs.
- The spin locks (`Mutex`, `Guard` in `src/breaks.rs`, all of `src/semaphore.rs`) exist only for concurrency, which is not modelled.
- `src/win_mmap.rs` is a Windows-only wrapper and is not part of this model.
- The `Ralloc` `GlobalAlloc` adapter and `lib.rs`'s `Block::find_block` are stubs that panic everywhere, so they are left out.
- `Node::insert_recurs`, `Node::insert` and the `create_tree` test (`src/tree/mod.rs:297-370`) do not compile, because they use `self` in associated functions. So the model has no tree insertion, only the rebalancing after it.
- The C-syntax test module of `src/ledger/chunk.rs` is not Rust and is left out.
- Byte-level memory effects are not modelled. This covers the zeroing in `merge_right`, `ptr::write` of header copies, and `copy_block`. The model tracks records, not bytes.
- `Debug` formatting, `println!` and `dbg!` have no effect on state and are left out.
- `crate::GLOBAL_BASE` and the accessor methods of `Pointer<Block>` are not part of this model. The chain head is a parameter, and accessors are plain reads and writes of header fields.
- `PAGE_SIZE` is not defined in the modelled files. The model uses 4096, the value the Windows wrapper states for x86.
- Util.Align: `src/util.rs` casts the result to `isize`. Callers cast it straight back, so the model returns the `usize` value. Sizes above 2^64−4 overflow and are excluded by a precondition.
- Util.ExtraBrk: `MULTIPLIER * size` overflow is excluded by a precondition.
- Pointer.Offset: leaving the address space is undefined behaviour in the source, so it is a precondition.
- BookKeeper.MapLedgers: a null first page makes `RawSlice::new` call `NonNull::new_unchecked` on null. That is undefined behaviour in the source, not a panic; the model turns it into an abort.
- Breaks.Sbrk, Brk.SbrkOrPanic, MMap.Mmap: a target below address 0 comes from `old.offset(size)` leaving the address space. That is undefined behaviour in the source, not a panic; the model turns it into an abort.
- BookKeeper.ExtendHeapBy: the break growth is a `nat`. A request above `isize::MAX`, whose `as isize` cast would turn negative, is not modelled.
- BookKeeper.AllocateAsWritten: the result of `used.push` is ignored by the source, and so by the model. The reuse path is modelled as written, but nothing in the arena ever puts a block on `free`, so only the growth path has an invariant proof (BookKeeper.LedgerAllocateKeepsInv for the ledger copy, BookKeeper.AllocateKeepsInv for the correction).
- BookKeeper.MapPage: `PAGE_SIZE as isize` is a positive constant, so the signed size of `mmap` is always 4096.
- LedgerBlock.Split: the two assertions at `src/ledger/block.rs:79-80` are preconditions. Its one caller establishes the second and turns a failure of the first into an abort.
- LedgerFind.Find: size conservation is stated only for lists whose blocks have distinct addresses. The source skips putting back a block equal to the result.
- Tree.RotateRightUndoesRotateLeft: it additionally requires that the parent's other child is not the lifted node. In a tree this always holds, but the arena alone does not guarantee it.
- TreeBalance.BalanceInsertAsWritten, TreeBalance.BalanceInsert: the case-3 recursion carries a fuel bound, and running out aborts. The source recurses with no bound and goes up one level per step, so fuel at least the tree height never runs out.
- TreeBalance.Balance4FixesOuterLeft, TreeBalance.Balance4FixesInnerLeft: only the configurations where the parent is a left child are proved. The mirror configurations run through the same function with left and right swapped.

## Findings

| source | as written | input that shows it | evidently intended | confidence | as-written member | corrected member |
|---|---|---|---|---|---|---|
| src/ledger/raw_slice.rs:164-197 | When every free block merged together is still smaller than the request, `find` returns that merged block anyway. | Free list holding one 8-byte block, request of 16 bytes: the 8-byte block is returned. | Return `None` and keep the free blocks, so that `allocate` grows the heap. | not executed | LedgerFind.Find, LedgerFind.FindReturnsTooSmallBlock, LedgerFind.FindTooSmallExample, BookKeeper.AllocateAsWritten, BookKeeper.AllocateAsWrittenReturnsTooSmallBlock, BookKeeper.AllocateAsWrittenTooSmallExample | LedgerFind.FindFit, BookKeeper.Allocate |
| src/bookkeeper.rs:352-367 | `extend_heap` grows the break by the payload size only, while `raw_data` puts the payload 24 bytes after the block. | Empty arena, break at 0x1000, request of 4 bytes: the payload is 0x1018..0x101C but the break ends at 0x1004. | Grow the break by header plus payload. | not executed | BookKeeper.ExtendHeapAsWritten, BookKeeper.ExtendHeapAsWrittenOverruns, BookKeeper.ExtendHeapAsWrittenExample, BookKeeper.ExtendHeapAsWrittenBreaksInv, BookKeeper.AllocScenario | BookKeeper.ExtendHeap, BookKeeper.ExtendHeapKeepsInv, BookKeeper.ExtendHeapSucceeds, BookKeeper.Allocate, BookKeeper.AllocateKeepsInv |
| src/block.rs:118-136 | `extend_heap` calls `sbrk(BLOCK_SIZE)` and then `sbrk(align(BLOCK_SIZE + size))`, reserving the header twice. | One 60-byte block at 0x1000 with the break at 0x1064, request of 24 bytes: the new block ends at 0x10A4 but the break ends at 0x10CC. | One growth by `align(BLOCK_SIZE + size)`, so the heap ends at the break. | not executed | Chain.ExtendHeapAsWritten, Chain.ExtendHeapAsWrittenLeavesGap, Chain.ExtendHeapAsWrittenExample | Chain.ExtendHeap, Chain.ExtendHeapKeepsChain, Chain.ExtendHeapStartsChain |
| src/block.rs:175-194 | `split_block` links the new block after `ptr` but never updates the old successor's `prev`. | Any block with a successor that is split: the successor's `prev` still names the split block. | The old successor's `prev` names the new block. | not executed | Chain.SplitBlockAsWritten, Chain.SplitBlockAsWrittenBreaksBackLink | Chain.SplitBlock, Chain.SplitBlockKeepsChain |
| src/tree/mod.rs:282-292 | Case 4 rotates the parent instead of the grandparent. | Black 30 with red left child 20, whose red left child 10 was just inserted: 30 stays the root, turns red, and keeps red 10 as its child. | Rotate the grandparent, so the parent becomes the black root of the subtree. | not executed | TreeBalance.Balance4AsWritten, TreeBalance.Balance4AsWrittenLeavesRedRed, TreeBalance.BalanceInsertAsWritten, TreeBalance.BalanceInsertAsWrittenLine | TreeBalance.Balance4, TreeBalance.Balance4FixesOuterLeft, TreeBalance.Balance4FixesInnerLeft, TreeBalance.Balance4BalancesLine, TreeBalance.BalanceInsert, TreeBalance.BalanceInsertLine |
