# syspro_hw allocator and merge, in Dafny

This project models two pieces of C code.

**`syspro_hw1/alloc.c`** is a first-fit heap allocator backed by `sbrk`. It supplies `malloc`, `free`, `realloc` and `calloc`.

Memory is one arena. It is carved into blocks, and each block has a 24-byte header in band: `size`, `prev` and `next`. Free blocks are kept on a doubly linked list in ascending address order. The list head is `first_block`.

The arena grows by bump allocation. `now_ptr` is the bump pointer. `max_ptr` is the program break, which moves in whole 64 KiB pages. `low_ptr` is the bottom of the arena.

**`msort.c`**: the model covers the sequential two-way merge of two sorted runs, which counts duplicates, and the ceiling division that sizes the segments.

## Model

**Files.**
- `alloc_arith.dfy`, module `AllocArith`: the allocator's pure arithmetic. This covers `align8`, page rounding, the header/payload offset of `get_block` and `b->data`, and the split point.
- `sorted_seq.dfy`, module `SortedSeq`: the free list as an address-ordered sequence. It defines the sorted insertion that `insert_block` performs and the removal that `delete_block` performs.
- `arena.dfy`, module `Arena`:
  - Headers are a map from address to `Header(size, prev, next)`.
  - The arena invariant `WellFormed` has two parts. First, the blocks tile the arena. Second, the free list is ascending and doubly linked, and every block off the list has null links.
  - The header rewrites of unlink, link-in, split (`Carve`) and absorb are functions. Lemmas prove that each one keeps the invariant.
- `heap.dfy`, module `Alloc`: class `Heap`.
  - Its fields are the four globals `first_block`, `low_ptr`, `max_ptr` and `now_ptr`, plus the header map.
  - It has a ghost free list and a ghost list of all blocks in address order.
  - Every routine of `alloc.c` that changes state is a method that rewrites these fields as the C code does, and each such method preserves `Valid()`, except `MoreBytes`. `MoreBytes` keeps only `Bounds()`, because the bytes it makes room for have no header until `extend_heap` writes one. `virt_addr` is a function of the class. `align8` and `get_block` are functions of `AllocArith`. `copy_block` only moves payload bytes, which the model does not track.
  - `Live()` maps each block in use to its size. It is the view the client sees.
- `msort.dfy`, module `MSort`: the merge loop over arrays, proved against the functional merge `Merged`. The functions `MergeFrom` and `DuplicatesFrom` give what the loop writes and counts from cursors `ptr1`, `ptr2` on. Their properties are the lemmas in the table (`TakesFirst`, `TakesSecond`, `MergeFromLength`, `MergeFromPermutation`, `MergeFromSorted`, `DuplicatesFromAtMost`).

**Addresses and behaviours kept as in the C code.**
- Addresses are absolute naturals, and null is 0. The arena runs from `lowPtr + 1` to `nowPtr + 1`, because `more_bytes` returns the old `now_ptr + 1`.
- `find_block` asks for 24 bytes of slack beyond the request.
- A block in use has null links, so `merge` leaves it alone. This makes the `merge` call inside `realloc` change nothing.
- `realloc(p, 0)` keeps the block in place, splits it only when it holds at least 32 bytes, never frees it, and returns `p`.
- `realloc`'s split leaves a free remainder that is not coalesced with the free block after it. For this reason `Valid()` does not claim that free blocks never touch.

| member | source | states |
|---|---|---|
| AllocArith.Align8 | syspro_hw1/alloc.c:125-130 | the result is a multiple of 8 with `s <= r < s + 8`, and equals `s` when `s` is already a multiple of 8 |
| AllocArith.PageRound | syspro_hw1/alloc.c:39-40 | the growth is a multiple of 65536 and the smallest one that covers the shortfall |
| AllocArith.Payload | syspro_hw1/alloc.c:224-224 | `b->data` lies above the header `b` |
| AllocArith.GetBlock | syspro_hw1/alloc.c:26-30 | the header sits 24 bytes below the payload, so `b->data` of the result is the pointer given |
| AllocArith.GetBlockOfPayload | syspro_hw1/alloc.c:26-30 | `get_block(b->data) == b` for every block |
| AllocArith.JoinAligned | syspro_hw1/alloc.c:91-91 | a merged size `a + 24 + c` stays a multiple of 8 |
| AllocArith.CarveAligned | syspro_hw1/alloc.c:119-119 | the split remainder's size `size - s - 24` stays a multiple of 8 |
| AllocArith.TightFit | syspro_hw1/alloc.c:216-219 | a block taken whole, without a split, has exactly the 24 bytes of slack that `find_block` demanded |
| SortedSeq.RankStops | syspro_hw1/alloc.c:69-73 | the walk passes every listed block below `b` and stops at the first one at or above it |
| SortedSeq.InsertSortedAscending | syspro_hw1/alloc.c:63-88 | inserting a new address keeps the list strictly ascending. The list then holds exactly the old members plus the new one, is one longer, and has its minimum at the head |
| SortedSeq.InsertSortedMembers | syspro_hw1/alloc.c:63-88 | the inserted list holds exactly the old members and `b` |
| SortedSeq.WithoutMembers | syspro_hw1/alloc.c:49-61 | unlinking removes exactly `b` and keeps every other member |
| SortedSeq.WithoutAscending | syspro_hw1/alloc.c:49-61 | unlinking keeps the list strictly ascending |
| SortedSeq.WithoutAt | syspro_hw1/alloc.c:49-61 | unlinking a listed block deletes just its position and keeps the others in order |
| SortedSeq.RemoveInserted | syspro_hw1/alloc.c:49-88 | `insert_block(b)` followed by `delete_block(b)` restores the original list |
| Arena.UnlinkBlock | syspro_hw1/alloc.c:49-61 | the header rewrites of `delete_block` keep the arena well formed, with the list minus `b`. The head moves on when `b` was the head, and nothing changes when `b` is not listed |
| Arena.LinkInRank | syspro_hw1/alloc.c:63-88 | linking `b` between its address-order neighbours keeps the arena well formed, with `b` inserted in sorted position. `b` becomes the head exactly when no listed block is below it |
| Arena.FirstFit | syspro_hw1/alloc.c:132-141 | the index of the first listed block with at least the needed size: every earlier block is too small |
| Arena.AppendWellFormed | syspro_hw1/alloc.c:108-114 | a fresh block at the top of the arena, with null links, keeps the arena well formed and extends it by exactly header plus size |
| Arena.CarveWellFormed | syspro_hw1/alloc.c:116-120 | writing the remainder header at `b + 24 + s` keeps the blocks tiling the arena. The remainder is a new address and no other header changes |
| Arena.CarveSizes | syspro_hw1/alloc.c:116-120 | after the split, `b` has `s` bytes and ends at the remainder. The remainder has `size - s - 24` bytes and ends where `b` ended |
| Arena.LayoutSplit | syspro_hw1/alloc.c:116-120 | byte conservation of the split: the two pieces tile exactly the range the old block covered |
| Arena.LayoutAbsorb | syspro_hw1/alloc.c:91-92 | byte conservation of one absorption: the grown block tiles exactly the range of the two blocks it joins |
| Arena.AbsorbNext | syspro_hw1/alloc.c:91-95 | one absorption step keeps the arena well formed, with the absorbed block gone from the list and the blocks. The grown block ends where the absorbed one ended |
| Arena.MergeStart | syspro_hw1/alloc.c:89-89 | before any absorption, `b` holds itself |
| Arena.MergedAbsorb | syspro_hw1/alloc.c:89-106 | each absorption keeps the merge invariant: the current block starts at or below `b` and ends at or above `b`'s end. Every vanished header lies strictly inside the current block, and every other block keeps its size. The list and the blocks lose exactly the vanished headers, blocks in use are unchanged, and the header count drops |
| Arena.Unlink | syspro_hw1/alloc.c:53-60 | `delete_block`'s rewrites touch links only: the same headers with the same sizes |
| Arena.LinkIn | syspro_hw1/alloc.c:64-87 | `insert_block`'s rewrites touch links only: the same headers with the same sizes |
| Arena.Absorb | syspro_hw1/alloc.c:91-95 | one absorption removes exactly the header of `c` and grows `a` by `24` plus `c`'s size. Every other size is unchanged |
| Arena.Carve | syspro_hw1/alloc.c:118-120 | the split adds exactly the header at `b + 24 + s` with `size - s - 24` bytes and null links. `b` keeps `s` bytes and ends at the new header, which ends where `b` ended |
| Arena.AbsorbedStep | syspro_hw1/alloc.c:90-104 | each absorption keeps every vanished header strictly inside the block that took it in, and every other block keeps its size |
| Arena.MergedListsAbsorb | syspro_hw1/alloc.c:90-104 | each absorption keeps the list and the blocks equal to the old ones restricted to the surviving headers, and leaves blocks in use unchanged |
| Arena.MergedFromRebase | syspro_hw1/alloc.c:249-250 | `insert_block` only relinks, so the merge that follows it can be stated against the headers before the insertion |
| Arena.Disjoint | syspro_hw1/alloc.c:45-46 | blocks lie inside the arena and never overlap |
| Alloc.Word | syspro_hw1/alloc.c:179-179 | `size_t` arithmetic: the value is reduced modulo 2^64 and kept when it already fits |
| Alloc.ClearLength | syspro_hw1/alloc.c:181-181 | `align8(num * size) << 3` is eight times the rounded request when that does not wrap |
| Alloc.ClearOverrun | syspro_hw1/alloc.c:179-182 | for a non-empty request whose cleared length does not wrap, the cleared length exceeds any block `malloc` can return for it |
| Alloc.Heap.constructor | syspro_hw1/alloc.c:17-20 | all four globals start null with no blocks, and the invariant holds |
| Alloc.Heap.PayloadAlignment | syspro_hw1/alloc.c:45-46 | every header sits a multiple of 8 past `low_ptr + 1`, so a payload is 8-aligned exactly when `low_ptr` is 7 modulo 8 |
| Alloc.Heap.FirstBlockLowest | syspro_hw1/alloc.c:63-88 | `first_block` is null exactly when the list is empty, and otherwise it is the lowest free block |
| Alloc.Heap.VirtAddr | syspro_hw1/alloc.c:22-24 | the offset from `low_ptr`, modulo 2^64, and `low_ptr + offset == p` for an address within range |
| Alloc.Heap.MoreBytes | syspro_hw1/alloc.c:32-47 | see the MoreBytes notes below the table |
| Alloc.Heap.ExtendHeap | syspro_hw1/alloc.c:108-114 | a fresh block of exactly `s` bytes with null links at the old `now_ptr + 1`. It is appended to the blocks and kept off the free list, and `now_ptr + 1` is its end |
| Alloc.Heap.DeleteBlock | syspro_hw1/alloc.c:49-61 | the list loses exactly `b` and `b`'s links become null. Sizes and bounds are unchanged, and nothing changes when `b` is not listed |
| Alloc.Heap.InsertBlock | syspro_hw1/alloc.c:63-88 | the list becomes the sorted insertion of `b`, with sizes, blocks and bounds unchanged and the invariant kept |
| Alloc.Heap.InsertionPoint | syspro_hw1/alloc.c:69-73 | the walk stops at the first listed block above `b`, or null, with `last` on its predecessor. It stops on the head exactly when no listed block is below `b` |
| Alloc.Heap.SplitBlock | syspro_hw1/alloc.c:116-123 | see the SplitBlock notes below the table |
| Alloc.Heap.FindBlock | syspro_hw1/alloc.c:132-141 | the first listed block with at least `size + 24` bytes. The result is null exactly when no listed block qualifies, including when the list is empty |
| Alloc.Heap.AbsorbStep | syspro_hw1/alloc.c:91-95 | one loop body of `merge`: the headers become the absorption and the list loses the absorbed block. The invariant is kept, and the grown block's predecessor still links to it |
| Alloc.Heap.MergeForward | syspro_hw1/alloc.c:90-96 | after the first loop, `b`'s list successor does not start where `b` ends, and the merge invariant holds: every vanished header lies inside `b`, the list and blocks are the old ones minus the vanished headers, and every other block keeps its size |
| Alloc.Heap.MergeBackward | syspro_hw1/alloc.c:97-105 | after the second loop, neither list neighbour of the returned block touches it, and the merge invariant holds for the returned block |
| Alloc.Heap.Merge | syspro_hw1/alloc.c:89-106 | see the Merge notes below the table |
| Alloc.Heap.TakeBlock | syspro_hw1/alloc.c:215-220 | the found block goes into use, split to `s` bytes when the surplus is at least 32 and whole otherwise. On a split the remainder header at `b + 24 + s` holds `size - s - 24` bytes and replaces `b` on the free list in sorted position; otherwise `b` just leaves the list. Its size lies within `[s, s + 24]`, no other block in use changes, and the bounds stay put |
| Alloc.Heap.Malloc | syspro_hw1/alloc.c:209-225 | see the Malloc notes below the table |
| Alloc.Heap.AppendBlock | syspro_hw1/alloc.c:221-223 | a fresh block of exactly `s` bytes at the old `now_ptr + 1` goes into use. The free list is unchanged, the block is appended to the blocks, and the bounds move as `more_bytes` moves them |
| Alloc.Heap.Free | syspro_hw1/alloc.c:244-251 | see the Free notes below the table |
| Alloc.Heap.Shrink | syspro_hw1/alloc.c:311-314 | the block stays in use, shrunk to `s` bytes when the surplus is at least 32 and unchanged otherwise. The free list, the blocks and the sizes change exactly as in `TakeBlock`'s two cases, with `b` never on the list, and the bounds stay put |
| Alloc.Heap.Move | syspro_hw1/alloc.c:315-321 | a different block that was not in use now holds at least `s` bytes and replaces the old block among the blocks in use. The state is that of `malloc(s)`, as `Malloc` states it, followed by the `free` of the old block, as `Free` states it, and the bounds move only when the new block is fresh |
| Alloc.Heap.Realloc | syspro_hw1/alloc.c:299-323 | see the Realloc notes below the table |
| Alloc.Heap.ReallocBlock | syspro_hw1/alloc.c:308-322 | the non-null branch of `realloc`, with the in-place and moving cases as in the Realloc notes |
| Alloc.Heap.Calloc | syspro_hw1/alloc.c:174-185 | a new block in use with room for `num * size` bytes when the product fits 64 bits, and no other block in use changes. The headers, list, blocks and bounds change exactly as `malloc` of the product modulo 2^64 changes them. The clear length is the one computed at line 181, which overruns the block for any non-empty request whose clear length does not wrap |
| MSort.TakesFirst | msort.c:41-47 | taking from the first run (its head is smaller, or the heads are equal) emits that element. A duplicate is counted exactly when the heads are equal |
| MSort.TakesSecond | msort.c:43-44 | taking from the second run, when its head is strictly smaller, emits that element without counting a duplicate |
| MSort.MergeFromLength | msort.c:39-49 | the merge writes exactly `l1 + l2` elements |
| MSort.MergeFromPermutation | msort.c:39-49 | from any cursors `ptr1`, `ptr2`, the rest of the loop writes each remaining element of both runs exactly once |
| MSort.MergeFromSorted | msort.c:41-48 | from any cursors into two ascending runs, the rest of the loop writes an ascending run |
| MSort.MergedPermutation | msort.c:39-49 | the merged output is a permutation of `d1[0..l1) ++ d2[0..l2)` |
| MSort.MergedSorted | msort.c:41-48 | when both runs are ascending, the output is ascending |
| MSort.DuplicatesFromAtMost | msort.c:45-47 | `duplicate_cnt <= l1` |
| MSort.MergeIntoTemp | msort.c:36-49 | the loop fills a fresh `temp` with exactly the merged sequence and returns the duplicate count, which is at most `l1` |
| MSort.CopyInto | msort.c:50-50 | the copy-back writes `temp` over `d1` and leaves the rest of the array as it was |
| MSort.MergeRuns | msort.c:33-54 | with the second run right after the first, as the caller arranges, the range `d1[0..l1+l2)` ends up holding the merge of the two old runs. The rest of the array is untouched, and the duplicate count is at most `l1` |
| MSort.ValuesPerSegment | msort.c:58-62 | the ceiling of `input_ct / segment_count`: the smallest `r` with `r * segment_count >= input_ct` |

**Notes on the longer rows.**

- **Alloc.Heap.MoreBytes.**
  - On first use the arena starts at the break.
  - `now_ptr` advances by exactly `s` and stays within `max_ptr`.
  - `max_ptr` moves only on overshoot, and then by the smallest page multiple covering it. So `max_ptr - low_ptr` stays a multiple of 65536.
  - The result is the old `now_ptr + 1`.
  - The bump pointer may end equal to `max_ptr`. The block it ends then has its last byte at `max_ptr`, the first byte past the break. For example, the first `more_bytes(65536)` returns `brk + 1` and covers `brk + 1` to `brk + 65536` while the break is `brk + 65536`. The model keeps this layout as the C code has it and does not claim bytes within the break.
- **Alloc.Heap.SplitBlock.**
  - The remainder header is new and sits at `b + 24 + s`.
  - The remainder has `size - s - 24` bytes and ends where `b` ended. `b` keeps `s` bytes and now ends at the remainder.
  - `b` leaves the free list and the remainder joins it in sorted position.
- **Alloc.Heap.Merge.**
  - The result starts at or below `b` and ends at or above `b`'s end.
  - Every header that disappears lay strictly inside the returned block. Every other block keeps its size.
  - The list and the blocks become the old ones restricted to the surviving headers. The arena stays tiled, so bytes are conserved, and the list stays sorted.
  - Blocks in use are unchanged.
  - Neither list neighbour of the result touches it.
  - A block in use is returned as it is.
- **Alloc.Heap.Malloc.**
  - The result is the payload of a block that was not in use and now is. Its size lies within `[align8(size), align8(size) + 24]`.
  - No other block in use changes.
  - When a free block fits, the block is the first fit, split exactly when the surplus is at least 32.
  - On a split the remainder header at `b + 24 + align8(size)` holds the rest and replaces `b` on the free list in sorted position, and joins the blocks. Without a split, `b` just leaves the list. The bounds stay put.
  - Otherwise the block is a fresh one of exactly `align8(size)` bytes at the old `now_ptr + 1`. The free list is unchanged, the block is appended to the blocks, and the bounds move as `more_bytes` moves them.
- **Alloc.Heap.Free.**
  - The block leaves use and every other block in use is unchanged.
  - The state is a merge, as `Merge` states it, of the block inserted into the free list in sorted position. So the list is the sorted insertion restricted to the surviving headers.
  - The freed bytes lie inside the returned block, which is listed and touches neither list neighbour.
  - The bounds stay put.
- **Alloc.Heap.Realloc.**
  - A null `ptr` behaves as `malloc`.
  - A block that already holds `align8(size)` bytes stays in place: the same pointer is returned, and the block is shrunk exactly when the surplus is at least 32. This includes size 0.
  - In place, the headers, list and blocks change as in `TakeBlock`'s two cases, and the bounds stay put.
  - Otherwise a new block replaces the old one among the blocks in use. The state is `malloc(align8(size))` followed by `free` of the old block, as `Move` states it.
  - The result always has room for `align8(size)` bytes.

## Left out

**Calls outside the C code.**
- `sbrk` is not modelled. The break reported by `sbrk(0)` is a parameter `brk` of the methods that may grow the arena. The call that grows the break only moves `maxPtr`. Its failure is never observed by the C code, so it is not modelled.
- Payload bytes are not modelled. `copy_block`'s `memcpy` and `calloc`'s `memset` act on untyped memory. `Move` does not state that contents are preserved, and `Calloc` only returns the length it would clear.

**Bounds and arithmetic.**
- 64-bit wrap-around is modelled only for `calloc`'s product and clear length, and for `virt_addr`. Elsewhere, addresses and sizes are unbounded naturals. So the model does not capture `align8` or `now_ptr + s` wrapping near 2^64.
- MSort.MergeIntoTemp: `l1`, `l2`, the cursors and `duplicate_cnt` are naturals rather than C `int`, and `sizeof(int) * (l1 + l2)` is not bounded.
- MSort.ValuesPerSegment: `input_ct` and `segment_count` are naturals. Negative C `int` operands are not modelled. The function requires `segment_count > 0`: with a zero `segment_count`, the `%` at `msort.c` line 58 divides by zero, which the C code does not guard.

**Undefined behaviour turned into preconditions.**
- Alloc.Heap.Free requires a pointer to a block in use. `free(NULL)`, foreign pointers and double free are undefined behaviour that the code does not guard.
- Alloc.Heap.Realloc requires the same for a non-null `ptr`.

**Simplifications of the in-band headers.**
- Alloc.Heap.SplitBlock: the C code leaves the remainder header's links as garbage until `insert_block` overwrites both. The model writes null links there first.
- Alloc.Heap.Merge: the header of an absorbed block becomes payload bytes. The model removes it from the header map rather than leaving stale bytes.
- Alloc.Heap.SplitBlock, Alloc.Heap.ExtendHeap, Alloc.Heap.TakeBlock, Alloc.Heap.AppendBlock, Alloc.Heap.Shrink, Alloc.Heap.Move: these require block sizes that are multiples of 8. Every caller in the C code passes an `align8` result, and the invariant keeps all block sizes aligned.

**Helper methods and lemmas.**
- `InsertionPoint` is the walk inside `insert_block`.
- `AbsorbStep` is the body of both `merge` loops.
- `MergeForward` and `MergeBackward` are its two loops.
- `TakeBlock`, `AppendBlock`, `Shrink`, `Move` and `ReallocBlock` are branches of `malloc` and `realloc`.
- Each is a method of its own, called where the C code runs that code inline.
- The lemmas `AllocatedFit`, `AllocatedFresh` and `FreedFrom` only introduce one case of the predicates `Allocated` and `Freed`. `AddLive` and `SwapLive` are map identities about `Live()`. `WellFormedAt`, `Heap.ValidFrom` and `MSort.Regroup` only restate a fact in the shape a later step needs. These exist to keep the proofs small, and state nothing about the C code of their own.

**msort.c.**
- The pthread fan-out and join.
- `qsort` and `cmp`.
- All I/O and logging.
- The `malloc`/`free` of `temp`: it is modelled as a fresh array.
