// The allocator of syspro_hw1/alloc.c as an object: the four globals
// `first_block`, `low_ptr`, `max_ptr` and `now_ptr` are its fields, the
// in-band block headers are a map from address to header, and every
// entry point rewrites them in place as the C code does.  Two ghost
// fields mirror what the pointers encode: the free list in link order
// and every block of the arena in address order.

module Alloc {
  import opened AllocArith
  import opened SortedSeq
  import opened Arena

  /** The width of `size_t`: `virt_addr` computes modulo 2^64. */
  const WORD_RANGE: nat := 0x1_0000_0000_0000_0000

  /** `x` truncated to a `size_t`; a value that fits is kept. */
  function Word(x: nat): (r: nat)
    ensures r < WORD_RANGE
    ensures x < WORD_RANGE ==> r == x
  {
    x % WORD_RANGE
  }

  /**
   * The length calloc hands to `memset`: the rounded request shifted left by
   * three in `size_t` arithmetic, i.e. eight times the rounded request.
   */
  function ClearLength(total: nat): (n: nat)
    ensures n < WORD_RANGE
    ensures 8 * Align8(total) < WORD_RANGE ==> n == 8 * Align8(total)
  {
    Word(Word(Align8(total)) * 8)
  }

  /** Any block malloc can return for a non-empty request is shorter than the cleared length. */
  lemma ClearOverrun(total: nat, size: nat)
    requires 0 < total && 8 * Align8(total) < WORD_RANGE && size <= Align8(total) + BLOCK_SIZE
    ensures ClearLength(total) > size
  {
  }

  /**
   * Where `more_bytes` puts the next block: one past the bump pointer, or
   * one past the break `brk` on first use.
   */
  function NextBlock(now: nat, brk: nat): nat {
    (if now == NULL then brk else now) + 1
  }

  /**
   * The bounds after `more_bytes(need)`: on first use (`now0` null) the
   * arena starts at the break `brk`; the bump pointer advances by `need`;
   * the break moves only when the bump pointer passes it, and then by the
   * smallest whole number of pages that covers the shortfall.
   */
  ghost predicate Bumped(lo0: nat, max0: nat, now0: nat, brk: nat, need: nat, lo: nat, max: nat, now: nat) {
    var top := if now0 == NULL then brk else max0;
    && lo == (if now0 == NULL then brk else lo0)
    && now == (if now0 == NULL then brk else now0) + need
    && max == (if now > top then top + PageRound(now - top) else top)
  }

  class Heap {
    /** `first_block`: the head of the free list, or null. */
    var firstBlock: nat
    /** `low_ptr`: the program break when the arena was first touched. */
    var lowPtr: nat
    /** `max_ptr`: the current program break, the top of the mapped arena. */
    var maxPtr: nat
    /** `now_ptr`: the bump pointer; the next block starts at `nowPtr + 1`. */
    var nowPtr: nat
    /** The block headers written in the arena, by address. */
    var headers: Headers
    /** The free list, from `firstBlock` along the `next` links. */
    ghost var freeList: seq<nat>
    /** Every block of the arena, free or in use, in address order. */
    ghost var blocks: seq<nat>

    /**
     * The bump pointer is at most the break and the mapped arena is whole
     * pages.  The last block ends at `nowPtr + 1`, so when `nowPtr == maxPtr`
     * its final byte is the first byte past the break.
     */
    ghost predicate Bounds()
      reads this
    {
      lowPtr <= nowPtr <= maxPtr && (maxPtr - lowPtr) % PAGE_SIZE == 0
    }

    /**
     * The allocator invariant: the blocks tile `[lowPtr + 1, nowPtr + 1)`,
     * the free list is sorted and doubly linked, and `firstBlock` is its head.
     */
    ghost predicate Valid()
      reads this
    {
      && Bounds()
      && WellFormed(headers, freeList, blocks, lowPtr + 1, nowPtr + 1)
      && firstBlock == At(freeList, 0)
    }

    /** Assembles `Valid()` from its parts; it only keeps the callers' proofs small. */
    lemma ValidFrom(lo: nat, hi: nat)
      requires Bounds() && lowPtr + 1 == lo && nowPtr + 1 == hi
      requires WellFormed(headers, freeList, blocks, lo, hi) && firstBlock == At(freeList, 0)
      ensures Valid()
    {
    }

    /** `firstBlock` is null exactly when the free list is empty, and otherwise its lowest block. */
    lemma FirstBlockLowest()
      requires Valid()
      ensures firstBlock == NULL <==> freeList == []
      ensures forall a :: a in freeList ==> firstBlock <= a
    {
      if freeList != [] {
        assert freeList[0] in headers;
      }
    }

    /**
     * Every header sits a multiple of 8 bytes past `lowPtr + 1`, so every
     * payload sits 25 bytes plus a multiple of 8 past `lowPtr`: payloads are
     * 8-aligned exactly when the initial break is 7 modulo 8.
     */
    lemma PayloadAlignment(b: nat)
      requires Valid() && b in headers
      ensures (b - (lowPtr + 1)) % 8 == 0
      ensures Aligned8(Payload(b)) <==> lowPtr % 8 == 7
    {
      TilesAligned(headers, blocks, lowPtr + 1, nowPtr + 1);
      assert b in blocks;
    }

    /** The blocks in use, that is off the free list, with their sizes. */
    ghost function Live(): map<nat, nat>
      reads this
    {
      InUse(Sizes(headers), freeList)
    }

    /** The state before the first call: all four globals null, no blocks. */
    constructor ()
      ensures Valid()
      ensures firstBlock == NULL && lowPtr == NULL && maxPtr == NULL && nowPtr == NULL
      ensures headers == map[] && freeList == [] && blocks == []
    {
      firstBlock, lowPtr, maxPtr, nowPtr := NULL, NULL, NULL, NULL;
      headers, freeList, blocks := map[], [], [];
    }

    /** `virt_addr`: the offset of `p` from the bottom of the arena, as a `size_t`. */
    function VirtAddr(p: nat): (r: nat)
      reads this
      ensures r < WORD_RANGE
      ensures lowPtr <= p < lowPtr + WORD_RANGE ==> lowPtr + r == p
    {
      (p - lowPtr) % WORD_RANGE
    }

    /**
     * `more_bytes`: on first use the arena starts at the break `brk`
     * (`sbrk(0)`); when `s` more bytes overshoot `maxPtr` the break moves up
     * by whole pages; the bump pointer advances by `s`, and the result is
     * one past its old value.
     */
    method MoreBytes(s: nat, brk: nat) returns (r: nat)
      requires Bounds()
      modifies this`lowPtr, this`maxPtr, this`nowPtr
      ensures Bounds()
      ensures r == NextBlock(old(nowPtr), brk)
      ensures Bumped(old(lowPtr), old(maxPtr), old(nowPtr), brk, s, lowPtr, maxPtr, nowPtr)
    {
      if nowPtr == NULL {
        nowPtr := brk;
        maxPtr := nowPtr;
        lowPtr := nowPtr;
      }
      if nowPtr + s > maxPtr {
        var delta := s - (maxPtr - nowPtr);
        delta := PageRound(delta);
        maxPtr := maxPtr + delta;
      }
      nowPtr := nowPtr + s;
      r := nowPtr - s + 1;
    }

    /**
     * `extend_heap`: a fresh block of `s` bytes at the top of the arena,
     * with null links and not on the free list.
     */
    method ExtendHeap(s: nat, brk: nat) returns (b: nat)
      requires Valid() && Aligned8(s)
      modifies this
      ensures Valid()
      ensures b == NextBlock(old(nowPtr), brk)
      ensures b !in old(headers) && headers == old(headers)[b := Header(s, NULL, NULL)]
      ensures blocks == old(blocks) + [b]
      ensures freeList == old(freeList) && firstBlock == old(firstBlock)
      ensures nowPtr + 1 == End(headers, b)
      ensures Bumped(old(lowPtr), old(maxPtr), old(nowPtr), brk, BLOCK_SIZE + s, lowPtr, maxPtr, nowPtr)
    {
      ghost var lo, hi := lowPtr + 1, nowPtr + 1;
      if nowPtr == NULL {
        TilesEmpty(headers, blocks, lowPtr + 1);
        lo, hi := brk + 1, brk + 1;
      }
      assert WellFormed(headers, freeList, blocks, lo, hi);
      b := MoreBytes(BLOCK_SIZE + s, brk);
      ghost var top := nowPtr + 1;
      WellFormedAt(headers, freeList, blocks, lo, hi, lo, b);
      AppendWellFormed(headers, freeList, blocks, lo, b, s, top);
      headers, blocks := headers[b := Header(s, NULL, NULL)], blocks + [b];
      ValidFrom(lo, top);
    }

    /**
     * `delete_block`: unlink `b` from the free list.  Its neighbours are
     * joined, `firstBlock` moves on when `b` was the head, and both links of
     * `b` are nulled; a block that is not on the list keeps null links, so
     * the call changes nothing for it.
     */
    method DeleteBlock(b: nat)
      requires Valid() && b in headers
      modifies this
      ensures Valid()
      ensures freeList == Without(old(freeList), b)
      ensures blocks == old(blocks)
      ensures lowPtr == old(lowPtr) && maxPtr == old(maxPtr) && nowPtr == old(nowPtr)
      ensures headers.Keys == old(headers).Keys && Sizes(headers) == Sizes(old(headers))
      ensures headers[b] == Header(old(headers)[b].size, NULL, NULL)
      ensures b !in old(freeList) ==> headers == old(headers) && firstBlock == old(firstBlock)
    {
      ghost var L, h0, lo, hi := freeList, headers, lowPtr + 1, nowPtr + 1;
      LinksOf(h0, L, blocks, lo, hi, b);
      var h := headers;
      if b == firstBlock {
        firstBlock := h[b].next;
      }
      var p, n := h[b].prev, h[b].next;
      if p != NULL {
        h := h[p := h[p].(next := n)];
      }
      if n != NULL {
        h := h[n := h[n].(prev := p)];
      }
      h := h[b := h[b].(prev := NULL, next := NULL)];
      assert h == Unlink(h0, b);
      UnlinkBlock(h0, L, blocks, lo, hi, b);
      headers, freeList := h, Without(L, b);
      ValidFrom(lo, hi);
    }

    /**
     * `insert_block`: link `b` into the free list in front of the first
     * block at a higher address, walking from `firstBlock`; `b` becomes the
     * head when no listed block lies below it.
     */
    method InsertBlock(b: nat)
      requires Valid() && b in headers && b !in freeList
      modifies this
      ensures Valid()
      ensures freeList == InsertSorted(old(freeList), b)
      ensures blocks == old(blocks)
      ensures lowPtr == old(lowPtr) && maxPtr == old(maxPtr) && nowPtr == old(nowPtr)
      ensures headers.Keys == old(headers).Keys && Sizes(headers) == Sizes(old(headers))
    {
      ghost var L, lo, hi := freeList, lowPtr + 1, nowPtr + 1;
      ghost var k := Rank(L, b);
      var h := headers;
      if firstBlock == NULL {
        h := h[b := h[b].(prev := NULL, next := NULL)];
        firstBlock := b;
      } else {
        var last, ptr := InsertionPoint(b);
        if ptr == firstBlock {
          h := h[b := h[b].(prev := NULL, next := ptr)];
          h := h[ptr := h[ptr].(prev := b)];
          firstBlock := b;
        } else {
          h := h[b := h[b].(prev := last, next := ptr)];
          if ptr != NULL {
            h := h[ptr := h[ptr].(prev := b)];
          }
          h := h[last := h[last].(next := b)];
        }
      }
      ghost var h0 := headers;
      assert h == LinkIn(h0, b, Before(L, k), At(L, k));
      LinkInRank(h0, L, blocks, lo, hi, b);
      headers, freeList := h, InsertSorted(L, b);
      ValidFrom(lo, hi);
    }

    /**
     * The walk of `insert_block`: from `firstBlock` along the `next` links
     * past every listed block below `b`.  It stops at the first listed block
     * above `b` (null past the tail) with `last` on the block before it, or
     * on the head itself when the walk did not move.
     */
    method InsertionPoint(b: nat) returns (last: nat, ptr: nat)
      requires Valid() && firstBlock != NULL && b !in freeList
      ensures ptr == At(freeList, Rank(freeList, b))
      ensures last == Before(freeList, Rank(freeList, b)) || (Rank(freeList, b) == 0 && last == firstBlock)
      ensures ptr == firstBlock <==> Rank(freeList, b) == 0
    {
      ghost var L := freeList;
      ghost var k: nat := 0;
      ptr, last := firstBlock, firstBlock;
      while ptr != NULL && ptr < b
        invariant L != [] && k <= |L| && ptr == At(L, k)
        invariant last == if k == 0 then L[0] else L[k - 1]
        invariant forall j :: 0 <= j < k ==> L[j] < b
        decreases |L| - k
      {
        last := ptr;
        ptr := headers[ptr].next;
        k := k + 1;
      }
      RankUnique(L, b, k);
      assert ptr == firstBlock <==> k == 0;
    }

    /**
     * `split_block`: cut block `b` after the first `s` bytes of its body.
     * The remainder gets a header of its own right there, ending where `b`
     * ended; `b` keeps `s` bytes and leaves the free list, and the remainder
     * joins it.
     */
    method SplitBlock(b: nat, s: nat)
      requires Valid() && b in headers && headers[b].size >= s + BLOCK_SIZE && Aligned8(s)
      modifies this
      ensures Valid()
      ensures SplitPoint(b, s) !in old(headers)
      ensures headers.Keys == old(headers).Keys + {SplitPoint(b, s)}
      ensures Sizes(headers) == Sizes(old(headers))[SplitPoint(b, s) := old(headers)[b].size - s - BLOCK_SIZE][b := s]
      ensures End(headers, b) == SplitPoint(b, s)
      ensures End(headers, SplitPoint(b, s)) == End(old(headers), b)
      ensures freeList == InsertSorted(Without(old(freeList), b), SplitPoint(b, s))
      ensures blocks == InsertSorted(old(blocks), SplitPoint(b, s))
      ensures lowPtr == old(lowPtr) && maxPtr == old(maxPtr) && nowPtr == old(nowPtr)
    {
      ghost var h0, L, lo, hi := headers, freeList, lowPtr + 1, nowPtr + 1;
      var n := SplitPoint(b, s);
      var h := headers;
      h := h[n := Header(h[b].size - s - BLOCK_SIZE, NULL, NULL)];
      h := h[b := h[b].(size := s)];
      assert h == Carve(h0, b, s);
      CarveWellFormed(h0, L, blocks, lo, hi, b, s);
      headers, blocks := h, InsertSorted(blocks, n);
      ValidFrom(lo, hi);
      DeleteBlock(b);
      WithoutMembers(L, b);
      InsertBlock(n);
      CarveSizes(h0, b, s, headers);
    }

    /**
     * `find_block`: the first block in list order with at least
     * `size + BLOCK_SIZE` bytes, or null when there is none.
     */
    method FindBlock(size: nat) returns (r: nat)
      requires Valid()
      ensures r == At(freeList, FirstFit(headers, freeList, size + BLOCK_SIZE))
      ensures r == NULL <==> forall a :: a in freeList ==> headers[a].size < size + BLOCK_SIZE
      ensures r != NULL ==> r in freeList && headers[r].size >= size + BLOCK_SIZE
    {
      if firstBlock == NULL {
        return NULL;
      }
      var b := firstBlock;
      ghost var k := 0;
      while b != NULL && headers[b].size < size + BLOCK_SIZE
        invariant k <= |freeList| && b == At(freeList, k)
        invariant forall j :: 0 <= j < k ==> headers[freeList[j]].size < size + BLOCK_SIZE
        decreases |freeList| - k
      {
        b := headers[b].next;
        k := k + 1;
      }
      r := b;
    }

    /**
     * The body of either loop of `merge`: the free block `a` absorbs its
     * list successor `c`, which starts where `a` ends.  `a` grows by the
     * header and body of `c` and links past it, and the header of `c` is
     * no longer a header: it leaves the free list and the arena's blocks.
     */
    method AbsorbStep(a: nat, c: nat)
      requires Valid() && a in headers && headers[a].next == c && c != NULL && End(headers, a) == c
      modifies this`headers, this`freeList, this`blocks
      ensures a in old(freeList) && c in old(freeList) && c in old(headers) && c != a
      ensures old(headers)[c].next != NULL ==> old(headers)[c].next in old(headers)
      ensures Valid()
      ensures headers == Absorb(old(headers), a, c)
      ensures freeList == Without(old(freeList), c) && blocks == Without(old(blocks), c)
      ensures BackLinked(a)
    {
      ghost var h1, L, B, lo, hi := headers, freeList, blocks, lowPtr + 1, nowPtr + 1;
      LinksOf(h1, L, B, lo, hi, a);
      LinksOf(h1, L, B, lo, hi, c);
      var h := headers;
      h := h[a := h[a].(size := h[a].size + BLOCK_SIZE + h[c].size, next := h[c].next)];
      if h[a].next != NULL {
        h := h[h[a].next := h[h[a].next].(prev := a)];
      }
      h := h - {c};
      assert h == Absorb(h1, a, c);
      AbsorbNext(h1, L, B, lo, hi, a, c);
      if h[a].prev != NULL {
        PrevLink(h, Without(L, c), Without(B, c), lo, hi, a);
      }
      headers, freeList, blocks := h, Without(L, c), Without(B, c);
      ValidFrom(lo, hi);
    }

    /** The block `r` exists and its list predecessor, if any, links forward to it. */
    ghost predicate BackLinked(r: nat)
      reads this
    {
      r in headers &&
      (headers[r].prev != NULL ==> headers[r].prev in headers && headers[r].prev != r && headers[headers[r].prev].next == r)
    }

    /**
     * `merge`: coalesce `b` with the free blocks that touch it.  While the
     * list successor of `b` starts where `b` ends, `b` absorbs it; then,
     * while the list predecessor ends where the current block starts, the
     * predecessor absorbs it and becomes the current block.  The result is
     * the block that now holds `b`; neither of its list neighbours touches
     * it.  A block in use has null links, so it is returned unchanged.
     */
    method Merge(b: nat) returns (r: nat)
      requires Valid() && b in headers
      modifies this`headers, this`freeList, this`blocks
      ensures Valid()
      ensures MergedFrom(old(headers), old(freeList), old(blocks), b, headers, freeList, blocks, r)
      ensures Coalesced(headers, r)
    {
      ghost var h0, L0, B0 := headers, freeList, blocks;
      MergeStart(h0, L0, B0, lowPtr + 1, nowPtr + 1, b);
      if headers[b].prev != NULL {
        PrevLink(h0, L0, B0, lowPtr + 1, nowPtr + 1, b);
      }
      MergeForward(b, h0, L0, B0);
      r := MergeBackward(b, h0, L0, B0, b);
    }

    /**
     * The first loop of `merge`: while the list successor of `b` starts
     * where `b` ends, `b` absorbs it.
     */
    method MergeForward(b: nat, ghost h0: Headers, ghost L0: seq<nat>, ghost B0: seq<nat>)
      requires Valid() && MergedFrom(h0, L0, B0, b, headers, freeList, blocks, b) && BackLinked(b)
      modifies this`headers, this`freeList, this`blocks
      ensures Valid() && MergedFrom(h0, L0, B0, b, headers, freeList, blocks, b) && BackLinked(b)
      ensures headers[b].next == NULL || headers[b].next != End(headers, b)
    {
      while headers[b].next != NULL && headers[b].next == End(headers, b)
        invariant Valid() && MergedFrom(h0, L0, B0, b, headers, freeList, blocks, b) && BackLinked(b)
        decreases |headers.Keys|
      {
        ghost var h1, L1, B1 := headers, freeList, blocks;
        var c := headers[b].next;
        AbsorbStep(b, c);
        MergedAbsorb(h0, L0, B0, b, h1, L1, B1, b, b, c);
      }
    }

    /**
     * The second loop of `merge`: while the list predecessor of the current
     * block ends where it starts, the predecessor absorbs it and becomes
     * the current block, which is returned.
     */
    method MergeBackward(r0: nat, ghost h0: Headers, ghost L0: seq<nat>, ghost B0: seq<nat>, ghost b: nat) returns (r: nat)
      requires Valid() && MergedFrom(h0, L0, B0, b, headers, freeList, blocks, r0) && BackLinked(r0)
      requires headers[r0].next == NULL || headers[r0].next != End(headers, r0)
      modifies this`headers, this`freeList, this`blocks
      ensures Valid() && MergedFrom(h0, L0, B0, b, headers, freeList, blocks, r)
      ensures Coalesced(headers, r)
    {
      r := r0;
      while headers[r].prev != NULL && End(headers, headers[r].prev) == r
        invariant Valid() && MergedFrom(h0, L0, B0, b, headers, freeList, blocks, r) && BackLinked(r)
        invariant headers[r].next == NULL || headers[r].next != End(headers, r)
        decreases |headers.Keys|
      {
        var p := headers[r].prev;
        ghost var h1, L1, B1 := headers, freeList, blocks;
        AbsorbStep(p, r);
        MergedAbsorb(h0, L0, B0, b, h1, L1, B1, r, p, r);
        r := p;
      }
    }

    /**
     * The branch of `malloc` that found the free block `b` for `s` bytes:
     * split it when the rest can hold a header and 8 bytes, so that `b`
     * keeps `s` bytes and the rest stays free, otherwise take it off the
     * free list whole.  Either way `b` goes into use and no other block in
     * use changes.
     */
    method TakeBlock(b: nat, s: nat)
      requires Valid() && b in headers && b in freeList && headers[b].size >= s + BLOCK_SIZE && Aligned8(s)
      modifies this
      ensures Valid() && b in headers
      ensures Live() == old(Live())[b := headers[b].size]
      ensures headers[b].size == if old(headers)[b].size - s >= BLOCK_SIZE + 8 then s else old(headers)[b].size
      ensures s <= headers[b].size <= s + BLOCK_SIZE
      ensures Claimed(old(headers), old(freeList), old(blocks), b, s, headers, freeList, blocks)
      ensures lowPtr == old(lowPtr) && maxPtr == old(maxPtr) && nowPtr == old(nowPtr)
    {
      ghost var h0, L0 := headers, freeList;
      if headers[b].size - s >= BLOCK_SIZE + 8 {
        SplitBlock(b, s);
        InUseCarve(h0, L0, headers, freeList, b, s);
      } else {
        DeleteBlock(b);
        TightFit(h0[b].size, s);
        InUseWithout(h0, L0, headers, freeList, b);
      }
    }

    /**
     * `malloc`: round the request up to a multiple of 8 and take the first
     * free block in list order with room for it and a header; split it when
     * the rest can hold a header and 8 bytes, otherwise hand out the whole
     * block.  With no such block, grow the arena by a fresh block.  The
     * result is the payload address of a block that was not in use and now
     * is; every other block in use is untouched.
     */
    method Malloc(size: nat, brk: nat) returns (p: nat)
      requires Valid()
      modifies this
      ensures Valid()
      ensures p >= BLOCK_SIZE && GetBlock(p) in headers && GetBlock(p) !in old(Live())
      ensures Live() == old(Live())[GetBlock(p) := headers[GetBlock(p)].size]
      ensures Align8(size) <= headers[GetBlock(p)].size <= Align8(size) + BLOCK_SIZE
      ensures Allocated(old(headers), old(freeList), old(blocks), Align8(size),
                        NextBlock(old(nowPtr), brk), GetBlock(p), headers, freeList, blocks)
      ensures GetBlock(p) in old(headers) ==> lowPtr == old(lowPtr) && maxPtr == old(maxPtr) && nowPtr == old(nowPtr)
      ensures GetBlock(p) !in old(headers) ==>
        Bumped(old(lowPtr), old(maxPtr), old(nowPtr), brk, BLOCK_SIZE + Align8(size), lowPtr, maxPtr, nowPtr)
    {
      ghost var h0, L0, B0 := headers, freeList, blocks;
      ghost var top := NextBlock(nowPtr, brk);
      var s := Align8(size);
      var b := FindBlock(s);
      ghost var i := FirstFit(h0, L0, s + BLOCK_SIZE);
      if b != NULL {
        TakeBlock(b, s);
        AllocatedFit(h0, L0, B0, s, top, i, b, headers, freeList, blocks);
      } else {
        b := AppendBlock(s, brk);
        AllocatedFresh(h0, L0, B0, s, top, b, headers, freeList, blocks);
      }
      p := Payload(b);
      GetBlockOfPayload(b);
    }

    /**
     * The branch of `malloc` that found no free block: `extend_heap` appends
     * a fresh block of exactly `s` bytes, which goes into use beside the
     * blocks already in use.
     */
    method AppendBlock(s: nat, brk: nat) returns (b: nat)
      requires Valid() && Aligned8(s)
      modifies this
      ensures Valid()
      ensures b == NextBlock(old(nowPtr), brk)
      ensures b !in old(headers) && headers == old(headers)[b := Header(s, NULL, NULL)]
      ensures freeList == old(freeList) && blocks == old(blocks) + [b]
      ensures Live() == old(Live())[b := s]
      ensures Bumped(old(lowPtr), old(maxPtr), old(nowPtr), brk, BLOCK_SIZE + s, lowPtr, maxPtr, nowPtr)
    {
      ghost var h0, L0 := headers, freeList;
      b := ExtendHeap(s, brk);
      InUseAdd(h0, L0, headers, b);
    }

    /**
     * `free`: put the block of payload `p` back on the free list and
     * coalesce it with the free blocks that touch it.  The block leaves
     * use and no other block in use changes; it now lies inside a free
     * block that touches neither of its list neighbours.
     */
    method Free(p: nat)
      requires Valid() && p >= BLOCK_SIZE && GetBlock(p) in headers && GetBlock(p) in Live()
      modifies this
      ensures Valid()
      ensures Live() == old(Live()) - {GetBlock(p)}
      ensures Freed(old(headers), old(freeList), old(blocks), GetBlock(p), headers, freeList, blocks)
      ensures lowPtr == old(lowPtr) && maxPtr == old(maxPtr) && nowPtr == old(nowPtr)
    {
      ghost var h0, L0, B0 := headers, freeList, blocks;
      var b := GetBlock(p);
      InsertBlock(b);
      ghost var h1, L1 := headers, freeList;
      InUseInsert(h0, L0, h1, L1, b);
      assert Sizes(h1)[b] == Sizes(h0)[b];
      var r := Merge(b);
      MergedFromRebase(h0, h1, L1, B0, b, headers, freeList, blocks, r);
      FreedFrom(h0, L0, B0, b, headers, freeList, blocks, r);
    }

    /**
     * The branch of `realloc` where the block `b` in use already holds `s`
     * bytes: split it when the rest can hold a header and 8 bytes, so that
     * `b` keeps `s` bytes and the rest is free; otherwise leave it.
     */
    method Shrink(b: nat, s: nat)
      requires Valid() && b in headers && b in Live() && headers[b].size >= s && Aligned8(s)
      modifies this
      ensures Valid() && b in headers
      ensures Live() == old(Live())[b := if old(headers)[b].size - s >= BLOCK_SIZE + 8 then s else old(headers)[b].size]
      ensures Claimed(old(headers), old(freeList), old(blocks), b, s, headers, freeList, blocks)
      ensures lowPtr == old(lowPtr) && maxPtr == old(maxPtr) && nowPtr == old(nowPtr)
    {
      ghost var h0, L0 := headers, freeList;
      if headers[b].size - s >= BLOCK_SIZE + 8 {
        SplitBlock(b, s);
        InUseCarve(h0, L0, headers, freeList, b, s);
      } else {
        InUseHeader(h0, L0, b);
        WithoutAbsent(L0, b);
      }
    }

    /**
     * The branch of `realloc` where the block `b` in use is too small for
     * `s` bytes: allocate a new block, copy the payload over and free `b`.
     * The new block was not in use, holds at least `s` bytes, and replaces
     * `b` among the blocks in use.
     */
    method Move(b: nat, s: nat, brk: nat) returns (p: nat)
      requires Valid() && b in headers && b in Live() && Aligned8(s)
      modifies this
      ensures Valid()
      ensures p >= BLOCK_SIZE && GetBlock(p) != b && GetBlock(p) !in old(Live()) && GetBlock(p) in Live()
      ensures s <= Live()[GetBlock(p)]
      ensures Live() - {GetBlock(p)} == old(Live()) - {b}
      ensures exists h1, L1, B1 ::
        && Allocated(old(headers), old(freeList), old(blocks), s,
                     NextBlock(old(nowPtr), brk), GetBlock(p), h1, L1, B1)
        && Freed(h1, L1, B1, b, headers, freeList, blocks)
      ensures GetBlock(p) in old(headers) ==> lowPtr == old(lowPtr) && maxPtr == old(maxPtr) && nowPtr == old(nowPtr)
      ensures GetBlock(p) !in old(headers) ==>
        Bumped(old(lowPtr), old(maxPtr), old(nowPtr), brk, BLOCK_SIZE + s, lowPtr, maxPtr, nowPtr)
    {
      ghost var h0, L0, B0, M0 := headers, freeList, blocks, Live();
      ghost var top := NextBlock(nowPtr, brk);
      p := Malloc(s, brk);
      assert Align8(s) == s;
      ghost var h1, L1, B1, M1 := headers, freeList, blocks, Live();
      InUseHeader(h1, L1, GetBlock(p));
      InUseHeader(h1, L1, b);
      GetBlockOfPayload(b);
      Free(Payload(b));
      SwapLive(M0, M1, Live(), GetBlock(p), b, h1[GetBlock(p)].size);
      assert Allocated(h0, L0, B0, s, top, GetBlock(p), h1, L1, B1);
    }

    /**
     * `realloc`: with a null `ptr`, `malloc(size)`.  Otherwise the block of
     * `ptr` is coalesced first, which leaves a block in use as it is.  When
     * it holds the rounded size it stays where it is, split when the rest
     * can hold a header and 8 bytes, and `ptr` is returned; otherwise a new
     * block is allocated and the old one freed.
     */
    method Realloc(ptr: nat, size: nat, brk: nat) returns (p: nat)
      requires Valid()
      requires ptr != NULL ==> ptr >= BLOCK_SIZE && GetBlock(ptr) in headers && GetBlock(ptr) in Live()
      modifies this
      ensures Valid()
      ensures p >= BLOCK_SIZE && GetBlock(p) in Live() && Align8(size) <= Live()[GetBlock(p)]
      ensures ptr == NULL ==> GetBlock(p) !in old(Live()) && Live() - {GetBlock(p)} == old(Live())
      ensures ptr == NULL ==>
        Allocated(old(headers), old(freeList), old(blocks), Align8(size), NextBlock(old(nowPtr), brk), GetBlock(p), headers, freeList, blocks)
      ensures ptr != NULL && Align8(size) <= old(Live())[GetBlock(ptr)] ==>
        var s, n := Align8(size), old(Live())[GetBlock(ptr)];
        && p == ptr && Live() == old(Live())[GetBlock(ptr) := if n - s >= BLOCK_SIZE + 8 then s else n]
        && Claimed(old(headers), old(freeList), old(blocks), GetBlock(ptr), s, headers, freeList, blocks)
      ensures ptr != NULL && old(Live())[GetBlock(ptr)] < Align8(size) ==>
        && GetBlock(p) !in old(Live()) && Live() - {GetBlock(p)} == old(Live()) - {GetBlock(ptr)}
        && exists h1, L1, B1 ::
          && Allocated(old(headers), old(freeList), old(blocks), Align8(size), NextBlock(old(nowPtr), brk), GetBlock(p), h1, L1, B1)
          && Freed(h1, L1, B1, GetBlock(ptr), headers, freeList, blocks)
      ensures GetBlock(p) in old(headers) ==> lowPtr == old(lowPtr) && maxPtr == old(maxPtr) && nowPtr == old(nowPtr)
      ensures GetBlock(p) !in old(headers) ==>
        Bumped(old(lowPtr), old(maxPtr), old(nowPtr), brk, BLOCK_SIZE + Align8(size), lowPtr, maxPtr, nowPtr)
    {
      if ptr == NULL {
        p := Malloc(size, brk);
      } else {
        p := ReallocBlock(ptr, size, brk);
      }
    }

    /**
     * `realloc` of the block in use at `ptr`: coalesce it, which leaves it
     * as it is, then keep it in place when it holds the rounded size, or
     * move it to a new block.
     */
    method ReallocBlock(ptr: nat, size: nat, brk: nat) returns (p: nat)
      requires Valid() && ptr >= BLOCK_SIZE && GetBlock(ptr) in headers && GetBlock(ptr) in Live()
      modifies this
      ensures Valid()
      ensures p >= BLOCK_SIZE && GetBlock(p) in Live() && Align8(size) <= Live()[GetBlock(p)]
      ensures Align8(size) <= old(Live())[GetBlock(ptr)] ==>
        var s, n := Align8(size), old(Live())[GetBlock(ptr)];
        && p == ptr && Live() == old(Live())[GetBlock(ptr) := if n - s >= BLOCK_SIZE + 8 then s else n]
        && Claimed(old(headers), old(freeList), old(blocks), GetBlock(ptr), s, headers, freeList, blocks)
        && lowPtr == old(lowPtr) && maxPtr == old(maxPtr) && nowPtr == old(nowPtr)
      ensures old(Live())[GetBlock(ptr)] < Align8(size) ==>
        && GetBlock(p) !in old(Live()) && Live() - {GetBlock(p)} == old(Live()) - {GetBlock(ptr)}
        && (exists h1, L1, B1 ::
              && Allocated(old(headers), old(freeList), old(blocks), Align8(size), NextBlock(old(nowPtr), brk), GetBlock(p), h1, L1, B1)
              && Freed(h1, L1, B1, GetBlock(ptr), headers, freeList, blocks))
        && (GetBlock(p) in old(headers) ==> lowPtr == old(lowPtr) && maxPtr == old(maxPtr) && nowPtr == old(nowPtr))
        && (GetBlock(p) !in old(headers) ==>
              Bumped(old(lowPtr), old(maxPtr), old(nowPtr), brk, BLOCK_SIZE + Align8(size), lowPtr, maxPtr, nowPtr))
    {
      ghost var h0, L0, B0 := headers, freeList, blocks;
      var s := Align8(size);
      var b := GetBlock(ptr);
      InUseHeader(h0, L0, b);
      b := Merge(b);
      assert b == GetBlock(ptr) && headers == h0 && freeList == L0 && blocks == B0;
      if headers[b].size >= s {
        Shrink(b, s);
        p := Payload(b);
        GetBlockOfPayload(b);
      } else {
        p := Move(b, s, brk);
      }
    }

    /**
     * `calloc`: `malloc(num * size)`, the product taken modulo 2^64 as
     * `size_t` arithmetic does, and the length handed to `memset`, which is
     * `align8(num * size) << 3` in `size_t` arithmetic.  That length is
     * eight times the rounded request, so for any non-empty request that
     * does not wrap it reaches past the end of the block.
     */
    method Calloc(num: nat, size: nat, brk: nat) returns (p: nat, cleared: nat)
      requires Valid()
      modifies this
      ensures Valid()
      ensures p >= BLOCK_SIZE && GetBlock(p) !in old(Live()) && GetBlock(p) in Live()
      ensures Live() - {GetBlock(p)} == old(Live())
      ensures num * size < WORD_RANGE ==> num * size <= Live()[GetBlock(p)]
      ensures cleared == ClearLength(Word(num * size))
      ensures 0 < Word(num * size) && 8 * Align8(Word(num * size)) < WORD_RANGE ==> cleared > Live()[GetBlock(p)]
      ensures Allocated(old(headers), old(freeList), old(blocks), Align8(Word(num * size)),
                        NextBlock(old(nowPtr), brk), GetBlock(p), headers, freeList, blocks)
      ensures GetBlock(p) in old(headers) ==> lowPtr == old(lowPtr) && maxPtr == old(maxPtr) && nowPtr == old(nowPtr)
      ensures GetBlock(p) !in old(headers) ==>
        Bumped(old(lowPtr), old(maxPtr), old(nowPtr), brk, BLOCK_SIZE + Align8(Word(num * size)), lowPtr, maxPtr, nowPtr)
    {
      ghost var M0 := Live();
      var total := Word(num * size);
      p := Malloc(total, brk);
      AddLive(M0, Live(), GetBlock(p), headers[GetBlock(p)].size);
      cleared := ClearLength(total);
      if 0 < total && 8 * Align8(total) < WORD_RANGE {
        ClearOverrun(total, headers[GetBlock(p)].size);
      }
    }
  }
}
