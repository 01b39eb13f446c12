// Constants and pure address arithmetic of the allocator in
// syspro_hw1/alloc.c: header size, page size, 8-byte rounding, the
// header <-> payload offset, and the page rounding of arena growth.
//
// Addresses are modelled as unbounded naturals; the null pointer is 0.

module AllocArith {

  /** Size of the in-band header: `size`, `prev` and `next`, one 8-byte word each. */
  const BLOCK_SIZE: nat := 24

  /** Unit in which the program break is moved. */
  const PAGE_SIZE: nat := 65536

  /** The null pointer. No block header ever sits at address 0. */
  const NULL: nat := 0

  /**
   * `align8`: `s` rounded up to the next multiple of 8.  The source tests
   * `s & 0x7` and computes `((s >> 3) + 1) << 3`; on naturals these are
   * `s % 8` and `(s / 8 + 1) * 8`.
   */
  function Align8(s: nat): (r: nat)
    ensures r % 8 == 0
    ensures s <= r < s + 8
    ensures s % 8 == 0 ==> r == s
  {
    if s % 8 == 0 then s else (s / 8 + 1) * 8
  }

  /**
   * The byte count `more_bytes` asks `sbrk` for when the request overshoots
   * the break by `shortfall` bytes: `shortfall / PAGE_SIZE` pages, plus one
   * when `shortfall & (PAGE_SIZE - 1)` is non-zero.  It is the smallest
   * multiple of the page size that covers the shortfall.
   */
  function PageRound(shortfall: nat): (delta: nat)
    ensures delta % PAGE_SIZE == 0
    ensures shortfall <= delta < shortfall + PAGE_SIZE
  {
    ((if shortfall % PAGE_SIZE != 0 then 1 else 0) + shortfall / PAGE_SIZE) * PAGE_SIZE
  }

  /** `b->data`: the payload starts right after the header at `b`. */
  function Payload(b: nat): (p: nat)
    ensures p > b
  {
    b + BLOCK_SIZE
  }

  /** `b->data + s`: where splitting `b` after `s` bytes puts the new header. */
  function SplitPoint(b: nat, s: nat): nat {
    Payload(b) + s
  }

  /** `get_block`: the header of the block whose payload starts at `p`. */
  function GetBlock(p: nat): (b: nat)
    requires p >= BLOCK_SIZE
    ensures Payload(b) == p
  {
    p - BLOCK_SIZE
  }

  /** Going from a header to its payload and back returns the header. */
  lemma GetBlockOfPayload(b: nat)
    ensures GetBlock(Payload(b)) == b
  {
  }

  /** `n` is a multiple of 8. */
  predicate Aligned8(n: nat) {
    n % 8 == 0
  }

  /** Joining two 8-byte-multiple blocks, header and all, gives a multiple of 8. */
  lemma JoinAligned(x: nat, y: nat)
    requires Aligned8(x) && Aligned8(y)
    ensures Aligned8(x + BLOCK_SIZE + y)
  {
  }

  /**
   * A multiple of 8 that has room for `s` bytes and a header but not for
   * another 8 bytes beyond that holds exactly `s` bytes and a header.
   */
  lemma TightFit(x: nat, s: nat)
    requires Aligned8(x) && Aligned8(s) && s + BLOCK_SIZE <= x < s + BLOCK_SIZE + 8
    ensures x == s + BLOCK_SIZE
  {
  }

  /** Carving an 8-byte-multiple piece and a header off a multiple of 8 leaves a multiple of 8. */
  lemma CarveAligned(x: nat, s: nat)
    requires Aligned8(x) && Aligned8(s) && x >= s + BLOCK_SIZE
    ensures Aligned8(x - s - BLOCK_SIZE)
  {
  }
}
