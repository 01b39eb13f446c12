// The arena managed by syspro_hw1/alloc.c, seen as values: the in-band
// block headers as a map from address to header, every block in address
// order, and the doubly linked free list.  The lemmas show that each kind
// of header rewrite the allocator performs (appending a block, splitting
// one, unlinking one, linking one in, absorbing a neighbour) keeps the
// arena well formed.

module Arena {
  import opened AllocArith
  import opened SortedSeq

  /** `struct s_block` without its payload: `size`, `prev` and `next`. */
  datatype Header = Header(size: nat, prev: nat, next: nat)

  /** The headers present in memory, by address. */
  type Headers = map<nat, Header>

  /** First address past the block whose header is at `a`. */
  function End(h: Headers, a: nat): nat
    requires a in h
  {
    Payload(a) + h[a].size
  }

  /** The size of every block, by address. */
  function Sizes(h: Headers): map<nat, nat> {
    map a | a in h :: h[a].size
  }

  /** Equal sizes, read block by block. */
  lemma SizesAt(h: Headers, h': Headers)
    requires h'.Keys == h.Keys && Sizes(h') == Sizes(h)
    ensures forall a :: a in h ==> a in h' && h'[a].size == h[a].size
  {
    forall a | a in h
      ensures h'[a].size == h[a].size
    {
      assert Sizes(h')[a] == Sizes(h)[a];
    }
  }

  /** A new header adds its block's size. */
  lemma SizesAdd(h: Headers, b: nat, x: Header)
    ensures Sizes(h[b := x]) == Sizes(h)[b := x.size]
  {
  }

  /** The size of every block in use, that is off the free list `L`, by address. */
  function InUse(S: map<nat, nat>, L: seq<nat>): map<nat, nat> {
    map a | a in S && a !in L :: S[a]
  }

  /** A block in use has a header, is off the free list and is in use with its size. */
  lemma InUseHeader(h: Headers, L: seq<nat>, b: nat)
    requires b in InUse(Sizes(h), L)
    ensures b in h && b !in L && InUse(Sizes(h), L)[b] == h[b].size
  {
  }

  /** A fresh block that is not on the free list `L` is in use with its size. */
  lemma InUseAdd(h0: Headers, L: seq<nat>, h: Headers, b: nat)
    requires b in h && b !in L && h == h0[b := h[b]]
    ensures InUse(Sizes(h), L) == InUse(Sizes(h0), L)[b := h[b].size]
  {
    SizesAdd(h0, b, h[b]);
  }

  /** Taking `b` off the free list, sizes unchanged, puts it in use with its size. */
  lemma InUseWithout(h0: Headers, L0: seq<nat>, h: Headers, L: seq<nat>, b: nat)
    requires b in h0 && h.Keys == h0.Keys && Sizes(h) == Sizes(h0) && L == Without(L0, b)
    ensures b in h && InUse(Sizes(h), L) == InUse(Sizes(h0), L0)[b := h[b].size]
  {
    WithoutMembers(L0, b);
    assert Sizes(h)[b] == h[b].size;
  }

  /** Putting `b` on the free list, sizes unchanged, takes it out of use. */
  lemma InUseInsert(h0: Headers, L0: seq<nat>, h: Headers, L: seq<nat>, b: nat)
    requires h.Keys == h0.Keys && Sizes(h) == Sizes(h0) && L == InsertSorted(L0, b)
    ensures b in L && InUse(Sizes(h), L) == InUse(Sizes(h0), L0) - {b}
  {
    InsertSortedMembers(L0, b);
  }

  /** A free block growing over the free block `c` changes no block in use. */
  lemma InUseAbsorb(S: map<nat, nat>, L: seq<nat>, a: nat, c: nat, v: nat)
    requires a in L && c in L && a != c
    ensures InUse((S - {c})[a := v], Without(L, c)) == InUse(S, L)
  {
    WithoutMembers(L, c);
  }

  /**
   * `split_block(a, s)`: `a` keeps `s` bytes and leaves the free list, the
   * remainder at `SplitPoint(a, s)` joins it.  `a` is then in use with `s`
   * bytes and no other block in use changes.
   */
  lemma InUseCarve(h0: Headers, L0: seq<nat>, h: Headers, L: seq<nat>, a: nat, s: nat)
    requires a in h0 && h0[a].size >= s + BLOCK_SIZE
    requires SplitPoint(a, s) !in h0 && h.Keys == h0.Keys + {SplitPoint(a, s)}
    requires Sizes(h) == Sizes(h0)[SplitPoint(a, s) := h0[a].size - s - BLOCK_SIZE][a := s]
    requires L == InsertSorted(Without(L0, a), SplitPoint(a, s))
    ensures a in h && InUse(Sizes(h), L) == InUse(Sizes(h0), L0)[a := h[a].size]
  {
    WithoutMembers(L0, a);
    InsertSortedMembers(Without(L0, a), SplitPoint(a, s));
    assert Sizes(h)[a] == h[a].size;
  }
  /** A block `g` that was not in use goes into use and nothing else changes. */
  lemma AddLive(M0: map<nat, nat>, M1: map<nat, nat>, g: nat, x: nat)
    requires g !in M0 && M1 == M0[g := x]
    ensures g in M1 && M1[g] == x && M1 - {g} == M0
  {
  }

  /** A block `g` goes into use and then a different block `b` leaves it: `g` replaces `b`. */
  lemma SwapLive(M0: map<nat, nat>, M1: map<nat, nat>, M2: map<nat, nat>, g: nat, b: nat, x: nat)
    requires g !in M0 && g != b && M1 == M0[g := x] && M2 == M1 - {b}
    ensures g in M2 && M2[g] == x && M2 - {g} == M0 - {b}
  {
  }


  /** The list element at position `k`, or null past the end. */
  function At(L: seq<nat>, k: nat): nat {
    if k < |L| then L[k] else NULL
  }

  /** The list element just before position `k`, or null at the front. */
  function Before(L: seq<nat>, k: nat): nat {
    if 0 < k <= |L| then L[k - 1] else NULL
  }

  /** The blocks `B`, in order, cover `[lo, hi)` back to back. */
  ghost predicate Tiles(h: Headers, B: seq<nat>, lo: nat, hi: nat)
    decreases |B|
  {
    if B == [] then lo == hi
    else B[0] == lo && lo in h && Tiles(h, B[1..], End(h, lo), hi)
  }

  /** The `next` and `prev` fields thread exactly the list `L`, in order. */
  ghost predicate Linked(h: Headers, L: seq<nat>) {
    && (forall i {:trigger L[i] in h} :: 0 <= i < |L| ==> L[i] in h)
    && (forall i {:trigger h[L[i]]} :: 0 <= i < |L| ==> L[i] in h && h[L[i]].next == At(L, i + 1) && h[L[i]].prev == Before(L, i))
  }

  /** Blocks off the list have both links null. */
  ghost predicate Unlinked(h: Headers, L: seq<nat>) {
    forall a {:trigger a in L} :: a in h && a !in L ==> h[a].prev == NULL && h[a].next == NULL
  }

  /**
   * The block layout: the headers are exactly the blocks `B`, which tile
   * `[lo, hi)` above the null address, and every size is a multiple of 8.
   */
  ghost predicate Layout(h: Headers, B: seq<nat>, lo: nat, hi: nat) {
    && NULL < lo
    && Tiles(h, B, lo, hi)
    && (forall a :: a in h <==> a in B)
    && (forall a {:trigger h[a]} :: a in h ==> Aligned8(h[a].size))
  }

  /**
   * The free list: `L` is in strictly ascending address order and doubly
   * linked through the headers, and every block off it has null links.
   */
  ghost predicate FreeList(h: Headers, L: seq<nat>) {
    && NULL !in h
    && Linked(h, L)
    && Unlinked(h, L)
    && Ascending(L)
  }

  /** The arena invariant. */
  ghost predicate WellFormed(h: Headers, L: seq<nat>, B: seq<nat>, lo: nat, hi: nat) {
    Layout(h, B, lo, hi) && FreeList(h, L)
  }

  /** Restates the arena invariant at equal bounds; it only keeps the callers' proofs small. */
  lemma WellFormedAt(h: Headers, L: seq<nat>, B: seq<nat>, lo: nat, hi: nat, lo': nat, hi': nat)
    requires WellFormed(h, L, B, lo, hi) && lo == lo' && hi == hi'
    ensures WellFormed(h, L, B, lo', hi')
  {
  }

  /** Every tiled block lies inside the tiled range. */
  lemma {:induction false} TilesBounds(h: Headers, B: seq<nat>, lo: nat, hi: nat)
    requires Tiles(h, B, lo, hi)
    ensures lo <= hi
    ensures forall x :: x in B ==> x in h && lo <= x && End(h, x) <= hi
    decreases |B|
  {
    if B != [] {
      TilesBounds(h, B[1..], End(h, lo), hi);
      assert forall x :: x in B ==> x == lo || x in B[1..];
    }
  }

  /** An empty range holds no block. */
  lemma TilesEmpty(h: Headers, B: seq<nat>, lo: nat)
    requires Tiles(h, B, lo, lo)
    ensures B == []
  {
    if B != [] {
      TilesBounds(h, B[1..], End(h, lo), lo);
    }
  }

  /** Of two tiled blocks, the lower one ends no later than the higher one begins. */
  lemma {:induction false} TilesOrdered(h: Headers, B: seq<nat>, lo: nat, hi: nat)
    requires Tiles(h, B, lo, hi)
    ensures forall x, y :: x in B && y in B && x < y ==> x in h && End(h, x) <= y
    decreases |B|
  {
    if B != [] {
      var tail := B[1..];
      TilesBounds(h, tail, End(h, lo), hi);
      TilesOrdered(h, tail, End(h, lo), hi);
      assert forall x :: x in B ==> x == lo || x in tail;
    }
  }

  /**
   * No two blocks overlap: a block ends no later than any block at a higher
   * address begins, and all of them lie in `[lo, hi)`.
   */
  lemma Disjoint(h: Headers, B: seq<nat>, lo: nat, hi: nat)
    requires Tiles(h, B, lo, hi) && (forall a :: a in h <==> a in B)
    ensures forall a :: a in h ==> lo <= a && End(h, a) <= hi
    ensures forall a, c :: a in h && c in h && a < c ==> End(h, a) <= c
  {
    TilesBounds(h, B, lo, hi);
    TilesOrdered(h, B, lo, hi);
  }

  /** With all sizes multiples of 8, every block sits a multiple of 8 past `lo`. */
  lemma {:induction false} TilesAligned(h: Headers, B: seq<nat>, lo: nat, hi: nat)
    requires Tiles(h, B, lo, hi)
    requires forall a :: a in h ==> Aligned8(h[a].size)
    ensures forall x :: x in B ==> lo <= x && (x - lo) % 8 == 0
    decreases |B|
  {
    if B != [] {
      var tail := B[1..];
      TilesAligned(h, tail, End(h, lo), hi);
      forall x | x in tail
        ensures lo <= x && (x - lo) % 8 == 0
      {
        assert x - lo == (x - End(h, lo)) + BLOCK_SIZE + h[lo].size;
      }
      assert forall x :: x in B ==> x == lo || x in tail;
    }
  }

  /** Tiling depends only on the sizes of the tiled blocks. */
  lemma {:induction false} TilesFrame(h: Headers, h': Headers, B: seq<nat>, lo: nat, hi: nat)
    requires Tiles(h, B, lo, hi)
    requires forall a :: a in B && a in h ==> a in h' && h'[a].size == h[a].size
    ensures Tiles(h', B, lo, hi)
    decreases |B|
  {
    if B != [] {
      TilesFrame(h, h', B[1..], End(h, lo), hi);
    }
  }

  /** A fresh header written at the top of a tiled range extends the range by its block. */
  lemma {:induction false} TilesAppend(h: Headers, B: seq<nat>, lo: nat, hi: nat, size: nat)
    requires Tiles(h, B, lo, hi)
    ensures Tiles(h[hi := Header(size, NULL, NULL)], B + [hi], lo, hi + BLOCK_SIZE + size)
    decreases |B|
  {
    if B == [] {
      assert [hi][1..] == [];
    } else {
      TilesBounds(h, B[1..], End(h, lo), hi);
      TilesAppend(h, B[1..], End(h, lo), hi, size);
      assert (B + [hi])[1..] == B[1..] + [hi];
    }
  }

  /**
   * Splitting block `a` into a block of `s` bytes and a remainder whose
   * header sits `s` bytes into the body of `a` keeps the range tiled; the remainder
   * joins the blocks in address order.
   */
  lemma {:induction false} TilesSplit(h: Headers, B: seq<nat>, lo: nat, hi: nat, a: nat, s: nat, h': Headers)
    requires Tiles(h, B, lo, hi) && a in B && a in h
    requires h[a].size >= s + BLOCK_SIZE
    requires a in h' && h'[a].size == s
    requires SplitPoint(a, s) in h' && h'[SplitPoint(a, s)].size == h[a].size - s - BLOCK_SIZE
    requires forall x :: x in B && x in h && x != a ==> x in h' && h'[x].size == h[x].size
    ensures Tiles(h', InsertSorted(B, SplitPoint(a, s)), lo, hi)
    decreases |B|
  {
    var n := SplitPoint(a, s);
    var tail := B[1..];
    TilesBounds(h, tail, End(h, lo), hi);
    if B[0] == a {
      TilesFrame(h, h', tail, End(h, a), hi);
      InsertSortedFront(tail, n);
      InsertSortedCons(B, n);
      assert ([a] + ([n] + tail))[1..] == [n] + tail;
      assert ([n] + tail)[1..] == tail;
      assert End(h', n) == End(h, a);
      assert Tiles(h', [n] + tail, n, hi);
    } else {
      assert a in tail;
      TilesSplit(h, tail, End(h, lo), hi, a, s, h');
      InsertSortedCons(B, n);
      assert lo in B;
      assert End(h', lo) == End(h, lo);
      assert ([lo] + InsertSorted(tail, n))[1..] == InsertSorted(tail, n);
    }
  }

  /**
   * Block `a` absorbing the block `c` that starts where `a` ends, header
   * and all, keeps the range tiled; `c` leaves the blocks.
   */
  lemma {:induction false} TilesAbsorb(h: Headers, B: seq<nat>, lo: nat, hi: nat, a: nat, c: nat, h': Headers)
    requires Tiles(h, B, lo, hi) && a in B && c in B && a in h && c in h
    requires End(h, a) == c
    requires a in h' && h'[a].size == h[a].size + BLOCK_SIZE + h[c].size
    requires forall x :: x in B && x in h && x != a && x != c ==> x in h' && h'[x].size == h[x].size
    ensures Tiles(h', Without(B, c), lo, hi)
    decreases |B|
  {
    var tail := B[1..];
    TilesBounds(h, tail, End(h, lo), hi);
    if B[0] == a {
      assert tail[0] == c;
      var rest := tail[1..];
      TilesBounds(h, rest, End(h, c), hi);
      TilesFrame(h, h', rest, End(h, c), hi);
      WithoutAbsent(rest, c);
      assert Without(B, c) == [a] + rest;
      assert ([a] + rest)[1..] == rest;
      assert End(h', a) == End(h, c);
      assert Tiles(h', [a] + rest, lo, hi);
    } else {
      assert a in tail && c in tail;
      TilesAbsorb(h, tail, End(h, lo), hi, a, c, h');
      assert lo in B && lo != c;
      assert End(h', lo) == End(h, lo);
      assert Without(B, c) == [lo] + Without(tail, c);
      assert ([lo] + Without(tail, c))[1..] == Without(tail, c);
      assert Tiles(h', [lo] + Without(tail, c), lo, hi);
    }
  }

  /** Where position `j` of `L` with position `i` taken out, and its neighbours, come from. */
  lemma RemoveIndex(L: seq<nat>, i: nat, j: nat)
    requires i < |L| && j + 1 < |L|
    ensures var L' := L[..i] + L[i + 1..];
      && L'[j] == (if j < i then L[j] else L[j + 1])
      && At(L', j + 1) == (if j + 1 < i then L[j + 1] else At(L, j + 2))
      && Before(L', j) == (if j <= i then Before(L, j) else L[j])
  {
  }

  /** A position before the gap left by unlinking position `i`. */
  lemma LinkedRemoveBefore(h: Headers, L: seq<nat>, i: nat, h': Headers, j: nat)
    requires Linked(h, L) && Ascending(L) && NULL !in h && i < |L| && j + 1 < |L|
    requires i > 0 ==> L[i - 1] in h' && h'[L[i - 1]].next == At(L, i + 1) && h'[L[i - 1]].prev == h[L[i - 1]].prev
    requires i + 1 < |L| ==> L[i + 1] in h' && h'[L[i + 1]].prev == Before(L, i) && h'[L[i + 1]].next == h[L[i + 1]].next
    requires forall a :: a in h && a != L[i] && a != Before(L, i) && a != At(L, i + 1) ==>
      a in h' && h'[a].next == h[a].next && h'[a].prev == h[a].prev
    requires j < i
    ensures var L' := L[..i] + L[i + 1..];
      L'[j] in h' && h'[L'[j]].next == At(L', j + 1) && h'[L'[j]].prev == Before(L', j)
  {
    RemoveIndex(L, i, j);
    if j + 1 < i {
      assert L[j] < L[i - 1] && L[j] != At(L, i + 1);
      assert h[L[j]].next == At(L, j + 1) && h[L[j]].prev == Before(L, j);
    } else {
      assert h[L[j]].prev == Before(L, j);
    }
  }

  /** A position after the gap left by unlinking position `i`. */
  lemma LinkedRemoveAfter(h: Headers, L: seq<nat>, i: nat, h': Headers, j: nat)
    requires Linked(h, L) && Ascending(L) && NULL !in h && i < |L| && j + 1 < |L|
    requires i > 0 ==> L[i - 1] in h' && h'[L[i - 1]].next == At(L, i + 1) && h'[L[i - 1]].prev == h[L[i - 1]].prev
    requires i + 1 < |L| ==> L[i + 1] in h' && h'[L[i + 1]].prev == Before(L, i) && h'[L[i + 1]].next == h[L[i + 1]].next
    requires forall a :: a in h && a != L[i] && a != Before(L, i) && a != At(L, i + 1) ==>
      a in h' && h'[a].next == h[a].next && h'[a].prev == h[a].prev
    requires i <= j
    ensures var L' := L[..i] + L[i + 1..];
      L'[j] in h' && h'[L'[j]].next == At(L', j + 1) && h'[L'[j]].prev == Before(L', j)
  {
    RemoveIndex(L, i, j);
    if j == i {
      assert h[L[i + 1]].next == At(L, i + 2);
    } else {
      assert L[i + 1] < L[j + 1];
      assert h[L[j + 1]].next == At(L, j + 2) && h[L[j + 1]].prev == Before(L, j + 1);
    }
  }

  /**
   * Unlinking position `i` of a doubly linked list: its predecessor's `next`
   * takes its successor and its successor's `prev` takes its predecessor.
   */
  lemma LinkedRemove(h: Headers, L: seq<nat>, i: nat, h': Headers)
    requires Linked(h, L) && Ascending(L) && NULL !in h && i < |L|
    requires i > 0 ==> L[i - 1] in h' && h'[L[i - 1]].next == At(L, i + 1) && h'[L[i - 1]].prev == h[L[i - 1]].prev
    requires i + 1 < |L| ==> L[i + 1] in h' && h'[L[i + 1]].prev == Before(L, i) && h'[L[i + 1]].next == h[L[i + 1]].next
    requires forall a :: a in h && a != L[i] && a != Before(L, i) && a != At(L, i + 1) ==>
      a in h' && h'[a].next == h[a].next && h'[a].prev == h[a].prev
    ensures Linked(h', Without(L, L[i]))
  {
    WithoutAt(L, i);
    var L' := L[..i] + L[i + 1..];
    forall j | 0 <= j < |L'|
      ensures L'[j] in h' && h'[L'[j]].next == At(L', j + 1) && h'[L'[j]].prev == Before(L', j)
    {
      if j < i {
        LinkedRemoveBefore(h, L, i, h', j);
      } else {
        LinkedRemoveAfter(h, L, i, h', j);
      }
    }
  }

  /** Where position `j` of `L` with `b` put in at position `k`, and its neighbours, come from. */
  lemma InsertIndex(L: seq<nat>, k: nat, b: nat, j: nat)
    requires k <= |L| && j <= |L|
    ensures var L' := L[..k] + [b] + L[k..];
      && L'[j] == (if j < k then L[j] else if j == k then b else L[j - 1])
      && At(L', j + 1) == (if j + 1 < k then L[j + 1] else if j + 1 == k then b else At(L, j))
      && Before(L', j) == (if j <= k then Before(L, j) else if j == k + 1 then b else L[j - 2])
  {
  }

  /** One position of the list after linking `b` in at position `k`. */
  lemma LinkedInsertAt(h: Headers, L: seq<nat>, k: nat, b: nat, h': Headers, j: nat)
    requires Linked(h, L) && Ascending(L) && NULL !in h && k <= |L| && j <= |L| && b !in L
    requires forall a :: a in h ==> a in h'
    requires b in h' && h'[b].prev == Before(L, k) && h'[b].next == At(L, k)
    requires k > 0 ==> h'[L[k - 1]].next == b && h'[L[k - 1]].prev == h[L[k - 1]].prev
    requires k < |L| ==> h'[L[k]].prev == b && h'[L[k]].next == h[L[k]].next
    requires forall a :: a in h && a != b && a != Before(L, k) && a != At(L, k) ==>
      h'[a].next == h[a].next && h'[a].prev == h[a].prev
    ensures var L' := L[..k] + [b] + L[k..];
      L'[j] in h' && h'[L'[j]].next == At(L', j + 1) && h'[L'[j]].prev == Before(L', j)
  {
    InsertIndex(L, k, b, j);
    if j + 1 < k {
      assert L[j] < L[k - 1] && L[j] != At(L, k);
      assert h[L[j]].next == At(L, j + 1) && h[L[j]].prev == Before(L, j);
    } else if j + 1 == k {
      assert h[L[j]].prev == Before(L, j);
    } else if j > k + 1 {
      assert L[k] < L[j - 1];
      assert h[L[j - 1]].next == At(L, j) && h[L[j - 1]].prev == Before(L, j - 1);
    } else if j == k + 1 {
      assert h[L[k]].next == At(L, k + 1);
    }
  }

  /**
   * Linking `b` in at position `k`: `b` points back to the element before
   * the position and on to the element at it, and they point to `b`.
   */
  lemma LinkedInsert(h: Headers, L: seq<nat>, k: nat, b: nat, h': Headers)
    requires Linked(h, L) && Ascending(L) && NULL !in h && k <= |L| && b !in L
    requires forall a :: a in h ==> a in h'
    requires b in h' && h'[b].prev == Before(L, k) && h'[b].next == At(L, k)
    requires k > 0 ==> h'[L[k - 1]].next == b && h'[L[k - 1]].prev == h[L[k - 1]].prev
    requires k < |L| ==> h'[L[k]].prev == b && h'[L[k]].next == h[L[k]].next
    requires forall a :: a in h && a != b && a != Before(L, k) && a != At(L, k) ==>
      h'[a].next == h[a].next && h'[a].prev == h[a].prev
    ensures Linked(h', L[..k] + [b] + L[k..])
  {
    var L' := L[..k] + [b] + L[k..];
    forall j | 0 <= j < |L'|
      ensures L'[j] in h' && h'[L'[j]].next == At(L', j + 1) && h'[L'[j]].prev == Before(L', j)
    {
      LinkedInsertAt(h, L, k, b, h', j);
    }
  }

  /** Tiling survives a rewrite that keeps every block and every size. */
  lemma LayoutRelink(h: Headers, h': Headers, B: seq<nat>, lo: nat, hi: nat)
    requires Layout(h, B, lo, hi)
    requires h'.Keys == h.Keys && Sizes(h') == Sizes(h)
    ensures Layout(h', B, lo, hi)
  {
    SizesAt(h, h');
    TilesFrame(h, h', B, lo, hi);
  }

  /** Appending a fresh block at the top of the arena extends the layout by it. */
  lemma LayoutAppend(h: Headers, B: seq<nat>, lo: nat, hi: nat, size: nat, top: nat)
    requires Layout(h, B, lo, hi) && Aligned8(size) && top == hi + BLOCK_SIZE + size
    ensures NULL < hi && hi !in h
    ensures Layout(h[hi := Header(size, NULL, NULL)], B + [hi], lo, top)
  {
    Disjoint(h, B, lo, hi);
    TilesBounds(h, B, lo, hi);
    TilesAppend(h, B, lo, hi, size);
  }

  /** `extend_heap`: a fresh unlinked block at the top keeps the arena well formed. */
  lemma AppendWellFormed(h: Headers, L: seq<nat>, B: seq<nat>, lo: nat, hi: nat, size: nat, top: nat)
    requires WellFormed(h, L, B, lo, hi) && Aligned8(size) && top == hi + BLOCK_SIZE + size
    ensures hi !in h
    ensures WellFormed(h[hi := Header(size, NULL, NULL)], L, B + [hi], lo, top)
  {
    LayoutAppend(h, B, lo, hi, size, top);
    FreeListFrame(h, L, h[hi := Header(size, NULL, NULL)]);
  }

  /**
   * Writing a remainder header `s` bytes into the body of `a` and shrinking `a` to
   * `s` bytes keeps the layout; the remainder is a new block that ends
   * exactly where `a` ended.
   */
  lemma LayoutSplit(h: Headers, B: seq<nat>, lo: nat, hi: nat, a: nat, s: nat)
    requires Layout(h, B, lo, hi) && a in h && h[a].size >= s + BLOCK_SIZE && Aligned8(s)
    ensures SplitPoint(a, s) !in h
    ensures Layout(h[SplitPoint(a, s) := Header(h[a].size - s - BLOCK_SIZE, NULL, NULL)][a := h[a].(size := s)],
                   InsertSorted(B, SplitPoint(a, s)), lo, hi)
  {
    var n := SplitPoint(a, s);
    var h' := h[n := Header(h[a].size - s - BLOCK_SIZE, NULL, NULL)][a := h[a].(size := s)];
    Disjoint(h, B, lo, hi);
    assert n !in h;
    TilesSplit(h, B, lo, hi, a, s, h');
    InsertSortedMembers(B, n);
    CarveAligned(h[a].size, s);
  }

  /**
   * Block `a` absorbing the block `c` that starts where it ends, header and
   * all, keeps the layout; `c` leaves the blocks.
   */
  lemma LayoutAbsorb(h: Headers, B: seq<nat>, lo: nat, hi: nat, a: nat, c: nat, h': Headers)
    requires Layout(h, B, lo, hi) && a in h && c in h && End(h, a) == c
    requires h'.Keys == h.Keys - {c}
    requires Sizes(h') == (Sizes(h) - {c})[a := h[a].size + BLOCK_SIZE + h[c].size]
    ensures Layout(h', Without(B, c), lo, hi)
  {
    forall x | x in h'
      ensures h'[x].size == if x == a then h[a].size + BLOCK_SIZE + h[c].size else h[x].size
    {
      assert Sizes(h')[x] == h'[x].size;
    }
    TilesAbsorb(h, B, lo, hi, a, c, h');
    AbsorbAligned(h, a, c, h');
    WithoutMembers(B, c);
  }

  /** Absorption keeps every size a multiple of 8. */
  lemma AbsorbAligned(h: Headers, a: nat, c: nat, h': Headers)
    requires forall x :: x in h ==> Aligned8(h[x].size)
    requires a in h && c in h && a in h'
    requires forall x :: x in h' ==> x in h
    requires h'[a].size == h[a].size + BLOCK_SIZE + h[c].size
    requires forall x :: x in h' && x != a ==> h'[x].size == h[x].size
    ensures forall x :: x in h' ==> Aligned8(h'[x].size)
  {
    JoinAligned(h[a].size, h[c].size);
  }

  /** A rewrite that keeps every link and only adds unlinked blocks keeps the free list. */
  lemma FreeListFrame(h: Headers, L: seq<nat>, h': Headers)
    requires FreeList(h, L)
    requires forall a :: a in h ==> a in h' && h'[a].next == h[a].next && h'[a].prev == h[a].prev
    requires forall a :: a in h' && a !in h ==> a != NULL && h'[a].prev == NULL && h'[a].next == NULL
    ensures FreeList(h', L)
  {
  }

  /**
   * `delete_block` on the listed block `L[i]`, or `merge` absorbing it: it
   * leaves the list, the rest of the list stays linked and in order.
   */
  lemma FreeListUnlink(h: Headers, L: seq<nat>, i: nat, h': Headers)
    requires FreeList(h, L) && i < |L|
    requires forall a :: a in h' ==> a in h
    requires L[i] in h' ==> h'[L[i]].prev == NULL && h'[L[i]].next == NULL
    requires i > 0 ==> L[i - 1] in h' && h'[L[i - 1]].next == At(L, i + 1) && h'[L[i - 1]].prev == h[L[i - 1]].prev
    requires i + 1 < |L| ==> L[i + 1] in h' && h'[L[i + 1]].prev == Before(L, i) && h'[L[i + 1]].next == h[L[i + 1]].next
    requires forall a :: a in h && a != L[i] && a != Before(L, i) && a != At(L, i + 1) ==>
      a in h' && h'[a].next == h[a].next && h'[a].prev == h[a].prev
    ensures FreeList(h', Without(L, L[i]))
  {
    LinkedRemove(h, L, i, h');
    WithoutAscending(L, L[i]);
    WithoutMembers(L, L[i]);
    forall a | a in h' && a !in Without(L, L[i])
      ensures h'[a].prev == NULL && h'[a].next == NULL
    {
      if a != L[i] {
        assert a in h && a !in L;
        assert a != Before(L, i) && a != At(L, i + 1);
      }
    }
  }

  /** `insert_block`: linking `b` in at its rank keeps the list linked and in order. */
  lemma FreeListLinkIn(h: Headers, L: seq<nat>, b: nat, h': Headers)
    requires FreeList(h, L) && b in h && b !in L
    requires forall a :: a in h' <==> a in h
    requires h'[b].prev == Before(L, Rank(L, b)) && h'[b].next == At(L, Rank(L, b))
    requires Rank(L, b) > 0 ==> h'[L[Rank(L, b) - 1]].next == b && h'[L[Rank(L, b) - 1]].prev == h[L[Rank(L, b) - 1]].prev
    requires Rank(L, b) < |L| ==> h'[L[Rank(L, b)]].prev == b && h'[L[Rank(L, b)]].next == h[L[Rank(L, b)]].next
    requires forall a :: a in h && a != b && a != Before(L, Rank(L, b)) && a != At(L, Rank(L, b)) ==>
      h'[a].next == h[a].next && h'[a].prev == h[a].prev
    ensures FreeList(h', InsertSorted(L, b))
  {
    LinkedInsert(h, L, Rank(L, b), b, h');
    InsertSortedAscending(L, b);
  }

  /**
   * The header rewrites of `delete_block(b)`: the block before `b` on the
   * list takes `b`'s successor, the block after it takes `b`'s
   * predecessor, and both links of `b` become null.
   */
  function Unlink(h: Headers, b: nat): (h': Headers)
    requires b in h
    requires h[b].prev != NULL ==> h[b].prev in h
    requires h[b].next != NULL ==> h[b].next in h
    ensures h'.Keys == h.Keys && Sizes(h') == Sizes(h)
  {
    var p, n := h[b].prev, h[b].next;
    var h1 := if p != NULL then h[p := h[p].(next := n)] else h;
    var h2 := if n != NULL then h1[n := h1[n].(prev := p)] else h1;
    h2[b := h2[b].(prev := NULL, next := NULL)]
  }

  /** A block of a well-formed arena is never its own neighbour, and its neighbours are blocks. */
  lemma LinksOf(h: Headers, L: seq<nat>, B: seq<nat>, lo: nat, hi: nat, b: nat)
    requires WellFormed(h, L, B, lo, hi) && b in h
    ensures h[b].prev != b && h[b].next != b
    ensures h[b].prev != NULL ==> h[b].prev in h
    ensures h[b].next != NULL ==> h[b].next in h
  {
    if b in L {
      var i :| 0 <= i < |L| && L[i] == b;
      assert h[b].prev == Before(L, i) && h[b].next == At(L, i + 1);
    }
  }

  /**
   * Unlinking the listed block `L[i]` takes exactly it off the list, keeps
   * the arena well formed and every size as it was, and leaves the old
   * successor at the head when `L[i]` was the head.
   */
  lemma UnlinkListed(h: Headers, L: seq<nat>, B: seq<nat>, lo: nat, hi: nat, i: nat, b: nat)
    requires WellFormed(h, L, B, lo, hi) && i < |L| && L[i] == b
    requires h[b].prev != NULL ==> h[b].prev in h
    requires h[b].next != NULL ==> h[b].next in h
    ensures WellFormed(Unlink(h, b), Without(L, b), B, lo, hi)
    ensures At(Without(L, b), 0) == if i == 0 then h[b].next else L[0]
  {
    var h' := Unlink(h, b);
    assert h[b].prev == Before(L, i) && h[b].next == At(L, i + 1);
    FreeListUnlink(h, L, i, h');
    LayoutRelink(h, h', B, lo, hi);
    WithoutAt(L, i);
  }

  /**
   * `Unlink` on any block of a well-formed arena: the block leaves the free
   * list (a block not on it is left alone), the arena stays well formed and
   * the head moves on exactly when the block was the head.
   */
  lemma UnlinkBlock(h: Headers, L: seq<nat>, B: seq<nat>, lo: nat, hi: nat, b: nat)
    requires WellFormed(h, L, B, lo, hi) && b in h
    requires h[b].prev != NULL ==> h[b].prev in h
    requires h[b].next != NULL ==> h[b].next in h
    ensures WellFormed(Unlink(h, b), Without(L, b), B, lo, hi)
    ensures At(Without(L, b), 0) == if b == At(L, 0) then h[b].next else At(L, 0)
    ensures b !in L ==> Unlink(h, b) == h && Without(L, b) == L
  {
    if b in L {
      var i :| 0 <= i < |L| && L[i] == b;
      UnlinkListed(h, L, B, lo, hi, i, b);
      assert b == At(L, 0) <==> i == 0;
    } else {
      WithoutAbsent(L, b);
      assert h[b].(prev := NULL, next := NULL) == h[b];
      assert Unlink(h, b) == h[b := h[b]] == h;
    }
  }

  /**
   * The header rewrites of `insert_block(b)` between `p` and `n`: `b`
   * points back to `p` and on to `n`, `n` points back to `b` and `p` on
   * to `b`, null ends left alone.
   */
  function LinkIn(h: Headers, b: nat, p: nat, n: nat): (h': Headers)
    requires b in h && (p != NULL ==> p in h) && (n != NULL ==> n in h)
    ensures h'.Keys == h.Keys && Sizes(h') == Sizes(h)
  {
    var h1 := h[b := h[b].(prev := p, next := n)];
    var h2 := if n != NULL then h1[n := h1[n].(prev := b)] else h1;
    if p != NULL then h2[p := h2[p].(next := b)] else h2
  }

  /** What `LinkIn` writes where, for three distinct blocks. */
  lemma LinkInFacts(h: Headers, b: nat, p: nat, n: nat)
    requires b in h && (p != NULL ==> p in h && p != b) && (n != NULL ==> n in h && n != b && n != p)
    ensures LinkIn(h, b, p, n)[b] == h[b].(prev := p, next := n)
    ensures p != NULL ==> LinkIn(h, b, p, n)[p] == h[p].(next := b)
    ensures n != NULL ==> LinkIn(h, b, p, n)[n] == h[n].(prev := b)
    ensures forall a :: a in h && a != b && a != p && a != n ==> LinkIn(h, b, p, n)[a] == h[a]
  {
  }

  /**
   * Linking a block that is off the list in at its rank puts it on the
   * list in address order, keeps the arena well formed and every size as
   * it was; it becomes the head exactly when no listed block lies below it.
   */
  lemma LinkInRank(h: Headers, L: seq<nat>, B: seq<nat>, lo: nat, hi: nat, b: nat)
    requires WellFormed(h, L, B, lo, hi) && b in h && b !in L
    ensures Before(L, Rank(L, b)) != NULL ==> Before(L, Rank(L, b)) in h
    ensures At(L, Rank(L, b)) != NULL ==> At(L, Rank(L, b)) in h
    ensures WellFormed(LinkIn(h, b, Before(L, Rank(L, b)), At(L, Rank(L, b))), InsertSorted(L, b), B, lo, hi)
    ensures At(L, 0) == NULL ==> Rank(L, b) == 0
    ensures At(InsertSorted(L, b), 0) == if Rank(L, b) == 0 then b else At(L, 0)
  {
    var k := Rank(L, b);
    var p, n := Before(L, k), At(L, k);
    assert p != NULL ==> p in L && p < b && p in h by {
      RankStops(L, b);
    }
    assert n != NULL ==> n in L && n in h;
    var h' := LinkIn(h, b, p, n);
    LinkInFacts(h, b, p, n);
    FreeListLinkIn(h, L, b, h');
    LayoutRelink(h, h', B, lo, hi);
    InsertSortedAscending(L, b);
  }

  /**
   * The header rewrites of one step of `merge`: block `a` takes in its
   * list successor `c`, header and all, so it grows by `BLOCK_SIZE` plus
   * the size of `c` and links past `c`.  The header of `c` becomes payload
   * bytes of `a`, so it is no longer a header.
   */
  function Absorb(h: Headers, a: nat, c: nat): (h': Headers)
    requires a in h && c in h && h[a].next == c && c != a
    requires h[c].next != NULL ==> h[c].next in h
    ensures h'.Keys == h.Keys - {c}
    ensures Sizes(h') == (Sizes(h) - {c})[a := h[a].size + BLOCK_SIZE + h[c].size]
    ensures h'[a].next == h[c].next
  {
    var n := h[c].next;
    var h1 := h[a := h[a].(size := h[a].size + BLOCK_SIZE + h[c].size, next := n)];
    var h2 := if n != NULL then h1[n := h1[n].(prev := a)] else h1;
    h2 - {c}
  }

  /** What `Absorb` writes where, when `a`, its successor `c` and the next one `n` are distinct. */
  lemma AbsorbFacts(h: Headers, a: nat, c: nat)
    requires a in h && c in h && h[a].next == c && c != a
    requires h[c].next != NULL ==> h[c].next in h
    requires h[c].next != a && h[c].next != c
    ensures Absorb(h, a, c)[a] == h[a].(size := h[a].size + BLOCK_SIZE + h[c].size, next := h[c].next)
    ensures h[c].next != NULL ==> Absorb(h, a, c)[h[c].next] == h[h[c].next].(prev := a)
    ensures forall x :: x in h && x != a && x != c && x != h[c].next ==> Absorb(h, a, c)[x] == h[x]
  {
  }

  /** A listed block's predecessor on the list links forward to it. */
  lemma PrevLink(h: Headers, L: seq<nat>, B: seq<nat>, lo: nat, hi: nat, r: nat)
    requires WellFormed(h, L, B, lo, hi) && r in h && h[r].prev != NULL
    ensures h[r].prev in h && h[r].prev != r && h[h[r].prev].next == r
  {
    assert r in L;
    var i :| 0 <= i < |L| && L[i] == r;
    assert h[r].prev == Before(L, i);
    assert h[L[i - 1]].next == At(L, i);
  }

  /**
   * One step of `merge`: a block whose list successor starts exactly where
   * it ends absorbs that successor.  Both are free; the successor leaves
   * the free list and the blocks, the arena stays well formed, the head of
   * the list stays, and the grown block ends where the successor ended.
   */
  lemma AbsorbNext(h: Headers, L: seq<nat>, B: seq<nat>, lo: nat, hi: nat, a: nat, c: nat)
    requires WellFormed(h, L, B, lo, hi) && a in h && h[a].next == c && c != NULL && End(h, a) == c
    ensures a in L && c in L && c in h && c != a
    ensures h[c].next != NULL ==> h[c].next in h
    ensures WellFormed(Absorb(h, a, c), Without(L, c), Without(B, c), lo, hi)
    ensures At(Without(L, c), 0) == At(L, 0)
    ensures End(Absorb(h, a, c), a) == End(h, c)
  {
    assert a in L;
    var i :| 0 <= i < |L| && L[i] == a;
    assert h[a].next == At(L, i + 1);
    assert i + 1 < |L| && L[i + 1] == c;
    assert h[c].next == At(L, i + 2);
    var h' := Absorb(h, a, c);
    LayoutAbsorb(h, B, lo, hi, a, c, h');
    assert Sizes(h')[a] == h'[a].size;
    FreeListAbsorb(h, L, i, a, c);
    WithoutAt(L, i + 1);
  }

  /** Absorbing the successor `c` of the listed block `L[i]` unlinks `c` from the free list. */
  lemma FreeListAbsorb(h: Headers, L: seq<nat>, i: nat, a: nat, c: nat)
    requires FreeList(h, L) && i + 1 < |L| && L[i] == a && L[i + 1] == c
    requires a in h && c in h && h[a].next == c
    requires h[c].next != NULL ==> h[c].next in h
    ensures FreeList(Absorb(h, a, c), Without(L, c))
  {
    var n := h[c].next;
    assert L[i + 1] in h;
    assert n == At(L, i + 2) && h[c].prev == a;
    assert n != NULL ==> L[i + 2] == n && L[i] < n;
    AbsorbFacts(h, a, c);
    FreeListUnlink(h, L, i + 1, Absorb(h, a, c));
  }

  /**
   * Where `merge(b)` stands after some absorption steps: `r` is the block
   * that now holds `b`, it starts no later than `b` and ends no earlier;
   * the blocks and the free list lost exactly the absorbed headers, which
   * all lay inside what is now `r`; every other block keeps its size, and a
   * block `b` in use is left alone.
   */
  ghost predicate MergedFrom(h0: Headers, L0: seq<nat>, B0: seq<nat>, b: nat,
                             h: Headers, L: seq<nat>, B: seq<nat>, r: nat)
  {
    MergedLists(h0, L0, B0, b, h, L, B, r) && AbsorbedInto(h0, h, r)
  }

  /**
   * The list part of `MergedFrom`: `r` covers `b`, the lists lost exactly
   * the headers that are gone, the blocks in use are as they were, and a
   * block in use is left alone.
   */
  ghost predicate MergedLists(h0: Headers, L0: seq<nat>, B0: seq<nat>, b: nat,
                              h: Headers, L: seq<nat>, B: seq<nat>, r: nat)
  {
    && b in h0 && r in h && r <= b && End(h0, b) <= End(h, r)
    && L == Keep(L0, h.Keys) && B == Keep(B0, h.Keys)
    && InUse(Sizes(h), L) == InUse(Sizes(h0), L0)
    && (r in L <==> b in L0)
    && (b !in L0 ==> r == b && h == h0 && L == L0 && B == B0)
  }

  /**
   * Going from `h0` to `h`, the block `r` took in every header that
   * disappeared, and every other block kept its size.
   */
  ghost predicate AbsorbedInto(h0: Headers, h: Headers, r: nat) {
    && r in h && h.Keys <= h0.Keys
    && (forall x :: x in h0 && x !in h ==> r < x < End(h, r))
    && (forall x :: x in h && x != r ==> h[x].size == h0[x].size)
  }

  /** One absorption by `a`, the absorbing block or the one absorbed being `r`, keeps the absorptions inside `a`. */
  lemma AbsorbedStep(h0: Headers, h: Headers, r: nat, a: nat, c: nat)
    requires AbsorbedInto(h0, h, r)
    requires a in h && c in h && h[a].next == c && c != a && End(h, a) == c && (a == r || c == r)
    requires h[c].next != NULL ==> h[c].next in h
    ensures AbsorbedInto(h0, Absorb(h, a, c), a)
  {
    var h' := Absorb(h, a, c);
    assert End(h', a) == End(h, c);
    forall x | x in h0 && x !in h'
      ensures a < x < End(h', a)
    {
      if x in h {
        assert x == c;
      }
    }
  }

  /** Neither list neighbour of the block `r` touches it. */
  ghost predicate Coalesced(h: Headers, r: nat) {
    && r in h
    && (h[r].next == NULL || h[r].next != End(h, r))
    && (h[r].prev == NULL || (h[r].prev in h && End(h, h[r].prev) != r))
  }

  /**
   * What `free` does to the arena: the block `b` joins the free list in
   * address order and is then merged, so that some free block `r` now
   * holds it, took in just the headers that are gone, and touches neither
   * of its list neighbours.
   */
  ghost predicate Freed(h0: Headers, L0: seq<nat>, B0: seq<nat>, b: nat, h: Headers, L: seq<nat>, B: seq<nat>) {
    exists r :: MergedFrom(h0, InsertSorted(L0, b), B0, b, h, L, B, r) && r in L && Coalesced(h, r)
  }

  /** The merge that `free` runs, with the block `r` it returns as witness. */
  lemma FreedFrom(h0: Headers, L0: seq<nat>, B0: seq<nat>, b: nat, h: Headers, L: seq<nat>, B: seq<nat>, r: nat)
    requires MergedFrom(h0, InsertSorted(L0, b), B0, b, h, L, B, r) && Coalesced(h, r)
    ensures Freed(h0, L0, B0, b, h, L, B)
  {
    InsertSortedMembers(L0, b);
  }

  /** `MergedFrom` reads the starting headers only through their addresses and sizes. */
  lemma MergedFromRebase(h0: Headers, h1: Headers, L0: seq<nat>, B0: seq<nat>, b: nat,
                         h: Headers, L: seq<nat>, B: seq<nat>, r: nat)
    requires h1.Keys == h0.Keys && Sizes(h1) == Sizes(h0) && b in L0
    requires MergedFrom(h1, L0, B0, b, h, L, B, r)
    ensures MergedFrom(h0, L0, B0, b, h, L, B, r)
  {
    SizesAt(h1, h0);
  }

  /** Before the first step, `b` holds itself and nothing has changed. */
  lemma MergeStart(h: Headers, L: seq<nat>, B: seq<nat>, lo: nat, hi: nat, b: nat)
    requires WellFormed(h, L, B, lo, hi) && b in h
    ensures MergedFrom(h, L, B, b, h, L, B, b)
  {
    KeepAll(L, h.Keys);
    KeepAll(B, h.Keys);
  }

  /**
   * Block `a` absorbing its list successor `c`, where `a` is the block
   * holding `b` or `c` is: afterwards `a` holds `b` and one header is gone.
   */
  lemma MergedAbsorb(h0: Headers, L0: seq<nat>, B0: seq<nat>, b: nat,
                     h: Headers, L: seq<nat>, B: seq<nat>, r: nat, a: nat, c: nat)
    requires MergedFrom(h0, L0, B0, b, h, L, B, r)
    requires a in h && c in h && h[a].next == c && c != a
    requires h[c].next != NULL ==> h[c].next in h
    requires a in L && c in L && End(h, a) == c
    requires a == r || c == r
    ensures MergedFrom(h0, L0, B0, b, Absorb(h, a, c), Without(L, c), Without(B, c), a)
    ensures |Absorb(h, a, c).Keys| < |h.Keys|
    ensures End(Absorb(h, a, c), a) == End(h, c)
  {
    MergedListsAbsorb(h0, L0, B0, b, h, L, B, r, a, c);
    AbsorbedStep(h0, h, r, a, c);
  }

  /** The list part of `MergedAbsorb`. */
  lemma MergedListsAbsorb(h0: Headers, L0: seq<nat>, B0: seq<nat>, b: nat,
                          h: Headers, L: seq<nat>, B: seq<nat>, r: nat, a: nat, c: nat)
    requires MergedLists(h0, L0, B0, b, h, L, B, r)
    requires a in h && c in h && h[a].next == c && c != a
    requires h[c].next != NULL ==> h[c].next in h
    requires a in L && c in L && End(h, a) == c
    requires a == r || c == r
    ensures MergedLists(h0, L0, B0, b, Absorb(h, a, c), Without(L, c), Without(B, c), a)
    ensures |Absorb(h, a, c).Keys| < |h.Keys|
    ensures End(Absorb(h, a, c), a) == End(h, c)
  {
    var h' := Absorb(h, a, c);
    assert Sizes(h')[a] == h'[a].size;
    KeepWithout(L0, h.Keys, c);
    KeepWithout(B0, h.Keys, c);
    InUseAbsorb(Sizes(h), L, a, c, h[a].size + BLOCK_SIZE + h[c].size);
    WithoutMembers(L, c);
    assert h.Keys == h'.Keys + {c};
  }


  /**
   * The header rewrite of `split_block`: block `a` keeps the first `s` bytes
   * of its body, and a new block with null links starts right after them
   * and takes the rest, so it ends exactly where `a` ended.
   */
  function Carve(h: Headers, a: nat, s: nat): (h': Headers)
    requires a in h && h[a].size >= s + BLOCK_SIZE
    ensures h'.Keys == h.Keys + {SplitPoint(a, s)}
    ensures Sizes(h') == Sizes(h)[SplitPoint(a, s) := h[a].size - s - BLOCK_SIZE][a := s]
    ensures h'[a] == h[a].(size := s) && End(h', a) == SplitPoint(a, s)
    ensures h'[SplitPoint(a, s)] == Header(h[a].size - s - BLOCK_SIZE, NULL, NULL)
    ensures End(h', SplitPoint(a, s)) == End(h, a)
  {
    h[SplitPoint(a, s) := Header(h[a].size - s - BLOCK_SIZE, NULL, NULL)][a := h[a].(size := s)]
  }

  /**
   * Carving a block of a well-formed arena lands the new header on a fresh
   * address inside the old block; the arena stays well formed with the new
   * block in address order, off the free list, and nothing else changes.
   */
  lemma CarveWellFormed(h: Headers, L: seq<nat>, B: seq<nat>, lo: nat, hi: nat, a: nat, s: nat)
    requires WellFormed(h, L, B, lo, hi) && a in h && h[a].size >= s + BLOCK_SIZE && Aligned8(s)
    ensures SplitPoint(a, s) !in h && SplitPoint(a, s) !in L
    ensures WellFormed(Carve(h, a, s), L, InsertSorted(B, SplitPoint(a, s)), lo, hi)
    ensures forall x :: x in h && x != a ==> Carve(h, a, s)[x] == h[x]
  {
    LayoutSplit(h, B, lo, hi, a, s);
    FreeListFrame(h, L, Carve(h, a, s));
  }

  /**
   * What a carve leaves behind, read through any header map with the same
   * addresses and sizes as the carved one (link rewrites keep both).
   */
  lemma CarveSizes(h: Headers, a: nat, s: nat, h': Headers)
    requires a in h && h[a].size >= s + BLOCK_SIZE
    requires h'.Keys == Carve(h, a, s).Keys && Sizes(h') == Sizes(Carve(h, a, s))
    ensures h'.Keys == h.Keys + {SplitPoint(a, s)}
    ensures Sizes(h') == Sizes(h)[SplitPoint(a, s) := h[a].size - s - BLOCK_SIZE][a := s]
    ensures End(h', a) == SplitPoint(a, s) && End(h', SplitPoint(a, s)) == End(h, a)
  {
    var c := Carve(h, a, s);
    assert Sizes(h')[a] == Sizes(c)[a];
    assert Sizes(h')[SplitPoint(a, s)] == Sizes(c)[SplitPoint(a, s)];
  }

  /**
   * First fit: the position in `L` of the first block with at least `need`
   * bytes, or `|L|` when no block on the list has that many.
   */
  function FirstFit(h: Headers, L: seq<nat>, need: nat): (i: nat)
    requires forall j :: 0 <= j < |L| ==> L[j] in h
    ensures i <= |L|
    ensures forall j :: 0 <= j < i ==> h[L[j]].size < need
    ensures i < |L| ==> h[L[i]].size >= need
    decreases |L|
  {
    if L == [] then 0
    else if h[L[0]].size >= need then 0
    else
      var i := FirstFit(h, L[1..], need);
      assert forall j :: 0 < j <= i ==> L[j] == L[1..][j - 1];
      1 + i
  }

  /**
   * Block `b` handed out for `s` bytes, as `malloc` and `realloc` do: when
   * the rest can hold a header and 8 bytes, `split_block` cuts `b` down to
   * `s` bytes and the remainder joins the free list; otherwise `b` keeps
   * its size.  Either way `b` leaves the free list.
   */
  ghost predicate Claimed(h0: Headers, L0: seq<nat>, B0: seq<nat>, b: nat, s: nat,
                          h: Headers, L: seq<nat>, B: seq<nat>)
  {
    && b in h0 && h0[b].size >= s
    && if h0[b].size - s >= BLOCK_SIZE + 8 then
         && SplitPoint(b, s) !in h0
         && h.Keys == h0.Keys + {SplitPoint(b, s)}
         && Sizes(h) == Sizes(h0)[SplitPoint(b, s) := h0[b].size - s - BLOCK_SIZE][b := s]
         && L == InsertSorted(Without(L0, b), SplitPoint(b, s))
         && B == InsertSorted(B0, SplitPoint(b, s))
       else
         && h.Keys == h0.Keys && Sizes(h) == Sizes(h0)
         && L == Without(L0, b) && B == B0
  }

  /**
   * What `malloc` does to the arena for a request rounded to `s` bytes: the
   * first listed block with room for `s` bytes and a header is claimed;
   * with none, a fresh block `b` of exactly `s` bytes with null links is
   * appended at `top`, off the free list.
   */
  ghost predicate Allocated(h0: Headers, L0: seq<nat>, B0: seq<nat>, s: nat, top: nat, b: nat,
                            h: Headers, L: seq<nat>, B: seq<nat>)
  {
    && (forall j :: 0 <= j < |L0| ==> L0[j] in h0)
    && var i := FirstFit(h0, L0, s + BLOCK_SIZE);
       if i < |L0| then
         b == L0[i] && Claimed(h0, L0, B0, b, s, h, L, B)
       else
         b == top && b !in h0 && h == h0[b := Header(s, NULL, NULL)] && L == L0 && B == B0 + [b]
  }

  /** `malloc` found the first fit `b`, at list position `i`, and claimed it. */
  lemma AllocatedFit(h0: Headers, L0: seq<nat>, B0: seq<nat>, s: nat, top: nat, i: nat, b: nat,
                     h: Headers, L: seq<nat>, B: seq<nat>)
    requires forall j :: 0 <= j < |L0| ==> L0[j] in h0
    requires i == FirstFit(h0, L0, s + BLOCK_SIZE) && i < |L0| && b == L0[i]
    requires Claimed(h0, L0, B0, b, s, h, L, B)
    ensures Allocated(h0, L0, B0, s, top, b, h, L, B)
  {
  }

  /** No listed block fits, so `malloc` appended the fresh block `b` at `top`. */
  lemma AllocatedFresh(h0: Headers, L0: seq<nat>, B0: seq<nat>, s: nat, top: nat, b: nat,
                       h: Headers, L: seq<nat>, B: seq<nat>)
    requires forall j :: 0 <= j < |L0| ==> L0[j] in h0
    requires FirstFit(h0, L0, s + BLOCK_SIZE) == |L0|
    requires b == top && b !in h0 && h == h0[b := Header(s, NULL, NULL)] && L == L0 && B == B0 + [b]
    ensures Allocated(h0, L0, B0, s, top, b, h, L, B)
  {
  }
}
