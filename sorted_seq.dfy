// Address-ordered sequences: the abstract view of the allocator's free list
// (syspro_hw1/alloc.c), with the sorted insertion that `insert_block`
// performs and the removal that `delete_block` performs.

module SortedSeq {

  /** Strictly ascending: sorted by address, no duplicates. */
  ghost predicate Ascending(s: seq<nat>) {
    forall i, j :: 0 <= i < j < |s| ==> s[i] < s[j]
  }

  /**
   * How many leading elements of `s` are smaller than `x`: the number of
   * steps the walk `while (ptr && ptr < b)` of `insert_block` takes.
   */
  function Rank(s: seq<nat>, x: nat): (k: nat)
    ensures k <= |s|
  {
    if s == [] || !(s[0] < x) then 0 else 1 + Rank(s[1..], x)
  }

  /** The walk stops at the first element that is not smaller than `x`. */
  lemma {:induction false} RankStops(s: seq<nat>, x: nat)
    ensures forall i :: 0 <= i < Rank(s, x) ==> s[i] < x
    ensures Rank(s, x) < |s| ==> x <= s[Rank(s, x)]
  {
    if s != [] && s[0] < x {
      RankStops(s[1..], x);
    }
  }

  /** Any position with only smaller elements before it and none at it is the rank. */
  lemma {:induction false} RankUnique(s: seq<nat>, x: nat, k: nat)
    requires k <= |s|
    requires forall i :: 0 <= i < k ==> s[i] < x
    requires k < |s| ==> x <= s[k]
    ensures Rank(s, x) == k
  {
    if k > 0 {
      RankUnique(s[1..], x, k - 1);
    }
  }

  /** `x` placed before the first element of `s` that is not smaller than it. */
  function InsertSorted(s: seq<nat>, x: nat): seq<nat> {
    s[..Rank(s, x)] + [x] + s[Rank(s, x)..]
  }

  /** An element smaller than `x` at the head of `s` stays in front of the insertion. */
  lemma InsertSortedCons(s: seq<nat>, x: nat)
    requires s != [] && s[0] < x
    ensures InsertSorted(s, x) == [s[0]] + InsertSorted(s[1..], x)
  {
    var r := Rank(s[1..], x);
    assert Rank(s, x) == 1 + r;
    assert s[..1 + r] == [s[0]] + s[1..][..r];
    assert s[1 + r..] == s[1..][r..];
  }

  /** Inserting an element no greater than the head of `s` puts it first. */
  lemma InsertSortedFront(s: seq<nat>, x: nat)
    requires s == [] || x <= s[0]
    ensures InsertSorted(s, x) == [x] + s
  {
    assert Rank(s, x) == 0;
  }

  /** Sorted insertion adds exactly `x` to the members. */
  lemma InsertSortedMembers(s: seq<nat>, x: nat)
    ensures forall a :: a in InsertSorted(s, x) <==> a in s || a == x
  {
    var k := Rank(s, x);
    assert s == s[..k] + s[k..];
  }

  /** `s` with every occurrence of `x` taken out. */
  function Without(s: seq<nat>, x: nat): seq<nat> {
    if s == [] then []
    else if s[0] == x then Without(s[1..], x)
    else [s[0]] + Without(s[1..], x)
  }

  /** Taking `x` out keeps every other element and only those. */
  lemma {:induction false} WithoutMembers(s: seq<nat>, x: nat)
    ensures forall a :: a in Without(s, x) <==> a in s && a != x
  {
    if s != [] {
      WithoutMembers(s[1..], x);
      assert s == [s[0]] + s[1..];
    }
  }

  /** The elements of `s` that lie in `K`, in their order in `s`. */
  function Keep(s: seq<nat>, K: set<nat>): seq<nat> {
    if s == [] then []
    else if s[0] in K then [s[0]] + Keep(s[1..], K)
    else Keep(s[1..], K)
  }

  /** Keeping a set that holds every element keeps the whole list. */
  lemma {:induction false} KeepAll(s: seq<nat>, K: set<nat>)
    requires forall a :: a in s ==> a in K
    ensures Keep(s, K) == s
  {
    if s != [] {
      KeepAll(s[1..], K);
      assert s == [s[0]] + s[1..];
    }
  }

  /** Taking `x` out of what is kept is keeping one element fewer. */
  lemma {:induction false} KeepWithout(s: seq<nat>, K: set<nat>, x: nat)
    ensures Without(Keep(s, K), x) == Keep(s, K - {x})
  {
    if s != [] {
      KeepWithout(s[1..], K, x);
    }
  }

  /**
   * Sorted insertion of a new address into a strictly ascending list keeps
   * it strictly ascending, adds exactly that address, and leaves the
   * smallest address at the head.
   */
  lemma InsertSortedAscending(s: seq<nat>, x: nat)
    requires Ascending(s) && x !in s
    ensures Ascending(InsertSorted(s, x))
    ensures forall a :: a in InsertSorted(s, x) <==> a in s || a == x
    ensures |InsertSorted(s, x)| == |s| + 1
    ensures forall a :: a in InsertSorted(s, x) ==> InsertSorted(s, x)[0] <= a
  {
    var k := Rank(s, x);
    var r := InsertSorted(s, x);
    RankStops(s, x);
    assert k < |s| ==> x < s[k];
    forall i, j | 0 <= i < j < |r|
      ensures r[i] < r[j]
    {
      if j < k {
      } else if j == k {
      } else if i < k {
        assert r[j] == s[j - 1];
      } else if i == k {
        assert r[j] == s[j - 1];
      } else {
        assert r[i] == s[i - 1] && r[j] == s[j - 1];
      }
    }
  }

  /** Removing an element of a duplicate-free list deletes exactly its position. */
  lemma {:induction false} WithoutAt(s: seq<nat>, i: nat)
    requires i < |s| && Ascending(s)
    ensures Without(s, s[i]) == s[..i] + s[i + 1..]
  {
    if i == 0 {
      WithoutAbsent(s[1..], s[0]);
      assert s[1..] == s[..0] + s[1..];
    } else {
      WithoutAt(s[1..], i - 1);
      assert s[1..][i - 1] == s[i];
      assert s[..i] == [s[0]] + s[1..][..i - 1];
      assert s[i + 1..] == s[1..][i..];
    }
  }

  /** Removing an address that is not in the list leaves the list as it is. */
  lemma {:induction false} WithoutAbsent(s: seq<nat>, x: nat)
    requires x !in s
    ensures Without(s, x) == s
  {
    if s != [] {
      WithoutAbsent(s[1..], x);
      assert s == [s[0]] + s[1..];
    }
  }

  /** Removing an element from a strictly ascending list keeps it strictly ascending. */
  lemma {:induction false} WithoutAscending(s: seq<nat>, x: nat)
    requires Ascending(s)
    ensures Ascending(Without(s, x))
  {
    if s != [] {
      var rest := Without(s[1..], x);
      WithoutAscending(s[1..], x);
      WithoutMembers(s[1..], x);
      forall k | 0 <= k < |rest|
        ensures s[0] < rest[k]
      {
        assert rest[k] in s[1..];
      }
    }
  }

  /** `insert_block(b)` followed by `delete_block(b)` restores the original list. */
  lemma RemoveInserted(s: seq<nat>, x: nat)
    requires Ascending(s) && x !in s
    ensures Without(InsertSorted(s, x), x) == s
  {
    var k := Rank(s, x);
    var r := InsertSorted(s, x);
    InsertSortedAscending(s, x);
    assert r[k] == x;
    WithoutAt(r, k);
    assert r[..k] == s[..k] && r[k + 1..] == s[k..];
  }
}
