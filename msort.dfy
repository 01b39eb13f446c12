// The sequential parts of the parallel merge sort in msort.c: the two-way
// merge performed by each merge thread and the segment size computed before
// the sorting threads are started.

module MSort {

  /** `s` is in ascending (non-decreasing) order. */
  ghost predicate Sorted(s: seq<int>) {
    forall i, j :: 0 <= i < j < |s| ==> s[i] <= s[j]
  }

  /**
   * What the merge loop writes into `temp` from the moment its cursors stand
   * at `i` in `s1` and `j` in `s2`, one element per step, with the loop's own
   * tests: the head of `s1` when `s2` is exhausted or `s1`'s head is strictly
   * smaller, the head of `s2` when `s1` is exhausted or `s2`'s head is
   * strictly smaller, and on equal heads the head of `s1` (a duplicate).
   */
  function MergeFrom(s1: seq<int>, s2: seq<int>, i: nat, j: nat): seq<int>
    requires i <= |s1| && j <= |s2|
    decreases |s1| - i + |s2| - j
  {
    if i == |s1| && j == |s2| then []
    else if j == |s2| || (i != |s1| && s1[i] < s2[j]) then [s1[i]] + MergeFrom(s1, s2, i + 1, j)
    else if i == |s1| || s2[j] < s1[i] then [s2[j]] + MergeFrom(s1, s2, i, j + 1)
    else [s1[i]] + MergeFrom(s1, s2, i + 1, j)
  }

  /** How many of the steps counted from cursors `i`, `j` meet equal heads. */
  function DuplicatesFrom(s1: seq<int>, s2: seq<int>, i: nat, j: nat): nat
    requires i <= |s1| && j <= |s2|
    decreases |s1| - i + |s2| - j
  {
    if i == |s1| && j == |s2| then 0
    else if j == |s2| || (i != |s1| && s1[i] < s2[j]) then DuplicatesFrom(s1, s2, i + 1, j)
    else if i == |s1| || s2[j] < s1[i] then DuplicatesFrom(s1, s2, i, j + 1)
    else 1 + DuplicatesFrom(s1, s2, i + 1, j)
  }

  /** The whole merge of two runs. */
  function Merged(s1: seq<int>, s2: seq<int>): seq<int> {
    MergeFrom(s1, s2, 0, 0)
  }

  /** The number of duplicates the whole merge meets. */
  function Duplicates(s1: seq<int>, s2: seq<int>): nat {
    DuplicatesFrom(s1, s2, 0, 0)
  }

  /** A step that takes the head of `s1`: on `s1[i] < s2[j]`, on equal heads, or once `s2` is used up. */
  lemma TakesFirst(s1: seq<int>, s2: seq<int>, i: nat, j: nat)
    requires i < |s1| && j <= |s2| && (j == |s2| || s1[i] <= s2[j])
    ensures MergeFrom(s1, s2, i, j) == [s1[i]] + MergeFrom(s1, s2, i + 1, j)
    ensures DuplicatesFrom(s1, s2, i, j) == DuplicatesFrom(s1, s2, i + 1, j) + if j < |s2| && s1[i] == s2[j] then 1 else 0
  {
  }

  /** A step that takes the head of `s2`: on `s2[j] < s1[i]`, or once `s1` is used up. */
  lemma TakesSecond(s1: seq<int>, s2: seq<int>, i: nat, j: nat)
    requires i <= |s1| && j < |s2| && (i == |s1| || s2[j] < s1[i])
    ensures MergeFrom(s1, s2, i, j) == [s2[j]] + MergeFrom(s1, s2, i, j + 1)
    ensures DuplicatesFrom(s1, s2, i, j) == DuplicatesFrom(s1, s2, i, j + 1)
  {
  }

  /** From cursors `i`, `j` the merge writes each remaining element exactly once. */
  lemma {:induction false} MergeFromPermutation(s1: seq<int>, s2: seq<int>, i: nat, j: nat)
    requires i <= |s1| && j <= |s2|
    ensures multiset(MergeFrom(s1, s2, i, j)) == multiset(s1[i..]) + multiset(s2[j..])
    decreases |s1| - i + |s2| - j, 1
  {
    if i == |s1| && j == |s2| {
      assert s1[i..] == [] && s2[j..] == [];
    } else if j == |s2| || (i != |s1| && s1[i] <= s2[j]) {
      PermutationTakingFirst(s1, s2, i, j);
    } else {
      PermutationTakingSecond(s1, s2, i, j);
    }
  }

  /** A step that takes the head of `s1` keeps the written elements a permutation of what remains. */
  lemma {:induction false} PermutationTakingFirst(s1: seq<int>, s2: seq<int>, i: nat, j: nat)
    requires i < |s1| && j <= |s2| && (j == |s2| || s1[i] <= s2[j])
    ensures multiset(MergeFrom(s1, s2, i, j)) == multiset(s1[i..]) + multiset(s2[j..])
    decreases |s1| - i + |s2| - j, 0
  {
    MergeFromPermutation(s1, s2, i + 1, j);
    TakesFirst(s1, s2, i, j);
    assert s1[i..] == [s1[i]] + s1[i + 1..];
    MovedFirst(MergeFrom(s1, s2, i, j), s1[i], MergeFrom(s1, s2, i + 1, j), s1[i..], s1[i + 1..], s2[j..]);
  }

  /** A step that takes the head of `s2` keeps the written elements a permutation of what remains. */
  lemma {:induction false} PermutationTakingSecond(s1: seq<int>, s2: seq<int>, i: nat, j: nat)
    requires i <= |s1| && j < |s2| && (i == |s1| || s2[j] < s1[i])
    ensures multiset(MergeFrom(s1, s2, i, j)) == multiset(s1[i..]) + multiset(s2[j..])
    decreases |s1| - i + |s2| - j, 0
  {
    MergeFromPermutation(s1, s2, i, j + 1);
    TakesSecond(s1, s2, i, j);
    assert s2[j..] == [s2[j]] + s2[j + 1..];
    MovedFirst(MergeFrom(s1, s2, i, j), s2[j], MergeFrom(s1, s2, i, j + 1), s2[j..], s2[j + 1..], s1[i..]);
  }

  /** Writing the head `x` of run `a` first keeps the written elements a permutation of the runs. */
  lemma MovedFirst(m: seq<int>, x: int, rest: seq<int>, a: seq<int>, tail: seq<int>, b: seq<int>)
    requires m == [x] + rest && a == [x] + tail
    requires multiset(rest) == multiset(tail) + multiset(b)
    ensures multiset(m) == multiset(a) + multiset(b) == multiset(b) + multiset(a)
  {
  }

  /** From cursors `i`, `j` the merge writes exactly the `|s1| - i + |s2| - j` remaining elements. */
  lemma {:induction false} MergeFromLength(s1: seq<int>, s2: seq<int>, i: nat, j: nat)
    requires i <= |s1| && j <= |s2|
    ensures |MergeFrom(s1, s2, i, j)| == |s1| - i + |s2| - j
    decreases |s1| - i + |s2| - j
  {
    if i == |s1| && j == |s2| {
    } else if j == |s2| || (i != |s1| && s1[i] <= s2[j]) {
      TakesFirst(s1, s2, i, j);
      MergeFromLength(s1, s2, i + 1, j);
    } else {
      TakesSecond(s1, s2, i, j);
      MergeFromLength(s1, s2, i, j + 1);
    }
  }

  /** The merge is a permutation of the concatenation of its two runs. */
  lemma MergedPermutation(s1: seq<int>, s2: seq<int>)
    ensures multiset(Merged(s1, s2)) == multiset(s1 + s2)
    ensures |Merged(s1, s2)| == |s1| + |s2|
  {
    MergeFromPermutation(s1, s2, 0, 0);
    MergeFromLength(s1, s2, 0, 0);
    assert s1[0..] == s1 && s2[0..] == s2;
  }

  /** Every element the merge writes from cursors `i`, `j` is at least a common lower bound of what remains. */
  lemma MergeFromAbove(s1: seq<int>, s2: seq<int>, i: nat, j: nat, x: int)
    requires i <= |s1| && j <= |s2|
    requires forall k :: i <= k < |s1| ==> x <= s1[k]
    requires forall k :: j <= k < |s2| ==> x <= s2[k]
    ensures forall k :: 0 <= k < |MergeFrom(s1, s2, i, j)| ==> x <= MergeFrom(s1, s2, i, j)[k]
  {
    MergeFromPermutation(s1, s2, i, j);
    var m := MergeFrom(s1, s2, i, j);
    forall k | 0 <= k < |m|
      ensures x <= m[k]
    {
      assert m[k] in multiset(m);
      if m[k] in multiset(s1[i..]) {
        assert m[k] in s1[i..];
      } else {
        assert m[k] in s2[j..];
      }
    }
  }

  /** From cursors `i`, `j` into two ascending runs the merge writes an ascending run. */
  lemma {:induction false} MergeFromSorted(s1: seq<int>, s2: seq<int>, i: nat, j: nat)
    requires i <= |s1| && j <= |s2|
    requires Sorted(s1) && Sorted(s2)
    ensures Sorted(MergeFrom(s1, s2, i, j))
    decreases |s1| - i + |s2| - j, 1
  {
    if i == |s1| && j == |s2| {
    } else if j == |s2| || (i != |s1| && s1[i] <= s2[j]) {
      SortedTakingFirst(s1, s2, i, j);
    } else {
      SortedTakingSecond(s1, s2, i, j);
    }
  }

  /** A step that takes the head of `s1` puts in front a lower bound of everything written after it. */
  lemma {:induction false} SortedTakingFirst(s1: seq<int>, s2: seq<int>, i: nat, j: nat)
    requires i < |s1| && j <= |s2| && (j == |s2| || s1[i] <= s2[j])
    requires Sorted(s1) && Sorted(s2)
    ensures Sorted(MergeFrom(s1, s2, i, j))
    decreases |s1| - i + |s2| - j, 0
  {
    MergeFromSorted(s1, s2, i + 1, j);
    MergeFromAbove(s1, s2, i + 1, j, s1[i]);
    TakesFirst(s1, s2, i, j);
    SortedCons(s1[i], MergeFrom(s1, s2, i + 1, j));
  }

  /** A step that takes the head of `s2` puts in front a lower bound of everything written after it. */
  lemma {:induction false} SortedTakingSecond(s1: seq<int>, s2: seq<int>, i: nat, j: nat)
    requires i <= |s1| && j < |s2| && (i == |s1| || s2[j] < s1[i])
    requires Sorted(s1) && Sorted(s2)
    ensures Sorted(MergeFrom(s1, s2, i, j))
    decreases |s1| - i + |s2| - j, 0
  {
    MergeFromSorted(s1, s2, i, j + 1);
    MergeFromAbove(s1, s2, i, j + 1, s2[j]);
    TakesSecond(s1, s2, i, j);
    SortedCons(s2[j], MergeFrom(s1, s2, i, j + 1));
  }

  /** An ascending run stays ascending with a lower bound of it in front. */
  lemma SortedCons(x: int, s: seq<int>)
    requires Sorted(s) && forall k :: 0 <= k < |s| ==> x <= s[k]
    ensures Sorted([x] + s)
  {
  }

  /** Merging two ascending runs gives an ascending run. */
  lemma MergedSorted(s1: seq<int>, s2: seq<int>)
    requires Sorted(s1) && Sorted(s2)
    ensures Sorted(Merged(s1, s2))
  {
    MergeFromSorted(s1, s2, 0, 0);
  }

  /** Every duplicate step advances the cursor into `s1`, so there are at most `|s1| - i` of them. */
  lemma {:induction false} DuplicatesFromAtMost(s1: seq<int>, s2: seq<int>, i: nat, j: nat)
    requires i <= |s1| && j <= |s2|
    ensures DuplicatesFrom(s1, s2, i, j) <= |s1| - i
    decreases |s1| - i + |s2| - j
  {
    if i == |s1| && j == |s2| {
    } else if j == |s2| || (i != |s1| && s1[i] < s2[j]) {
      DuplicatesFromAtMost(s1, s2, i + 1, j);
    } else if i == |s1| || s2[j] < s1[i] {
      DuplicatesFromAtMost(s1, s2, i, j + 1);
    } else {
      DuplicatesFromAtMost(s1, s2, i + 1, j);
    }
  }

  /** Moving one written element from the pending part to the written part; it only keeps the loop proof small. */
  lemma Regroup(done: seq<int>, x: int, rest: seq<int>, whole: seq<int>)
    requires done + ([x] + rest) == whole
    ensures (done + [x]) + rest == whole
  {
    assert (done + [x]) + rest == done + ([x] + rest);
  }

  /**
   * The merge loop of the merge thread: `d1` is `d[lo .. lo + l1]` and `d2` is
   * `d[lo + l1 .. lo + l1 + l2]`.  Every step writes one slot of the fresh
   * `temp` and advances exactly one of the cursors `ptr1`, `ptr2`; the loop
   * stops when both runs are used up, after exactly `l1 + l2` writes.
   */
  method MergeIntoTemp(d: array<int>, lo: nat, l1: nat, l2: nat) returns (temp: array<int>, duplicates: nat)
    requires lo + l1 + l2 <= d.Length
    ensures fresh(temp)
    ensures temp[..] == Merged(d[lo .. lo + l1], d[lo + l1 .. lo + l1 + l2])
    ensures duplicates == Duplicates(d[lo .. lo + l1], d[lo + l1 .. lo + l1 + l2])
    ensures duplicates <= l1
  {
    ghost var s1 := d[lo .. lo + l1];
    ghost var s2 := d[lo + l1 .. lo + l1 + l2];
    temp := new int[l1 + l2];
    var ptr1, ptr2, ptr := 0, 0, 0;
    duplicates := 0;
    while ptr1 < l1 || ptr2 < l2
      invariant 0 <= ptr1 <= l1 && 0 <= ptr2 <= l2 && ptr == ptr1 + ptr2
      invariant temp[..ptr] + MergeFrom(s1, s2, ptr1, ptr2) == Merged(s1, s2)
      invariant duplicates + DuplicatesFrom(s1, s2, ptr1, ptr2) == Duplicates(s1, s2)
      decreases l1 + l2 - ptr
    {
      ghost var done := temp[..ptr];
      assert ptr1 < l1 ==> d[lo + ptr1] == s1[ptr1];
      assert ptr2 < l2 ==> d[lo + l1 + ptr2] == s2[ptr2];
      if ptr2 == l2 || (ptr1 != l1 && d[lo + ptr1] < d[lo + l1 + ptr2]) {
        TakesFirst(s1, s2, ptr1, ptr2);
        temp[ptr] := d[lo + ptr1];
        ptr, ptr1 := ptr + 1, ptr1 + 1;
      } else if ptr1 == l1 || (ptr2 != l2 && d[lo + l1 + ptr2] < d[lo + ptr1]) {
        TakesSecond(s1, s2, ptr1, ptr2);
        temp[ptr] := d[lo + l1 + ptr2];
        ptr, ptr2 := ptr + 1, ptr2 + 1;
      } else {
        TakesFirst(s1, s2, ptr1, ptr2);
        duplicates := duplicates + 1;
        temp[ptr] := d[lo + ptr1];
        ptr, ptr1 := ptr + 1, ptr1 + 1;
      }
      assert temp[..ptr] == done + [temp[ptr - 1]];
      Regroup(done, temp[ptr - 1], MergeFrom(s1, s2, ptr1, ptr2), Merged(s1, s2));
    }
    assert temp[..] == temp[..ptr];
    DuplicatesFromAtMost(s1, s2, 0, 0);
  }

  /**
   * The merge thread `merge`: the loop above, then the copy of `temp` back
   * over `d1`.  Because the caller lays `d2` out directly after `d1`, the
   * copy of `l1 + l2` elements overwrites exactly the two input runs.
   */
  method MergeRuns(d: array<int>, lo: nat, l1: nat, l2: nat) returns (duplicates: nat)
    requires lo + l1 + l2 <= d.Length
    modifies d
    ensures d[lo .. lo + l1 + l2] == Merged(old(d[lo .. lo + l1]), old(d[lo + l1 .. lo + l1 + l2]))
    ensures d[..lo] == old(d[..lo]) && d[lo + l1 + l2 ..] == old(d[lo + l1 + l2 ..])
    ensures duplicates == Duplicates(old(d[lo .. lo + l1]), old(d[lo + l1 .. lo + l1 + l2]))
    ensures duplicates <= l1
  {
    var temp;
    temp, duplicates := MergeIntoTemp(d, lo, l1, l2);
    MergedPermutation(d[lo .. lo + l1], d[lo + l1 .. lo + l1 + l2]);
    CopyInto(d, lo, temp);
  }

  /** The `memcpy` of the merged run back over the two input runs. */
  method CopyInto(dst: array<int>, at: nat, src: array<int>)
    requires at + src.Length <= dst.Length && src != dst
    modifies dst
    ensures dst[at .. at + src.Length] == src[..]
    ensures dst[..at] == old(dst[..at]) && dst[at + src.Length ..] == old(dst[at + src.Length ..])
  {
    forall k | 0 <= k < src.Length {
      dst[at + k] := src[k];
    }
  }

  /**
   * `values_per_segment`: how many input values each sorting thread gets,
   * `input_ct / segment_count` rounded up (C `int` division, which on these
   * non-negative operands agrees with Dafny's).
   */
  function ValuesPerSegment(inputCt: nat, segmentCount: nat): (r: nat)
    requires segmentCount > 0
    ensures r * segmentCount >= inputCt
    ensures (r - 1) * segmentCount < inputCt
  {
    if inputCt % segmentCount == 0 then inputCt / segmentCount
    else inputCt / segmentCount + 1
  }
}
