/** The contract the program can rely on from C's `qsort` (sorter.h:174, 213, 303).
    `qsort` is neither stable nor specified beyond "sorted by the comparator", and the
    comparators of sorter.h call two keys equal when one is a prefix of the other, which is not
    transitive. So the only promise modelled is: the result is a reordering of the input and
    every adjacent pair is in order (`cmp <= 0`). */
module Sorting {

  /** `cmp(a, b) == -cmp(b, a)`: what every comparator of sorter.h satisfies. */
  ghost predicate Antisymmetric<T(!new)>(cmp: (T, T) -> int) {
    forall a: T, b: T :: cmp(a, b) == -cmp(b, a)
  }

  /** Every pair of neighbours is in order. */
  predicate AdjacentSorted<T>(s: seq<T>, cmp: (T, T) -> int) {
    forall i :: 0 <= i < |s| - 1 ==> cmp(s[i], s[i + 1]) <= 0
  }

  /** `output` is one of the orders `qsort(input, ..., cmp)` may leave behind. */
  ghost predicate IsQsortOutcome<T>(input: seq<T>, output: seq<T>, cmp: (T, T) -> int) {
    multiset(output) == multiset(input) && AdjacentSorted(output, cmp)
  }

  /** A sort meeting the `qsort` contract for any antisymmetric comparator, transitive or not
      (insertion by adjacent swaps). */
  method Qsort<T(!new)>(s: seq<T>, cmp: (T, T) -> int) returns (r: seq<T>)
    requires Antisymmetric(cmp)
    ensures |r| == |s| && IsQsortOutcome(s, r, cmp)
  {
    r := s;
    var i := 0;
    while i < |s|
      invariant 0 <= i <= |r| == |s|
      invariant multiset(r) == multiset(s)
      invariant forall k :: 0 <= k < i - 1 ==> cmp(r[k], r[k + 1]) <= 0
    {
      r := SinkInto(r, i, cmp);
      i := i + 1;
    }
  }

  /** The pairs `(k, k + 1)` below `i` are in order, except possibly the one ending at `j`. */
  predicate InOrderExcept<T>(r: seq<T>, i: nat, j: nat, cmp: (T, T) -> int)
    requires i < |r|
  {
    forall k :: 0 <= k < i && k != j - 1 ==> cmp(r[k], r[k + 1]) <= 0
  }

  /** Moves `r[i]` down into the sorted prefix `r[..i]`. */
  method SinkInto<T(!new)>(r0: seq<T>, i: nat, cmp: (T, T) -> int) returns (r: seq<T>)
    requires Antisymmetric(cmp)
    requires i < |r0|
    requires forall k :: 0 <= k < i - 1 ==> cmp(r0[k], r0[k + 1]) <= 0
    ensures |r| == |r0| && multiset(r) == multiset(r0)
    ensures forall k :: 0 <= k < i ==> cmp(r[k], r[k + 1]) <= 0
    ensures r[i + 1..] == r0[i + 1..]
  {
    r := r0;
    var j := i;
    while j > 0 && cmp(r[j - 1], r[j]) > 0
      invariant 0 <= j <= i < |r| == |r0|
      invariant multiset(r) == multiset(r0) && r[i + 1..] == r0[i + 1..]
      invariant InOrderExcept(r, i, j, cmp)
      invariant 0 < j < i ==> cmp(r[j - 1], r[j + 1]) <= 0
    {
      SwapStep(r, i, j, cmp);
      r := Swap(r, j);
      j := j - 1;
    }
  }

  /** `r` with the neighbours at `j - 1` and `j` exchanged. */
  function Swap<T>(r: seq<T>, j: nat): (r': seq<T>)
    requires 0 < j < |r|
    ensures |r'| == |r| && multiset(r') == multiset(r)
    ensures r'[j - 1] == r[j] && r'[j] == r[j - 1]
    ensures forall k :: 0 <= k < |r| && k != j - 1 && k != j ==> r'[k] == r[k]
  {
    r[j - 1 := r[j]][j := r[j - 1]]
  }

  /** One exchange keeps the insertion invariant, one position further down. */
  lemma SwapStep<T(!new)>(r: seq<T>, i: nat, j: nat, cmp: (T, T) -> int)
    requires Antisymmetric(cmp)
    requires 0 < j <= i < |r|
    requires InOrderExcept(r, i, j, cmp)
    requires j < i ==> cmp(r[j - 1], r[j + 1]) <= 0
    requires cmp(r[j - 1], r[j]) > 0
    ensures InOrderExcept(Swap(r, j), i, j - 1, cmp)
    ensures 0 < j - 1 ==> cmp(Swap(r, j)[j - 2], Swap(r, j)[j]) <= 0
  {
    var r' := Swap(r, j);
    assert cmp(r[j], r[j - 1]) == -cmp(r[j - 1], r[j]);
    forall k | 0 <= k < i && k != j - 2
      ensures cmp(r'[k], r'[k + 1]) <= 0
    {
      if k == j - 1 {
      } else if k == j {
      } else {
        assert r'[k] == r[k] && r'[k + 1] == r[k + 1];
      }
    }
    if 0 < j - 1 {
      assert r'[j - 2] == r[j - 2];
    }
  }

  /** With a comparator that is transitive on the elements involved, neighbour order is global
      order; sorter.h's comparators are not transitive, which is why the model never claims it. */
  lemma {:induction false} AdjacentSortedTransitive<T>(s: seq<T>, cmp: (T, T) -> int, i: nat, j: nat)
    requires AdjacentSorted(s, cmp)
    requires forall a, b, c :: a in s && b in s && c in s && cmp(a, b) <= 0 && cmp(b, c) <= 0 ==> cmp(a, c) <= 0
    requires i < j < |s|
    ensures cmp(s[i], s[j]) <= 0
    decreases j - i
  {
    if j > i + 1 {
      AdjacentSortedTransitive(s, cmp, i + 1, j);
      assert s[i] in s && s[i + 1] in s && s[j] in s;
    }
  }
}
