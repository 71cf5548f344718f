/** Facts about sequences used by the catalog proofs: counting, distinct elements, mapping. */
module Sequences {

  /** Number of elements satisfying `p`. */
  function Count<T>(s: seq<T>, p: T -> bool): (n: nat)
    ensures n <= |s|
  {
    if s == [] then 0 else (if p(s[0]) then 1 else 0) + Count(s[1..], p)
  }

  lemma {:induction false} CountAppend<T>(a: seq<T>, b: seq<T>, p: T -> bool)
    ensures Count(a + b, p) == Count(a, p) + Count(b, p)
  {
    if a == [] {
      assert a + b == b;
    } else {
      assert (a + b)[0] == a[0];
      assert (a + b)[1..] == a[1..] + b;
      CountAppend(a[1..], b, p);
    }
  }

  /** Reordering does not change a count. */
  lemma {:induction false} CountPermutation<T>(s: seq<T>, t: seq<T>, p: T -> bool)
    requires multiset(s) == multiset(t)
    ensures Count(s, p) == Count(t, p)
    decreases |s|
  {
    if s == [] {
      assert |t| == |multiset(t)| == 0;
    } else {
      var x := s[0];
      assert x in multiset(t);
      var k :| 0 <= k < |t| && t[k] == x;
      var rest := t[..k] + t[k + 1..];
      assert t == t[..k] + [x] + t[k + 1..];
      assert s == [x] + s[1..];
      assert multiset(rest) == multiset(t) - multiset{x};
      CountPermutation(s[1..], rest, p);
      CountAppend(t[..k] + [x], t[k + 1..], p);
      CountAppend(t[..k], [x], p);
      CountAppend(t[..k], t[k + 1..], p);
    }
  }

  /** Two different positions satisfying `p` make a count of at least two. */
  lemma {:induction false} CountTwo<T>(s: seq<T>, p: T -> bool, i: nat, j: nat)
    requires i < j < |s| && p(s[i]) && p(s[j])
    ensures Count(s, p) >= 2
  {
    assert s == s[..i] + ([s[i]] + s[i + 1..j] + [s[j]]) + s[j + 1..];
    CountAppend(s[..i] + ([s[i]] + s[i + 1..j] + [s[j]]), s[j + 1..], p);
    CountAppend(s[..i], [s[i]] + s[i + 1..j] + [s[j]], p);
    CountAppend([s[i]] + s[i + 1..j], [s[j]], p);
    CountAppend([s[i]], s[i + 1..j], p);
  }

  /** Only the last element can be a sole witness: with two witnesses one lies before the end. */
  lemma {:induction false} CountTwoHasEarlyWitness<T>(s: seq<T>, p: T -> bool)
    requires Count(s, p) >= 2
    ensures exists i :: 0 <= i < |s| - 1 && p(s[i])
  {
    var n := |s|;
    assert s == s[..n - 1] + [s[n - 1]];
    CountAppend(s[..n - 1], [s[n - 1]], p);
    assert Count(s[..n - 1], p) >= 1;
    CountPositiveHasWitness(s[..n - 1], p);
    var i :| 0 <= i < n - 1 && p(s[..n - 1][i]);
    assert s[i] == s[..n - 1][i];
  }

  lemma {:induction false} CountPositiveHasWitness<T>(s: seq<T>, p: T -> bool)
    requires Count(s, p) >= 1
    ensures exists i :: 0 <= i < |s| && p(s[i])
  {
    if !p(s[0]) {
      CountPositiveHasWitness(s[1..], p);
      var i :| 0 <= i < |s| - 1 && p(s[1..][i]);
      assert s[i + 1] == s[1..][i];
    }
  }

  /** No element occurs twice. */
  predicate Distinct<T(==)>(s: seq<T>) {
    forall i, j :: 0 <= i < |s| && 0 <= j < |s| && i != j ==> s[i] != s[j]
  }

  /** In a sequence without repetitions every element occurs once. */
  lemma {:induction false} DistinctMultiplicity<T>(s: seq<T>, x: T)
    requires Distinct(s)
    ensures multiset(s)[x] == if x in s then 1 else 0
  {
    if s != [] {
      assert s == [s[0]] + s[1..];
      assert Distinct(s[1..]) by {
        forall i, j | 0 <= i < |s| - 1 && 0 <= j < |s| - 1 && i != j
          ensures s[1..][i] != s[1..][j]
        {
          assert s[1..][i] == s[i + 1] && s[1..][j] == s[j + 1];
        }
      }
      DistinctMultiplicity(s[1..], x);
      if x == s[0] {
        assert x !in s[1..] by {
          forall k | 0 <= k < |s| - 1
            ensures s[1..][k] != x
          {
            assert s[1..][k] == s[k + 1];
          }
        }
      }
    }
  }

  /** An element occurring at two positions occurs at least twice. */
  lemma {:induction false} RepeatedMultiplicity<T>(s: seq<T>, i: nat, j: nat)
    requires i < j < |s| && s[i] == s[j]
    ensures multiset(s)[s[i]] >= 2
  {
    assert s == s[..i] + ([s[i]] + s[i + 1..j] + [s[j]]) + s[j + 1..];
    assert multiset([s[i]] + s[i + 1..j] + [s[j]])[s[i]] >= 2;
  }

  /** A reordering of a sequence without repetitions has none either. */
  lemma DistinctPermutation<T>(s: seq<T>, t: seq<T>)
    requires Distinct(s) && multiset(s) == multiset(t)
    ensures Distinct(t)
  {
    forall i, j | 0 <= i < |t| && 0 <= j < |t| && i != j
      ensures t[i] != t[j]
    {
      if t[i] == t[j] {
        if i < j { RepeatedMultiplicity(t, i, j); } else { RepeatedMultiplicity(t, j, i); }
        DistinctMultiplicity(s, t[i]);
      }
    }
  }

  /** Two sequences without repetitions holding the same elements are reorderings. */
  lemma SameElementsPermutation<T>(s: seq<T>, t: seq<T>)
    requires Distinct(s) && Distinct(t)
    requires forall x :: x in s <==> x in t
    ensures multiset(s) == multiset(t)
  {
    forall x
      ensures multiset(s)[x] == multiset(t)[x]
    {
      DistinctMultiplicity(s, x);
      DistinctMultiplicity(t, x);
    }
  }

  /** Replacing the slice `s[lo..hi]` by a reordering of it changes nothing outside the slice
      and keeps the elements. */
  lemma ReplaceSlice<T>(s: seq<T>, lo: nat, hi: nat, w: seq<T>)
    requires lo <= hi <= |s| && |w| == hi - lo && multiset(w) == multiset(s[lo..hi])
    ensures var r := s[..lo] + w + s[hi..];
      && |r| == |s| && r[..lo] == s[..lo] && r[lo..hi] == w && r[hi..] == s[hi..]
      && multiset(r) == multiset(s)
  {
    var r := s[..lo] + w + s[hi..];
    assert r[..lo] == s[..lo] && r[lo..hi] == w && r[hi..] == s[hi..];
    assert s == s[..lo] + s[lo..hi] + s[hi..];
  }

  /** `f` applied to every element. */
  function Map<A, B>(s: seq<A>, f: A -> B): (r: seq<B>)
    ensures |r| == |s| && forall i :: 0 <= i < |s| ==> r[i] == f(s[i])
  {
    seq(|s|, i requires 0 <= i < |s| => f(s[i]))
  }

  lemma MapAppend<A, B>(a: seq<A>, b: seq<A>, f: A -> B)
    ensures Map(a + b, f) == Map(a, f) + Map(b, f)
  {
  }

  /** Mapping reorderings gives reorderings. */
  lemma {:induction false} MapPermutation<A, B>(s: seq<A>, t: seq<A>, f: A -> B)
    requires multiset(s) == multiset(t)
    ensures multiset(Map(s, f)) == multiset(Map(t, f))
    decreases |s|
  {
    if s == [] {
      assert |t| == |multiset(t)| == 0;
    } else {
      var k :| 0 <= k < |t| && t[k] == s[0] by {
        assert s[0] in multiset(t);
      }
      RemoveAt(s, t, k);
      MapPermutation(s[1..], t[..k] + t[k + 1..], f);
      MapSplit(t, k, f);
      MapAppend(t[..k], t[k + 1..], f);
      assert Map(s, f) == [f(s[0])] + Map(s[1..], f);
      MultisetMiddle(Map(t[..k], f), f(s[0]), Map(t[k + 1..], f), Map(s[1..], f));
    }
  }

  /** Taking the head off one side and an equal element off the other keeps two reorderings. */
  lemma RemoveAt<A>(s: seq<A>, t: seq<A>, k: nat)
    requires multiset(s) == multiset(t) && k < |t| && 0 < |s| && t[k] == s[0]
    ensures multiset(s[1..]) == multiset(t[..k] + t[k + 1..])
  {
    assert s == [s[0]] + s[1..];
    assert multiset(s[1..]) == multiset(s) - multiset{s[0]};
    assert t == t[..k] + [t[k]] + t[k + 1..];
    assert multiset(t[..k] + t[k + 1..]) == multiset(t) - multiset{t[k]};
  }

  /** Putting `y` in front or between `a` and `b` gives the same multiset. */
  lemma MultisetMiddle<B>(a: seq<B>, y: B, b: seq<B>, u: seq<B>)
    requires multiset(u) == multiset(a + b)
    ensures multiset([y] + u) == multiset(a + [y] + b)
  {
    assert multiset(a + [y] + b) == multiset(a) + multiset([y]) + multiset(b);
    assert multiset(a + b) == multiset(a) + multiset(b);
  }

  /** Mapping a sequence split at `k` maps each part. */
  lemma MapSplit<A, B>(t: seq<A>, k: nat, f: A -> B)
    requires k < |t|
    ensures Map(t, f) == Map(t[..k], f) + [f(t[k])] + Map(t[k + 1..], f)
  {
  }

  /** The elements satisfying `p`, in order. */
  function Filter<T>(s: seq<T>, p: T -> bool): (r: seq<T>)
    ensures |r| <= |s|
    ensures forall x :: x in r ==> x in s && p(x)
    ensures forall x :: x in s && p(x) ==> x in r
  {
    if s == [] then []
    else (if p(s[0]) then [s[0]] else []) + Filter(s[1..], p)
  }

  /** Filtering distributes over concatenation. */
  lemma {:induction false} FilterConcat<T>(a: seq<T>, b: seq<T>, p: T -> bool)
    ensures Filter(a + b, p) == Filter(a, p) + Filter(b, p)
  {
    if a != [] {
      assert (a + b)[0] == a[0];
      assert (a + b)[1..] == a[1..] + b;
      FilterConcat(a[1..], b, p);
    } else {
      assert a + b == b;
    }
  }

  /** Filtering one more element of a prefix. */
  lemma FilterStep<T>(s: seq<T>, j: nat, p: T -> bool)
    requires j < |s|
    ensures p(s[j]) ==> Filter(s[..j + 1], p) == Filter(s[..j], p) + [s[j]]
    ensures !p(s[j]) ==> Filter(s[..j + 1], p) == Filter(s[..j], p)
  {
    assert s[..j + 1] == s[..j] + [s[j]];
    FilterConcat(s[..j], [s[j]], p);
    if !p(s[j]) {
      assert Filter(s[..j], p) + [] == Filter(s[..j], p);
    }
  }

  /** Filtering a prefix keeps no more than filtering the whole. */
  lemma FilterPrefix<T>(s: seq<T>, j: nat, p: T -> bool)
    requires j <= |s|
    ensures |Filter(s[..j], p)| <= |Filter(s, p)|
  {
    assert s == s[..j] + s[j..];
    FilterConcat(s[..j], s[j..], p);
  }

  /** Filtering by two complementary tests splits the elements between the two results. */
  lemma {:induction false} FilterComplement<T>(s: seq<T>, p: T -> bool, q: T -> bool)
    requires forall x :: x in s ==> (p(x) <==> !q(x))
    ensures multiset(s) == multiset(Filter(s, p)) + multiset(Filter(s, q))
  {
    if s != [] {
      assert s == [s[0]] + s[1..];
      FilterComplement(s[1..], p, q);
    }
  }

  lemma {:induction false} FilterDistinct<T>(s: seq<T>, p: T -> bool)
    requires Distinct(s)
    ensures Distinct(Filter(s, p))
  {
    var r := Filter(s, p);
    forall i, j | 0 <= i < |r| && 0 <= j < |r| && i != j
      ensures r[i] != r[j]
    {
      if r[i] == r[j] {
        if i < j { RepeatedMultiplicity(r, i, j); } else { RepeatedMultiplicity(r, j, i); }
        FilterComplement(s, p, y => !p(y));
        DistinctMultiplicity(s, r[i]);
      }
    }
  }

  /** Filtering a sequence without repetitions down to exactly the elements of `t` yields a
      reordering of `t`. */
  lemma FilterExact<T>(s: seq<T>, p: T -> bool, t: seq<T>)
    requires Distinct(s) && Distinct(t)
    requires forall x :: x in t ==> x in s
    requires forall x :: x in s ==> (p(x) <==> x in t)
    ensures multiset(Filter(s, p)) == multiset(t)
  {
    FilterDistinct(s, p);
    SameElementsPermutation(Filter(s, p), t);
  }
}
