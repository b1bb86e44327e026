/**
  Stable sorting of a copy, as `Array.prototype.sort` does it (stable since ECMAScript 2019).
  A comparator `cmp` becomes the relation `le(a, b)`, read as `cmp(a, b) <= 0`. The sort
  produces a permutation of indices, so every displayed position still knows the original
  index it came from. The permutation is built by insertion. `SortedOrderUnique` shows that
  every stable sort of the same list gives the same order, so the choice of algorithm does
  not matter.
 */
module Sorting {

  /** `le` is total and transitive: a comparator that sorts consistently. */
  ghost predicate TotalPreorder<T(!new)>(le: (T, T) -> bool) {
    && (forall a, b :: le(a, b) || le(b, a))
    && (forall a, b, c :: le(a, b) && le(b, c) ==> le(a, c))
  }

  /** In a stable sort of `s`, index `a` goes before index `b`: its element is no greater, and among equals the earlier index goes first. */
  predicate Before<T>(s: seq<T>, le: (T, T) -> bool, a: nat, b: nat)
    requires a < |s| && b < |s|
  {
    le(s[a], s[b]) && (le(s[b], s[a]) ==> a < b)
  }

  /** Every index in `q` is below `n`. */
  predicate InRange(q: seq<nat>, n: nat) {
    forall i :: 0 <= i < |q| ==> q[i] < n
  }

  /** The indices in `q` appear in stable-sort order. */
  predicate SortedBy<T>(s: seq<T>, le: (T, T) -> bool, q: seq<nat>)
    requires InRange(q, |s|)
  {
    forall i, j :: 0 <= i < j < |q| ==> Before(s, le, q[i], q[j])
  }

  /** The indices `0 .. n-1`, in order. */
  function Range(n: nat): (r: seq<nat>)
    ensures |r| == n
  {
    if n == 0 then [] else Range(n - 1) + [n - 1]
  }

  /** Position `i` of `Range(n)` holds `i`. */
  lemma {:induction false} RangeAt(n: nat)
    ensures forall i :: 0 <= i < n ==> Range(n)[i] == i
  {
    if n > 0 {
      RangeAt(n - 1);
      assert forall i :: 0 <= i < n - 1 ==> Range(n)[i] == Range(n - 1)[i];
    }
  }

  /** The identity order is an order of `s` and takes `s` as it is. */
  lemma IdentityOrder<T>(s: seq<T>)
    ensures InRange(Range(|s|), |s|) && Permute(s, Range(|s|)) == s
  {
    RangeAt(|s|);
  }

  /** `p` lists every index below `n` exactly once. */
  predicate IsPermutation(p: seq<nat>, n: nat) {
    multiset(p) == multiset(Range(n))
  }

  /** Place index `k` after the trailing run of the sorted `q` whose elements are greater than `s[k]`. */
  function Insert<T>(s: seq<T>, le: (T, T) -> bool, k: nat, q: seq<nat>): (r: seq<nat>)
    requires k < |s| && InRange(q, |s|)
    ensures |r| == |q| + 1 && multiset(r) == multiset(q) + multiset{k}
    ensures InRange(r, |s|)
  {
    if q == [] || le(s[q[|q| - 1]], s[k]) then q + [k]
    else
      assert q == q[..|q| - 1] + [q[|q| - 1]];
      Insert(s, le, k, q[..|q| - 1]) + [q[|q| - 1]]
  }

  /** The stable order of the first `n` indices of `s`. */
  function SortPrefix<T>(s: seq<T>, le: (T, T) -> bool, n: nat): (r: seq<nat>)
    requires n <= |s|
    ensures |r| == n && IsPermutation(r, n) && InRange(r, |s|)
  {
    if n == 0 then [] else Insert(s, le, n - 1, SortPrefix(s, le, n - 1))
  }

  /** The stable order of all the indices of `s`. */
  function SortOrder<T>(s: seq<T>, le: (T, T) -> bool): (r: seq<nat>)
    ensures |r| == |s| && IsPermutation(r, |s|) && InRange(r, |s|)
  {
    SortPrefix(s, le, |s|)
  }

  /** The elements of `s` taken in the order `p`. */
  function Permute<T>(s: seq<T>, p: seq<nat>): (r: seq<T>)
    requires InRange(p, |s|)
    ensures |r| == |p| && forall i :: 0 <= i < |p| ==> r[i] == s[p[i]]
  {
    seq(|p|, i requires 0 <= i < |p| => s[p[i]])
  }

  /** A sorted copy of `s`: position `i` holds `s[SortOrder(s, le)[i]]`. */
  function StableSort<T>(s: seq<T>, le: (T, T) -> bool): (r: seq<T>)
    ensures |r| == |s|
    ensures forall i :: 0 <= i < |s| ==> r[i] == s[SortOrder(s, le)[i]]
  {
    Permute(s, SortOrder(s, le))
  }

  // ---------------------------------------------------------------------------
  // Permutations
  // ---------------------------------------------------------------------------

  /** `Range(n)` holds each index below `n` once and nothing else. */
  lemma {:induction false} RangeCount(n: nat, k: nat)
    ensures multiset(Range(n))[k] == if k < n then 1 else 0
  {
    if n > 0 {
      RangeCount(n - 1, k);
    }
  }

  /** Two equal values at distinct positions give a multiplicity of at least two. */
  lemma TwiceCounted(p: seq<nat>, i: nat, j: nat)
    requires i < j < |p| && p[i] == p[j]
    ensures multiset(p)[p[i]] >= 2
  {
    assert p == p[..i] + [p[i]] + p[i + 1..j] + [p[j]] + p[j + 1..];
  }

  /** A permutation of `0 .. n-1` has length `n` and stays below `n`. */
  lemma PermutationInRange(p: seq<nat>, n: nat)
    requires IsPermutation(p, n)
    ensures |p| == n && InRange(p, n)
  {
    assert |multiset(p)| == |p|;
    forall i | 0 <= i < |p|
      ensures p[i] < n
    {
      assert p[i] in multiset(p);
      RangeCount(n, p[i]);
    }
  }

  /** A permutation of `0 .. n-1` contains every index below `n`. */
  lemma PermutationHas(p: seq<nat>, n: nat, k: nat)
    requires IsPermutation(p, n) && k < n
    ensures k in p
  {
    RangeCount(n, k);
    assert k in multiset(p);
  }

  /** A permutation has no repeated index. */
  lemma PermutationDistinct(p: seq<nat>, n: nat)
    requires IsPermutation(p, n)
    ensures forall i, j :: 0 <= i < j < |p| ==> p[i] != p[j]
  {
    forall i, j | 0 <= i < j < |p|
      ensures p[i] != p[j]
    {
      if p[i] == p[j] {
        TwiceCounted(p, i, j);
        RangeCount(n, p[i]);
      }
    }
  }

  /** `Range(m + 1)` holds one more index than `Range(m)`. */
  lemma RangeSnoc(m: nat)
    ensures multiset(Range(m)) == multiset(Range(m + 1)) - multiset{m}
  {
    assert Range(m + 1) == Range(m) + [m];
  }

  /** Removing the element at `i` removes one copy of it from the multiset. */
  lemma RemoveAt(p: seq<nat>, i: nat)
    requires i < |p|
    ensures multiset(p[..i] + p[i + 1..]) == multiset(p) - multiset{p[i]}
  {
    assert p == p[..i] + [p[i]] + p[i + 1..];
  }

  /** Taking the elements of `s` in the order `p` with one index cut out. */
  lemma PermuteRemoveAt<T>(s: seq<T>, p: seq<nat>, i: nat)
    requires InRange(p, |s|) && i < |p|
    ensures InRange(p[..i] + p[i + 1..], |s|)
    ensures multiset(Permute(s, p)) == multiset(Permute(s, p[..i] + p[i + 1..])) + multiset{s[p[i]]}
  {
    var r := p[..i] + p[i + 1..];
    assert Permute(s, p) == Permute(s, p[..i]) + [s[p[i]]] + Permute(s, p[i + 1..]);
    assert Permute(s, r) == Permute(s, p[..i]) + Permute(s, p[i + 1..]);
  }

  /** One more element taken from the front of `s`. */
  lemma TakeSnoc<T>(s: seq<T>, m: nat)
    requires m < |s|
    ensures multiset(s[..m + 1]) == multiset(s[..m]) + multiset{s[m]}
  {
    assert s[..m + 1] == s[..m] + [s[m]];
  }

  /** A sorted copy holds the same elements as the list, each as often. */
  lemma {:induction false} PermuteKeepsElements<T>(s: seq<T>, p: seq<nat>, n: nat)
    requires n <= |s| && IsPermutation(p, n)
    ensures InRange(p, |s|)
    ensures multiset(Permute(s, p)) == multiset(s[..n])
    decreases n
  {
    PermutationInRange(p, n);
    if n > 0 {
      var m := n - 1;
      PermutationHas(p, n, m);
      var i :| 0 <= i < |p| && p[i] == m;
      var rest := p[..i] + p[i + 1..];
      RemoveAt(p, i);
      RangeSnoc(m);
      assert multiset(rest) == multiset(Range(m));
      PermuteKeepsElements(s, rest, m);
      PermuteRemoveAt(s, p, i);
      TakeSnoc(s, m);
    }
  }

  /** `StableSort` returns a rearrangement of its input: the same elements, each as often. */
  lemma StableSortIsPermutation<T>(s: seq<T>, le: (T, T) -> bool)
    ensures multiset(StableSort(s, le)) == multiset(s)
  {
    PermuteKeepsElements(s, SortOrder(s, le), |s|);
    assert s[..|s|] == s;
  }

  // ---------------------------------------------------------------------------
  // Order
  // ---------------------------------------------------------------------------

  /** Appending an index that every listed index goes before keeps the list sorted. */
  lemma SortedSnoc<T>(s: seq<T>, le: (T, T) -> bool, q: seq<nat>, k: nat)
    requires k < |s| && InRange(q, |s|) && SortedBy(s, le, q)
    requires forall i :: 0 <= i < |q| ==> Before(s, le, q[i], k)
    ensures InRange(q + [k], |s|) && SortedBy(s, le, q + [k])
  {
    var r := q + [k];
    forall i, j | 0 <= i < j < |r|
      ensures Before(s, le, r[i], r[j])
    {
      if j < |q| {
        assert r[i] == q[i] && r[j] == q[j];
      }
    }
  }

  /** Inserting a larger index into a sorted list of smaller ones keeps it sorted. */
  lemma {:induction false} InsertSorted<T(!new)>(s: seq<T>, le: (T, T) -> bool, k: nat, q: seq<nat>)
    requires TotalPreorder(le)
    requires k < |s| && InRange(q, k) && SortedBy(s, le, q)
    ensures SortedBy(s, le, Insert(s, le, k, q))
    decreases |q|
  {
    if q == [] || le(s[q[|q| - 1]], s[k]) {
      forall i | 0 <= i < |q|
        ensures Before(s, le, q[i], k)
      {
        if i < |q| - 1 {
          assert Before(s, le, q[i], q[|q| - 1]);
        }
      }
      SortedSnoc(s, le, q, k);
    } else {
      var init := q[..|q| - 1];
      var last := q[|q| - 1];
      InsertSorted(s, le, k, init);
      var r := Insert(s, le, k, init);
      forall i | 0 <= i < |r|
        ensures Before(s, le, r[i], last)
      {
        assert r[i] in multiset(r);
        if r[i] != k {
          var j :| 0 <= j < |init| && init[j] == r[i];
          assert Before(s, le, q[j], q[|q| - 1]);
        }
      }
      SortedSnoc(s, le, r, last);
    }
  }

  /** Under a consistent comparator the insertion order is sorted and stable. */
  lemma {:induction false} SortPrefixSorted<T(!new)>(s: seq<T>, le: (T, T) -> bool, n: nat)
    requires TotalPreorder(le) && n <= |s|
    ensures SortedBy(s, le, SortPrefix(s, le, n))
  {
    if n > 0 {
      SortPrefixSorted(s, le, n - 1);
      var q := SortPrefix(s, le, n - 1);
      PermutationInRange(q, n - 1);
      InsertSorted(s, le, n - 1, q);
    }
  }

  /**
    The sorted copy is ordered by `le`, and elements that compare equal keep their original
    relative order (stability).
   */
  lemma SortOrderSorted<T(!new)>(s: seq<T>, le: (T, T) -> bool)
    requires TotalPreorder(le)
    ensures SortedBy(s, le, SortOrder(s, le))
    ensures forall i, j :: 0 <= i < j < |s| ==> le(StableSort(s, le)[i], StableSort(s, le)[j])
    ensures forall i, j :: 0 <= i < j < |s| && le(s[SortOrder(s, le)[j]], s[SortOrder(s, le)[i]]) ==>
              SortOrder(s, le)[i] < SortOrder(s, le)[j]
  {
    SortPrefixSorted(s, le, |s|);
  }

  /** Two sorted arrangements of the same indices end with the same index. */
  lemma SameLast<T>(s: seq<T>, le: (T, T) -> bool, p: seq<nat>, q: seq<nat>)
    requires InRange(p, |s|) && InRange(q, |s|)
    requires SortedBy(s, le, p) && SortedBy(s, le, q)
    requires multiset(p) == multiset(q) && |p| > 0 && |q| > 0
    ensures p[|p| - 1] == q[|q| - 1]
  {
    var a, b := p[|p| - 1], q[|q| - 1];
    assert a in multiset(q) && b in multiset(p);
  }

  /** Dropping the last index keeps an arrangement in range and sorted, and removes one occurrence of that index. */
  lemma DropLast<T>(s: seq<T>, le: (T, T) -> bool, p: seq<nat>)
    requires InRange(p, |s|) && SortedBy(s, le, p) && |p| > 0
    ensures InRange(p[..|p| - 1], |s|) && SortedBy(s, le, p[..|p| - 1])
    ensures multiset(p[..|p| - 1]) == multiset(p) - multiset{p[|p| - 1]}
    ensures p == p[..|p| - 1] + [p[|p| - 1]]
  {
    RemoveAt(p, |p| - 1);
    assert p[..|p| - 1] + p[|p|..] == p[..|p| - 1];
  }

  /** Two sorted arrangements of the same indices are the same arrangement. */
  lemma {:induction false} SortedUnique<T>(s: seq<T>, le: (T, T) -> bool, p: seq<nat>, q: seq<nat>)
    requires InRange(p, |s|) && InRange(q, |s|)
    requires SortedBy(s, le, p) && SortedBy(s, le, q)
    requires multiset(p) == multiset(q)
    ensures p == q
    decreases |p|
  {
    assert |multiset(p)| == |p| && |multiset(q)| == |q|;
    if |p| > 0 {
      SameLast(s, le, p, q);
      DropLast(s, le, p);
      DropLast(s, le, q);
      SortedUnique(s, le, p[..|p| - 1], q[..|q| - 1]);
    }
  }

  /** Any stable sort of `s` by `le` puts the indices in exactly the order `SortOrder` does. */
  lemma SortedOrderUnique<T(!new)>(s: seq<T>, le: (T, T) -> bool, p: seq<nat>)
    requires TotalPreorder(le)
    requires IsPermutation(p, |s|) && InRange(p, |s|) && SortedBy(s, le, p)
    ensures p == SortOrder(s, le)
  {
    SortPrefixSorted(s, le, |s|);
    SortedUnique(s, le, p, SortOrder(s, le));
  }
}
