/** Facts about sequences shared by the ranking code: distinctness,
    enumerations of a key set, parallel lists and comprehension-style filters. */
module Seqs {

  /** No element occurs twice. */
  predicate Distinct<T(==)>(s: seq<T>) {
    forall i, j :: 0 <= i < j < |s| ==> s[i] != s[j]
  }

  /** `s` lists every element of `keys` exactly once (what `list(d.keys())`
      or `d.items()` gives for a dictionary with key set `keys`). */
  predicate IsEnumeration<T(==)>(s: seq<T>, keys: set<T>) {
    Distinct(s) && (forall x :: x in s ==> x in keys) && (forall x :: x in keys ==> x in s)
  }

  /** Two parallel lists viewed as one list of pairs. */
  function Zip<A, B>(a: seq<A>, b: seq<B>): (r: seq<(A, B)>)
    requires |a| == |b|
    ensures |r| == |a|
    ensures forall k :: 0 <= k < |r| ==> r[k].0 == a[k] && r[k].1 == b[k]
  {
    seq(|a|, k requires 0 <= k < |a| => (a[k], b[k]))
  }

  /** Reference definition of filtering: keep `s[i]` exactly when `mask[i]`,
      in the original order. */
  function FilterSeq<T>(s: seq<T>, mask: seq<bool>): (r: seq<T>)
    requires |s| == |mask|
    ensures |r| <= |s|
  {
    if |s| == 0 then []
    else (if mask[0] then [s[0]] else []) + FilterSeq(s[1..], mask[1..])
  }

  /** The mask that tests `P` at each position of `s`. */
  function MaskOf<T>(s: seq<T>, P: T -> bool): (m: seq<bool>)
    ensures |m| == |s| && forall i :: 0 <= i < |s| ==> m[i] == P(s[i])
  {
    seq(|s|, i requires 0 <= i < |s| => P(s[i]))
  }

  /** Position-wise conjunction of two masks. */
  function AndMask(a: seq<bool>, b: seq<bool>): (r: seq<bool>)
    requires |a| == |b|
    ensures |r| == |a| && forall i :: 0 <= i < |a| ==> (r[i] <==> a[i] && b[i])
  {
    seq(|a|, i requires 0 <= i < |a| => a[i] && b[i])
  }

  /** A mask that keeps everything keeps the list as it is. */
  lemma {:induction false} FilterAllTrue<T>(s: seq<T>, mask: seq<bool>)
    requires |s| == |mask| && forall i :: 0 <= i < |mask| ==> mask[i]
    ensures FilterSeq(s, mask) == s
    decreases |s|
  {
    if |s| > 0 {
      FilterAllTrue(s[1..], mask[1..]);
    }
  }

  /** Filtering a list and a mask by the same mask keeps them the same length. */
  lemma {:induction false} FilterSameLength<A, B>(a: seq<A>, b: seq<B>, mask: seq<bool>)
    requires |a| == |b| == |mask|
    ensures |FilterSeq(a, mask)| == |FilterSeq(b, mask)|
    decreases |a|
  {
    if |a| > 0 {
      FilterSameLength(a[1..], b[1..], mask[1..]);
    }
  }

  /** Testing a predicate along a filtered list is filtering the tests. */
  lemma {:induction false} MaskOfFilter<T>(s: seq<T>, mask: seq<bool>, P: T -> bool)
    requires |s| == |mask|
    ensures MaskOf(FilterSeq(s, mask), P) == FilterSeq(MaskOf(s, P), mask)
    decreases |s|
  {
    if |s| > 0 {
      MaskOfFilter(s[1..], mask[1..], P);
      var head := if mask[0] then [s[0]] else [];
      var rest := FilterSeq(s[1..], mask[1..]);
      assert FilterSeq(s, mask) == head + rest;
      assert MaskOf(head + rest, P) == MaskOf(head, P) + MaskOf(rest, P);
      assert MaskOf(s, P)[1..] == MaskOf(s[1..], P);
    }
  }

  /** Filtering twice is filtering once by both masks: the second mask, taken
      along the first filter's output, is the full-length `m2` seen through `m1`. */
  lemma {:induction false} FilterThenFilter<T>(s: seq<T>, m1: seq<bool>, m2: seq<bool>)
    requires |s| == |m1| == |m2|
    ensures |FilterSeq(m2, m1)| == |FilterSeq(s, m1)|
    ensures FilterSeq(FilterSeq(s, m1), FilterSeq(m2, m1)) == FilterSeq(s, AndMask(m1, m2))
    decreases |s|
  {
    FilterSameLength(s, m2, m1);
    if |s| > 0 {
      FilterThenFilter(s[1..], m1[1..], m2[1..]);
      assert AndMask(m1, m2)[1..] == AndMask(m1[1..], m2[1..]);
      FilterSameLength(s[1..], m2[1..], m1[1..]);
      var fs, fm := FilterSeq(s[1..], m1[1..]), FilterSeq(m2[1..], m1[1..]);
      if m1[0] {
        assert FilterSeq(s, m1) == [s[0]] + fs;
        assert FilterSeq(m2, m1) == [m2[0]] + fm;
        assert ([s[0]] + fs)[1..] == fs && ([m2[0]] + fm)[1..] == fm;
      } else {
        assert FilterSeq(s, m1) == fs;
        assert FilterSeq(m2, m1) == fm;
      }
    }
  }

  /** Filtering by `P` and then, along what is left, by `Q` keeps exactly the
      elements that satisfy both, in order. */
  lemma FilterByTwoPredicates<T>(s: seq<T>, P: T -> bool, Q: T -> bool)
    ensures var first := FilterSeq(s, MaskOf(s, P));
      FilterSeq(first, MaskOf(first, Q)) == FilterSeq(s, AndMask(MaskOf(s, P), MaskOf(s, Q)))
  {
    MaskOfFilter(s, MaskOf(s, P), Q);
    FilterThenFilter(s, MaskOf(s, P), MaskOf(s, Q));
  }

  /** The indices `i >= from` with `mask[i]`, in increasing order: the
      comprehension `[i for i, x in enumerate(xs) if keep(x)]`. */
  function KeepFrom(mask: seq<bool>, from: nat): (r: seq<nat>)
    requires from <= |mask|
    ensures forall k :: 0 <= k < |r| ==> from <= r[k] < |mask| && mask[r[k]]
    ensures forall k, l :: 0 <= k < l < |r| ==> r[k] < r[l]
    ensures forall i :: from <= i < |mask| && mask[i] ==> i in r
    decreases |mask| - from
  {
    if from == |mask| then []
    else (if mask[from] then [from] else []) + KeepFrom(mask, from + 1)
  }

  /** `[s[i] for i in idx]`. */
  function Select<T>(s: seq<T>, idx: seq<nat>): (r: seq<T>)
    requires forall k :: 0 <= k < |idx| ==> idx[k] < |s|
    ensures |r| == |idx|
    ensures forall k :: 0 <= k < |r| ==> r[k] == s[idx[k]]
  {
    seq(|idx|, k requires 0 <= k < |idx| => s[idx[k]])
  }

  /** Selecting the kept indices is the reference filter. */
  lemma {:induction false} SelectKeepIsFilter<T>(s: seq<T>, mask: seq<bool>, from: nat)
    requires |s| == |mask| && from <= |mask|
    ensures Select(s, KeepFrom(mask, from)) == FilterSeq(s[from..], mask[from..])
    decreases |mask| - from
  {
    if from < |mask| {
      SelectKeepIsFilter(s, mask, from + 1);
      FilterStep(s, mask, from);
      if mask[from] {
        SelectCons(s, from, KeepFrom(mask, from + 1));
      }
    }
  }

  lemma SelectCons<T>(s: seq<T>, i: nat, rest: seq<nat>)
    requires i < |s| && forall k :: 0 <= k < |rest| ==> rest[k] < |s|
    ensures Select(s, [i] + rest) == [s[i]] + Select(s, rest)
  {
  }

  lemma FilterStep<T>(s: seq<T>, mask: seq<bool>, from: nat)
    requires |s| == |mask| && from < |mask|
    ensures FilterSeq(s[from..], mask[from..])
         == (if mask[from] then [s[from]] else []) + FilterSeq(s[from + 1..], mask[from + 1..])
  {
    assert s[from..][1..] == s[from + 1..];
    assert mask[from..][1..] == mask[from + 1..];
  }

  /** Selecting the same indices from two parallel lists keeps them paired. */
  lemma SelectZip<A, B>(a: seq<A>, b: seq<B>, idx: seq<nat>)
    requires |a| == |b|
    requires forall k :: 0 <= k < |idx| ==> idx[k] < |a|
    ensures Select(Zip(a, b), idx) == Zip(Select(a, idx), Select(b, idx))
  {
  }

  /** An element survives the filter exactly when some position holding it is kept. */
  lemma {:induction false} FilterMembership<T>(s: seq<T>, mask: seq<bool>, x: T)
    requires |s| == |mask|
    ensures x in FilterSeq(s, mask) <==> exists i :: 0 <= i < |s| && mask[i] && s[i] == x
  {
    if |s| > 0 {
      FilterMembership(s[1..], mask[1..], x);
      if x in FilterSeq(s[1..], mask[1..]) {
        var i :| 0 <= i < |s[1..]| && mask[1..][i] && s[1..][i] == x;
        assert mask[i + 1] && s[i + 1] == x;
      }
      if exists i :: 0 <= i < |s| && mask[i] && s[i] == x {
        var i :| 0 <= i < |s| && mask[i] && s[i] == x;
        if i > 0 {
          assert mask[1..][i - 1] && s[1..][i - 1] == x;
        }
      }
    }
  }

  /** Filtering never introduces duplicates. */
  lemma {:induction false} FilterDistinct<T>(s: seq<T>, mask: seq<bool>)
    requires |s| == |mask| && Distinct(s)
    ensures Distinct(FilterSeq(s, mask))
  {
    if |s| > 0 {
      var tail := FilterSeq(s[1..], mask[1..]);
      assert Distinct(s[1..]);
      FilterDistinct(s[1..], mask[1..]);
      FilterMembership(s[1..], mask[1..], s[0]);
      assert forall i :: 0 <= i < |s[1..]| ==> s[1..][i] != s[0];
      assert s[0] !in tail;
      if mask[0] {
        var r := [s[0]] + tail;
        forall i, j | 0 <= i < j < |r| ensures r[i] != r[j] {
          if i == 0 { assert r[j] == tail[j - 1]; }
          else { assert r[i] == tail[i - 1] && r[j] == tail[j - 1]; }
        }
      }
    }
  }

  /** A distinct list holds each element once. */
  lemma {:induction false} DistinctCountAtMostOne<T>(s: seq<T>, x: T)
    requires Distinct(s)
    ensures multiset(s)[x] <= 1
  {
    if |s| > 0 {
      assert s == [s[0]] + s[1..];
      assert Distinct(s[1..]);
      DistinctCountAtMostOne(s[1..], x);
      if x == s[0] {
        assert forall k :: 0 <= k < |s[1..]| ==> s[1..][k] != x;
        assert x !in s[1..];
      }
    }
  }

  /** A rearrangement of a distinct list is distinct. */
  lemma PermutationOfDistinct<T>(a: seq<T>, b: seq<T>)
    requires multiset(a) == multiset(b) && Distinct(b)
    ensures Distinct(a)
  {
    forall i, j | 0 <= i < j < |a| ensures a[i] != a[j] {
      if a[i] == a[j] {
        var x := a[i];
        assert a == a[..j] + a[j..];
        assert x in a[..j] && x in a[j..];
        assert multiset(a)[x] == multiset(a[..j])[x] + multiset(a[j..])[x];
        DistinctCountAtMostOne(b, x);
        assert false;
      }
    }
  }

  /** A rearrangement of an enumeration of `keys` is one too. */
  lemma PermutationOfEnumeration<T>(a: seq<T>, b: seq<T>, keys: set<T>)
    requires multiset(a) == multiset(b) && IsEnumeration(b, keys)
    ensures IsEnumeration(a, keys)
  {
    PermutationOfDistinct(a, b);
    forall x ensures x in a <==> x in b {
      assert x in a <==> x in multiset(a);
      assert x in b <==> x in multiset(b);
    }
  }

  /** `perm` rearranges the indices `0 .. n-1`: it has `n` distinct entries below `n`. */
  predicate IsIndexPermutation(perm: seq<int>, n: nat) {
    |perm| == n && (forall k :: 0 <= k < n ==> 0 <= perm[k] < n) && Distinct(perm)
  }

  lemma {:induction false} DistinctCard<T>(s: seq<T>)
    requires Distinct(s)
    ensures |set x | x in s| == |s|
  {
    if |s| > 0 {
      assert Distinct(s[1..]);
      DistinctCard(s[1..]);
      assert (set x | x in s) == {s[0]} + (set x | x in s[1..]);
      assert forall k :: 0 <= k < |s[1..]| ==> s[1..][k] != s[0];
      assert s[0] !in (set x | x in s[1..]);
    }
  }

  /** The indices `0 .. n-1` as a set. */
  function Range(n: nat): (r: set<int>)
    ensures forall j :: j in r <==> 0 <= j < n
    ensures |r| == n
  {
    if n == 0 then {} else Range(n - 1) + {n - 1}
  }

  /** Pigeonhole: an index permutation reaches every index. */
  lemma IndexPermutationOnto(perm: seq<int>, n: nat)
    requires IsIndexPermutation(perm, n)
    ensures forall j :: 0 <= j < n ==> j in perm
  {
    var hit := set x | x in perm;
    var all := Range(n);
    DistinctCard(perm);
    assert hit <= all;
    var missing := all - hit;
    assert all == hit + missing;
    assert |all| == |hit| + |missing|;
    assert missing == {};
    forall j | 0 <= j < n ensures j in perm {
      assert j in all;
    }
  }
}
