/**
 * Order-preserving selection over sequences: the model of JavaScript's
 * `Array.prototype.filter`, which every list view and every list update in
 * the registry is built from.
 */
module Seqs {

  /** The elements of `s` that satisfy `p`, in their original order. */
  function Filter<T(!new)>(p: T -> bool, s: seq<T>): (r: seq<T>)
    ensures |r| <= |s|
    ensures forall x :: x in r <==> x in s && p(x)
  {
    if s == [] then []
    else (if p(s[0]) then [s[0]] else []) + Filter(p, s[1..])
  }

  /** Filtering a concatenation filters each part: the relative order of the kept elements is the original one. */
  lemma {:induction false} FilterConcat<T(!new)>(p: T -> bool, a: seq<T>, b: seq<T>)
    ensures Filter(p, a + b) == Filter(p, a) + Filter(p, b)
  {
    if a == [] {
      assert a + b == b;
    } else {
      assert (a + b)[1..] == a[1..] + b;
      FilterConcat(p, a[1..], b);
    }
  }

  /** Each kept value keeps its multiplicity; every other value disappears. */
  lemma {:induction false} FilterMultiplicity<T(!new)>(p: T -> bool, s: seq<T>, x: T)
    ensures multiset(Filter(p, s))[x] == if p(x) then multiset(s)[x] else 0
  {
    if s != [] {
      FilterMultiplicity(p, s[1..], x);
      assert s == [s[0]] + s[1..];
    }
  }

  /** A filter that keeps everything returns the sequence itself. */
  lemma {:induction false} FilterKeepsAll<T(!new)>(p: T -> bool, s: seq<T>)
    requires forall x :: x in s ==> p(x)
    ensures Filter(p, s) == s
  {
    if s != [] {
      FilterKeepsAll(p, s[1..]);
    }
  }

  /** Two tests that agree on every element select the same elements. */
  lemma {:induction false} FilterCongruent<T(!new)>(p: T -> bool, q: T -> bool, s: seq<T>)
    requires forall x :: x in s ==> p(x) == q(x)
    ensures Filter(p, s) == Filter(q, s)
  {
    if s != [] {
      FilterCongruent(p, q, s[1..]);
    }
  }

  /** A sequence whose every element passes comes through the filter whole. */
  lemma {:induction false} AllPassKept<T(!new)>(p: T -> bool, s: seq<T>)
    requires forall j :: 0 <= j < |s| ==> p(s[j])
    ensures Filter(p, s) == s
  {
    forall x | x in s ensures p(x) {
      var j :| 0 <= j < |s| && s[j] == x;
    }
    FilterKeepsAll(p, s);
  }

  /** An element that fails the test, between two parts that come through whole, is all the filter drops. */
  lemma {:induction false} FilterAround<T(!new)>(p: T -> bool, front: seq<T>, x: T, back: seq<T>)
    requires !p(x) && Filter(p, front) == front && Filter(p, back) == back
    ensures Filter(p, front + ([x] + back)) == front + back
  {
    FilterSkipsHead(p, x, back);
    FilterConcat(p, front, [x] + back);
  }

  /** A head that fails the test is dropped and the rest is filtered as it stands. */
  lemma FilterSkipsHead<T(!new)>(p: T -> bool, x: T, back: seq<T>)
    requires !p(x)
    ensures Filter(p, [x] + back) == Filter(p, back)
  {
    assert ([x] + back)[1..] == back;
  }

  /** A filter that rejects exactly the element at `k` removes that one element. */
  lemma {:induction false} FilterDropsOne<T(!new)>(p: T -> bool, s: seq<T>, k: nat)
    requires k < |s| && !p(s[k])
    requires forall j :: 0 <= j < |s| && j != k ==> p(s[j])
    ensures Filter(p, s) == s[..k] + s[k + 1..]
  {
    AllPassKept(p, s[..k]);
    AllPassKept(p, s[k + 1..]);
    FilterAround(p, s[..k], s[k], s[k + 1..]);
    SplitAt(s, k);
  }

  /** `s` is the part before `k`, the element at `k` and the part after it. */
  lemma SplitAt<T>(s: seq<T>, k: nat)
    requires k < |s|
    ensures s == s[..k] + ([s[k]] + s[k + 1..])
  {
    assert s[k..] == [s[k]] + s[k + 1..];
    assert s == s[..k] + s[k..];
  }

  /** Every element of `s` occurs once at most. */
  predicate NoDuplicates<T(==)>(s: seq<T>)
  {
    forall i, j :: 0 <= i < j < |s| ==> s[i] != s[j]
  }

  /** A filter of a duplicate-free sequence is duplicate-free. */
  lemma {:induction false} FilterNoDuplicates<T(!new)>(p: T -> bool, s: seq<T>)
    requires NoDuplicates(s)
    ensures NoDuplicates(Filter(p, s))
  {
    if s != [] {
      FilterNoDuplicates(p, s[1..]);
      var rest := Filter(p, s[1..]);
      assert s[0] !in s[1..] by {
        forall k | 0 <= k < |s[1..]| ensures s[1..][k] != s[0] {
          assert s[1..][k] == s[k + 1];
        }
      }
      assert s[0] !in rest;
    }
  }
}
