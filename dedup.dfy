/** Keeping the first element of each key, as both `[...new Set(xs)]` and
    `xs.filter((x, i, self) => i === self.findIndex(y => key(y) === key(x)))`
    do. */
module Dedup {

  /** `xs.findIndex(x => key(x) == k)`, searching from index `i`. */
  function FindFrom<T, K(==)>(xs: seq<T>, key: T -> K, k: K, i: nat): (r: int)
    requires i <= |xs|
    ensures -1 <= r < |xs|
    ensures 0 <= r ==> i <= r && key(xs[r]) == k && forall j :: i <= j < r ==> key(xs[j]) != k
    ensures r == -1 ==> forall j :: i <= j < |xs| ==> key(xs[j]) != k
    decreases |xs| - i
  {
    if i == |xs| then -1
    else if key(xs[i]) == k then i
    else FindFrom(xs, key, k, i + 1)
  }

  /** The index of the first element with key `k`, or -1. */
  function IndexOfKey<T, K(==)>(xs: seq<T>, key: T -> K, k: K): (r: int)
    ensures -1 <= r < |xs|
    ensures 0 <= r ==> key(xs[r]) == k
    ensures r == -1 <==> forall j :: 0 <= j < |xs| ==> key(xs[j]) != k
  {
    FindFrom(xs, key, k, 0)
  }

  /** No element before the one found has the key. */
  lemma IndexOfKeyIsFirst<T, K>(xs: seq<T>, key: T -> K, k: K)
    ensures forall j :: 0 <= j < IndexOfKey(xs, key, k) ==> key(xs[j]) != k
  {
    var _ := FindFrom(xs, key, k, 0);
  }

  /** The elements among the first `n` of `xs` that are the first of their
      key in all of `xs`, in their original order. */
  function KeepFirst<T, K(==)>(xs: seq<T>, key: T -> K, n: nat): (r: seq<T>)
    requires n <= |xs|
    ensures |r| <= n
  {
    if n == 0 then []
    else
      var r := KeepFirst(xs, key, n - 1);
      var x := xs[n - 1];
      if IndexOfKey(xs, key, key(x)) == n - 1 then r + [x] else r
  }

  /** Every kept element is the first occurrence of its key, found before `n`. */
  lemma {:induction false} KeepFirstSound<T, K>(xs: seq<T>, key: T -> K, n: nat)
    requires n <= |xs|
    ensures forall y | y in KeepFirst(xs, key, n) ::
              0 <= IndexOfKey(xs, key, key(y)) < n && xs[IndexOfKey(xs, key, key(y))] == y
  {
    if n > 0 {
      KeepFirstSound(xs, key, n - 1);
    }
  }

  /** Kept elements appear in the order of their positions in `xs`. */
  lemma {:induction false} KeepFirstOrdered<T, K>(xs: seq<T>, key: T -> K, n: nat)
    requires n <= |xs|
    ensures forall i, j :: 0 <= i < j < |KeepFirst(xs, key, n)| ==>
              IndexOfKey(xs, key, key(KeepFirst(xs, key, n)[i])) < IndexOfKey(xs, key, key(KeepFirst(xs, key, n)[j]))
  {
    if n > 0 {
      var r := KeepFirst(xs, key, n - 1);
      KeepFirstOrdered(xs, key, n - 1);
      var x := xs[n - 1];
      if IndexOfKey(xs, key, key(x)) == n - 1 {
        KeepFirstSound(xs, key, n - 1);
        var r' := r + [x];
        assert KeepFirst(xs, key, n) == r';
        forall i, j | 0 <= i < j < |r'|
          ensures IndexOfKey(xs, key, key(r'[i])) < IndexOfKey(xs, key, key(r'[j]))
        {
          assert r'[i] == r[i] && r[i] in r;
          if j < |r| {
            assert r'[j] == r[j];
          }
        }
      }
    }
  }

  /** Every first occurrence of a key before `n` is kept. */
  lemma {:induction false} KeepFirstComplete<T, K>(xs: seq<T>, key: T -> K, n: nat)
    requires n <= |xs|
    ensures forall i | 0 <= i < n && IndexOfKey(xs, key, key(xs[i])) == i :: xs[i] in KeepFirst(xs, key, n)
  {
    if n > 0 {
      KeepFirstComplete(xs, key, n - 1);
    }
  }

  /** Remove every element whose key already occurred earlier. */
  function DedupBy<T, K(==)>(xs: seq<T>, key: T -> K): seq<T> {
    KeepFirst(xs, key, |xs|)
  }

  /** The result has pairwise distinct keys, holds exactly the first
      occurrence of each key of the input, and keeps the input's order. */
  lemma DedupByProperties<T, K>(xs: seq<T>, key: T -> K)
    ensures forall i, j :: 0 <= i < j < |DedupBy(xs, key)| ==> key(DedupBy(xs, key)[i]) != key(DedupBy(xs, key)[j])
    ensures forall y | y in DedupBy(xs, key) :: y in xs && xs[IndexOfKey(xs, key, key(y))] == y
    ensures forall x | x in xs :: xs[IndexOfKey(xs, key, key(x))] in DedupBy(xs, key)
    ensures forall i, j :: 0 <= i < j < |DedupBy(xs, key)| ==>
              IndexOfKey(xs, key, key(DedupBy(xs, key)[i])) < IndexOfKey(xs, key, key(DedupBy(xs, key)[j]))
    ensures |DedupBy(xs, key)| <= |xs|
  {
    var r := DedupBy(xs, key);
    KeepFirstSound(xs, key, |xs|);
    KeepFirstOrdered(xs, key, |xs|);
    KeepFirstComplete(xs, key, |xs|);
    forall x | x in xs ensures xs[IndexOfKey(xs, key, key(x))] in r {
      var i :| 0 <= i < |xs| && xs[i] == x;
      var f := IndexOfKey(xs, key, key(x));
      assert IndexOfKey(xs, key, key(xs[f])) == f;
    }
  }

  /** Two kept elements, in order, are the first occurrences of their keys,
      at increasing positions of the input. */
  lemma DedupByPositions<T, K>(xs: seq<T>, key: T -> K, i: nat, j: nat)
    requires i < j < |DedupBy(xs, key)|
    ensures 0 <= IndexOfKey(xs, key, key(DedupBy(xs, key)[i])) < IndexOfKey(xs, key, key(DedupBy(xs, key)[j]))
    ensures xs[IndexOfKey(xs, key, key(DedupBy(xs, key)[i]))] == DedupBy(xs, key)[i]
    ensures xs[IndexOfKey(xs, key, key(DedupBy(xs, key)[j]))] == DedupBy(xs, key)[j]
  {
    var r := DedupBy(xs, key);
    DedupByProperties(xs, key);
    assert r[i] in r && r[j] in r;
    var w :| 0 <= w < |xs| && xs[w] == r[i];
    assert key(xs[w]) == key(r[i]);
  }

  /** Deduplicating a list whose keys are already distinct changes nothing. */
  lemma {:induction false} DedupByDistinct<T, K>(xs: seq<T>, key: T -> K, n: nat)
    requires n <= |xs|
    requires forall i, j :: 0 <= i < j < |xs| ==> key(xs[i]) != key(xs[j])
    ensures KeepFirst(xs, key, n) == xs[..n]
  {
    if n > 0 {
      DedupByDistinct(xs, key, n - 1);
      IndexOfKeyIsFirst(xs, key, key(xs[n - 1]));
      assert IndexOfKey(xs, key, key(xs[n - 1])) == n - 1;
      assert xs[..n] == xs[..n - 1] + [xs[n - 1]];
    }
  }

  /** Deduplicating twice is the same as deduplicating once. */
  lemma DedupByIdempotent<T, K>(xs: seq<T>, key: T -> K)
    ensures DedupBy(DedupBy(xs, key), key) == DedupBy(xs, key)
  {
    var r := DedupBy(xs, key);
    DedupByProperties(xs, key);
    DedupByDistinct(r, key, |r|);
    assert r[..|r|] == r;
  }
}
