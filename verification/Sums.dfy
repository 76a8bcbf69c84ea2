/** Finite sums of reals over sequences, and the conservation law of partitions. */
module Sums {

  function Total(xs: seq<real>): real {
    if xs == [] then 0.0 else Total(xs[..|xs| - 1]) + xs[|xs| - 1]
  }

  lemma {:induction false} TotalConcat(xs: seq<real>, ys: seq<real>)
    ensures Total(xs + ys) == Total(xs) + Total(ys)
  {
    if ys == [] {
      assert xs + ys == xs;
    } else {
      TotalConcat(xs, ys[..|ys| - 1]);
      assert (xs + ys)[..|xs + ys| - 1] == xs + ys[..|ys| - 1];
    }
  }

  function Without<T>(xs: seq<T>, i: nat): (r: seq<T>)
    requires i < |xs|
    ensures |r| == |xs| - 1
  {
    xs[..i] + xs[i + 1..]
  }

  lemma WithoutMultiset(xs: seq<real>, i: nat)
    requires i < |xs|
    ensures multiset(Without(xs, i)) + multiset{xs[i]} == multiset(xs)
  {
    var a, b := xs[..i], xs[i + 1..];
    assert xs == (a + [xs[i]]) + b;
    assert multiset(xs) == multiset(a + [xs[i]]) + multiset(b);
    assert multiset(Without(xs, i)) == multiset(a) + multiset(b);
  }

  lemma IndexOf(ys: seq<real>, x: real) returns (i: nat)
    requires x in multiset(ys)
    ensures i < |ys| && ys[i] == x
  {
    assert x in ys;
    i :| 0 <= i < |ys| && ys[i] == x;
  }

  lemma Cancel(a: multiset<real>, b: multiset<real>, x: real)
    requires a + multiset{x} == b + multiset{x}
    ensures a == b
  {
    assert a == (a + multiset{x}) - multiset{x};
    assert b == (b + multiset{x}) - multiset{x};
  }

  /** Taking the last reading of `xs` out of both orders leaves two orders of the same readings. */
  lemma TakeLast(xs: seq<real>, ys: seq<real>) returns (i: nat)
    requires multiset(xs) == multiset(ys) && xs != []
    ensures i < |ys| && ys[i] == xs[|xs| - 1]
    ensures multiset(Without(xs, |xs| - 1)) == multiset(Without(ys, i))
  {
    hide *;
    var x := xs[|xs| - 1];
    assert x in multiset(ys) by {
      assert x in multiset(xs);
    }
    i := IndexOf(ys, x);
    WithoutMultiset(xs, |xs| - 1);
    WithoutMultiset(ys, i);
    Cancel(multiset(Without(xs, |xs| - 1)), multiset(Without(ys, i)), x);
  }

  lemma {:induction false} TotalWithout(xs: seq<real>, i: nat)
    requires i < |xs|
    ensures Total(xs) == Total(Without(xs, i)) + xs[i]
  {
    var n := |xs| - 1;
    if i < n {
      TotalWithout(xs[..n], i);
      assert Without(xs, i)[..n - 1] == Without(xs[..n], i);
    } else {
      assert Without(xs, i) == xs[..n];
    }
  }

  lemma {:induction false} TotalPermutation(xs: seq<real>, ys: seq<real>)
    requires multiset(xs) == multiset(ys)
    ensures Total(xs) == Total(ys)
    decreases |xs|
  {
    if xs == [] {
      assert |multiset(ys)| == |ys|;
    } else {
      hide *;
      var i := TakeLast(xs, ys);
      TotalPermutation(Without(xs, |xs| - 1), Without(ys, i));
      TotalWithout(xs, |xs| - 1);
      TotalWithout(ys, i);
    }
  }

  lemma {:induction false} TotalBounds(xs: seq<real>, lo: real, hi: real)
    requires forall i :: 0 <= i < |xs| ==> lo <= xs[i] <= hi
    ensures lo * |xs| as real <= Total(xs) <= hi * |xs| as real
  {
    if xs == [] {
    } else {
      TotalBounds(xs[..|xs| - 1], lo, hi);
    }
  }

  ghost predicate Distinct<T>(xs: seq<T>) {
    forall i, j :: 0 <= i < j < |xs| ==> xs[i] != xs[j]
  }

  /** The weight of all the rows. */
  function Weight<T>(rows: seq<T>, w: T -> real): real {
    if rows == [] then 0.0 else Weight(rows[..|rows| - 1], w) + w(rows[|rows| - 1])
  }

  /** The weight of the rows that carry key `k`. */
  function KeyWeight<T, K(==)>(rows: seq<T>, key: T -> K, w: T -> real, k: K): real {
    if rows == [] then 0.0
    else
      var row := rows[|rows| - 1];
      KeyWeight(rows[..|rows| - 1], key, w, k) + if key(row) == k then w(row) else 0.0
  }

  /** The weights of the keys of `ks`, added up. */
  function SumOverKeys<T, K(==)>(ks: seq<K>, rows: seq<T>, key: T -> K, w: T -> real): real {
    if ks == [] then 0.0
    else SumOverKeys(ks[..|ks| - 1], rows, key, w) + KeyWeight(rows, key, w, ks[|ks| - 1])
  }

  lemma {:induction false} SumOverKeysStep<T, K>(ks: seq<K>, rows: seq<T>, key: T -> K, w: T -> real)
    requires Distinct(ks) && rows != []
    ensures
      var row := rows[|rows| - 1];
      SumOverKeys(ks, rows, key, w) ==
        SumOverKeys(ks, rows[..|rows| - 1], key, w) + if key(row) in ks then w(row) else 0.0
  {
    if ks == [] {
    } else {
      SumOverKeysStep(ks[..|ks| - 1], rows, key, w);
    }
  }

  lemma {:induction false} SumOverKeysNoRows<T, K>(ks: seq<K>, key: T -> K, w: T -> real)
    ensures SumOverKeys(ks, [], key, w) == 0.0
  {
    if ks == [] {
    } else {
      SumOverKeysNoRows(ks[..|ks| - 1], key, w);
    }
  }

  /**
   Conservation: distinct keys that cover every row of some weight share out exactly the weight of the
   rows, so that nothing is lost and nothing is counted under two keys.
   */
  lemma {:induction false} Conservation<T, K>(ks: seq<K>, rows: seq<T>, key: T -> K, w: T -> real)
    requires Distinct(ks)
    requires forall i :: 0 <= i < |rows| ==> key(rows[i]) in ks || w(rows[i]) == 0.0
    ensures SumOverKeys(ks, rows, key, w) == Weight(rows, w)
  {
    if rows == [] {
      SumOverKeysNoRows(ks, key, w);
    } else {
      Conservation(ks, rows[..|rows| - 1], key, w);
      SumOverKeysStep(ks, rows, key, w);
    }
  }
}
