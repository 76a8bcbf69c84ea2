/**
 What the statistics of a row mean: totals and counts always, the maximum and the minimum under exact
 conditions, and which facts do not depend on the order of the readings.
 */
module UsageLaws {
  import opened Sums
  import opened UsageTable

  ghost predicate NonNegative(xs: seq<real>) { forall i :: 0 <= i < |xs| ==> xs[i] >= 0.0 }

  ghost predicate HasNonNegative(xs: seq<real>) { exists i :: 0 <= i < |xs| && xs[i] >= 0.0 }

  ghost predicate IsMax(m: real, xs: seq<real>) {
    m in xs && forall i :: 0 <= i < |xs| ==> xs[i] <= m
  }

  ghost predicate IsMin(m: real, xs: seq<real>) {
    m in xs && forall i :: 0 <= i < |xs| ==> m <= xs[i]
  }

  function Last(xs: seq<real>): real
    requires xs != []
  {
    xs[|xs| - 1]
  }

  /** The readings after the last zero. */
  function ZeroFreeSuffix(xs: seq<real>): seq<real> {
    if xs == [] || Last(xs) == 0.0 then [] else ZeroFreeSuffix(xs[..|xs| - 1]) + [Last(xs)]
  }

  // ---------- count, total and maximum ----------

  lemma {:induction false} CreatedStats(xs: seq<real>)
    requires xs != []
    ensures Created(xs).readings == |xs| && Created(xs).total == Total(xs) && IsMax(Created(xs).max, xs)
  {
    var n := |xs| - 1;
    if n == 0 {
    } else {
      CreatedStats(xs[..n]);
    }
    assert xs == xs[..n] + [xs[n]];
  }

  lemma {:induction false} FoldedStats(xs: seq<real>)
    ensures Folded(xs).readings == |xs| && Folded(xs).total == Total(xs)
    ensures IsMax(Folded(xs).max, [0.0] + xs)
  {
    if xs == [] {
    } else {
      var n := |xs| - 1;
      FoldedStats(xs[..n]);
      assert [0.0] + xs == ([0.0] + xs[..n]) + [xs[n]];
    }
  }

  lemma MaxBounds(xs: seq<real>)
    ensures Folded(xs).max >= 0.0
    ensures forall i :: 0 <= i < |xs| ==> xs[i] <= Folded(xs).max
  {
    FoldedStats(xs);
    assert ([0.0] + xs)[0] <= Folded(xs).max;
    forall i | 0 <= i < |xs| ensures xs[i] <= Folded(xs).max {
      assert ([0.0] + xs)[i + 1] <= Folded(xs).max;
    }
  }

  /** Which upsert created the row shows in the maximum only. */
  lemma {:induction false} CreatorShowsInMaxOnly(xs: seq<real>)
    requires xs != []
    ensures Created(xs).(max := Folded(xs).max) == Folded(xs)
  {
    if |xs| <= 1 {
    } else {
      CreatorShowsInMaxOnly(xs[..|xs| - 1]);
    }
  }

  /** A metric's columns forget which upsert created the row if and only if some reading is not negative. */
  lemma CreatorForgotten(xs: seq<real>)
    requires xs != []
    ensures Created(xs) == Folded(xs) <==> HasNonNegative(xs)
  {
    CreatorShowsInMaxOnly(xs);
    CreatedStats(xs);
    FoldedStats(xs);
    MaxBounds(xs);
    var c, f := Created(xs).max, Folded(xs).max;
    assert f == 0.0 || f in xs;
    if c == f {
      assert c in xs;
    }
  }

  /**
   The columns of either metric are a function of that metric's readings alone: two logs that agree on
   them for a row agree on the columns, however CPU and memory upserts were interleaved.
   */
  lemma InterleavingIrrelevant(a: seq<Write>, b: seq<Write>, k: Key, m: Metric)
    requires Values(a, k, m) == Values(b, k, m) && HasNonNegative(Values(a, k, m))
    ensures k in Apply(map[], a) && k in Apply(map[], b)
    ensures Apply(map[], a)[k].Of(m) == Apply(map[], b)[k].Of(m) == Folded(Values(a, k, m))
  {
    RowOfLog(a, k, m);
    RowOfLog(b, k, m);
    CreatorForgotten(Values(a, k, m));
  }

  // ---------- the minimum ----------

  /**
   Without negative readings the stored minimum forgets everything up to the last zero; a negative reading
   makes it the least reading for good.
   */
  lemma {:induction false} StoredMin(xs: seq<real>)
    ensures !NonNegative(xs) ==> IsMin(Folded(xs).min, xs) && Folded(xs).min < 0.0
    ensures NonNegative(xs) && (xs == [] || Last(xs) == 0.0) ==> Folded(xs).min == 0.0
    ensures NonNegative(xs) && xs != [] && Last(xs) != 0.0 ==>
      Folded(xs).min > 0.0 && IsMin(Folded(xs).min, ZeroFreeSuffix(xs))
  {
    if xs == [] {
    } else {
      var n := |xs| - 1;
      var front, x := xs[..n], xs[n];
      StoredMin(front);
      assert xs == front + [x];
      assert NonNegative(xs) <==> NonNegative(front) && x >= 0.0;
      if n > 0 && Last(front) == 0.0 {
        assert ZeroFreeSuffix(front) == [];
      }
      if NonNegative(front) && x < 0.0 {
        assert Folded(xs).min == x;
      }
    }
  }

  lemma {:induction false} SuffixReadings(xs: seq<real>)
    ensures forall x :: x in ZeroFreeSuffix(xs) ==> x in xs
    ensures 0.0 !in xs ==> ZeroFreeSuffix(xs) == xs
  {
    if xs == [] {
    } else {
      var n := |xs| - 1;
      assert xs == xs[..n] + [xs[n]];
      SuffixReadings(xs[..n]);
    }
  }

  /** No zero was overwritten by a later reading, or a negative reading came. */
  ghost predicate MinSurvives(xs: seq<real>)
    requires xs != []
  {
    0.0 !in xs || Last(xs) == 0.0 || !NonNegative(xs)
  }

  /** The stored minimum is the least reading if and only if it survived the zeros. */
  lemma StoredMinIsTrueMin(xs: seq<real>)
    requires xs != []
    ensures IsMin(Folded(xs).min, xs) <==> MinSurvives(xs)
  {
    StoredMin(xs);
    SuffixReadings(xs);
    assert Last(xs) in xs;
    if !MinSurvives(xs) {
      var i :| 0 <= i < |xs| && xs[i] == 0.0;
      assert Folded(xs).min > xs[i];
    }
  }

  // ---------- order of the readings ----------

  lemma PermutationMembers(xs: seq<real>, ys: seq<real>)
    requires multiset(xs) == multiset(ys)
    ensures |xs| == |ys|
    ensures forall x :: x in xs <==> x in ys
    ensures NonNegative(xs) ==> NonNegative(ys)
  {
    assert |multiset(xs)| == |multiset(ys)|;
    assert forall i :: 0 <= i < |ys| ==> ys[i] in ys;
    forall x ensures x in xs <==> x in ys {
      assert x in xs <==> x in multiset(xs);
      assert x in ys <==> x in multiset(ys);
    }
  }

  lemma {:induction false} AllZeros(xs: seq<real>)
    requires forall i :: 0 <= i < |xs| ==> xs[i] == 0.0
    ensures Folded(xs) == Stats(0.0, 0.0, 0.0, |xs|)
  {
    if xs == [] {
    } else {
      AllZeros(xs[..|xs| - 1]);
    }
  }

  /** Counts, totals and maxima never depend on the order of the readings. */
  lemma OrderShowsInMinOnly(xs: seq<real>, ys: seq<real>)
    requires multiset(xs) == multiset(ys)
    ensures Folded(xs).(min := Folded(ys).min) == Folded(ys)
  {
    PermutationMembers(xs, ys);
    TotalPermutation(xs, ys);
    FoldedStats(xs);
    FoldedStats(ys);
    var a, b := Folded(xs).max, Folded(ys).max;
    assert a in [0.0] + ys by {
      assert a == 0.0 || a in xs;
    }
    assert b in [0.0] + xs by {
      assert b == 0.0 || b in ys;
    }
  }

  lemma MoveToEnd(xs: seq<real>, x: real) returns (ys: seq<real>)
    requires x in xs
    ensures ys != [] && Last(ys) == x && multiset(ys) == multiset(xs)
  {
    var i :| 0 <= i < |xs| && xs[i] == x;
    WithoutMultiset(xs, i);
    ys := Without(xs, i) + [x];
    assert multiset(ys) == multiset(Without(xs, i)) + multiset{x};
  }

  /** Every order of the readings leaves the same columns, unless zeros and positive readings alone are mixed. */
  lemma OrderIrrelevant(xs: seq<real>)
    ensures (forall ys: seq<real> :: multiset(ys) == multiset(xs) ==> Folded(ys) == Folded(xs))
            <==> 0.0 !in xs || (forall x :: x in xs ==> x == 0.0) || !NonNegative(xs)
  {
    if 0.0 !in xs || (forall x :: x in xs ==> x == 0.0) || !NonNegative(xs) {
      forall ys: seq<real> | multiset(ys) == multiset(xs) ensures Folded(ys) == Folded(xs) {
        PermutationMembers(xs, ys);
        PermutationMembers(ys, xs);
        if 0.0 in xs && NonNegative(xs) {
          forall i | 0 <= i < |xs| ensures xs[i] == 0.0 && ys[i] == 0.0 {
            assert xs[i] in xs && ys[i] in xs;
          }
          AllZeros(xs);
          AllZeros(ys);
        } else if xs != [] {
          OrderShowsInMinOnly(xs, ys);
          StoredMinIsTrueMin(xs);
          StoredMinIsTrueMin(ys);
        }
      }
    } else {
      var x :| x in xs && x != 0.0;
      var a := MoveToEnd(xs, 0.0);
      var b := MoveToEnd(xs, x);
      PermutationMembers(xs, a);
      PermutationMembers(xs, b);
      StoredMin(a);
      StoredMin(b);
      assert Folded(a) != Folded(b);
    }
  }

  // ---------- the generated average ----------

  lemma AverageWithin(xs: seq<real>, lo: real)
    requires xs != []
    requires forall i :: 0 <= i < |xs| ==> lo <= xs[i]
    ensures lo <= Avg(Folded(xs)) <= Folded(xs).max
  {
    hide *;
    var s := Folded(xs);
    FoldedStats(xs);
    MaxBounds(xs);
    TotalBounds(xs, lo, s.max);
    AverageOf(s, Total(xs), |xs|, lo);
  }

  lemma AverageOf(s: Stats, total: real, n: nat, lo: real)
    requires n > 0 && s.readings == n && s.total == total
    requires lo * n as real <= total <= s.max * n as real
    ensures lo <= Avg(s) <= s.max
  {
    QuotientBounds(total, n, lo, s.max);
  }

  lemma {:induction false} LeastReading(xs: seq<real>) returns (lo: real)
    requires xs != []
    ensures IsMin(lo, xs)
  {
    if |xs| == 1 {
      lo := xs[0];
    } else {
      var n := |xs| - 1;
      lo := LeastReading(xs[..n]);
      assert xs == xs[..n] + [xs[n]];
      lo := if xs[n] < lo then xs[n] else lo;
    }
  }

  /**
   Whichever upsert created the row, the average never exceeds the maximum, and it is not negative unless some
   reading is.
   */
  lemma AverageBounds(xs: seq<real>)
    requires xs != []
    ensures Avg(Folded(xs)) == Avg(Created(xs))
    ensures Avg(Folded(xs)) <= Folded(xs).max && Avg(Created(xs)) <= Created(xs).max
    ensures NonNegative(xs) ==> 0.0 <= Avg(Folded(xs))
  {
    var lo := LeastReading(xs);
    AverageWithin(xs, lo);
    assert NonNegative(xs) ==> lo >= 0.0;
    CreatorShowsInMaxOnly(xs);
    CreatedStats(xs);
    assert Avg(Folded(xs)) == Avg(Created(xs));
    hide Avg, Folded, Created, Total;
    CreatedAverage(xs, lo);
  }

  lemma CreatedAverage(xs: seq<real>, lo: real)
    requires xs != [] && IsMin(lo, xs)
    ensures Avg(Created(xs)) <= Created(xs).max
  {
    hide *;
    var s := Created(xs);
    CreatedStats(xs);
    BelowMax(xs, lo, s.max);
    AverageOf(s, Total(xs), |xs|, lo);
  }

  lemma BelowMax(xs: seq<real>, lo: real, hi: real)
    requires IsMin(lo, xs) && IsMax(hi, xs)
    ensures lo * |xs| as real <= Total(xs) <= hi * |xs| as real
  {
    hide Total;
    TotalBounds(xs, lo, hi);
  }

  /** The average times the number of readings is their total, and without readings it is 0. */
  lemma AverageIs(xs: seq<real>)
    ensures Avg(Folded(xs)) * |xs| as real == Total(xs)
    ensures Avg(NO_READINGS) == 0.0
  {
    FoldedStats(xs);
    if xs != [] {
      QuotientTimes(Total(xs), |xs| as real);
    }
  }

  lemma QuotientTimes(x: real, y: real)
    requires y != 0.0
    ensures x / y * y == x
  {
  }

  /** Some reading after the last zero is not above the average of all. */
  ghost predicate SuffixReachesAverage(xs: seq<real>)
    requires xs != []
  {
    exists x :: x in ZeroFreeSuffix(xs) && x <= Total(xs) / |xs| as real
  }

  /**
   The stored minimum does not exceed the average if and only if the last reading is 0, some reading is negative,
   or the readings after the last zero reach down to the average.
   */
  lemma MinBelowAverage(xs: seq<real>)
    requires xs != []
    ensures Folded(xs).min <= Avg(Folded(xs)) <==>
      Last(xs) == 0.0 || !NonNegative(xs) || SuffixReachesAverage(xs)
  {
    StoredMin(xs);
    FoldedStats(xs);
    AverageBounds(xs);
    var suffix, min := ZeroFreeSuffix(xs), Folded(xs).min;
    if !NonNegative(xs) {
      AverageWithin(xs, min);
    } else if Last(xs) != 0.0 {
      assert min in suffix;
      forall x | x in suffix ensures min <= x {
        var i :| 0 <= i < |suffix| && suffix[i] == x;
      }
    }
  }

  lemma QuotientBounds(total: real, n: nat, lo: real, hi: real)
    requires n > 0 && lo * n as real <= total <= hi * n as real
    ensures lo <= total / n as real <= hi
  {
  }

  /** Once a zero has been overwritten the stored minimum can exceed even the average. */
  lemma StoredMinAboveAverage()
    ensures Folded([0.0, 0.0, 6.0]).min > Avg(Folded([0.0, 0.0, 6.0]))
    ensures !SuffixReachesAverage([0.0, 0.0, 6.0])
  {
    FoldStep([], 0.0);
    FoldStep([0.0], 0.0);
    FoldStep([0.0, 0.0], 6.0);
    assert [0.0] == [] + [0.0] && [0.0, 0.0] == [0.0] + [0.0] && [0.0, 0.0, 6.0] == [0.0, 0.0] + [6.0];
    MinBelowAverage([0.0, 0.0, 6.0]);
  }
}
