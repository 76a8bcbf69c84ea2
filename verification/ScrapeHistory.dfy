/**
 The state of a node scraper as a function of the scrapes it has seen: which pods hold a rate, which
 rate, how rates add up over an unbroken stretch, and when every rate is finite.
 */
module ScrapeHistory {
  import opened Scraping

  /** `prevCPUSecondsTotal` after the scrapes `ms`. */
  function PrevAfter(ms: seq<PodMetric>): PodMetric { if ms == [] then map[] else ms[|ms| - 1] }

  /** `prevCores` after the scrapes `ms`. */
  function CoresAfter(ms: seq<PodMetric>): PodRates {
    if ms == [] then map[]
    else
      var front := ms[..|ms| - 1];
      NextCores(PrevAfter(front), CoresAfter(front), ms[|ms| - 1])
  }

  // ---------- which rate is held ----------

  /** The scrapes from `i` to the last all report the pod. */
  ghost predicate ReportedSince(ms: seq<PodMetric>, key: PodKey, i: nat) {
    forall j :: i <= j < |ms| ==> key in ms[j]
  }

  /** Scrape `i` moved the pod's sample, in the unbroken stretch of scrapes that ends with the last one. */
  ghost predicate Moved(ms: seq<PodMetric>, key: PodKey, i: nat) {
    && 1 <= i < |ms|
    && ReportedSince(ms, key, i - 1)
    && key in ms[i - 1] && key in ms[i]
    && ms[i - 1][key].timestampMs != ms[i][key].timestampMs
  }

  ghost predicate LatestMove(ms: seq<PodMetric>, key: PodKey, i: nat) {
    Moved(ms, key, i) && forall j :: i < j < |ms| ==> !Moved(ms, key, j)
  }

  lemma MovedStep(ms: seq<PodMetric>, key: PodKey, i: nat)
    requires ms != [] && i < |ms| - 1
    ensures Moved(ms, key, i) <==> Moved(ms[..|ms| - 1], key, i) && key in ms[|ms| - 1]
  {
    var front := ms[..|ms| - 1];
    assert forall j :: 0 <= j < |front| ==> front[j] == ms[j];
    if i >= 1 {
      assert ReportedSince(ms, key, i - 1) <==> ReportedSince(front, key, i - 1) && key in ms[|ms| - 1];
    }
  }

  /** The last scrape keeps a fresh rate when it moved the sample, else the one held before. */
  lemma CoresStep(ms: seq<PodMetric>, key: PodKey)
    requires ms != []
    ensures
      var n := |ms| - 1;
      var before, after := CoresAfter(ms[..n]), CoresAfter(ms);
      && PrevAfter(ms) == ms[n]
      && (key in after <==> Moved(ms, key, n) || (n > 0 && key in ms[n - 1] && key in ms[n] && key in before))
      && (Moved(ms, key, n) ==> after[key] == RateAcross(ms[n - 1][key], ms[n][key]))
      && (key in after && !Moved(ms, key, n) ==>
            after[key] == before[key] && ms[n - 1][key].timestampMs == ms[n][key].timestampMs)
  {
    var n := |ms| - 1;
    assert n > 0 ==> PrevAfter(ms[..n]) == ms[n - 1];
    assert n > 0 && key in ms[n - 1] && key in ms[n] ==> ReportedSince(ms, key, n - 1);
  }

  /**
   A pod holds a rate exactly when its current unbroken stretch of scrapes moved its sample; the rate is
   the one across the latest move, stamped with the latest sample.
   */
  lemma {:induction false} HeldRate(ms: seq<PodMetric>, key: PodKey)
    ensures key in CoresAfter(ms) <==> exists i: nat :: Moved(ms, key, i)
    ensures key in CoresAfter(ms) ==>
      key in PrevAfter(ms) && CoresAfter(ms)[key].timestampMs == PrevAfter(ms)[key].timestampMs
    ensures forall i: nat :: LatestMove(ms, key, i) ==>
      key in CoresAfter(ms) && CoresAfter(ms)[key] == RateAcross(ms[i - 1][key], ms[i][key])
  {
    if ms == [] {
    } else {
      var n := |ms| - 1;
      HeldRate(ms[..n], key);
      HeldExactly(ms, ms[..n], key);
      HeldStamp(ms, key);
      forall i: nat | LatestMove(ms, key, i)
        ensures key in CoresAfter(ms) && CoresAfter(ms)[key] == RateAcross(ms[i - 1][key], ms[i][key])
      {
        HeldValue(ms, key, i);
      }
    }
  }

  lemma HeldExactly(ms: seq<PodMetric>, front: seq<PodMetric>, key: PodKey)
    requires ms != [] && front == ms[..|ms| - 1]
    requires key in CoresAfter(front) <==> exists i: nat :: Moved(front, key, i)
    ensures key in CoresAfter(ms) <==> exists i: nat :: Moved(ms, key, i)
  {
    var n := |ms| - 1;
    CoresStep(ms, key);
    if key in CoresAfter(ms) && !Moved(ms, key, n) {
      var i: nat :| Moved(front, key, i);
      MovedStep(ms, key, i);
      assert Moved(ms, key, i);
    }
    if i: nat :| Moved(ms, key, i) && i != n {
      MovedStep(ms, key, i);
      assert Moved(front, key, i);
      MovedIsReported(ms, key, i);
    }
  }

  lemma MovedIsReported(ms: seq<PodMetric>, key: PodKey, i: nat)
    requires Moved(ms, key, i)
    ensures key in ms[|ms| - 1] && key in ms[|ms| - 2]
  {
  }

  lemma HeldStamp(ms: seq<PodMetric>, key: PodKey)
    requires ms != []
    requires key in CoresAfter(ms[..|ms| - 1]) ==>
      var prev := PrevAfter(ms[..|ms| - 1]);
      key in prev && CoresAfter(ms[..|ms| - 1])[key].timestampMs == prev[key].timestampMs
    ensures key in CoresAfter(ms) ==>
      key in PrevAfter(ms) && CoresAfter(ms)[key].timestampMs == PrevAfter(ms)[key].timestampMs
  {
    CoresStep(ms, key);
    assert |ms| > 1 ==> PrevAfter(ms[..|ms| - 1]) == ms[|ms| - 2];
  }

  lemma HeldValue(ms: seq<PodMetric>, key: PodKey, i: nat)
    requires ms != [] && LatestMove(ms, key, i)
    requires LatestMove(ms[..|ms| - 1], key, i) ==>
      var before := CoresAfter(ms[..|ms| - 1]);
      key in before && before[key] == RateAcross(ms[i - 1][key], ms[i][key])
    ensures key in CoresAfter(ms) && CoresAfter(ms)[key] == RateAcross(ms[i - 1][key], ms[i][key])
  {
    var n := |ms| - 1;
    CoresStep(ms, key);
    if i < n {
      MovedStep(ms, key, i);
      MovedIsReported(ms, key, i);
      assert !Moved(ms, key, n);
      forall j | i < j < n ensures !Moved(ms[..n], key, j) {
        MovedStep(ms, key, j);
        assert !Moved(ms, key, j);
      }
      assert LatestMove(ms[..n], key, i);
    }
  }

  lemma {:induction false} LatestMoveFrom(ms: seq<PodMetric>, key: PodKey, i: nat) returns (j: nat)
    requires Moved(ms, key, i)
    ensures LatestMove(ms, key, j)
    decreases |ms| - i
  {
    if LatestMove(ms, key, i) {
      j := i;
    } else {
      var k :| i < k < |ms| && Moved(ms, key, k);
      j := LatestMoveFrom(ms, key, k);
    }
  }

  // ---------- telescoping ----------

  /** The scrapes from `a` to `b` all report the pod. */
  ghost predicate Reported(ms: seq<PodMetric>, key: PodKey, a: nat, b: nat) {
    a <= b < |ms| && forall j :: a <= j <= b ==> key in ms[j]
  }

  /** Seconds, as the code counts them, by which scrape `i` moved the sample. */
  function Step(ms: seq<PodMetric>, key: PodKey, i: nat): int
    requires 0 < i < |ms| && key in ms[i - 1] && key in ms[i]
  {
    WholeSeconds(ms[i][key].timestampMs - ms[i - 1][key].timestampMs)
  }

  /** The usage booked by fresh rates after scrape `a` up to scrape `b`: each rate times its seconds. */
  ghost function Work(ms: seq<PodMetric>, key: PodKey, a: nat, b: nat): real
    requires Reported(ms, key, a, b)
  {
    if a == b then 0.0
    else
      var rates := CoresAfter(ms[..b + 1]);
      Work(ms, key, a, b - 1) +
      if ms[b][key].timestampMs != ms[b - 1][key].timestampMs && key in rates && rates[key].cores.Finite? then
        rates[key].cores.value * Step(ms, key, b) as real
      else 0.0
  }

  /** Changes of the counter between samples that carry the same timestamp. */
  ghost function Drift(ms: seq<PodMetric>, key: PodKey, a: nat, b: nat): real
    requires Reported(ms, key, a, b)
  {
    if a == b then 0.0
    else
      Drift(ms, key, a, b - 1) +
      if ms[b][key].timestampMs == ms[b - 1][key].timestampMs then ms[b][key].value - ms[b - 1][key].value else 0.0
  }

  /** Samples that moved did so by at least a second, forward or back. */
  ghost predicate Gapped(ms: seq<PodMetric>, key: PodKey, a: nat, b: nat)
    requires Reported(ms, key, a, b)
  {
    forall i :: a < i <= b && ms[i - 1][key].timestampMs != ms[i][key].timestampMs ==> Step(ms, key, i) != 0
  }

  lemma FreshRate(ms: seq<PodMetric>, key: PodKey, i: nat)
    requires 0 < i < |ms| && key in ms[i - 1] && key in ms[i]
    requires ms[i - 1][key].timestampMs != ms[i][key].timestampMs
    ensures key in CoresAfter(ms[..i + 1])
    ensures CoresAfter(ms[..i + 1])[key] == RateAcross(ms[i - 1][key], ms[i][key])
  {
    assert ms[..i + 1][..i] == ms[..i];
    assert PrevAfter(ms[..i]) == ms[i - 1];
  }

  lemma RateTimesSeconds(prev: MetricValue, cur: MetricValue)
    requires WholeSeconds(cur.timestampMs - prev.timestampMs) != 0
    ensures RateAcross(prev, cur).cores.Finite?
    ensures
      RateAcross(prev, cur).cores.value * WholeSeconds(cur.timestampMs - prev.timestampMs) as real ==
        cur.value - prev.value
  {
    QuotientTimes(cur.value - prev.value, WholeSeconds(cur.timestampMs - prev.timestampMs) as real);
  }

  lemma QuotientTimes(x: real, y: real)
    requires y != 0.0
    ensures x / y * y == x
  {
  }

  lemma TelescopingStep(ms: seq<PodMetric>, key: PodKey, a: nat, b: nat)
    requires a < b && Reported(ms, key, a, b) && Gapped(ms, key, a, b)
    ensures
      Work(ms, key, a, b) + Drift(ms, key, a, b) ==
        Work(ms, key, a, b - 1) + Drift(ms, key, a, b - 1) + (ms[b][key].value - ms[b - 1][key].value)
  {
    hide CoresAfter, RateAcross, WholeSeconds;
    if ms[b - 1][key].timestampMs != ms[b][key].timestampMs {
      FreshRate(ms, key, b);
      RateTimesSeconds(ms[b - 1][key], ms[b][key]);
    }
  }

  /** Over an unbroken stretch the fresh rates account for the whole growth of the counter. */
  lemma {:induction false} Telescoping(ms: seq<PodMetric>, key: PodKey, a: nat, b: nat)
    requires Reported(ms, key, a, b) && Gapped(ms, key, a, b)
    ensures Work(ms, key, a, b) + Drift(ms, key, a, b) == ms[b][key].value - ms[a][key].value
  {
    if a == b {
    } else {
      Telescoping(ms, key, a, b - 1);
      TelescopingStep(ms, key, a, b);
    }
  }

  /** When equal timestamps mean equal samples, rates times seconds add up to last minus first counter. */
  lemma {:induction false} SteadySamplesTelescope(ms: seq<PodMetric>, key: PodKey, a: nat, b: nat)
    requires Reported(ms, key, a, b) && Gapped(ms, key, a, b)
    requires forall i :: a < i <= b && ms[i - 1][key].timestampMs == ms[i][key].timestampMs ==>
      ms[i - 1][key].value == ms[i][key].value
    ensures Work(ms, key, a, b) == ms[b][key].value - ms[a][key].value
  {
    Telescoping(ms, key, a, b);
    NoDrift(ms, key, a, b);
  }

  lemma {:induction false} NoDrift(ms: seq<PodMetric>, key: PodKey, a: nat, b: nat)
    requires Reported(ms, key, a, b)
    requires forall i :: a < i <= b && ms[i - 1][key].timestampMs == ms[i][key].timestampMs ==>
      ms[i - 1][key].value == ms[i][key].value
    ensures Drift(ms, key, a, b) == 0.0
  {
    if a == b {
    } else {
      NoDrift(ms, key, a, b - 1);
    }
  }

  // ---------- precision ----------

  /**
   Cutting the time difference to `k` whole seconds overstates the rate of a growing counter by less
   than one part in `k`, and never understates it.
   */
  lemma RatePrecision(prev: MetricValue, cur: MetricValue)
    requires cur.timestampMs - prev.timestampMs >= 1000 && cur.value > prev.value
    ensures
      var ms, k := cur.timestampMs - prev.timestampMs, WholeSeconds(cur.timestampMs - prev.timestampMs);
      var exact := (cur.value - prev.value) * 1000.0 / ms as real;
      && RateAcross(prev, cur).cores.Finite?
      && exact <= RateAcross(prev, cur).cores.value < (1.0 + 1.0 / k as real) * exact
  {
    var ms, k := cur.timestampMs - prev.timestampMs, WholeSeconds(cur.timestampMs - prev.timestampMs);
    Precision(cur.value - prev.value, ms as real, k as real);
  }

  lemma Precision(growth: real, ms: real, k: real)
    requires growth > 0.0 && k >= 1.0 && 1000.0 * k <= ms < 1000.0 * k + 1000.0
    ensures growth * 1000.0 / ms <= growth / k < (1.0 + 1.0 / k) * (growth * 1000.0 / ms)
  {
    var exact, rate := growth * 1000.0 / ms, growth / k;
    var scaled, bound := exact * ms, exact * (k + 1.0);
    assert scaled == growth * 1000.0 && rate * k == growth;
    assert scaled <= rate * ms by {
      assert rate * (1000.0 * k) <= rate * ms;
    }
    assert scaled < 1000.0 * bound by {
      assert exact > 0.0;
      MultiplyLess(ms, 1000.0 * k + 1000.0, exact);
    }
    assert (1.0 + 1.0 / k) * exact == bound / k;
    DivideLess(growth, bound, k);
  }

  lemma MultiplyLess(a: real, b: real, k: real)
    requires a < b && k > 0.0
    ensures k * a < k * b
  {
  }

  lemma DivideLess(a: real, b: real, k: real)
    requires a < b && k > 0.0
    ensures a / k < b / k
  {
  }

  // ---------- when every rate is finite ----------

  lemma WholeSecondsZero(ms: int)
    ensures WholeSeconds(ms) == 0 <==> -1000 < ms < 1000
  {
  }

  /** Consecutive samples of a pod never carry different timestamps less than a second apart. */
  ghost predicate NoShortGap(ms: seq<PodMetric>) {
    forall i, key :: !ShortGap(ms, key, i)
  }

  predicate ShortGap(ms: seq<PodMetric>, key: PodKey, i: int) {
    && 0 < i < |ms|
    && key in ms[i - 1] && key in ms[i]
    && ms[i - 1][key].timestampMs != ms[i][key].timestampMs
    && -1000 < ms[i][key].timestampMs - ms[i - 1][key].timestampMs < 1000
  }

  /** No division by zero ever reaches a rate if and only if no pod's sample ever moved by less than a second. */
  lemma RatesFinite(ms: seq<PodMetric>)
    ensures (forall n: nat :: n <= |ms| ==> AllFinite(CoresAfter(ms[..n]))) <==> NoShortGap(ms)
  {
    hide WholeSeconds;
    if NoShortGap(ms) {
      forall n: nat | n <= |ms| ensures AllFinite(CoresAfter(ms[..n])) {
        FiniteUpTo(ms, n);
      }
    } else {
      var i, key :| ShortGap(ms, key, i);
      FreshRate(ms, key, i);
      WholeSecondsZero(ms[i][key].timestampMs - ms[i - 1][key].timestampMs);
      assert !AllFinite(CoresAfter(ms[..i + 1]));
    }
  }

  /** Two samples half a second apart: the second scrape divides by zero. */
  lemma HalfSecondDividesByZero(key: PodKey, a: real, b: real)
    ensures
      var ms := [map[key := MetricValue(a, 0)], map[key := MetricValue(b, 500)]];
      key in CoresAfter(ms) && CoresAfter(ms)[key] == Rate(NonFinite, 500)
  {
    var ms := [map[key := MetricValue(a, 0)], map[key := MetricValue(b, 500)]];
    FreshRate(ms, key, 1);
    assert ms[..2] == ms;
  }

  lemma {:induction false} FiniteUpTo(ms: seq<PodMetric>, n: nat)
    requires n <= |ms| && NoShortGap(ms)
    ensures AllFinite(CoresAfter(ms[..n]))
  {
    hide WholeSeconds;
    if n == 0 {
    } else {
      FiniteUpTo(ms, n - 1);
      assert ms[..n][..n - 1] == ms[..n - 1];
      forall key | key in CoresAfter(ms[..n]) ensures CoresAfter(ms[..n])[key].cores.Finite? {
        if n > 1 && key in ms[n - 2] && ms[n - 2][key].timestampMs != ms[n - 1][key].timestampMs {
          assert !ShortGap(ms, key, n - 1);
          WholeSecondsZero(ms[n - 1][key].timestampMs - ms[n - 2][key].timestampMs);
        }
      }
    }
  }
}
