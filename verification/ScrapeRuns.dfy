/**
 Whole runs: the passes of any number of node scrapers, in any order in which their writes can reach the
 database, fill one table; every row holds exactly the samples of its pod and hour.
 */
module ScrapeRuns {
  import opened Clock
  import opened Queries
  import opened ScrapeHistory
  import opened Scraping
  import opened Sums
  import opened UsageCounts
  import opened UsageLaws
  import opened UsageTable

  /**
   One pass of a scraper over the samples of one metric: what it emitted, what its lookups in the pod cache
   returned, and whether its write succeeded.  Passes are ordered by their writes, so that those of other scrapers
   may come between the CPU and the memory pass of a scrape.
   */
  datatype Pass = Pass(
    scraper: nat, metric: Metric, samples: PodMetric, cache: PodCache, emission: Emission, written: bool)

  /** The CPU metrics that scraper `s` has seen. */
  function History(run: seq<Pass>, s: nat): seq<PodMetric> {
    if run == [] then []
    else
      var front, last := History(run[..|run| - 1], s), run[|run| - 1];
      if last.scraper == s && last.metric.Cpu? then front + [last.samples] else front
  }

  /** What the last pass of the run walks over: the rates of its scraper's history, or the working sets. */
  function LastRates(run: seq<Pass>): PodRates
    requires run != []
  {
    var last := run[|run| - 1];
    if last.metric.Cpu? then CoresAfter(History(run, last.scraper)) else AsRates(last.samples)
  }

  /** Every pass emits what its scraper's history and its samples call for, and no rate is infinite. */
  ghost predicate Possible(run: seq<Pass>, zone: int) {
    run == [] ||
    var last := run[|run| - 1];
    && Possible(run[..|run| - 1], zone)
    && AllFinite(LastRates(run))
    && last.emission.Of(LastRates(run), last.cache, zone)
  }

  /** The records that a pass commits. */
  function Committed(pass: Pass, cluster: int): seq<Write>
    requires forall i :: 0 <= i < |pass.emission.out| ==> pass.emission.out[i].cores.Finite?
  {
    if pass.written then Records(pass.metric, cluster, Params(pass.emission.out)) else []
  }

  /** The records that the run commits. */
  ghost function Log(run: seq<Pass>, cluster: int, zone: int): seq<Write>
    requires Possible(run, zone)
  {
    if run == [] then [] else Log(run[..|run| - 1], cluster, zone) + Committed(run[|run| - 1], cluster)
  }

  /** The samples that the last pass of the run booked. */
  ghost function LastSamples(run: seq<Pass>, zone: int): seq<Sample>
    requires run != [] && Possible(run, zone)
  {
    var last := run[|run| - 1];
    if last.written then SamplesOf(last.metric, last.emission.order, LastRates(run), last.cache) else []
  }

  /** All samples booked by the run, in order. */
  ghost function Samples(run: seq<Pass>, zone: int): seq<Sample>
    requires Possible(run, zone)
  {
    if run == [] then [] else Samples(run[..|run| - 1], zone) + LastSamples(run, zone)
  }

  lemma LastIsBooked(run: seq<Pass>, cluster: int, zone: int)
    requires run != [] && Possible(run, zone)
    ensures Committed(run[|run| - 1], cluster) == Booked(LastSamples(run, zone), cluster, zone)
  {
    var last := run[|run| - 1];
    EmissionIsBooked(
      last.metric, cluster, LastRates(run), last.cache, zone, last.emission.out, last.emission.order);
  }

  /** The log of a run is its samples, each booked once under its pod and the hour of its own timestamp. */
  lemma {:induction false} RunIsBooked(run: seq<Pass>, cluster: int, zone: int)
    requires Possible(run, zone)
    ensures Log(run, cluster, zone) == Booked(Samples(run, zone), cluster, zone)
  {
    if run == [] {
    } else {
      var front := run[..|run| - 1];
      RunIsBooked(front, cluster, zone);
      LastIsBooked(run, cluster, zone);
      BookedConcat(Samples(front, zone), LastSamples(run, zone), cluster, zone);
    }
  }

  /** A memory pass books each known pod's working set, as it was measured and at the time it was measured. */
  lemma MemorySample(run: seq<Pass>, zone: int, i: nat)
    requires run != [] && Possible(run, zone) && run[|run| - 1].metric.Memory?
    requires i < |LastSamples(run, zone)|
    ensures
      var last := run[|run| - 1];
      var key := last.emission.order[i];
      && key in last.samples && Known(last.cache, key)
      && LastSamples(run, zone)[i] ==
        Sample(Memory, PodUid(last.cache, key), last.samples[key].timestampMs, last.samples[key].value)
  {
  }

  /**
   A CPU pass books for a pod the growth of its counter across the latest move of its sample, for each whole second,
   at the time of its latest sample.
   */
  lemma CpuSample(run: seq<Pass>, zone: int, i: nat) returns (j: nat)
    requires run != [] && Possible(run, zone) && run[|run| - 1].metric.Cpu?
    requires i < |LastSamples(run, zone)|
    ensures
      var last := run[|run| - 1];
      var key, h := last.emission.order[i], History(run, last.scraper);
      && h != [] && h[|h| - 1] == last.samples && key in last.samples && Known(last.cache, key)
      && LatestMove(h, key, j)
      && var seconds := WholeSeconds(h[j][key].timestampMs - h[j - 1][key].timestampMs);
      && seconds != 0
      && LastSamples(run, zone)[i] ==
        Sample(
          Cpu, PodUid(last.cache, key), last.samples[key].timestampMs,
          (h[j][key].value - h[j - 1][key].value) / seconds as real)
  {
    var last := run[|run| - 1];
    var key, h := last.emission.order[i], History(run, last.scraper);
    assert key in last.emission.order;
    assert key in CoresAfter(h) && CoresAfter(h)[key].cores.Finite?;
    HeldRate(h, key);
    var m: nat :| Moved(h, key, m);
    j := LatestMoveFrom(h, key, m);
  }

  /** The passes that one scrape makes; a failed CPU write ends it before the memory pass. */
  function PassesOf(
    s: nat, m: NodeMetrics, cpuCache: PodCache, memoryCache: PodCache,
    cpu: Emission, memory: Emission, cpuOk: bool, memoryOk: bool): seq<Pass>
  {
    [Pass(s, Cpu, m.cpuSecondsTotal, cpuCache, cpu, cpuOk)] +
    if CpuWritten(cpu, cpuOk) then [Pass(s, Memory, m.memoryWorkingSet, memoryCache, memory, memoryOk)] else []
  }

  /** With nothing in between, the passes of a scrape commit what the scrape logs. */
  lemma ScrapeIsItsPasses(
    run: seq<Pass>, cluster: int, zone: int, s: nat, m: NodeMetrics, cpuCache: PodCache, memoryCache: PodCache,
    cpu: Emission, memory: Emission, cpuOk: bool, memoryOk: bool)
    requires Possible(run, zone)
    requires AllFinite(CoresAfter(History(run, s) + [m.cpuSecondsTotal]))
    requires cpu.Of(CoresAfter(History(run, s) + [m.cpuSecondsTotal]), cpuCache, zone)
    requires CpuWritten(cpu, cpuOk) ==> memory.Of(AsRates(m.memoryWorkingSet), memoryCache, zone)
    ensures
      var after := run + PassesOf(s, m, cpuCache, memoryCache, cpu, memory, cpuOk, memoryOk);
      && Possible(after, zone)
      && Log(after, cluster, zone) == Log(run, cluster, zone) + Logged(cluster, cpu, memory, cpuOk, memoryOk)
      && History(after, s) == History(run, s) + [m.cpuSecondsTotal]
  {
    hide *;
    var first := Pass(s, Cpu, m.cpuSecondsTotal, cpuCache, cpu, cpuOk);
    var second := Pass(s, Memory, m.memoryWorkingSet, memoryCache, memory, memoryOk);
    RatesAfter(run, first);
    LastPass(run, first, cluster, zone);
    FiniteOut(cpu, CoresAfter(History(run, s) + [m.cpuSecondsTotal]), cpuCache, zone);
    if CpuWritten(cpu, cpuOk) {
      FiniteOut(memory, AsRates(m.memoryWorkingSet), memoryCache, zone);
      RatesAfter(run + [first], second);
      LastPass(run + [first], second, cluster, zone);
      assert run + [first, second] == run + [first] + [second];
    }
    TwoPasses(cluster, first, second);
    Passes(s, m, cpuCache, memoryCache, cpu, memory, cpuOk, memoryOk);
  }

  lemma FiniteOut(e: Emission, rates: PodRates, cache: PodCache, zone: int)
    requires e.Of(rates, cache, zone)
    ensures forall i :: 0 <= i < |e.out| ==> e.out[i].cores.Finite?
  {
  }

  lemma Passes(
    s: nat, m: NodeMetrics, cpuCache: PodCache, memoryCache: PodCache,
    cpu: Emission, memory: Emission, cpuOk: bool, memoryOk: bool)
    ensures
      var first := Pass(s, Cpu, m.cpuSecondsTotal, cpuCache, cpu, cpuOk);
      var second := Pass(s, Memory, m.memoryWorkingSet, memoryCache, memory, memoryOk);
      PassesOf(s, m, cpuCache, memoryCache, cpu, memory, cpuOk, memoryOk) ==
        if CpuWritten(cpu, cpuOk) then [first, second] else [first]
  {
  }

  lemma TwoPasses(cluster: int, first: Pass, second: Pass)
    requires first.metric.Cpu? && second.metric.Memory?
    requires forall i :: 0 <= i < |first.emission.out| ==> first.emission.out[i].cores.Finite?
    requires CpuWritten(first.emission, first.written) ==>
      forall i :: 0 <= i < |second.emission.out| ==> second.emission.out[i].cores.Finite?
    ensures Logged(cluster, first.emission, second.emission, first.written, second.written) ==
      Committed(first, cluster) + if CpuWritten(first.emission, first.written) then Committed(second, cluster) else []
  {
  }

  lemma RatesAfter(run: seq<Pass>, pass: Pass)
    ensures LastRates(run + [pass]) ==
      if pass.metric.Cpu? then CoresAfter(History(run, pass.scraper) + [pass.samples]) else AsRates(pass.samples)
    ensures AllFinite(AsRates(pass.samples))
  {
    assert (run + [pass])[..|run|] == run;
  }

  lemma LastPass(run: seq<Pass>, pass: Pass, cluster: int, zone: int)
    requires Possible(run, zone) && AllFinite(LastRates(run + [pass]))
    requires pass.emission.Of(LastRates(run + [pass]), pass.cache, zone)
    ensures Possible(run + [pass], zone)
    ensures Log(run + [pass], cluster, zone) == Log(run, cluster, zone) + Committed(pass, cluster)
    ensures History(run + [pass], pass.scraper) ==
      History(run, pass.scraper) + if pass.metric.Cpu? then [pass.samples] else []
  {
    assert (run + [pass])[..|run|] == run;
  }

  /** The two runs differ only in the orders in which the passes walked their maps. */
  ghost predicate SamePasses(a: seq<Pass>, b: seq<Pass>) {
    |a| == |b| && forall i :: 0 <= i < |a| ==> b[i] == a[i].(emission := b[i].emission)
  }

  lemma {:induction false} SameHistory(a: seq<Pass>, b: seq<Pass>, s: nat)
    requires SamePasses(a, b)
    ensures History(a, s) == History(b, s)
  {
    if a == [] {
    } else {
      var n := |a| - 1;
      assert b[n] == a[n].(emission := b[n].emission);
      SameHistory(a[..n], b[..n], s);
    }
  }

  /** The table after a run does not depend on the orders of Go's maps, if different pods have different UIDs. */
  lemma {:induction false} RunOrderIrrelevant(a: seq<Pass>, b: seq<Pass>, cluster: int, zone: int)
    requires SamePasses(a, b) && Possible(a, zone) && Possible(b, zone)
    requires forall i :: 0 <= i < |a| ==> Injective(a[i].cache)
    ensures Apply(map[], Log(a, cluster, zone)) == Apply(map[], Log(b, cluster, zone))
  {
    if a == [] {
    } else {
      var n := |a| - 1;
      RunOrderIrrelevant(a[..n], b[..n], cluster, zone);
      SameHistory(a, b, a[n].scraper);
      LastOrderIrrelevant(a, b, cluster, zone, Apply(map[], Log(a[..n], cluster, zone)));
      ApplyConcat(map[], Log(a[..n], cluster, zone), Committed(a[n], cluster));
      ApplyConcat(map[], Log(b[..n], cluster, zone), Committed(b[n], cluster));
    }
  }

  lemma LastOrderIrrelevant(a: seq<Pass>, b: seq<Pass>, cluster: int, zone: int, t: Table)
    requires a != [] && SamePasses(a, b) && Possible(a, zone) && Possible(b, zone)
    requires Injective(a[|a| - 1].cache)
    ensures Apply(t, Committed(a[|a| - 1], cluster)) == Apply(t, Committed(b[|b| - 1], cluster))
  {
    var x, y := a[|a| - 1], b[|b| - 1];
    assert y == x.(emission := y.emission);
    SameHistory(a, b, x.scraper);
    PassOrderIrrelevant(
      t, x.metric, cluster, LastRates(a), x.cache, zone,
      x.emission.out, x.emission.order, y.emission.out, y.emission.order);
  }

  /** The values of the samples of metric `m` whose pod and hour are those of `k`. */
  function ValuesUnder(samples: seq<Sample>, k: Key, m: Metric, zone: int): seq<real> {
    if samples == [] then []
    else
      var front, s := ValuesUnder(samples[..|samples| - 1], k, m, zone), samples[|samples| - 1];
      if s.metric == m && s.pod == k.pod && Bucket(s.ms, zone) == k.hour then front + [s.value] else front
  }

  lemma BookedFront(samples: seq<Sample>, cluster: int, zone: int)
    requires samples != []
    ensures
      var n, log := |samples| - 1, Booked(samples, cluster, zone);
      && |log| == n + 1
      && log[..n] == Booked(samples[..n], cluster, zone)
      && log[n] == Write(cluster, samples[n].metric, Key(samples[n].pod, Bucket(samples[n].ms, zone)), samples[n].value)
  {
  }

  lemma {:induction false} BookedValues(samples: seq<Sample>, cluster: int, zone: int, k: Key, m: Metric)
    ensures Values(Booked(samples, cluster, zone), k, m) == ValuesUnder(samples, k, m, zone)
  {
    if samples == [] {
    } else {
      hide Booked, Bucket;
      BookedValues(samples[..|samples| - 1], cluster, zone, k, m);
      BookedFront(samples, cluster, zone);
    }
  }

  // ---------- no negative readings ----------

  /** Counters and timestamps of a pod never fall from one scrape to the next that report it. */
  ghost predicate Rising(ms: seq<PodMetric>) {
    forall i, key :: !Falls(ms, key, i)
  }

  predicate Falls(ms: seq<PodMetric>, key: PodKey, i: int) {
    && 0 < i < |ms|
    && key in ms[i - 1] && key in ms[i]
    && (ms[i - 1][key].value > ms[i][key].value || ms[i - 1][key].timestampMs > ms[i][key].timestampMs)
  }

  lemma RisingFront(ms: seq<PodMetric>, n: nat)
    requires n <= |ms| && Rising(ms)
    ensures Rising(ms[..n])
  {
    forall i, key ensures !Falls(ms[..n], key, i) {
      assert !Falls(ms, key, i);
    }
  }

  ghost predicate NotNegative(rates: PodRates) {
    forall key :: key in rates ==> rates[key].cores.Finite? ==> rates[key].cores.value >= 0.0
  }

  lemma {:induction false} RatesNotNegative(ms: seq<PodMetric>)
    requires Rising(ms)
    ensures NotNegative(CoresAfter(ms))
  {
    if ms == [] {
    } else {
      var n := |ms| - 1;
      RisingFront(ms, n);
      RatesNotNegative(ms[..n]);
      forall key | key in CoresAfter(ms) && CoresAfter(ms)[key].cores.Finite?
        ensures CoresAfter(ms)[key].cores.value >= 0.0
      {
        if n > 0 && key in ms[n - 1] && ms[n - 1][key].timestampMs != ms[n][key].timestampMs {
          assert !Falls(ms, key, n);
          FreshNotNegative(ms[n - 1][key], ms[n][key]);
        }
      }
    }
  }

  lemma FreshNotNegative(prev: MetricValue, cur: MetricValue)
    requires prev.value <= cur.value && prev.timestampMs <= cur.timestampMs
    ensures RateAcross(prev, cur).cores.Finite? ==> RateAcross(prev, cur).cores.value >= 0.0
  {
    var seconds := WholeSeconds(cur.timestampMs - prev.timestampMs);
    assert seconds > 0 ==> (cur.value - prev.value) / seconds as real >= 0.0;
  }

  /** No scraper's counters fall, and no working set is negative. */
  ghost predicate Sound(run: seq<Pass>) {
    && (forall s: nat :: Rising(History(run, s)))
    && forall i :: 0 <= i < |run| && run[i].metric.Memory? ==> NotNegative(AsRates(run[i].samples))
  }

  lemma SoundFront(run: seq<Pass>)
    requires run != [] && Sound(run)
    ensures Sound(run[..|run| - 1])
  {
    var front := run[..|run| - 1];
    forall s: nat ensures Rising(History(front, s)) {
      assert Rising(History(run, s));
      RisingFront(History(run, s), |History(front, s)|);
      assert History(run, s)[..|History(front, s)|] == History(front, s);
    }
  }

  lemma {:induction false} SamplesNotNegative(run: seq<Pass>, zone: int)
    requires Possible(run, zone) && Sound(run)
    ensures forall i :: 0 <= i < |Samples(run, zone)| ==> Samples(run, zone)[i].value >= 0.0
  {
    if run == [] {
    } else {
      SoundFront(run);
      SamplesNotNegative(run[..|run| - 1], zone);
      RatesNotNegative(History(run, run[|run| - 1].scraper));
      LastNotNegative(run, zone);
    }
  }

  lemma LastNotNegative(run: seq<Pass>, zone: int)
    requires run != [] && Possible(run, zone) && NotNegative(LastRates(run))
    ensures forall i :: 0 <= i < |LastSamples(run, zone)| ==> LastSamples(run, zone)[i].value >= 0.0
  {
  }

  lemma {:induction false} ValuesNotNegative(samples: seq<Sample>, k: Key, m: Metric, zone: int)
    requires forall i :: 0 <= i < |samples| ==> samples[i].value >= 0.0
    ensures NonNegative(ValuesUnder(samples, k, m, zone))
  {
    if samples == [] {
    } else {
      ValuesNotNegative(samples[..|samples| - 1], k, m, zone);
    }
  }

  // ---------- what the table holds after a run ----------

  /**
   After any run from an empty table a row exists exactly for the pods and hours with a booked sample, and
   the columns of each metric are the fold of exactly the samples of that pod whose timestamps fall in that
   hour, whichever scraper took them and however the two metrics were interleaved.  Only the maximum may differ,
   when all the samples are negative.
   */
  lemma RunRow(run: seq<Pass>, cluster: int, zone: int, k: Key, m: Metric)
    requires Possible(run, zone)
    ensures
      var t := Apply(map[], Log(run, cluster, zone));
      var xs := ValuesUnder(Samples(run, zone), k, m, zone);
      && (k in t <==> exists n: Metric :: ValuesUnder(Samples(run, zone), k, n, zone) != [])
      && (k in t ==> Holds(t[k].Of(m), xs))
  {
    RunIsBooked(run, cluster, zone);
    hide *;
    BookedRow(Samples(run, zone), cluster, zone, k, m);
  }

  /** The columns hold the readings `xs`, folded in order. */
  ghost predicate Holds(s: Stats, xs: seq<real>) {
    && s == Folded(xs).(max := s.max)
    && s.readings == |xs| && s.total == Total(xs)
    && (xs == [] || HasNonNegative(xs) ==> s == Folded(xs))
    && (HasNonNegative(xs) ==> IsMax(s.max, xs))
  }

  lemma BookedRow(samples: seq<Sample>, cluster: int, zone: int, k: Key, m: Metric)
    ensures
      var t := Apply(map[], Booked(samples, cluster, zone));
      && (k in t <==> exists n: Metric :: ValuesUnder(samples, k, n, zone) != [])
      && (k in t ==> Holds(t[k].Of(m), ValuesUnder(samples, k, m, zone)))
  {
    var log := Booked(samples, cluster, zone);
    hide *;
    forall n: Metric ensures Values(log, k, n) == ValuesUnder(samples, k, n, zone) {
      BookedValues(samples, cluster, zone, k, n);
    }
    RowPresent(log, k);
    if k in Apply(map[], log) {
      var n: Metric :| Values(log, k, n) != [];
      assert ValuesUnder(samples, k, n, zone) != [];
      LogRow(log, k, m);
    } else {
      forall n: Metric ensures ValuesUnder(samples, k, n, zone) == [] {
        assert Values(log, k, n) == [];
      }
    }
  }

  lemma RowPresent(log: seq<Write>, k: Key)
    ensures k in Apply(map[], log) <==> exists m: Metric :: Values(log, k, m) != []
  {
    RowOfLog(log, k, Cpu);
    RowOfLog(log, k, Memory);
    if k in Apply(map[], log) {
      var m := Creator(log, k).value;
      RowOfLog(log, k, m);
      assert Values(log, k, m) != [];
    } else {
      forall m: Metric ensures Values(log, k, m) == [] {
        RowOfLog(log, k, m);
      }
    }
  }

  lemma LogRow(log: seq<Write>, k: Key, m: Metric)
    requires k in Apply(map[], log)
    ensures Holds(Apply(map[], log)[k].Of(m), Values(log, k, m))
  {
    var xs := Values(log, k, m);
    RowOfLog(log, k, m);
    FoldedStats(xs);
    if xs != [] {
      CreatorShowsInMaxOnly(xs);
      CreatorForgotten(xs);
      CreatedStats(xs);
    }
  }

  /** While no counter falls no sample is negative, and the fold is the whole of each row. */
  lemma SoundRow(run: seq<Pass>, cluster: int, zone: int, k: Key, m: Metric)
    requires Possible(run, zone) && Sound(run)
    ensures
      var t := Apply(map[], Log(run, cluster, zone));
      var xs := ValuesUnder(Samples(run, zone), k, m, zone);
      NonNegative(xs) && (k in t ==> t[k].Of(m) == Folded(xs))
  {
    RunRow(run, cluster, zone, k, m);
    SamplesNotNegative(run, zone);
    ValuesNotNegative(Samples(run, zone), k, m, zone);
    var xs := ValuesUnder(Samples(run, zone), k, m, zone);
    hide *;
    NonNegativeHas(xs);
    if k in Apply(map[], Log(run, cluster, zone)) {
      HoldsAll(Apply(map[], Log(run, cluster, zone))[k].Of(m), xs);
    }
  }

  lemma NonNegativeHas(xs: seq<real>)
    requires NonNegative(xs)
    ensures xs == [] || HasNonNegative(xs)
  {
    assert xs != [] ==> xs[0] >= 0.0;
  }

  lemma HoldsAll(s: Stats, xs: seq<real>)
    requires Holds(s, xs) && (xs == [] || HasNonNegative(xs))
    ensures s == Folded(xs)
  {
  }

  lemma {:induction false} BookedCluster(samples: seq<Sample>, cluster: int, zone: int, k: Key)
    ensures var c := LatestCluster(Booked(samples, cluster, zone), k); c.Some? ==> c.value == cluster
  {
    if samples == [] {
    } else {
      hide Booked;
      BookedCluster(samples[..|samples| - 1], cluster, zone, k);
      BookedFront(samples, cluster, zone);
    }
  }

  /** Every row after a run belongs to the cluster of the process. */
  lemma RunCluster(run: seq<Pass>, cluster: int, zone: int, k: Key)
    requires Possible(run, zone) && k in Apply(map[], Log(run, cluster, zone))
    ensures Apply(map[], Log(run, cluster, zone))[k].cluster == cluster
  {
    RunIsBooked(run, cluster, zone);
    RowOfLog(Log(run, cluster, zone), k, Cpu);
    BookedCluster(Samples(run, zone), cluster, zone, k);
  }

  /** How many samples are of metric `m`. */
  function Count(samples: seq<Sample>, m: Metric): nat {
    if samples == [] then 0
    else Count(samples[..|samples| - 1], m) + if samples[|samples| - 1].metric == m then 1 else 0
  }

  function AnyKey(): Key -> bool { (k: Key) => true }

  lemma {:induction false} BookedCount(samples: seq<Sample>, cluster: int, zone: int, m: Metric)
    ensures Weight(Booked(samples, cluster, zone), Weigher(m, AnyKey(), false)) == Count(samples, m) as real
  {
    if samples == [] {
    } else {
      BookedCount(samples[..|samples| - 1], cluster, zone, m);
      BookedFront(samples, cluster, zone);
    }
  }

  /** After any run the counts of all rows add up to the number of samples booked. */
  lemma RunCount(ks: seq<Key>, run: seq<Pass>, cluster: int, zone: int, m: Metric)
    requires Possible(run, zone)
    requires Lists(ks, Apply(map[], Log(run, cluster, zone)), AnyKey())
    ensures Column(ks, Apply(map[], Log(run, cluster, zone)), m, Readings()) == Count(Samples(run, zone), m) as real
  {
    RunIsBooked(run, cluster, zone);
    ReadingsConserved(ks, Log(run, cluster, zone), m, AnyKey());
    BookedCount(Samples(run, zone), cluster, zone, m);
  }

  /**
   End to end: after any run, the rows that an hour-aligned window selects hold exactly the samples whose own
   timestamps lie in the window, in number and in sum.
   */
  lemma RunWindow(ks: seq<Key>, run: seq<Pass>, cluster: int, zone: int, m: Metric, start: int, end: int)
    requires Possible(run, zone) && Aligned(start, zone) && Aligned(end, zone)
    requires Lists(ks, Apply(map[], Log(run, cluster, zone)), HourIn(start, end))
    ensures
      var t := Apply(map[], Log(run, cluster, zone));
      && Column(ks, t, m, Readings()) == Weight(Samples(run, zone), SampleIn(m, start, end, false))
      && Column(ks, t, m, Totals()) == Weight(Samples(run, zone), SampleIn(m, start, end, true))
  {
    RunIsBooked(run, cluster, zone);
    WindowHoldsItsSamples(ks, Samples(run, zone), cluster, zone, m, start, end);
  }
}
