/** What one scrape of a node computes from the previous one. */
module Scraping {
  import opened Clock
  import opened Sums
  import opened UsageTable
  import opened UsageCounts
  import opened Uuid
  import opened Queries
  import opened Wrappers

  datatype PodKey = PodKey(name: string, namespace: string)

  datatype MetricValue = MetricValue(value: real, timestampMs: int)

  type PodMetric = map<PodKey, MetricValue>

  datatype NodeMetrics = NodeMetrics(cpuSecondsTotal: PodMetric, memoryWorkingSet: PodMetric)

  /**
   What the lookups of one walk find in the informer's pod cache: the text of the UID for each pod found.  A walk
   looks each pod up at most once, so the cache may change between two lookups.
   */
  type PodCache = map<PodKey, Text>

  /** A float quotient: a division by a whole-second difference of 0 yields an infinity or NaN. */
  datatype Cores = Finite(value: real) | NonFinite

  datatype Rate = Rate(cores: Cores, timestampMs: int)

  type PodRates = map<PodKey, Rate>

  /** Go's integer division by 1000, which rounds toward zero. */
  function WholeSeconds(ms: int): (s: int)
    ensures ms >= 0 ==> 1000 * s <= ms < 1000 * s + 1000
    ensures ms <= 0 ==> 1000 * s - 1000 < ms <= 1000 * s
  {
    if ms >= 0 then ms / 1000 else -(-ms / 1000)
  }

  function RateAcross(prev: MetricValue, cur: MetricValue): Rate {
    var seconds := WholeSeconds(cur.timestampMs - prev.timestampMs);
    Rate(if seconds == 0 then NonFinite else Finite((cur.value - prev.value) / seconds as real), cur.timestampMs)
  }

  /** The rate a scrape keeps for a pod: a fresh one when the sample moved, else the held one, else none. */
  function NextRate(prev: PodMetric, cores: PodRates, current: PodMetric, key: PodKey): Option<Rate> {
    if key !in current || key !in prev then None
    else if prev[key].timestampMs != current[key].timestampMs then Some(RateAcross(prev[key], current[key]))
    else if key in cores then Some(cores[key])
    else None
  }

  function NextCores(prev: PodMetric, cores: PodRates, current: PodMetric): PodRates {
    map key | key in current && NextRate(prev, cores, current, key).Some? ::
      NextRate(prev, cores, current, key).value
  }

  predicate AllFinite(rates: PodRates) { forall key :: key in rates ==> rates[key].cores.Finite? }

  /** The pod is in the cache and its UID parses. */
  predicate Known(cache: PodCache, key: PodKey) { key in cache && Parse(cache[key]).Some? }

  function PodUid(cache: PodCache, key: PodKey): Uuid
    requires Known(cache, key)
  {
    Parse(cache[key]).value
  }

  /** Different pods have different UIDs. */
  ghost predicate Injective(cache: PodCache) {
    forall a, b :: Known(cache, a) && Known(cache, b) && PodUid(cache, a) == PodUid(cache, b) ==> a == b
  }

  /** One reading a scrape emits, for the pod `key`. */
  datatype Reading = Reading(podUid: Uuid, timestamp: int, cores: Cores)

  /**
   `out` is what one pass over `rates` may emit: one reading for each key with a known pod and for no
   other key, in the order `order`, which Go leaves open.
   */
  ghost predicate Emits(out: seq<Reading>, order: seq<PodKey>, rates: PodRates, cache: PodCache, zone: int) {
    && Distinct(order)
    && (forall key :: key in order <==> key in rates && Known(cache, key))
    && |out| == |order|
    && forall i :: 0 <= i < |out| ==>
      && order[i] in rates
      && Known(cache, order[i])
      && out[i] == Reading(PodUid(cache, order[i]), Bucket(rates[order[i]].timestampMs, zone), rates[order[i]].cores)
  }

  /** `out` is what one pass over `rates` may emit, in some order. */
  ghost predicate Emitted(out: seq<Reading>, rates: PodRates, cache: PodCache, zone: int) {
    exists order: seq<PodKey> :: Emits(out, order, rates, cache, zone)
  }

  /** Memory samples read as rates, so that `Emits` speaks of both metrics. */
  function AsRates(metric: PodMetric): PodRates {
    map key | key in metric :: Rate(Finite(metric[key].value), metric[key].timestampMs)
  }

  /** The arguments of the usage upsert for finite readings. */
  function Params(out: seq<Reading>): (arg: seq<UsageParams>)
    requires forall i :: 0 <= i < |out| ==> out[i].cores.Finite?
    ensures |arg| == |out|
    ensures forall i :: 0 <= i < |out| ==> arg[i] == UsageParams(0, out[i].podUid, out[i].timestamp, out[i].cores.value)
  {
    seq(|out|, i requires 0 <= i < |out| => UsageParams(0, out[i].podUid, out[i].timestamp, out[i].cores.value))
  }

  /** The readings emitted in one pass, with the order in which the pods were met. */
  datatype Emission = Emission(out: seq<Reading>, order: seq<PodKey>) {
    /** A complete pass over finite rates. */
    ghost predicate Of(rates: PodRates, cache: PodCache, zone: int) {
      Emits(out, order, rates, cache, zone) && forall i :: 0 <= i < |out| ==> out[i].cores.Finite?
    }
  }

  /** A scrape goes on to the memory readings. */
  predicate CpuWritten(cpu: Emission, cpuOk: bool) { cpu.out == [] || cpuOk }

  /** What a scrape adds to the log: a failed CPU write ends it, and a failed write books nothing. */
  function Logged(cluster: int, cpu: Emission, memory: Emission, cpuOk: bool, memoryOk: bool): seq<Write>
    requires forall i :: 0 <= i < |cpu.out| ==> cpu.out[i].cores.Finite?
    requires CpuWritten(cpu, cpuOk) ==> forall i :: 0 <= i < |memory.out| ==> memory.out[i].cores.Finite?
  {
    if !CpuWritten(cpu, cpuOk) then []
    else Records(Cpu, cluster, Params(cpu.out)) + if memoryOk then Records(Memory, cluster, Params(memory.out)) else []
  }

  /** A pass leaves the same table whatever order its map is walked in, if different pods have different UIDs. */
  lemma PassOrderIrrelevant(
    t: Table, m: Metric, cluster: int, rates: PodRates, cache: PodCache, zone: int,
    a: seq<Reading>, aOrder: seq<PodKey>, b: seq<Reading>, bOrder: seq<PodKey>)
    requires Injective(cache) && AllFinite(rates)
    requires Emits(a, aOrder, rates, cache, zone) && Emits(b, bOrder, rates, cache, zone)
    ensures Apply(t, Records(m, cluster, Params(a))) == Apply(t, Records(m, cluster, Params(b)))
  {
    EmissionDistinct(m, cluster, rates, cache, zone, a, aOrder);
    EmissionDistinct(m, cluster, rates, cache, zone, b, bOrder);
    EmissionWithin(m, cluster, rates, cache, zone, a, aOrder, b, bOrder);
    EmissionWithin(m, cluster, rates, cache, zone, b, bOrder, a, aOrder);
    BatchOrderIrrelevant(t, Records(m, cluster, Params(a)), Records(m, cluster, Params(b)));
  }

  /** So does a whole scrape, with its two passes, whether or not its writes succeed. */
  lemma ScrapeOrderIrrelevant(
    t: Table, cluster: int, zone: int, rates: PodRates, cpuCache: PodCache, workingSet: PodMetric,
    memoryCache: PodCache, a: Emission, aMemory: Emission, b: Emission, bMemory: Emission, cpuOk: bool, memoryOk: bool)
    requires Injective(cpuCache) && Injective(memoryCache) && AllFinite(rates)
    requires a.Of(rates, cpuCache, zone) && b.Of(rates, cpuCache, zone)
    requires aMemory.Of(AsRates(workingSet), memoryCache, zone) && bMemory.Of(AsRates(workingSet), memoryCache, zone)
    ensures Apply(t, Logged(cluster, a, aMemory, cpuOk, memoryOk)) ==
            Apply(t, Logged(cluster, b, bMemory, cpuOk, memoryOk))
  {
    var memoryRates := AsRates(workingSet);
    EmptyAlike(rates, cpuCache, zone, a, b);
    if CpuWritten(a, cpuOk) {
      var ca, cb := Records(Cpu, cluster, Params(a.out)), Records(Cpu, cluster, Params(b.out));
      var ma, mb := Records(Memory, cluster, Params(aMemory.out)), Records(Memory, cluster, Params(bMemory.out));
      assert AllFinite(memoryRates);
      hide Apply, Records, Params, AllFinite, Emits, AsRates;
      PassOrderIrrelevant(t, Cpu, cluster, rates, cpuCache, zone, a.out, a.order, b.out, b.order);
      PassOrderIrrelevant(
        Apply(t, ca), Memory, cluster, memoryRates, memoryCache, zone,
        aMemory.out, aMemory.order, bMemory.out, bMemory.order);
      ApplyConcat(t, ca, if memoryOk then ma else []);
      ApplyConcat(t, cb, if memoryOk then mb else []);
    }
  }

  lemma EmptyAlike(rates: PodRates, cache: PodCache, zone: int, a: Emission, b: Emission)
    requires a.Of(rates, cache, zone) && b.Of(rates, cache, zone)
    ensures a.out == [] <==> b.out == []
  {
    if a.out != [] {
      assert a.order[0] in b.order;
    }
    if b.out != [] {
      assert b.order[0] in a.order;
    }
  }

  /** Different pods are booked under different keys. */
  lemma EmissionDistinct(
    m: Metric, cluster: int, rates: PodRates, cache: PodCache, zone: int, a: seq<Reading>, order: seq<PodKey>)
    requires Injective(cache) && AllFinite(rates) && Emits(a, order, rates, cache, zone)
    ensures DistinctKeys(Records(m, cluster, Params(a)))
  {
    var ws := Records(m, cluster, Params(a));
    forall i, j | 0 <= i < j < |ws| ensures ws[i].key != ws[j].key {
      assert order[i] != order[j];
      assert ws[i].key.pod == PodUid(cache, order[i]) && ws[j].key.pod == PodUid(cache, order[j]);
    }
  }

  lemma EmissionWithin(
    m: Metric, cluster: int, rates: PodRates, cache: PodCache, zone: int,
    a: seq<Reading>, aOrder: seq<PodKey>, b: seq<Reading>, bOrder: seq<PodKey>)
    requires Injective(cache) && AllFinite(rates)
    requires Emits(a, aOrder, rates, cache, zone) && Emits(b, bOrder, rates, cache, zone)
    ensures forall w :: w in Records(m, cluster, Params(a)) ==> w in Records(m, cluster, Params(b))
  {
    var ra, rb := Records(m, cluster, Params(a)), Records(m, cluster, Params(b));
    forall w | w in ra ensures w in rb {
      var i :| 0 <= i < |ra| && ra[i] == w;
      assert aOrder[i] in bOrder;
      var j :| 0 <= j < |bOrder| && bOrder[j] == aOrder[i];
      assert rb[j] == w;
    }
  }

  /** The samples behind the readings that a pass emits. */
  function SamplesOf(m: Metric, order: seq<PodKey>, rates: PodRates, cache: PodCache): seq<Sample>
    requires AllFinite(rates) && forall i :: 0 <= i < |order| ==> order[i] in rates && Known(cache, order[i])
  {
    seq(|order|, i requires 0 <= i < |order| =>
      Sample(m, PodUid(cache, order[i]), rates[order[i]].timestampMs, rates[order[i]].cores.value))
  }

  /** A scrape books each of its samples once, under the pod's UID and the hour of the sample's own timestamp. */
  lemma EmissionIsBooked(
    m: Metric, cluster: int, rates: PodRates, cache: PodCache, zone: int, out: seq<Reading>, order: seq<PodKey>)
    requires AllFinite(rates) && Emits(out, order, rates, cache, zone)
    ensures Records(m, cluster, Params(out)) == Booked(SamplesOf(m, order, rates, cache), cluster, zone)
  {
    var samples := SamplesOf(m, order, rates, cache);
    forall i | 0 <= i < |out|
      ensures Records(m, cluster, Params(out))[i] == Booked(samples, cluster, zone)[i]
    {
      var rate := rates[order[i]];
      assert out[i] == Reading(PodUid(cache, order[i]), Bucket(rate.timestampMs, zone), rate.cores);
    }
  }
}
