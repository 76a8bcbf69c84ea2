/** The scraper of one node: its two maps, and the steps of a scrape. */
module NodeScraper {
  import opened Clock
  import opened ScrapeHistory
  import opened Scraping
  import opened Queries
  import opened Sums
  import opened UsageTable
  import opened Uuid
  import opened Wrappers

  class NodeScraper {
    var prevCPUSecondsTotal: PodMetric
    var prevCores: PodRates

    /** The CPU metrics of every scrape so far. */
    ghost var history: seq<PodMetric>

    ghost predicate Valid() reads this {
      prevCPUSecondsTotal == PrevAfter(history) && prevCores == CoresAfter(history)
    }

    constructor ()
      ensures Valid() && history == []
    {
      prevCPUSecondsTotal, prevCores, history := map[], map[], [];
    }

    /** Computes the rates of a scrape and remembers them, then lists a reading for each known pod. */
    method CpuData(current: PodMetric, cache: PodCache, zone: int) returns (result: seq<Reading>)
      requires Valid()
      modifies this
      ensures Valid() && history == old(history) + [current]
      ensures Emitted(result, CoresAfter(history), cache, zone)
    {
      var podCores: PodRates := map[];
      var todo := current.Keys;
      while todo != {}
        invariant todo <= current.Keys
        invariant prevCPUSecondsTotal == old(prevCPUSecondsTotal) && prevCores == old(prevCores)
        invariant history == old(history)
        invariant podCores == map key |
          key in NextCores(prevCPUSecondsTotal, prevCores, current) && key !in todo ::
          NextCores(prevCPUSecondsTotal, prevCores, current)[key]
        decreases todo
      {
        var key :| key in todo;
        todo := todo - {key};
        if key !in prevCPUSecondsTotal {
          continue;
        }
        var prevValue, value := prevCPUSecondsTotal[key], current[key];
        if prevValue.timestampMs != value.timestampMs {
          podCores := podCores[key := RateAcross(prevValue, value)];
        } else {
          if key !in prevCores {
            continue;
          }
          podCores := podCores[key := prevCores[key]];
        }
      }
      assert podCores == NextCores(prevCPUSecondsTotal, prevCores, current);
      result := Readings(podCores, cache, zone);
      prevCPUSecondsTotal := current;
      prevCores := podCores;
      history := history + [current];
      assert history[..|history| - 1] == old(history);
    }

    method MemoryData(current: PodMetric, cache: PodCache, zone: int) returns (result: seq<Reading>)
      ensures Emitted(result, AsRates(current), cache, zone)
    {
      result := Readings(AsRates(current), cache, zone);
    }

    /**
     One scrape. A failed metrics request changes nothing. Otherwise the scraper's state moves on and the
     log of the database grows by exactly the CPU readings, then the memory readings, that the scrape emits;
     a failed CPU write ends the scrape before the memory readings, and a failed write books nothing.
     */
    method Scrape(
      metrics: Option<NodeMetrics>, cpuCache: PodCache, memoryCache: PodCache, zone: int,
      queries: Queries, cpuOk: bool, memoryOk: bool)
      returns (ok: bool, ghost cpu: Emission, ghost memory: Emission)
      requires Valid() && queries.Valid()
      requires metrics.Some? ==> AllFinite(CoresAfter(history + [metrics.value.cpuSecondsTotal]))
      modifies this, queries
      ensures Valid() && queries.Valid() && queries.objects == old(queries.objects)
      ensures metrics.None? ==> !ok && history == old(history) && queries.log == old(queries.log)
      ensures metrics.Some? ==>
        && history == old(history) + [metrics.value.cpuSecondsTotal]
        && cpu.Of(CoresAfter(history), cpuCache, zone)
        && (CpuWritten(cpu, cpuOk) ==> memory.Of(AsRates(metrics.value.memoryWorkingSet), memoryCache, zone))
        && ok == (CpuWritten(cpu, cpuOk) && (memory.out == [] || memoryOk))
        && queries.log == old(queries.log) + Logged(queries.clusterID, cpu, memory, cpuOk, memoryOk)
        && (cpu.out != [] && !cpuOk ==> !ok && queries.log == old(queries.log))
        && (cpu.out == [] || cpuOk ==>
              queries.log == old(queries.log) + Records(Cpu, queries.clusterID, Params(cpu.out)) +
                if memoryOk then Records(Memory, queries.clusterID, Params(memory.out)) else [])
    {
      hide *;
      cpu, memory := Emission([], []), Emission([], []);
      if metrics.None? {
        return false, cpu, memory;
      }
      var cpuData := CpuData(metrics.value.cpuSecondsTotal, cpuCache, zone);
      cpu := FiniteEmission(cpuData, CoresAfter(history), cpuCache, zone);
      ok := WriteReadings(queries, Cpu, cpuData, cpuOk);
      WrittenOrNot(cpu, cpuOk);
      if !ok {
        CpuFailed(queries.clusterID, cpu, memory, memoryOk);
        return;
      }
      var memoryData := MemoryData(metrics.value.memoryWorkingSet, memoryCache, zone);
      MemoryIsFinite(metrics.value.memoryWorkingSet);
      memory := FiniteEmission(memoryData, AsRates(metrics.value.memoryWorkingSet), memoryCache, zone);
      ok := WriteReadings(queries, Memory, memoryData, memoryOk);
      CpuSucceeded(queries.clusterID, cpu, memory, cpuOk, memoryOk);
    }
  }

  lemma WrittenOrNot(cpu: Emission, cpuOk: bool)
    ensures CpuWritten(cpu, cpuOk) <==> cpu.out == [] || cpuOk
  {
  }

  lemma CpuFailed(cluster: int, cpu: Emission, memory: Emission, memoryOk: bool)
    requires cpu.out != [] && forall i :: 0 <= i < |cpu.out| ==> cpu.out[i].cores.Finite?
    ensures Logged(cluster, cpu, memory, false, memoryOk) == []
  {
  }

  lemma CpuSucceeded(cluster: int, cpu: Emission, memory: Emission, cpuOk: bool, memoryOk: bool)
    requires cpu.out == [] || cpuOk
    requires forall i :: 0 <= i < |cpu.out| ==> cpu.out[i].cores.Finite?
    requires forall i :: 0 <= i < |memory.out| ==> memory.out[i].cores.Finite?
    ensures Logged(cluster, cpu, memory, cpuOk, memoryOk) ==
      (if cpuOk then Records(Cpu, cluster, Params(cpu.out)) else []) +
      if memoryOk then Records(Memory, cluster, Params(memory.out)) else []
  {
  }

  lemma MemoryIsFinite(metric: PodMetric)
    ensures AllFinite(AsRates(metric))
  {
  }

  lemma FiniteEmission(out: seq<Reading>, rates: PodRates, cache: PodCache, zone: int) returns (e: Emission)
    requires Emitted(out, rates, cache, zone) && AllFinite(rates)
    ensures e.out == out && e.Of(rates, cache, zone) && forall i :: 0 <= i < |out| ==> out[i].cores.Finite?
  {
    var order :| Emits(out, order, rates, cache, zone);
    e := Emission(out, order);
  }

  /** Sends the readings of one metric, unless there are none. */
  method WriteReadings(queries: Queries, m: Metric, data: seq<Reading>, committed: bool) returns (ok: bool)
    requires queries.Valid() && forall i :: 0 <= i < |data| ==> data[i].cores.Finite?
    modifies queries
    ensures queries.Valid() && queries.objects == old(queries.objects)
    ensures ok == (data == [] || committed)
    ensures queries.log ==
      if committed then old(queries.log) + Records(m, queries.clusterID, Params(data)) else old(queries.log)
  {
    ok := true;
    if |data| > 0 {
      if m.Cpu? {
        ok := queries.UpsertPodUsedCPU(Params(data), committed);
      } else {
        ok := queries.UpsertPodUsedMemory(Params(data), committed);
      }
    } else {
      assert Records(m, queries.clusterID, Params(data)) == [];
    }
  }

  /** Walks a map of readings in some order, skipping pods that are unknown or whose UID does not parse. */
  method Readings(rates: PodRates, cache: PodCache, zone: int) returns (result: seq<Reading>)
    ensures Emitted(result, rates, cache, zone)
  {
    result := [];
    ghost var order: seq<PodKey> := [];
    var todo := rates.Keys;
    while todo != {}
      invariant todo <= rates.Keys
      invariant forall key :: key in order ==> key !in todo
      invariant Distinct(order)
      invariant forall key :: key in order <==> key in rates && Known(cache, key) && key !in todo
      invariant |result| == |order|
      invariant forall i :: 0 <= i < |result| ==>
        && order[i] in rates
        && Known(cache, order[i])
        && result[i] ==
          Reading(PodUid(cache, order[i]), Bucket(rates[order[i]].timestampMs, zone), rates[order[i]].cores)
      decreases todo
    {
      var key :| key in todo;
      todo := todo - {key};
      if key !in cache {
        continue;
      }
      var uid, valid := ParsePGUUID(cache[key]);
      if !valid {
        continue;
      }
      result := result + [Reading(uid, Bucket(rates[key].timestampMs, zone), rates[key].cores)];
      order := order + [key];
    }
    assert Emits(result, order, rates, cache, zone);
  }
}
