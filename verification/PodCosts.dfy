/** The rows that the cost view makes of one pod, and what the query shows of them. */
module PodCosts {
  import opened Clock
  import opened CostViews
  import opened Grouping
  import opened Sums
  import opened WorkloadQuery

  /** A pod as the views join it to its hourly usage; the grouping columns may differ from hour to hour. */
  datatype Pod = Pod(
    fields: int -> map<string, string>, labels: map<string, string>,
    requestCpu: real, requestMemory: real, requestStorage: real, life: Life)

  datatype Prices = Prices(cpu: real, memory: real, storage: real)

  /** The average use in each bucket. */
  datatype Use = Use(cpu: int -> real, memory: int -> real)

  /** The row of the view for the `i`th bucket after the one that begins at `first`. */
  function RowAt(pod: Pod, prices: Prices, use: Use, first: int, i: nat): CostRow {
    var hours := HoursAt(first, i, pod.life);
    CostRow(
      first + i * HOUR, pod.fields(i), pod.labels, hours,
      pod.requestCpu, use.cpu(i), pod.requestMemory, use.memory(i), pod.requestStorage,
      Cost(pod.requestCpu, use.cpu(i), prices.cpu, hours),
      Cost(pod.requestMemory, use.memory(i), prices.memory, hours),
      pod.requestStorage * prices.storage * hours)
  }

  function RowsOf(pod: Pod, prices: Prices, use: Use, first: int, n: nat): (rows: seq<CostRow>)
    ensures |rows| == n
  {
    if n == 0 then [] else RowsOf(pod, prices, use, first, n - 1) + [RowAt(pod, prices, use, first, n - 1)]
  }

  /** The average use of `n` buckets, each counted for the hours of the pod's life in it. */
  function SumUse(first: int, n: nat, life: Life, use: int -> real): real {
    if n == 0 then 0.0 else SumUse(first, n - 1, life, use) + use(n - 1) * HoursAt(first, n - 1, life)
  }

  /** Hours, uses and costs of one bucket or of several. */
  datatype Amounts = Amounts(hours: real, cpu: real, memory: real, cpuCost: real, memoryCost: real) {
    function Plus(o: Amounts): Amounts {
      Amounts(hours + o.hours, cpu + o.cpu, memory + o.memory, cpuCost + o.cpuCost, memoryCost + o.memoryCost)
    }
  }

  /** The sum of an aggregate, from those amounts and the pod's requests. */
  function Column(pod: Pod, prices: Prices, a: Amounts, col: string): real {
    match col
    case "hours" => a.hours
    case "request_cpu_core_hours" => pod.requestCpu * a.hours
    case "request_memory_gb_hours" => pod.requestMemory * a.hours
    case "request_storage_gb_hours" => pod.requestStorage * a.hours
    case "used_cpu_core_hours" => a.cpu
    case "used_memory_gb_hours" => a.memory
    case "cpu_cost" => a.cpuCost
    case "memory_cost" => a.memoryCost
    case "storage_cost" => pod.requestStorage * prices.storage * a.hours
    case "total_cost" => a.cpuCost + a.memoryCost + pod.requestStorage * prices.storage * a.hours
    case _ => 0.0
  }

  /** The amounts of the first `n` buckets, from the views. */
  function AmountsOf(pod: Pod, prices: Prices, use: Use, first: int, n: nat): Amounts {
    Amounts(
      SumHours(first, n, pod.life),
      SumUse(first, n, pod.life, use.cpu),
      SumUse(first, n, pod.life, use.memory),
      SumCost(first, n, pod.life, pod.requestCpu, use.cpu, prices.cpu),
      SumCost(first, n, pod.life, pod.requestMemory, use.memory, prices.memory))
  }

  /** The sum of an aggregate over the first `n` buckets of the pod. */
  function Billed(pod: Pod, prices: Prices, use: Use, first: int, n: nat, col: string): real {
    Column(pod, prices, AmountsOf(pod, prices, use, first, n), col)
  }

  lemma Distributes(x: real, a: real, b: real)
    ensures x * (a + b) == x * a + x * b && x * 0.0 == 0.0
  {
  }

  lemma ColumnAdds(pod: Pod, prices: Prices, a: Amounts, b: Amounts, col: string)
    ensures Column(pod, prices, a.Plus(b), col) == Column(pod, prices, a, col) + Column(pod, prices, b, col)
    ensures Column(pod, prices, Amounts(0.0, 0.0, 0.0, 0.0, 0.0), col) == 0.0
  {
    var storage := pod.requestStorage * prices.storage;
    Distributes(pod.requestCpu, a.hours, b.hours);
    Distributes(pod.requestMemory, a.hours, b.hours);
    Distributes(pod.requestStorage, a.hours, b.hours);
    Distributes(storage, a.hours, b.hours);
  }

  /** The amounts of one bucket. */
  function AmountsAt(pod: Pod, prices: Prices, use: Use, first: int, i: nat): Amounts {
    var hours := HoursAt(first, i, pod.life);
    Amounts(
      hours, use.cpu(i) * hours, use.memory(i) * hours,
      Cost(pod.requestCpu, use.cpu(i), prices.cpu, hours),
      Cost(pod.requestMemory, use.memory(i), prices.memory, hours))
  }

  /** What the query adds up for one row of the view. */
  lemma RowMeasure(pod: Pod, prices: Prices, use: Use, first: int, i: nat, col: string)
    ensures Measure(RowAt(pod, prices, use, first, i), col) ==
      Column(pod, prices, AmountsAt(pod, prices, use, first, i), col)
  {
    hide HoursAt, Cost;
  }

  lemma AmountsStep(pod: Pod, prices: Prices, use: Use, first: int, n: nat)
    ensures AmountsOf(pod, prices, use, first, 0) == Amounts(0.0, 0.0, 0.0, 0.0, 0.0)
    ensures AmountsOf(pod, prices, use, first, n + 1) ==
      AmountsOf(pod, prices, use, first, n).Plus(AmountsAt(pod, prices, use, first, n))
  {
    hide HoursAt, Cost;
  }

  lemma BilledStep(pod: Pod, prices: Prices, use: Use, first: int, n: nat, col: string)
    ensures Billed(pod, prices, use, first, 0, col) == 0.0
    ensures Billed(pod, prices, use, first, n + 1, col) ==
      Billed(pod, prices, use, first, n, col) + Measure(RowAt(pod, prices, use, first, n), col)
  {
    hide Column, AmountsOf, AmountsAt, Amounts.Plus, Measure, RowAt;
    AmountsStep(pod, prices, use, first, n);
    RowMeasure(pod, prices, use, first, n, col);
    ColumnAdds(
      pod, prices, AmountsOf(pod, prices, use, first, n), AmountsAt(pod, prices, use, first, n), col);
  }

  /** The measures of the rows of a pod add up to what its life, requests, uses and prices make of it. */
  lemma {:induction false} RowsMeasure(pod: Pod, prices: Prices, use: Use, first: int, n: nat, col: string)
    ensures Weight(RowsOf(pod, prices, use, first, n), MeasureOf(col)) == Billed(pod, prices, use, first, n, col)
  {
    if n == 0 {
      BilledStep(pod, prices, use, first, 0, col);
    } else {
      RowsMeasure(pod, prices, use, first, n - 1, col);
      hide Billed, Measure, RowAt;
      BilledStep(pod, prices, use, first, n - 1, col);
      var rows := RowsOf(pod, prices, use, first, n - 1);
      assert (rows + [RowAt(pod, prices, use, first, n - 1)])[..|rows|] == rows;
    }
  }

  lemma {:induction false} RowTimes(pod: Pod, prices: Prices, use: Use, first: int, n: nat)
    ensures forall i :: 0 <= i < n ==>
      first <= RowsOf(pod, prices, use, first, n)[i].timestamp <= first + (n - 1) * HOUR
  {
    if n == 0 {
    } else {
      RowTimes(pod, prices, use, first, n - 1);
    }
  }

  /**
   Where the window holds all of a pod's hours, the sums that the query shows for it, over all its groups, are what
   the views make of its life, requests, uses and prices.
   */
  lemma PodShown(req: AggRequest, pod: Pod, prices: Prices, use: Use, first: int, n: nat, col: string)
    requires Compile(req).Ok?
    requires req.start.inst <= first && first + (n - 1) * HOUR < req.end.inst
    ensures
      var q, rows := Compile(req).value, RowsOf(pod, prices, use, first, n);
      SumOfGroups(q, rows, Groups(q, rows), col) == Billed(pod, prices, use, first, n, col)
  {
    var rows := RowsOf(pod, prices, use, first, n);
    RequestConserves(req, rows, col);
    RowTimes(pod, prices, use, first, n);
    SameWeight(rows, InRequest(req, col), MeasureOf(col));
    RowsMeasure(pod, prices, use, first, n, col);
  }

  /** So the page bills a pod at least its CPU request for every hour it lived, and just that while it uses no more. */
  lemma PodBill(req: AggRequest, pod: Pod, prices: Prices, use: Use, first: int, n: nat)
    requires Compile(req).Ok? && Overlaps(first, n, pod.life) && prices.cpu >= 0.0
    requires req.start.inst <= first && first + (n - 1) * HOUR < req.end.inst
    ensures
      var q, rows := Compile(req).value, RowsOf(pod, prices, use, first, n);
      var shown := SumOfGroups(q, rows, Groups(q, rows), "cpu_cost");
      var reserved :=
        Reserved(pod.requestCpu, prices.cpu, (EndOf(pod.life) - BeginOf(first, pod.life)) as real / HOUR as real);
      shown >= reserved && (WithinRequest(n, pod.requestCpu, use.cpu) ==> shown == reserved)
  {
    hide *;
    PodShown(req, pod, prices, use, first, n, "cpu_cost");
    RequestIsBilled(first, n, pod.life, pod.requestCpu, use.cpu, prices.cpu);
    BilledCpu(pod, prices, use, first, n);
  }

  lemma BilledCpu(pod: Pod, prices: Prices, use: Use, first: int, n: nat)
    ensures Billed(pod, prices, use, first, n, "cpu_cost") ==
      SumCost(first, n, pod.life, pod.requestCpu, use.cpu, prices.cpu)
  {
    hide SumCost;
  }
}
