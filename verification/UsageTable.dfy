/**
 The table `pod_usage_hourly`: the two upserts that fold readings into it, one row for each pod and
 hour bucket, and the statistics that any sequence of upserts leaves in a row.
 */
module UsageTable {
  import opened Uuid
  import opened Wrappers

  datatype Metric = Cpu | Memory

  /** The four columns kept for one metric. */
  datatype Stats = Stats(max: real, min: real, total: real, readings: nat)

  /** The column defaults: what a metric shows in a row created by the upsert of the other metric. */
  const NO_READINGS := Stats(0.0, 0.0, 0.0, 0)

  datatype Row = Row(cluster: int, cpu: Stats, memory: Stats) {
    function Of(m: Metric): Stats { if m.Cpu? then cpu else memory }

    function With(m: Metric, s: Stats): Row { if m.Cpu? then this.(cpu := s) else this.(memory := s) }
  }

  /** The primary key: a pod and the instant that begins the hour. */
  datatype Key = Key(pod: Uuid, hour: int)

  type Table = map<Key, Row>

  /** One record of a batch. */
  datatype Write = Write(cluster: int, metric: Metric, key: Key, value: real)

  /** The values of the `insert` branch. */
  function Inserted(x: real): Stats { Stats(x, x, x, 1) }

  /** The `on conflict` branch; a stored minimum of 0 counts as not set. */
  function Updated(s: Stats, x: real): Stats {
    Stats(if s.max > x then s.max else x,
          if s.min < x && s.min != 0.0 then s.min else x,
          s.total + x,
          s.readings + 1)
  }

  /** The generated average column. */
  function Avg(s: Stats): real { if s.readings == 0 then 0.0 else s.total / s.readings as real }

  function UpsertedRow(t: Table, w: Write): Row {
    if w.key in t then
      t[w.key].With(w.metric, Updated(t[w.key].Of(w.metric), w.value)).(cluster := w.cluster)
    else
      Row(w.cluster, NO_READINGS, NO_READINGS).With(w.metric, Inserted(w.value))
  }

  function Upsert(t: Table, w: Write): Table { t[w.key := UpsertedRow(t, w)] }

  /** A batch, record after record. */
  function Apply(t: Table, ws: seq<Write>): Table {
    if ws == [] then t else Upsert(Apply(t, ws[..|ws| - 1]), ws[|ws| - 1])
  }

  lemma {:induction false} ApplyConcat(t: Table, a: seq<Write>, b: seq<Write>)
    ensures Apply(t, a + b) == Apply(Apply(t, a), b)
  {
    if b == [] {
      assert a + b == a;
    } else {
      ApplyConcat(t, a, b[..|b| - 1]);
      assert (a + b)[..|a + b| - 1] == a + b[..|b| - 1];
    }
  }

  // ---------- what a row holds after any sequence of upserts ----------

  /** The readings of metric `m` booked under key `k`, in order. */
  function Values(log: seq<Write>, k: Key, m: Metric): seq<real> {
    if log == [] then []
    else
      var w, before := log[|log| - 1], Values(log[..|log| - 1], k, m);
      if w.key == k && w.metric == m then before + [w.value] else before
  }

  /** The metric of the upsert that created row `k`, if any did. */
  function Creator(log: seq<Write>, k: Key): Option<Metric> {
    if log == [] then None
    else
      var w, before := log[|log| - 1], Creator(log[..|log| - 1], k);
      if before.None? && w.key == k then Some(w.metric) else before
  }

  /** The cluster of the latest upsert of row `k`, if there was one. */
  function LatestCluster(log: seq<Write>, k: Key): Option<int> {
    if log == [] then None
    else if log[|log| - 1].key == k then Some(log[|log| - 1].cluster)
    else LatestCluster(log[..|log| - 1], k)
  }

  /** Readings folded into columns that held the defaults. */
  function Folded(xs: seq<real>): Stats {
    if xs == [] then NO_READINGS else Updated(Folded(xs[..|xs| - 1]), xs[|xs| - 1])
  }

  /** Readings of which the first created the row. */
  function Created(xs: seq<real>): Stats
    requires xs != []
  {
    if |xs| == 1 then Inserted(xs[0]) else Updated(Created(xs[..|xs| - 1]), xs[|xs| - 1])
  }

  lemma FoldStep(xs: seq<real>, x: real)
    ensures Folded(xs + [x]) == Updated(Folded(xs), x)
    ensures xs != [] ==> Created(xs + [x]) == Updated(Created(xs), x)
  {
    assert (xs + [x])[..|xs|] == xs;
  }

  /** An upsert touches its own row only, and there its own metric and the cluster only. */
  lemma RowStep(t: Table, w: Write, k: Key, m: Metric)
    ensures k in Upsert(t, w) <==> k in t || w.key == k
    ensures w.key != k && k in t ==> Upsert(t, w)[k] == t[k]
    ensures w.key == k ==>
      && Upsert(t, w)[k].cluster == w.cluster
      && Upsert(t, w)[k].Of(m) ==
        if w.metric == m then if k in t then Updated(t[k].Of(m), w.value) else Inserted(w.value)
        else if k in t then t[k].Of(m) else NO_READINGS
  {
  }

  /**
   From an empty table, any sequence of upserts leaves a row exactly for the keys written, and in each
   row nothing but the fold of that row's own readings, metric by metric.
   */
  lemma {:induction false} RowOfLog(log: seq<Write>, k: Key, m: Metric)
    ensures k in Apply(map[], log) <==> Creator(log, k).Some?
    ensures Creator(log, k) == Some(m) ==>
      Values(log, k, m) != [] && Apply(map[], log)[k].Of(m) == Created(Values(log, k, m))
    ensures Creator(log, k).Some? && Creator(log, k) != Some(m) ==>
      Apply(map[], log)[k].Of(m) == Folded(Values(log, k, m))
    ensures Creator(log, k).None? ==> Values(log, k, m) == []
    ensures Creator(log, k).Some? ==> LatestCluster(log, k) == Some(Apply(map[], log)[k].cluster)
  {
    if log == [] {
    } else {
      var front, w := log[..|log| - 1], log[|log| - 1];
      RowOfLog(front, k, m);
      FoldStep(Values(front, k, m), w.value);
      RowStep(Apply(map[], front), w, k, m);
      hide Upsert, Folded, Created, Updated;
    }
  }
}
