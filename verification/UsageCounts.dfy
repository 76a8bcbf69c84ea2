/**
 Batches and whole logs: the order of a batch is irrelevant when its keys differ, and the rows of the
 table share out the readings without losing or repeating any.
 */
module UsageCounts {
  import opened Clock
  import opened Sums
  import opened UsageLaws
  import opened UsageTable
  import opened Uuid
  import opened Wrappers

  // ---------- order inside a batch ----------

  ghost predicate DistinctKeys(ws: seq<Write>) {
    forall i, j :: 0 <= i < j < |ws| ==> ws[i].key != ws[j].key
  }

  lemma {:induction false} ApplyDistinct(t: Table, ws: seq<Write>, k: Key)
    requires DistinctKeys(ws)
    ensures (forall i :: 0 <= i < |ws| ==> ws[i].key != k) ==>
      (k in Apply(t, ws) <==> k in t) && (k in t ==> Apply(t, ws)[k] == t[k])
    ensures forall i :: 0 <= i < |ws| && ws[i].key == k ==>
      k in Apply(t, ws) && Apply(t, ws)[k] == UpsertedRow(t, ws[i])
  {
    if ws == [] {
    } else {
      var n := |ws| - 1;
      ApplyDistinct(t, ws[..n], k);
      if ws[n].key == k {
        assert forall i :: 0 <= i < n ==> ws[..n][i].key != k;
      } else {
        assert forall i :: 0 <= i < n ==> ws[..n][i] == ws[i];
      }
    }
  }

  /** Two orders of the same records with distinct keys leave the same table, whatever it held before. */
  lemma BatchOrderIrrelevant(t: Table, a: seq<Write>, b: seq<Write>)
    requires DistinctKeys(a) && DistinctKeys(b)
    requires forall w :: w in a <==> w in b
    ensures Apply(t, a) == Apply(t, b)
  {
    forall k
      ensures k in Apply(t, a) <==> k in Apply(t, b)
      ensures k in Apply(t, a) ==> Apply(t, a)[k] == Apply(t, b)[k]
    {
      ApplyDistinct(t, a, k);
      ApplyDistinct(t, b, k);
      if i :| 0 <= i < |a| && a[i].key == k {
        assert a[i] in b;
        var j :| 0 <= j < |b| && b[j] == a[i];
        assert b[j].key == k;
      } else {
        forall j | 0 <= j < |b| ensures b[j].key != k {
          assert b[j] in a;
        }
      }
    }
  }

  // ---------- conservation over the rows of the table ----------

  /** `ks` lists, once each, the keys of the table that satisfy `p`. */
  ghost predicate Lists(ks: seq<Key>, t: Table, p: Key -> bool) {
    Distinct(ks) && forall k :: k in ks <==> k in t && p(k)
  }

  /** A column of metric `m` added up over the rows `ks`. */
  function Column(ks: seq<Key>, t: Table, m: Metric, f: Stats -> real): real
    requires forall k :: k in ks ==> k in t
  {
    if ks == [] then 0.0
    else
      assert forall k :: k in ks[..|ks| - 1] ==> k in ks;
      Column(ks[..|ks| - 1], t, m, f) + f(t[ks[|ks| - 1]].Of(m))
  }

  function Readings(): Stats -> real { (s: Stats) => s.readings as real }

  function Totals(): Stats -> real { (s: Stats) => s.total }

  function KeyOf(): Write -> Key { (w: Write) => w.key }

  /** Weighs a write of metric `m` under a key of `p` by 1, or by its value. */
  function Weigher(m: Metric, p: Key -> bool, byValue: bool): Write -> real {
    (w: Write) => if w.metric != m || !p(w.key) then 0.0 else if byValue then w.value else 1.0
  }

  lemma {:induction false} KeyWeightOfLog(log: seq<Write>, k: Key, m: Metric, p: Key -> bool)
    requires p(k)
    ensures KeyWeight(log, KeyOf(), Weigher(m, p, false), k) == |Values(log, k, m)| as real
    ensures KeyWeight(log, KeyOf(), Weigher(m, p, true), k) == Total(Values(log, k, m))
  {
    if log == [] {
    } else {
      var front, w := log[..|log| - 1], log[|log| - 1];
      KeyWeightOfLog(front, k, m, p);
      if w.key == k && w.metric == m {
        var before := Values(front, k, m);
        assert (before + [w.value])[..|before|] == before;
      }
    }
  }

  lemma RowStats(log: seq<Write>, k: Key, m: Metric)
    requires k in Apply(map[], log)
    ensures Apply(map[], log)[k].Of(m).readings == |Values(log, k, m)|
    ensures Apply(map[], log)[k].Of(m).total == Total(Values(log, k, m))
  {
    RowOfLog(log, k, m);
    FoldedStats(Values(log, k, m));
    if Creator(log, k) == Some(m) {
      CreatedStats(Values(log, k, m));
    }
  }

  lemma {:induction false} ColumnsAreKeyWeights(ks: seq<Key>, log: seq<Write>, m: Metric, p: Key -> bool)
    requires forall i :: 0 <= i < |ks| ==> p(ks[i])
    requires forall k :: k in ks ==> k in Apply(map[], log)
    ensures Column(ks, Apply(map[], log), m, Readings()) == SumOverKeys(ks, log, KeyOf(), Weigher(m, p, false))
    ensures Column(ks, Apply(map[], log), m, Totals()) == SumOverKeys(ks, log, KeyOf(), Weigher(m, p, true))
  {
    if ks == [] {
    } else {
      var front, k := ks[..|ks| - 1], ks[|ks| - 1];
      assert forall k :: k in front ==> k in ks;
      ColumnsAreKeyWeights(front, log, m, p);
      RowStats(log, k, m);
      KeyWeightOfLog(log, k, m, p);
    }
  }

  /**
   Over any set of rows picked by key, the counts add up to the number of upserts of the metric under
   those keys and the totals to the sum of their readings: nothing is lost or booked twice.
   */
  lemma ReadingsConserved(ks: seq<Key>, log: seq<Write>, m: Metric, p: Key -> bool)
    requires Lists(ks, Apply(map[], log), p)
    ensures Column(ks, Apply(map[], log), m, Readings()) == Weight(log, Weigher(m, p, false))
    ensures Column(ks, Apply(map[], log), m, Totals()) == Weight(log, Weigher(m, p, true))
  {
    forall i | 0 <= i < |ks| ensures p(ks[i]) {
      assert ks[i] in ks;
    }
    ColumnsAreKeyWeights(ks, log, m, p);
    forall i | 0 <= i < |log| ensures log[i].key in ks || !p(log[i].key) {
      WrittenKeyPresent(log, i);
    }
    Conservation(ks, log, KeyOf(), Weigher(m, p, false));
    Conservation(ks, log, KeyOf(), Weigher(m, p, true));
  }

  lemma {:induction false} WrittenKeyPresent(log: seq<Write>, i: nat)
    requires i < |log|
    ensures log[i].key in Apply(map[], log)
  {
    if i == |log| - 1 {
    } else {
      WrittenKeyPresent(log[..|log| - 1], i);
    }
  }

  // ---------- from samples to windows ----------

  /** A reading as the scraper takes it, before its timestamp is cut to the hour. */
  datatype Sample = Sample(metric: Metric, pod: Uuid, ms: int, value: real)

  /** The upserts for samples taken by a scraper that runs in `zone`. */
  function Booked(samples: seq<Sample>, cluster: int, zone: int): (ws: seq<Write>)
    ensures |ws| == |samples|
    ensures forall i :: 0 <= i < |samples| ==>
      ws[i] == Write(cluster, samples[i].metric, Key(samples[i].pod, Bucket(samples[i].ms, zone)), samples[i].value)
  {
    seq(|samples|, i requires 0 <= i < |samples| =>
      Write(cluster, samples[i].metric, Key(samples[i].pod, Bucket(samples[i].ms, zone)), samples[i].value))
  }

  lemma BookedConcat(a: seq<Sample>, b: seq<Sample>, cluster: int, zone: int)
    ensures Booked(a + b, cluster, zone) == Booked(a, cluster, zone) + Booked(b, cluster, zone)
  {
  }

  function HourIn(start: int, end: int): Key -> bool { (k: Key) => InWindow(k.hour, start, end) }

  /** Weighs the samples of metric `m` taken inside the window. */
  function SampleIn(m: Metric, start: int, end: int, byValue: bool): Sample -> real {
    (s: Sample) => if s.metric != m || !InWindow(UnixMilli(s.ms, 0).inst, start, end) then 0.0
    else if byValue then s.value else 1.0
  }

  lemma {:induction false} BookedInWindow(
    samples: seq<Sample>, cluster: int, zone: int, m: Metric, start: int, end: int, byValue: bool)
    requires Aligned(start, zone) && Aligned(end, zone)
    ensures Weight(Booked(samples, cluster, zone), Weigher(m, HourIn(start, end), byValue))
         == Weight(samples, SampleIn(m, start, end, byValue))
  {
    if samples == [] {
    } else {
      var s := samples[|samples| - 1];
      BookedInWindow(samples[..|samples| - 1], cluster, zone, m, start, end, byValue);
      BucketInAlignedWindow(UnixMilli(s.ms, zone), start, end);
      var log := Booked(samples, cluster, zone);
      assert log[..|log| - 1] == Booked(samples[..|samples| - 1], cluster, zone);
    }
  }

  /**
   End to end: the rows that a query window selects hold exactly the samples taken inside that window,
   in number and in sum, whenever the window begins and ends on hours of the scraper's zone.
   */
  lemma WindowHoldsItsSamples(
    ks: seq<Key>, samples: seq<Sample>, cluster: int, zone: int, m: Metric, start: int, end: int)
    requires Aligned(start, zone) && Aligned(end, zone)
    requires Lists(ks, Apply(map[], Booked(samples, cluster, zone)), HourIn(start, end))
    ensures
      var t := Apply(map[], Booked(samples, cluster, zone));
      && Column(ks, t, m, Readings()) == Weight(samples, SampleIn(m, start, end, false))
      && Column(ks, t, m, Totals()) == Weight(samples, SampleIn(m, start, end, true))
  {
    ReadingsConserved(ks, Booked(samples, cluster, zone), m, HourIn(start, end));
    BookedInWindow(samples, cluster, zone, m, start, end, false);
    BookedInWindow(samples, cluster, zone, m, start, end, true);
  }
}
