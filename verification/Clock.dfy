/**
 Wall-clock times as Go's `time.Time` sees them with a fixed zone offset, and the truncation to the
 hour that both the scraper and the server apply.

 An instant is a number of nanoseconds since 00:00 UTC on 1 January of year 1, so that the instant 0
 is Go's zero time.  An offset is a number of seconds east of UTC.
 */
module Clock {

  const MILLI := 1_000_000
  const SECOND := 1_000_000_000
  const HOUR := 3_600_000_000_000

  /** Midnight of 1 January 1970. */
  const UNIX_EPOCH := 62_135_596_800_000_000_000

  datatype Time = Time(inst: int, off: int)

  const ZERO := Time(0, 0)

  /** What `time.Time.IsZero` asks: the instant only, whatever the zone. */
  predicate IsZero(t: Time) { t.inst == 0 }

  /** The time `inst` falls on a whole hour of the wall clock of offset `off`. */
  predicate Aligned(inst: int, off: int) { (inst + off * SECOND) % HOUR == 0 }

  /** The last whole wall-clock hour not after `t`, in the zone of `t`. */
  function TruncateHour(t: Time): (r: Time)
    ensures r.off == t.off
    ensures Aligned(r.inst, r.off)
    ensures r.inst <= t.inst < r.inst + HOUR
  {
    Time(t.inst - (t.inst + t.off * SECOND) % HOUR, t.off)
  }

  /** The contract of `TruncateHour` has only one solution. */
  lemma TruncateHourUnique(t: Time, r: int)
    requires Aligned(r, t.off) && r <= t.inst < r + HOUR
    ensures TruncateHour(t).inst == r
  {
  }

  /** A sample stamped with Unix milliseconds, seen in the zone of the scraper. */
  function UnixMilli(ms: int, zone: int): Time { Time(UNIX_EPOCH + ms * MILLI, zone) }

  /** The hour bucket under which the scraper books a sample. */
  function Bucket(ms: int, zone: int): int { TruncateHour(UnixMilli(ms, zone)).inst }

  /** Half-open window membership, as in the WHERE clause of the aggregation query. */
  predicate InWindow(inst: int, start: int, end: int) { start <= inst < end }

  /** In an aligned window, the bucket of a time is inside exactly when the time is. */
  lemma BucketInAlignedWindow(t: Time, start: int, end: int)
    requires Aligned(start, t.off) && Aligned(end, t.off)
    ensures InWindow(TruncateHour(t).inst, start, end) <==> InWindow(t.inst, start, end)
  {
    var r := TruncateHour(t).inst;
    AlignedGap(r, start, t.off);
    AlignedGap(r, end, t.off);
  }

  /** Two aligned instants are a whole number of hours apart. */
  lemma AlignedGap(a: int, b: int, off: int)
    requires Aligned(a, off)
    ensures Aligned(b, off) <==> (b - a) % HOUR == 0
    ensures Aligned(b, off) && a < b ==> a + HOUR <= b
  {
  }

  /** Booking by bucket is exact for a window if and only if both ends are hours of the scraper's zone. */
  lemma BucketsRespectWindow(start: int, end: int, zone: int)
    requires start < end
    ensures (forall inst: int ::
               InWindow(TruncateHour(Time(inst, zone)).inst, start, end) <==> InWindow(inst, start, end))
            <==> Aligned(start, zone) && Aligned(end, zone)
  {
    if Aligned(start, zone) && Aligned(end, zone) {
      forall inst: int
        ensures InWindow(TruncateHour(Time(inst, zone)).inst, start, end) <==> InWindow(inst, start, end)
      {
        BucketInAlignedWindow(Time(inst, zone), start, end);
      }
    } else if Aligned(start, zone) {
      assert !InWindow(end, start, end);
      var r := TruncateHour(Time(end, zone)).inst;
      AlignedGap(start, r, zone);
      assert InWindow(r, start, end);
    } else {
      assert InWindow(start, start, end);
      assert !InWindow(TruncateHour(Time(start, zone)).inst, start, end);
    }
  }

  /** An hour of UTC, and a scraper at +05:30: a sample ten minutes into the hour is booked half an hour before it. */
  lemma HalfHourZoneMisses()
    ensures
      var start, end, ms, zone := UNIX_EPOCH, UNIX_EPOCH + HOUR, 600_000, 19_800;
      && Aligned(start, 0) && Aligned(end, 0)
      && InWindow(UnixMilli(ms, zone).inst, start, end) && !InWindow(Bucket(ms, zone), start, end)
  {
    TruncateHourUnique(UnixMilli(600_000, 19_800), UNIX_EPOCH - HOUR / 2);
  }
}
