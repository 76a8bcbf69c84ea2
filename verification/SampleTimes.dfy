/** Which instant the millisecond stamp of a sample denotes, and which hour it is booked under, in civil fields. */
module SampleTimes {
  import opened Calendar
  import opened Clock
  import opened Rfc3339

  /** The stamp counts thousandths of a second from midnight of 1 January 1970. */
  lemma StampDenotes(ms: int, zone: int)
    ensures
      var t := UnixMilli(ms, zone);
      && ToSeconds(FromSeconds(t.inst / SECOND)) == ToSeconds(Civil(1970, 1, 1, 0, 0, 0)) + ms / 1000
      && 1000 * (t.inst % SECOND) == ms % 1000 * SECOND
      && t.off == zone
  {
    EpochSeconds();
    SplitMillis(ms);
  }

  lemma EpochSeconds()
    ensures ToSeconds(Civil(1970, 1, 1, 0, 0, 0)) == 719_162 * DAY
  {
    ClosedForm(1970);
    assert ClosedDays(1970) == 719_162;
    hide DaysBeforeYear, ClosedDays;
  }

  lemma SplitMillis(ms: int)
    ensures
      var inst := UnixMilli(ms, 0).inst;
      inst / SECOND == 719_162 * DAY + ms / 1000 && inst % SECOND == ms % 1000 * 1_000_000
  {
    var q, r := ms / 1000, ms % 1000;
    assert UnixMilli(ms, 0).inst == SECOND * (719_162 * DAY + q) + r * 1_000_000;
  }

  /** The fields of a whole hour before, cut off minutes and seconds. */
  lemma HourFields(local: int)
    ensures FromSeconds(local - local % 3600) == FromSeconds(local).(minute := 0, second := 0)
  {
    var c := FromSeconds(local);
    var cut := c.(minute := 0, second := 0);
    DayAndHour(c);
    assert ToSeconds(cut) == local - local % 3600;
    FieldsUnique(FromSeconds(local - local % 3600), cut);
  }

  lemma DayAndHour(c: Civil)
    requires Valid(c)
    ensures ToSeconds(c) % 3600 == 60 * c.minute + c.second
  {
    var hours, rest := 24 * DayNumber(c) + c.hour, 60 * c.minute + c.second;
    assert ToSeconds(c) == 3600 * hours + rest;
    hide *;
    RestOfHour(hours, rest);
  }

  lemma RestOfHour(hours: int, rest: int)
    requires 0 <= rest < 3600
    ensures (3600 * hours + rest) % 3600 == rest
  {
  }

  /** On the scraper's wall clock, a sample is booked under its own date and hour, with minute and second 0. */
  lemma BucketFields(ms: int, zone: int)
    ensures
      var local := FromSeconds(LocalSeconds(UnixMilli(ms, zone)));
      && FromSeconds(LocalSeconds(Time(Bucket(ms, zone), zone))) == local.(minute := 0, second := 0)
      && Bucket(ms, zone) % SECOND == 0
  {
    var t := UnixMilli(ms, zone);
    HourOfLocal(t);
    HourFields(LocalSeconds(t));
    WholeSecondBucket(TruncateHour(t));
  }

  lemma WholeSecondBucket(t: Time)
    requires Aligned(t.inst, t.off)
    ensures t.inst % SECOND == 0
  {
    var hours := (t.inst + t.off * SECOND) / HOUR;
    assert t.inst == SECOND * (3600 * hours - t.off);
  }
}
