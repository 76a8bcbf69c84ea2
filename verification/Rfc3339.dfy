/**
 Times as text: `Print` writes what `Format(time.RFC3339)` writes, and `Parse` reads the date-time
 grammar of section 5.6 of RFC 3339.
 */
module Rfc3339 {
  import opened Calendar
  import opened Clock
  import opened Wrappers

  predicate IsDigit(c: char) { '0' <= c <= '9' }

  function DigitValue(c: char): int
    requires IsDigit(c)
  {
    c as int - '0' as int
  }

  function Digit(n: int): (c: char)
    requires 0 <= n < 10
    ensures IsDigit(c) && DigitValue(c) == n
  {
    ('0' as int + n) as char
  }

  function Two(n: int): (s: string)
    requires 0 <= n < 100
    ensures |s| == 2
  {
    [Digit(n / 10), Digit(n % 10)]
  }

  function ReadTwo(s: string, i: nat): Option<int>
    requires i + 2 <= |s|
  {
    if IsDigit(s[i]) && IsDigit(s[i + 1]) then Some(10 * DigitValue(s[i]) + DigitValue(s[i + 1])) else None
  }

  /** Decimal digits without padding. */
  function Decimal(n: nat): (s: string)
    ensures |s| > 0 && forall i :: 0 <= i < |s| ==> IsDigit(s[i])
  {
    if n < 10 then [Digit(n)] else Decimal(n / 10) + [Digit(n % 10)]
  }

  /** At least four digits, with a sign before a negative year. */
  function YearText(y: int): (s: string)
    ensures 0 <= y < 10000 ==> |s| == 4
  {
    if 0 <= y < 10000 then Two(y / 100) + Two(y % 100)
    else if y >= 10000 then Decimal(y)
    else "-" + if y > -10000 then Two(-y / 100) + Two(-y % 100) else Decimal(-y)
  }

  /** Month, day and time of day, after the year. */
  function RestText(c: Civil): (s: string)
    requires Valid(c)
    ensures |s| == 15
  {
    ['-', Digit(c.month / 10), Digit(c.month % 10), '-', Digit(c.day / 10), Digit(c.day % 10),
     'T', Digit(c.hour / 10), Digit(c.hour % 10), ':', Digit(c.minute / 10), Digit(c.minute % 10),
     ':', Digit(c.second / 10), Digit(c.second % 10)]
  }

  /** A zone offset in minutes: "Z" for none. */
  function ZoneText(minutes: int): string
    requires -6000 < minutes < 6000
  {
    var m := if minutes < 0 then -minutes else minutes;
    if minutes == 0 then "Z" else (if minutes < 0 then "-" else "+") + Two(m / 60) + ":" + Two(m % 60)
  }

  /** Local seconds of a time, on the wall clock of its offset. */
  function LocalSeconds(t: Time): int { t.inst / SECOND + t.off }

  function LocalYear(t: Time): int { FromSeconds(LocalSeconds(t)).year }

  /** The offset is a whole number of minutes of less than a day, as the grammar can write it. */
  predicate Zoned(t: Time) { t.off % 60 == 0 && -86400 < t.off < 86400 }

  /** Local seconds at the start of year 0 and of year 10000. */
  const FIRST_SECOND := -366 * 86400
  const END_SECOND := 3_652_059 * 86400

  /** The local year has four digits. */
  predicate Printable(t: Time) { Zoned(t) && FIRST_SECOND <= LocalSeconds(t) < END_SECOND }

  lemma PrintableYears(t: Time)
    requires Zoned(t)
    ensures Printable(t) <==> 0 <= LocalYear(t) < 10000
  {
    FourDigitSeconds(LocalSeconds(t));
  }

  lemma FourDigitSeconds(local: int)
    ensures FIRST_SECOND <= local < END_SECOND <==> 0 <= FromSeconds(local).year < 10000
  {
    YearBetween(local, 0, 10000);
    YearStarts();
  }

  lemma YearStarts()
    ensures DAY * ClosedDays(0) == FIRST_SECOND && DAY * ClosedDays(10000) == END_SECOND
  {
  }

  function Print(t: Time): string
    requires Zoned(t)
  {
    var c := FromSeconds(LocalSeconds(t));
    YearText(c.year) + RestText(c) + ZoneText(t.off / 60)
  }

  // ---------- reading ----------

  function ReadDateTime(s: string): (c: Option<Civil>)
    requires |s| >= 19
    ensures c.Some? ==> Valid(c.value) && 0 <= c.value.year < 10000
  {
    match (ReadTwo(s, 0), ReadTwo(s, 2), ReadTwo(s, 5), ReadTwo(s, 8), ReadTwo(s, 11), ReadTwo(s, 14), ReadTwo(s, 17))
    case (Some(y1), Some(y2), Some(mo), Some(d), Some(h), Some(mi), Some(sec)) =>
      var c := Civil(100 * y1 + y2, mo, d, h, mi, sec);
      if s[4] == '-' && s[7] == '-' && s[10] == 'T' && s[13] == ':' && s[16] == ':' && Valid(c) then Some(c) else None
    case _ => None
  }

  function ReadZone(s: string): (off: Option<int>)
    ensures off.Some? ==> off.value % 60 == 0 && -86400 < off.value < 86400
  {
    if s == "Z" then Some(0)
    else if |s| == 6 && (s[0] == '+' || s[0] == '-') && s[3] == ':' then
      match (ReadTwo(s, 1), ReadTwo(s, 4))
      case (Some(h), Some(m)) =>
        if h < 24 && m < 60 then Some((if s[0] == '+' then 60 else -60) * (60 * h + m)) else None
      case _ => None
    else None
  }

  /** The number of digits at the front of `s`. */
  function DigitRun(s: string): (n: nat)
    ensures n <= |s|
  {
    if s != [] && IsDigit(s[0]) then 1 + DigitRun(s[1..]) else 0
  }

  /** Nanoseconds written by fraction digits; digits beyond the ninth are dropped. */
  function Nanos(s: string, unit: int): (n: int)
    requires 1 <= unit <= SECOND && forall i :: 0 <= i < |s| ==> IsDigit(s[i])
    ensures 0 <= n < unit
  {
    if s == [] || unit < 10 then 0
    else
      var rest := Nanos(s[1..], unit / 10);
      ScaledDigit(DigitValue(s[0]), unit / 10, rest);
      DigitValue(s[0]) * (unit / 10) + rest
  }

  lemma ScaledDigit(d: int, unit: int, rest: int)
    requires 0 <= d < 10 && 0 <= rest < unit
    ensures 0 <= d * unit + rest < 10 * unit
  {
    assert 0 <= d * unit <= 9 * unit;
  }

  /** Splits an optional fraction off the text after the seconds. */
  function ReadFraction(s: string): (r: (int, string))
    ensures 0 <= r.0 < SECOND
  {
    if |s| >= 2 && s[0] == '.' && IsDigit(s[1]) then
      var n := DigitRun(s[1..]);
      DigitRunDigits(s[1..]);
      (Nanos(s[1..n + 1], SECOND), s[n + 1..])
    else (0, s)
  }

  lemma DigitRunDigits(s: string)
    ensures forall i :: 0 <= i < DigitRun(s) ==> IsDigit(s[i])
  {
  }

  function Parse(s: string): (t: Option<Time>)
    ensures t.Some? ==> Zoned(t.value)
  {
    if |s| < 19 then None
    else
      var (nanos, zone) := ReadFraction(s[19..]);
      match (ReadDateTime(s), ReadZone(zone))
      case (Some(c), Some(off)) => Some(Time((ToSeconds(c) - off) * SECOND + nanos, off))
      case _ => None
  }

  // ---------- round trip ----------

  lemma ReadInvertsDateTime(c: Civil, zone: string)
    requires Valid(c) && 0 <= c.year < 10000
    ensures ReadDateTime(YearText(c.year) + RestText(c) + zone) == Some(c)
  {
    var year, rest := YearText(c.year), RestText(c);
    var s := year + rest + zone;
    assert forall i :: 0 <= i < 4 ==> s[i] == year[i];
    assert forall i :: 4 <= i < 19 ==> s[i] == rest[i - 4];
    assert ReadTwo(s, 0) == Some(c.year / 100) && ReadTwo(s, 2) == Some(c.year % 100);
    assert ReadTwo(s, 5) == Some(c.month) && ReadTwo(s, 8) == Some(c.day);
    assert ReadTwo(s, 11) == Some(c.hour) && ReadTwo(s, 14) == Some(c.minute) && ReadTwo(s, 17) == Some(c.second);
  }

  lemma ReadInvertsZone(off: int)
    requires off % 60 == 0 && -86400 < off < 86400
    ensures ReadZone(ZoneText(off / 60)) == Some(off)
    ensures ReadFraction(ZoneText(off / 60)) == (0, ZoneText(off / 60))
  {
    if off != 0 {
      var s := ZoneText(off / 60);
      var m := if off < 0 then -(off / 60) else off / 60;
      assert s[3] == ':' && |s| == 6;
      assert ReadTwo(s, 1) == Some(m / 60) && ReadTwo(s, 4) == Some(m % 60);
    }
  }

  lemma YearOutOfGrammar(y: int, rest: string)
    requires !(0 <= y < 10000) && |rest| >= 15
    ensures |YearText(y) + rest| >= 19 ==> ReadDateTime(YearText(y) + rest).None?
  {
    var s := YearText(y) + rest;
    if y >= 10000 {
      LongDecimal(y);
      assert s[4] == Decimal(y)[4];
    } else {
      assert s[0] == '-';
    }
    if |s| >= 19 {
      BadDateTime(s);
    }
  }

  lemma LongDecimal(n: nat)
    requires n >= 10000
    ensures |Decimal(n)| >= 5
  {
    assert |Decimal(n / 10000)| > 0 && |Decimal(n / 1000)| > 1 && |Decimal(n / 100)| > 2 && |Decimal(n / 10)| > 3;
  }

  lemma BadDateTime(s: string)
    requires |s| >= 19 && (!IsDigit(s[0]) || s[4] != '-')
    ensures ReadDateTime(s).None?
  {
  }

  lemma ParseWithoutFraction(s: string, zone: string)
    requires |s| >= 19 && s[19..] == zone && ReadFraction(zone) == (0, zone)
    ensures Parse(s) ==
      if ReadDateTime(s).Some? && ReadZone(zone).Some? then
        Some(Time((ToSeconds(ReadDateTime(s).value) - ReadZone(zone).value) * SECOND, ReadZone(zone).value))
      else None
  {
  }

  /**
   Reading back what was printed gives the same time to the second, in the same zone; a time whose local
   year is not from 0 to 9999 prints to a text that cannot be read.
   */
  lemma ParseInvertsPrint(t: Time)
    requires Zoned(t)
    ensures Parse(Print(t)) == if Printable(t) then Some(Time(t.inst - t.inst % SECOND, t.off)) else None
  {
    PrintableYears(t);
    var c := FromSeconds(LocalSeconds(t));
    var zone := ZoneText(t.off / 60);
    assert Print(t) == YearText(c.year) + RestText(c) + zone && LocalYear(t) == c.year;
    hide *;
    if Printable(t) {
      PrintedIsRead(t, c, zone);
    } else {
      YearOutOfGrammar(c.year, RestText(c) + zone);
      assert Print(t) == YearText(c.year) + (RestText(c) + zone);
      UnreadableDateTime(Print(t));
    }
  }

  lemma PrintedIsRead(t: Time, c: Civil, zone: string)
    requires Zoned(t) && zone == ZoneText(t.off / 60) && c == FromSeconds(LocalSeconds(t)) && 0 <= c.year < 10000
    ensures Parse(YearText(c.year) + RestText(c) + zone) == Some(Time(t.inst - t.inst % SECOND, t.off))
  {
    assert ToSeconds(c) == LocalSeconds(t);
    assert -86400 < t.off < 86400 && t.off % 60 == 0;
    hide *;
    ReadInvertsDateTime(c, zone);
    ReadInvertsZone(t.off);
    ParseWithoutFraction(YearText(c.year) + RestText(c) + zone, zone);
    WholeSecond(t);
  }

  lemma UnreadableDateTime(s: string)
    requires |s| >= 19 ==> ReadDateTime(s).None?
    ensures Parse(s).None?
  {
  }

  lemma WholeSecond(t: Time)
    ensures (LocalSeconds(t) - t.off) * SECOND == t.inst - t.inst % SECOND
  {
  }

  lemma FourDigitYear(c: Civil)
    requires Valid(c) && 0 <= c.year < 10000
    ensures FIRST_SECOND <= ToSeconds(c) < END_SECOND
  {
    ValidBetween(c, 0, 10000);
    YearStarts();
  }

  lemma HourOfLocal(t: Time)
    ensures LocalSeconds(TruncateHour(t)) == LocalSeconds(t) - LocalSeconds(t) % 3600
  {
    var local := t.inst + t.off * SECOND;
    var hours, rest := local / HOUR, local % HOUR;
    WholeSeconds(t.inst, t.off);
    WholeSeconds(TruncateHour(t).inst, t.off);
    assert TruncateHour(t).inst + t.off * SECOND == hours * HOUR;
    SecondsOfHours(hours, rest);
    SecondsOfHours(hours, 0);
  }

  lemma WholeSeconds(inst: int, off: int)
    ensures inst / SECOND + off == (inst + off * SECOND) / SECOND
  {
  }

  lemma SecondsOfHours(hours: int, rest: int)
    requires 0 <= rest < HOUR
    ensures (hours * HOUR + rest) / SECOND == 3600 * hours + rest / SECOND
    ensures 0 <= rest / SECOND < 3600
    ensures (3600 * hours + rest / SECOND) % 3600 == rest / SECOND
  {
    assert hours * HOUR + rest == (3600 * hours) * SECOND + rest;
  }

  lemma ParsedLocal(s: string)
    requires Parse(s).Some?
    ensures |s| >= 19 && ReadDateTime(s).Some? && LocalSeconds(Parse(s).value) == ToSeconds(ReadDateTime(s).value)
  {
  }

  /** Every text that is read denotes a time that prints, also after it is cut to the hour. */
  lemma ParsedIsPrintable(s: string)
    requires Parse(s).Some?
    ensures Printable(Parse(s).value) && Printable(TruncateHour(Parse(s).value))
  {
    ParsedLocal(s);
    FourDigitYear(ReadDateTime(s).value);
    hide Parse, ReadDateTime;
    HourOfLocal(Parse(s).value);
    KeepsRange(LocalSeconds(Parse(s).value));
  }

  lemma KeepsRange(local: int)
    requires FIRST_SECOND <= local < END_SECOND
    ensures FIRST_SECOND <= local - local % 3600 < END_SECOND
  {
  }
}
