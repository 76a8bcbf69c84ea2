/**
 The date-time grammar of section 5.6 of RFC 3339, and the proof that `Parse` reads exactly its texts, with the
 instants they denote: digits are weighed from the right here, and read from the left there.
 */
module Rfc3339Grammar {
  import opened Calendar
  import opened Clock
  import opened Rfc3339
  import opened Wrappers

  predicate AllDigits(s: string) { forall i :: 0 <= i < |s| ==> IsDigit(s[i]) }

  /** The number that decimal digits write. */
  function NumberOf(s: string): nat
    requires AllDigits(s)
  {
    if s == [] then 0 else 10 * NumberOf(s[..|s| - 1]) + DigitValue(s[|s| - 1])
  }

  function Pow10(k: nat): nat { if k == 0 then 1 else 10 * Pow10(k - 1) }

  /** A zone: UTC, or hours and minutes east or west of it. */
  datatype Zone = Utc | Offset(east: bool, hours: int, minutes: int)

  predicate ValidZone(z: Zone) { z.Offset? ==> 0 <= z.hours < 24 && 0 <= z.minutes < 60 }

  function ZoneSeconds(z: Zone): int {
    match z
    case Utc => 0
    case Offset(east, h, m) => if east then 3600 * h + 60 * m else -(3600 * h + 60 * m)
  }

  function ZoneSpelling(z: Zone): string
    requires ValidZone(z)
  {
    match z
    case Utc => "Z"
    case Offset(east, h, m) => (if east then "+" else "-") + Two(h) + ":" + Two(m)
  }

  /** The date and time of day of four-digit years. */
  predicate InYears(c: Civil) { Valid(c) && 0 <= c.year < 10000 }

  function DateTimeText(c: Civil): (s: string)
    requires InYears(c)
    ensures |s| == 19
  {
    YearText(c.year) + RestText(c)
  }

  /** A fraction of a second; none for no digits. */
  function FractionText(f: string): string { if f == [] then [] else ['.'] + f }

  /** The first `k` digits of a fraction, filled up with zeros. */
  function Padded(f: string, k: nat): (s: string)
    requires AllDigits(f)
    ensures |s| == k && AllDigits(s)
  {
    (f + seq(k, _ => '0'))[..k]
  }

  /** The instant that a text of the grammar denotes: nine digits of the fraction count nanoseconds. */
  function Denoted(c: Civil, f: string, z: Zone): Time
    requires InYears(c) && AllDigits(f) && ValidZone(z)
  {
    Time((ToSeconds(c) - ZoneSeconds(z)) * SECOND + NumberOf(Padded(f, 9)), ZoneSeconds(z))
  }

  // ---------- what the fields of a text say ----------

  lemma TwoValue(n: int)
    requires 0 <= n < 100
    ensures AllDigits(Two(n)) && NumberOf(Two(n)) == n
  {
    var s := Two(n);
    assert s[..1] == [s[0]] && s[..1][..0] == [];
    assert NumberOf(s[..1]) == DigitValue(s[0]);
  }

  lemma LastDigit(s: string, c: char)
    requires AllDigits(s) && IsDigit(c)
    ensures AllDigits(s + [c]) && NumberOf(s + [c]) == 10 * NumberOf(s) + DigitValue(c)
  {
    assert (s + [c])[..|s|] == s;
  }

  lemma {:induction false} NumberOfConcat(a: string, b: string)
    requires AllDigits(a) && AllDigits(b)
    ensures AllDigits(a + b) && NumberOf(a + b) == NumberOf(a) * Pow10(|b|) + NumberOf(b)
  {
    if b == [] {
      assert a + b == a;
    } else {
      var front, c := b[..|b| - 1], b[|b| - 1];
      NumberOfConcat(a, front);
      assert b == front + [c] && a + b == (a + front) + [c];
      assert Pow10(|b|) == 10 * Pow10(|front|);
      hide NumberOf, Pow10, DigitValue;
      LastDigit(front, c);
      LastDigit(a + front, c);
      TimesTen(NumberOf(a), Pow10(|front|));
    }
  }

  lemma TimesTen(x: int, y: int)
    ensures 10 * (x * y) == x * (10 * y)
  {
  }

  /** Year, month, day, hour, minute and second stand in this order, in four and two digits. */
  lemma Layout(c: Civil)
    requires InYears(c)
    ensures
      var s := DateTimeText(c);
      && s[4] == s[7] == '-' && s[10] == 'T' && s[13] == s[16] == ':'
      && AllDigits(s[..4]) && NumberOf(s[..4]) == c.year
      && AllDigits(s[5..7]) && NumberOf(s[5..7]) == c.month
      && AllDigits(s[8..10]) && NumberOf(s[8..10]) == c.day
      && AllDigits(s[11..13]) && NumberOf(s[11..13]) == c.hour
      && AllDigits(s[14..16]) && NumberOf(s[14..16]) == c.minute
      && AllDigits(s[17..]) && NumberOf(s[17..]) == c.second
  {
    var s, year, rest := DateTimeText(c), YearText(c.year), RestText(c);
    assert s[..4] == Two(c.year / 100) + Two(c.year % 100);
    assert s[4..] == rest;
    assert s[5..7] == rest[1..3] == Two(c.month) && s[8..10] == rest[4..6] == Two(c.day);
    assert s[11..13] == rest[7..9] == Two(c.hour) && s[14..16] == rest[10..12] == Two(c.minute);
    assert s[17..] == rest[13..15] == Two(c.second);
    assert s[4] == rest[0] && s[7] == rest[3] && s[10] == rest[6] && s[13] == rest[9] && s[16] == rest[12];
    FourValue(c.year);
    TwoValue(c.month);
    TwoValue(c.day);
    TwoValue(c.hour);
    TwoValue(c.minute);
    TwoValue(c.second);
  }

  lemma FourValue(n: int)
    requires 0 <= n < 10000
    ensures AllDigits(Two(n / 100) + Two(n % 100)) && NumberOf(Two(n / 100) + Two(n % 100)) == n
  {
    TwoValue(n / 100);
    TwoValue(n % 100);
    NumberOfConcat(Two(n / 100), Two(n % 100));
    assert Pow10(2) == 10 * Pow10(1) == 100;
  }

  /** A time with a four-digit local year prints as its local fields and its zone, "Z" when there is none. */
  lemma PrintSpells(t: Time)
    requires Printable(t)
    ensures
      var c := FromSeconds(LocalSeconds(t));
      var minutes := if t.off < 0 then -t.off / 60 else t.off / 60;
      var z := if t.off == 0 then Utc else Offset(t.off > 0, minutes / 60, minutes % 60);
      && InYears(c) && ValidZone(z) && ZoneSeconds(z) == t.off
      && Print(t) == DateTimeText(c) + ZoneSpelling(z)
  {
    PrintableYears(t);
    ZoneTextSpells(t.off);
    PrintIs(t);
    hide FromSeconds, YearText, RestText, ZoneText, ZoneSpelling, Print;
  }

  lemma PrintIs(t: Time)
    requires Zoned(t)
    ensures
      var c := FromSeconds(LocalSeconds(t));
      && LocalYear(t) == c.year && -6000 < t.off / 60 < 6000
      && Print(t) == YearText(c.year) + RestText(c) + ZoneText(t.off / 60)
  {
    hide FromSeconds, YearText, RestText, ZoneText;
  }

  lemma ZoneTextSpells(off: int)
    requires off % 60 == 0 && -86400 < off < 86400
    ensures
      var minutes := if off < 0 then -off / 60 else off / 60;
      var z := if off == 0 then Utc else Offset(off > 0, minutes / 60, minutes % 60);
      ValidZone(z) && ZoneSeconds(z) == off && ZoneText(off / 60) == ZoneSpelling(z)
  {
    var minutes := if off < 0 then -off / 60 else off / 60;
    assert off == if off < 0 then -60 * minutes else 60 * minutes;
    assert minutes == 60 * (minutes / 60) + minutes % 60 && minutes < 1440;
  }

  // ---------- every text of the grammar is read ----------

  lemma {:induction false} NanosValue(f: string, k: nat)
    requires AllDigits(f) && k <= 9
    ensures 1 <= Pow10(k) <= SECOND && Nanos(f, Pow10(k)) == NumberOf(Padded(f, k))
  {
    PowersOfTen();
    if f == [] {
      ZerosValue(k);
      assert Padded(f, k) == seq(k, _ => '0');
    } else if k == 0 {
      assert Padded(f, 0) == [];
    } else {
      NanosValue(f[1..], k - 1);
      assert Padded(f, k) == [f[0]] + Padded(f[1..], k - 1);
      NumberOfConcat([f[0]], Padded(f[1..], k - 1));
      assert [f[0]][..0] == [];
      assert NumberOf([f[0]]) == DigitValue(f[0]);
    }
  }

  lemma PowersOfTen()
    ensures forall k: nat :: k <= 9 ==> 1 <= Pow10(k) <= SECOND
    ensures Pow10(9) == SECOND
  {
    assert Pow10(3) == 1000;
    assert Pow10(6) == 1_000_000;
    assert Pow10(9) == 1_000_000_000;
    forall k: nat | k <= 9 ensures 1 <= Pow10(k) <= SECOND {
      PowerGrows(k, 9);
    }
  }

  lemma {:induction false} PowerGrows(k: nat, n: nat)
    requires k <= n
    ensures 1 <= Pow10(k) <= Pow10(n)
  {
    if k == n {
      PowerPositive(k);
    } else {
      PowerGrows(k, n - 1);
    }
  }

  lemma {:induction false} PowerPositive(k: nat)
    ensures Pow10(k) >= 1
  {
    if k == 0 {
    } else {
      PowerPositive(k - 1);
    }
  }

  lemma {:induction false} ZerosValue(k: nat)
    ensures AllDigits(seq(k, _ => '0')) && NumberOf(seq(k, _ => '0')) == 0
  {
    if k == 0 {
    } else {
      ZerosValue(k - 1);
      var zeros := seq(k, _ => '0');
      assert zeros[..k - 1] == seq(k - 1, _ => '0');
    }
  }

  lemma {:induction false} DigitRunOf(f: string, rest: string)
    requires AllDigits(f) && (rest == [] || !IsDigit(rest[0]))
    ensures DigitRun(f + rest) == |f|
  {
    if f == [] {
      assert f + rest == rest;
    } else {
      DigitRunOf(f[1..], rest);
      assert (f + rest)[1..] == f[1..] + rest;
    }
  }

  lemma ZoneBegins(z: Zone)
    requires ValidZone(z)
    ensures ZoneSpelling(z) != [] && !IsDigit(ZoneSpelling(z)[0]) && ZoneSpelling(z)[0] != '.'
  {
  }

  lemma ReadsZone(z: Zone)
    requires ValidZone(z)
    ensures ReadZone(ZoneSpelling(z)) == Some(ZoneSeconds(z))
  {
    var s := ZoneSpelling(z);
    if z.Offset? {
      assert |s| == 6 && s[3] == ':';
      assert ReadTwo(s, 1) == Some(z.hours) && ReadTwo(s, 4) == Some(z.minutes);
    }
  }

  lemma ReadsFraction(f: string, z: Zone)
    requires AllDigits(f) && ValidZone(z)
    ensures ReadFraction(FractionText(f) + ZoneSpelling(z)) == (NumberOf(Padded(f, 9)), ZoneSpelling(z))
  {
    var zone := ZoneSpelling(z);
    var s := FractionText(f) + zone;
    ZoneBegins(z);
    NanosValue(f, 9);
    PowersOfTen();
    hide ZoneSpelling, Padded, NumberOf, Nanos, Pow10;
    if f == [] {
      assert s == zone;
      NoNanos(SECOND);
    } else {
      assert s[1..] == f + zone && s[0] == '.' && s[1] == f[0];
      DigitRunOf(f, zone);
      assert s[1..|f| + 1] == f && s[|f| + 1..] == zone;
    }
  }

  lemma NoNanos(unit: int)
    requires 1 <= unit <= SECOND
    ensures Nanos([], unit) == 0
  {
  }

  /** A text of the grammar, with any fraction and any zone, is read as the time it denotes. */
  lemma ParseText(c: Civil, f: string, z: Zone)
    requires InYears(c) && AllDigits(f) && ValidZone(z)
    ensures Parse(DateTimeText(c) + FractionText(f) + ZoneSpelling(z)) == Some(Denoted(c, f, z))
  {
    hide *;
    var dateTime, fraction, zone := DateTimeText(c), FractionText(f), ZoneSpelling(z);
    Joined(dateTime, fraction, zone);
    DenotedIs(c, f, z);
    DateTimeIsRead(c, fraction + zone);
    ReadsFraction(f, z);
    ReadsZone(z);
    ParsePieces(dateTime + (fraction + zone), c, NumberOf(Padded(f, 9)), zone, ZoneSeconds(z));
  }

  lemma Joined(dateTime: string, fraction: string, zone: string)
    requires |dateTime| == 19
    ensures dateTime + fraction + zone == dateTime + (fraction + zone)
    ensures (dateTime + (fraction + zone))[19..] == fraction + zone
  {
  }

  lemma DateTimeIsRead(c: Civil, rest: string)
    requires InYears(c)
    ensures ReadDateTime(DateTimeText(c) + rest) == Some(c)
  {
    ReadInvertsDateTime(c, rest);
  }

  lemma ParsePieces(s: string, c: Civil, nanos: int, zone: string, off: int)
    requires |s| >= 19 && ReadDateTime(s) == Some(c) && Valid(c)
    requires ReadFraction(s[19..]) == (nanos, zone) && ReadZone(zone) == Some(off)
    ensures Parse(s) == Some(Time((ToSeconds(c) - off) * SECOND + nanos, off))
  {
  }

  lemma DenotedIs(c: Civil, f: string, z: Zone)
    requires InYears(c) && AllDigits(f) && ValidZone(z)
    ensures Valid(c)
    ensures Denoted(c, f, z) ==
      Time((ToSeconds(c) - ZoneSeconds(z)) * SECOND + NumberOf(Padded(f, 9)), ZoneSeconds(z))
  {
  }

  // ---------- and no other ----------

  lemma TwoInverts(s: string, i: nat)
    requires i + 2 <= |s| && ReadTwo(s, i).Some?
    ensures 0 <= ReadTwo(s, i).value < 100 && s[i..i + 2] == Two(ReadTwo(s, i).value)
  {
    var a, b := s[i], s[i + 1];
    DigitOf(a);
    DigitOf(b);
  }

  lemma DigitOf(c: char)
    requires IsDigit(c)
    ensures 0 <= DigitValue(c) < 10 && Digit(DigitValue(c)) == c
  {
  }

  lemma ReadDateTimeSpells(s: string)
    requires |s| >= 19 && ReadDateTime(s).Some?
    ensures InYears(ReadDateTime(s).value) && s[..19] == DateTimeText(ReadDateTime(s).value)
  {
    hide *;
    var c := ReadDateTime(s).value;
    FieldsRead(s);
    YearPieces(c.year);
    RestPieces(c);
    TwoAt(s, 0, c.year / 100);
    TwoAt(s, 2, c.year % 100);
    TwoAt(s, 5, c.month);
    TwoAt(s, 8, c.day);
    TwoAt(s, 11, c.hour);
    TwoAt(s, 14, c.minute);
    TwoAt(s, 17, c.second);
    Assemble(
      s, Two(c.year / 100), Two(c.year % 100), Two(c.month), Two(c.day), Two(c.hour), Two(c.minute), Two(c.second));
  }

  lemma TwoAt(s: string, i: nat, n: int)
    requires i + 2 <= |s| && ReadTwo(s, i) == Some(n)
    ensures 0 <= n < 100 && s[i] == Two(n)[0] && s[i + 1] == Two(n)[1]
  {
    TwoInverts(s, i);
    assert s[i..i + 2][0] == s[i] && s[i..i + 2][1] == s[i + 1];
  }

  lemma Assemble(s: string, y: string, z: string, mo: string, d: string, h: string, mi: string, sec: string)
    requires |s| >= 19 && |y| == |z| == |mo| == |d| == |h| == |mi| == |sec| == 2
    requires s[0] == y[0] && s[1] == y[1] && s[2] == z[0] && s[3] == z[1] && s[4] == s[7] == '-'
    requires s[5] == mo[0] && s[6] == mo[1] && s[8] == d[0] && s[9] == d[1] && s[10] == 'T'
    requires s[11] == h[0] && s[12] == h[1] && s[14] == mi[0] && s[15] == mi[1] && s[13] == s[16] == ':'
    requires s[17] == sec[0] && s[18] == sec[1]
    ensures s[..19] ==
      (y + z) + (['-'] + mo + ['-'] + d + ['T'] + h + [':'] + mi + [':'] + sec)
  {
  }

  lemma FieldsRead(s: string)
    requires |s| >= 19 && ReadDateTime(s).Some?
    ensures
      var c := ReadDateTime(s).value;
      && InYears(c) && DateTimeText(c) == YearText(c.year) + RestText(c)
      && ReadTwo(s, 0) == Some(c.year / 100) && ReadTwo(s, 2) == Some(c.year % 100)
      && ReadTwo(s, 5) == Some(c.month) && ReadTwo(s, 8) == Some(c.day) && ReadTwo(s, 11) == Some(c.hour)
      && ReadTwo(s, 14) == Some(c.minute) && ReadTwo(s, 17) == Some(c.second)
      && s[4] == s[7] == '-' && s[10] == 'T' && s[13] == s[16] == ':' && Valid(c) && 0 <= c.year < 10000
  {
    hide *;
    ReadsFields(s);
    TwoBound(s, 0);
    TwoBound(s, 2);
    YearHalves(ReadTwo(s, 0).value, ReadTwo(s, 2).value);
    TextIsYearAndRest(ReadDateTime(s).value);
  }

  lemma ReadsFields(s: string)
    requires |s| >= 19 && ReadDateTime(s).Some?
    ensures
      var c := ReadDateTime(s).value;
      && ReadTwo(s, 0).Some? && ReadTwo(s, 2).Some?
      && c.year == 100 * ReadTwo(s, 0).value + ReadTwo(s, 2).value
      && ReadTwo(s, 5) == Some(c.month) && ReadTwo(s, 8) == Some(c.day) && ReadTwo(s, 11) == Some(c.hour)
      && ReadTwo(s, 14) == Some(c.minute) && ReadTwo(s, 17) == Some(c.second)
      && s[4] == s[7] == '-' && s[10] == 'T' && s[13] == s[16] == ':' && Valid(c)
  {
    hide ReadTwo, Valid;
  }

  lemma YearHalves(a: int, b: int)
    requires 0 <= a < 100 && 0 <= b < 100
    ensures (100 * a + b) / 100 == a && (100 * a + b) % 100 == b && 0 <= 100 * a + b < 10000
  {
  }

  lemma TextIsYearAndRest(c: Civil)
    requires Valid(c) && 0 <= c.year < 10000
    ensures InYears(c) && DateTimeText(c) == YearText(c.year) + RestText(c)
  {
    hide YearText, RestText;
  }

  lemma TwoBound(s: string, i: nat)
    requires i + 2 <= |s| && ReadTwo(s, i).Some?
    ensures 0 <= ReadTwo(s, i).value < 100
  {
  }

  lemma YearPieces(y: int)
    requires 0 <= y < 10000
    ensures YearText(y) == Two(y / 100) + Two(y % 100)
  {
  }

  lemma RestPieces(c: Civil)
    requires Valid(c)
    ensures RestText(c) ==
      ['-'] + Two(c.month) + ['-'] + Two(c.day) + ['T'] + Two(c.hour) + [':'] + Two(c.minute) + [':'] + Two(c.second)
  {
  }

  lemma ReadZoneSpells(s: string) returns (z: Zone)
    requires ReadZone(s).Some?
    ensures ValidZone(z) && s == ZoneSpelling(z)
  {
    if s == "Z" {
      z := Utc;
    } else {
      z := Offset(s[0] == '+', ReadTwo(s, 1).value, ReadTwo(s, 4).value);
      TwoInverts(s, 1);
      TwoInverts(s, 4);
      assert s == [s[0]] + s[1..3] + [s[3]] + s[4..6];
    }
  }

  /** Whatever is read is a text of the grammar. */
  lemma ParsedText(s: string) returns (c: Civil, f: string, z: Zone)
    requires Parse(s).Some?
    ensures InYears(c) && AllDigits(f) && ValidZone(z)
    ensures s == DateTimeText(c) + FractionText(f) + ZoneSpelling(z)
  {
    var rest := s[19..];
    Readable(s);
    hide *;
    c := ReadDateTime(s).value;
    ReadDateTimeSpells(s);
    z := ReadZoneSpells(ReadFraction(rest).1);
    f := FractionSpells(rest);
    Whole(s, DateTimeText(c), FractionText(f), ZoneSpelling(z));
  }

  lemma Whole(s: string, dateTime: string, fraction: string, zone: string)
    requires |s| >= 19 && s[..19] == dateTime && s[19..] == fraction + zone
    ensures s == dateTime + fraction + zone
  {
    assert s == s[..19] + s[19..];
  }

  lemma Readable(s: string)
    requires Parse(s).Some?
    ensures |s| >= 19 && ReadDateTime(s).Some? && ReadZone(ReadFraction(s[19..]).1).Some?
  {
    hide ReadDateTime, ReadZone, ReadFraction;
  }

  lemma FractionSpells(s: string) returns (f: string)
    ensures AllDigits(f) && s == FractionText(f) + ReadFraction(s).1
  {
    if |s| >= 2 && s[0] == '.' && IsDigit(s[1]) {
      var n := DigitRun(s[1..]);
      DigitRunDigits(s[1..]);
      f := s[1..n + 1];
      assert s[1..][0] == s[1];
      assert s == [s[0]] + f + s[n + 1..];
    } else {
      f := [];
    }
  }

  ghost predicate IsText(s: string, c: Civil, f: string, z: Zone) {
    InYears(c) && AllDigits(f) && ValidZone(z) && s == DateTimeText(c) + FractionText(f) + ZoneSpelling(z)
  }

  /** A text is read if and only if the grammar has it, and then as the time that it denotes. */
  lemma ParseReadsGrammar(s: string)
    ensures Parse(s).Some? <==> exists c, f, z :: IsText(s, c, f, z)
    ensures forall c, f, z :: IsText(s, c, f, z) ==> Parse(s) == Some(Denoted(c, f, z))
  {
    hide *;
    if Parse(s).Some? {
      var c, f, z := ParsedText(s);
      TextIs(s, c, f, z);
    }
    forall c, f, z | IsText(s, c, f, z)
      ensures InYears(c) && AllDigits(f) && ValidZone(z) && Parse(s) == Some(Denoted(c, f, z))
    {
      TextParts(s, c, f, z);
      ParseText(c, f, z);
    }
  }

  lemma TextIs(s: string, c: Civil, f: string, z: Zone)
    requires InYears(c) && AllDigits(f) && ValidZone(z) && s == DateTimeText(c) + FractionText(f) + ZoneSpelling(z)
    ensures IsText(s, c, f, z)
  {
  }

  lemma TextParts(s: string, c: Civil, f: string, z: Zone)
    requires IsText(s, c, f, z)
    ensures InYears(c) && AllDigits(f) && ValidZone(z) && s == DateTimeText(c) + FractionText(f) + ZoneSpelling(z)
  {
  }
}
