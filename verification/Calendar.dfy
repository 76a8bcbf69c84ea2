/** The proleptic Gregorian calendar, as civil fields of local seconds since the start of year 1. */
module Calendar {

  datatype Civil = Civil(year: int, month: int, day: int, hour: int, minute: int, second: int)

  const DAY := 86400

  predicate Leap(y: int) { y % 4 == 0 && (y % 100 != 0 || y % 400 == 0) }

  function DaysIn(y: int, m: int): (r: int)
    ensures 28 <= r <= 31
  {
    if m == 2 then if Leap(y) then 29 else 28
    else if m == 4 || m == 6 || m == 9 || m == 11 then 30
    else 31
  }

  function YearLength(y: int): int { if Leap(y) then 366 else 365 }

  /** Days from 1 January of year 1 to 1 January of year `y`. */
  function DaysBeforeYear(y: int): int
    decreases if y > 1 then y - 1 else 1 - y
  {
    if y == 1 then 0
    else if y > 1 then DaysBeforeYear(y - 1) + YearLength(y - 1)
    else DaysBeforeYear(y + 1) - YearLength(y)
  }

  lemma NextYear(y: int)
    ensures DaysBeforeYear(y + 1) == DaysBeforeYear(y) + YearLength(y)
  {
  }

  /** The usual closed form, with divisions that round down. */
  function ClosedDays(y: int): int { 365 * (y - 1) + (y - 1) / 4 - (y - 1) / 100 + (y - 1) / 400 }

  lemma {:induction false} ClosedForm(y: int)
    ensures DaysBeforeYear(y) == ClosedDays(y)
    decreases if y > 1 then y - 1 else 1 - y
  {
    if y > 1 {
      ClosedForm(y - 1);
      LeapDay(y - 1);
    } else if y < 1 {
      ClosedForm(y + 1);
      LeapDay(y);
    }
  }

  lemma LeapDay(y: int)
    ensures y / 4 - y / 100 + y / 400 == (y - 1) / 4 - (y - 1) / 100 + (y - 1) / 400 + if Leap(y) then 1 else 0
  {
    QuotientStep(y, 4);
    QuotientStep(y, 100);
    QuotientStep(y, 400);
    Multiples(y);
  }

  lemma Multiples(y: int)
    ensures y % 400 == 0 ==> y % 100 == 0
    ensures y % 100 == 0 ==> y % 4 == 0
  {
    var q, h := y / 400, y / 100;
    if y % 400 == 0 {
      FourHundreds(q);
      assert y == 400 * q;
    }
    if y % 100 == 0 {
      Hundreds(h);
      assert y == 100 * h;
    }
  }

  lemma FourHundreds(q: int)
    ensures (400 * q) % 100 == 0
  {
  }

  lemma Hundreds(h: int)
    ensures (100 * h) % 4 == 0
  {
  }

  lemma QuotientStep(y: int, n: int)
    requires n in {4, 100, 400}
    ensures y / n == (y - 1) / n + if y % n == 0 then 1 else 0
  {
  }

  /** Days from 1 January to the first of month `m`. */
  function DaysBeforeMonth(y: int, m: int): int
    requires 1 <= m <= 13
  {
    if m == 1 then 0 else DaysBeforeMonth(y, m - 1) + DaysIn(y, m - 1)
  }

  lemma MonthsFillYear(y: int)
    ensures DaysBeforeMonth(y, 13) == YearLength(y)
  {
    assert DaysBeforeMonth(y, 2) == 31;
    assert DaysBeforeMonth(y, 4) == 62 + DaysIn(y, 2);
    assert DaysBeforeMonth(y, 6) == 123 + DaysIn(y, 2);
    assert DaysBeforeMonth(y, 8) == 184 + DaysIn(y, 2);
    assert DaysBeforeMonth(y, 10) == 245 + DaysIn(y, 2);
    assert DaysBeforeMonth(y, 12) == 306 + DaysIn(y, 2);
  }

  /** The year that contains day `d`, looked for from year `y`. */
  function YearFrom(d: int, y: int): (r: int)
    ensures DaysBeforeYear(r) <= d < DaysBeforeYear(r + 1)
    decreases if d < DaysBeforeYear(y) then DaysBeforeYear(y) - d else d - DaysBeforeYear(y)
  {
    NextYear(y);
    NextYear(y - 1);
    if DaysBeforeYear(y - 1) <= d < DaysBeforeYear(y) then y - 1
    else if d < DaysBeforeYear(y) then YearFrom(d, y - 1)
    else if d < DaysBeforeYear(y + 1) then y
    else YearFrom(d, y + 1)
  }

  /** The month that contains day `r` of the year, not before month `m`. */
  function MonthFrom(y: int, r: int, m: int): (k: int)
    requires 1 <= m <= 12 && DaysBeforeMonth(y, m) <= r < YearLength(y)
    ensures 1 <= k <= 12 && DaysBeforeMonth(y, k) <= r < DaysBeforeMonth(y, k + 1)
    decreases 13 - m
  {
    MonthsFillYear(y);
    if r < DaysBeforeMonth(y, m + 1) then m else MonthFrom(y, r, m + 1)
  }

  predicate Valid(c: Civil) {
    && 1 <= c.month <= 12 && 1 <= c.day <= DaysIn(c.year, c.month)
    && 0 <= c.hour < 24 && 0 <= c.minute < 60 && 0 <= c.second < 60
  }

  function ToSeconds(c: Civil): int
    requires Valid(c)
  {
    DAY * (DaysBeforeYear(c.year) + DaysBeforeMonth(c.year, c.month) + c.day - 1) +
    3600 * c.hour + 60 * c.minute + c.second
  }

  /** The civil fields of a number of local seconds are the valid fields that denote it. */
  function FromSeconds(s: int): (c: Civil)
    ensures Valid(c) && ToSeconds(c) == s
  {
    var d, r := s / DAY, s % DAY;
    var year := YearFrom(d, 1);
    NextYear(year);
    var month := MonthFrom(year, d - DaysBeforeYear(year), 1);
    Civil(year, month, d - DaysBeforeYear(year) - DaysBeforeMonth(year, month) + 1, r / 3600, r / 60 % 60, r % 60)
  }

  lemma {:induction false} YearsIncrease(a: int, b: int)
    requires a <= b
    ensures DaysBeforeYear(a) <= DaysBeforeYear(b)
    decreases b - a
  {
    if a == b {
    } else {
      NextYear(b - 1);
      YearsIncrease(a, b - 1);
    }
  }

  lemma ValidBetween(c: Civil, from: int, to: int)
    requires Valid(c) && from <= c.year < to
    ensures DAY * ClosedDays(from) <= ToSeconds(c) < DAY * ClosedDays(to)
  {
    WithinYear(c);
    YearsIncrease(from, c.year);
    YearsIncrease(c.year + 1, to);
    ClosedForm(from);
    ClosedForm(to);
  }

  /** A valid date falls inside its year. */
  lemma WithinYear(c: Civil)
    requires Valid(c)
    ensures DAY * DaysBeforeYear(c.year) <= ToSeconds(c) < DAY * DaysBeforeYear(c.year + 1)
  {
    MonthsIncrease(c.year, 1, c.month);
    MonthsIncrease(c.year, c.month + 1, 13);
    MonthsFillYear(c.year);
    NextYear(c.year);
  }

  lemma {:induction false} MonthsIncrease(y: int, a: int, b: int)
    requires 1 <= a <= b <= 13
    ensures DaysBeforeMonth(y, a) <= DaysBeforeMonth(y, b)
    decreases b - a
  {
    if a == b {
    } else {
      MonthsIncrease(y, a, b - 1);
    }
  }

  /** The year of a number of seconds lies between two years exactly when the seconds lie between their starts. */
  lemma YearBetween(s: int, from: int, to: int)
    ensures from <= FromSeconds(s).year < to <==> DAY * ClosedDays(from) <= s < DAY * ClosedDays(to)
  {
    ClosedForm(from);
    ClosedForm(to);
    var y := FromSeconds(s).year;
    WithinYear(FromSeconds(s));
    if from <= y {
      YearsIncrease(from, y);
    } else {
      YearsIncrease(y + 1, from);
    }
    if y < to {
      YearsIncrease(y + 1, to);
    } else {
      YearsIncrease(to, y);
    }
  }

  // ---------- the fields are the usual ones ----------

  /** From March on, the days before a month follow the usual formula, whatever the year. */
  lemma {:induction false} MonthForm(y: int, m: int)
    requires 3 <= m <= 13
    ensures DaysBeforeMonth(y, m) == DaysBeforeMonth(y, 3) + (153 * (m - 3) + 2) / 5
    ensures DaysBeforeMonth(y, 2) == 31 && DaysBeforeMonth(y, 3) == 59 + if Leap(y) then 1 else 0
  {
    assert DaysBeforeMonth(y, 2) == 31;
    if m == 3 {
    } else {
      MonthForm(y, m - 1);
    }
  }

  /** Valid fields are determined by the seconds they denote. */
  lemma FieldsUnique(a: Civil, b: Civil)
    requires Valid(a) && Valid(b) && ToSeconds(a) == ToSeconds(b)
    ensures a == b
  {
    SameDay(a, b);
    SameYear(a, b);
    assert 1 <= a.month <= 12 && 1 <= b.month <= 12;
    assert 1 <= a.day <= DaysIn(a.year, a.month) && 1 <= b.day <= DaysIn(a.year, b.month);
    assert DaysBeforeMonth(a.year, a.month) + a.day == DaysBeforeMonth(a.year, b.month) + b.day;
    hide *;
    SameMonth(a.year, a.month, a.day, b.month, b.day);
  }

  lemma SameYear(a: Civil, b: Civil)
    requires Valid(a) && Valid(b) && ToSeconds(a) == ToSeconds(b)
    ensures a.year == b.year
  {
    WithinYear(a);
    WithinYear(b);
    hide *;
    if a.year < b.year {
      YearsIncrease(a.year + 1, b.year);
    } else if b.year < a.year {
      YearsIncrease(b.year + 1, a.year);
    }
  }

  lemma SameMonth(y: int, m: int, d: int, n: int, e: int)
    requires 1 <= m <= 12 && 1 <= n <= 12 && 1 <= d <= DaysIn(y, m) && 1 <= e <= DaysIn(y, n)
    requires DaysBeforeMonth(y, m) + d == DaysBeforeMonth(y, n) + e
    ensures m == n && d == e
  {
    assert DaysBeforeMonth(y, m + 1) == DaysBeforeMonth(y, m) + DaysIn(y, m);
    assert DaysBeforeMonth(y, n + 1) == DaysBeforeMonth(y, n) + DaysIn(y, n);
    hide *;
    if m < n {
      MonthsIncrease(y, m + 1, n);
    } else if n < m {
      MonthsIncrease(y, n + 1, m);
    }
  }

  function DayNumber(c: Civil): int
    requires Valid(c)
  {
    DaysBeforeYear(c.year) + DaysBeforeMonth(c.year, c.month) + c.day - 1
  }

  lemma SameDay(a: Civil, b: Civil)
    requires Valid(a) && Valid(b) && ToSeconds(a) == ToSeconds(b)
    ensures DayNumber(a) == DayNumber(b) && a.hour == b.hour && a.minute == b.minute && a.second == b.second
  {
    var ra, rb := 3600 * a.hour + 60 * a.minute + a.second, 3600 * b.hour + 60 * b.minute + b.second;
    assert ToSeconds(a) == DAY * DayNumber(a) + ra && ToSeconds(b) == DAY * DayNumber(b) + rb;
  }
}
