/** The hours and costs that the views derive from the hourly rows of one pod. */
module CostViews {
  import opened Clock
  import opened Wrappers

  /**
   What the views know of an object's life: SQL's `greatest` and `least` ignore a missing start or deletion.
   */
  datatype Life = Life(start: Option<int>, deletedAt: Option<int>, now: int)

  function Min(a: int, b: int): int { if a < b then a else b }

  function Max(a: int, b: int): int { if a > b then a else b }

  /** The life is cut at its deletion or at the present, whichever comes first. */
  function EndOf(life: Life): (end: int)
    ensures end <= life.now && (life.deletedAt.Some? ==> end <= life.deletedAt.value)
    ensures end == life.now || Some(end) == life.deletedAt
  {
    if life.deletedAt.Some? then Min(life.deletedAt.value, life.now) else life.now
  }

  /** The column `hours` of the row for the bucket that begins at `ts`. */
  function Hours(ts: int, life: Life): real {
    var least := Min(ts + HOUR, EndOf(life));
    var greatest := if life.start.Some? then Max(ts, life.start.value) else ts;
    (least - greatest) as real / HOUR as real
  }

  lemma QuotientSign(x: int)
    ensures x as real / HOUR as real <= 1.0 <==> x <= HOUR
    ensures x as real / HOUR as real >= 0.0 <==> x >= 0
  {
  }

  /**
   A row never holds more than an hour, and is not negative if and only if its bucket begins by now and before the
   deletion, and the object started before the bucket's end, by now and before the deletion.
   */
  lemma HoursBounds(ts: int, life: Life)
    ensures Hours(ts, life) <= 1.0
    ensures Hours(ts, life) >= 0.0 <==>
      && ts <= life.now && (life.deletedAt.Some? ==> ts <= life.deletedAt.value)
      && (life.start.Some? ==>
            && life.start.value <= ts + HOUR && life.start.value <= life.now
            && (life.deletedAt.Some? ==> life.start.value <= life.deletedAt.value))
  {
    var least := Min(ts + HOUR, EndOf(life));
    var greatest := if life.start.Some? then Max(ts, life.start.value) else ts;
    QuotientSign(least - greatest);
  }

  /** Once an object is deleted, the passing of time changes none of its hours. */
  lemma DeletedHoursStay(ts: int, life: Life, later: int)
    requires life.deletedAt.Some? && life.deletedAt.value <= life.now <= later
    ensures Hours(ts, life.(now := later)) == Hours(ts, life)
  {
  }

  /** The hours of the `i`th bucket after the one that begins at `first`. */
  function HoursAt(first: int, i: nat, life: Life): real { Hours(first + i * HOUR, life) }

  /** The hours of `n` consecutive buckets from `first`. */
  function SumHours(first: int, n: nat, life: Life): real {
    if n == 0 then 0.0 else SumHours(first, n - 1, life) + HoursAt(first, n - 1, life)
  }

  /** `n` consecutive buckets from `first` are just the ones that the life overlaps. */
  predicate Overlaps(first: int, n: nat, life: Life) {
    && n > 0
    && first + (n - 1) * HOUR <= EndOf(life) <= first + n * HOUR
    && (life.start.Some? ==> first <= life.start.value <= Min(first + HOUR, EndOf(life)))
  }

  /** Where the counting begins: the start, or the first bucket when the start is unknown. */
  function BeginOf(first: int, life: Life): int { if life.start.Some? then life.start.value else first }

  lemma {:induction false} FullHours(first: int, n: nat, k: nat, life: Life)
    requires Overlaps(first, n, life) && 1 <= k <= n
    ensures SumHours(first, k, life) ==
      (Min(first + k * HOUR, EndOf(life)) - BeginOf(first, life)) as real / HOUR as real
  {
    assert k < n ==> first + k * HOUR <= first + (n - 1) * HOUR;
    if k == 1 {
      assert SumHours(first, 0, life) == 0.0;
    } else {
      FullHours(first, n, k - 1, life);
      var before := first + (k - 1) * HOUR;
      AddQuotients(before - BeginOf(first, life), Min(first + k * HOUR, EndOf(life)) - before);
    }
  }

  lemma AddQuotients(a: int, b: int)
    ensures a as real / HOUR as real + b as real / HOUR as real == (a + b) as real / HOUR as real
  {
  }

  /** The hours of the buckets that a life overlaps add up to exactly its length, cut at deletion or now. */
  lemma HoursTelescope(first: int, n: nat, life: Life)
    requires Overlaps(first, n, life)
    ensures SumHours(first, n, life) == (EndOf(life) - BeginOf(first, life)) as real / HOUR as real
    ensures forall i: nat :: i < n ==> 0.0 <= HoursAt(first, i, life) <= 1.0
  {
    FullHours(first, n, n, life);
    forall i: nat | i < n ensures 0.0 <= HoursAt(first, i, life) <= 1.0 {
      HourInLife(first, n, i, life);
    }
  }

  lemma HourInLife(first: int, n: nat, i: nat, life: Life)
    requires Overlaps(first, n, life) && i < n
    ensures 0.0 <= HoursAt(first, i, life) <= 1.0
  {
    assert first <= first + i * HOUR <= first + (n - 1) * HOUR;
    HoursBounds(first + i * HOUR, life);
  }

  function Greater(a: real, b: real): real { if a > b then a else b }

  /** `cpu_cost`, and with memory in place of cores `memory_cost`: the greater of request and average use is billed. */
  function Cost(request: real, average: real, price: real, hours: real): real {
    Greater(request, average) * price * hours
  }

  /** The cost of `n` consecutive buckets whose average use is `use`. */
  function SumCost(first: int, n: nat, life: Life, request: real, use: int -> real, price: real): real {
    if n == 0 then 0.0
    else
      SumCost(first, n - 1, life, request, use, price) +
      Cost(request, use(n - 1), price, HoursAt(first, n - 1, life))
  }

  /** What `hours` hours of the request alone cost. */
  function Reserved(request: real, price: real, hours: real): real { request * price * hours }

  lemma CostAtLeast(request: real, average: real, price: real, hours: real)
    requires price >= 0.0 && hours >= 0.0
    ensures Cost(request, average, price, hours) >= Reserved(request, price, hours)
    ensures average <= request ==> Cost(request, average, price, hours) == Reserved(request, price, hours)
  {
    var billed := Greater(request, average);
    assert billed * price >= request * price;
    assert billed * price * hours >= request * price * hours;
  }

  /** Of request and use, the dearer one is billed. */
  lemma DearerIsBilled(request: real, average: real, price: real, hours: real)
    requires price >= 0.0 && hours >= 0.0
    ensures Cost(request, average, price, hours) ==
      if request * price * hours >= average * price * hours then request * price * hours else average * price * hours
  {
    CostAtLeast(request, average, price, hours);
    assert average > request ==> average * price >= request * price;
    assert average > request ==> average * price * hours >= request * price * hours;
  }

  lemma ReservedAdds(request: real, price: real, a: real, b: real)
    ensures Reserved(request, price, a + b) == Reserved(request, price, a) + Reserved(request, price, b)
    ensures Reserved(request, price, 0.0) == 0.0
  {
    var rate := request * price;
    assert rate * (a + b) == rate * a + rate * b;
  }

  /** The use never exceeds the request in the first `k` buckets. */
  predicate WithinRequest(k: nat, request: real, use: int -> real) { forall i :: 0 <= i < k ==> use(i) <= request }

  lemma {:induction false} BilledUpTo(
    first: int, n: nat, k: nat, life: Life, request: real, use: int -> real, price: real)
    requires Overlaps(first, n, life) && k <= n && price >= 0.0
    ensures SumCost(first, k, life, request, use, price) >= Reserved(request, price, SumHours(first, k, life))
    ensures WithinRequest(k, request, use) ==>
      SumCost(first, k, life, request, use, price) == Reserved(request, price, SumHours(first, k, life))
  {
    hide Reserved, Cost, Overlaps, HoursAt;
    if k == 0 {
      ReservedAdds(request, price, 0.0, 0.0);
    } else {
      BilledUpTo(first, n, k - 1, life, request, use, price);
      HourInLife(first, n, k - 1, life);
      CostAtLeast(request, use(k - 1), price, HoursAt(first, k - 1, life));
      ReservedAdds(request, price, SumHours(first, k - 1, life), HoursAt(first, k - 1, life));
    }
  }

  /**
   Over its life a pod is billed at least its request for every hour it lived, and exactly that while its
   average use never exceeds the request.
   */
  lemma RequestIsBilled(first: int, n: nat, life: Life, request: real, use: int -> real, price: real)
    requires Overlaps(first, n, life) && price >= 0.0
    ensures
      var reserved := Reserved(request, price, (EndOf(life) - BeginOf(first, life)) as real / HOUR as real);
      && SumCost(first, n, life, request, use, price) >= reserved
      && (WithinRequest(n, request, use) ==> SumCost(first, n, life, request, use, price) == reserved)
  {
    hide *;
    BilledUpTo(first, n, n, life, request, use, price);
    HoursTelescope(first, n, life);
  }
}
