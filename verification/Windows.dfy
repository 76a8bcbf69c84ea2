/** Stepping through time with the Prev and Next links. */
module Windows {
  import opened Clock
  import opened Links
  import opened WorkloadRequest

  /** `d` cut down to whole hours. */
  function WholeHours(d: int): (h: int)
    ensures h % HOUR == 0 && h <= d < h + HOUR
  {
    d - d % HOUR
  }

  /** A well-formed request for a window. */
  ghost predicate IsWindow(r: Request) { WellFormed(r) && r.range == "" }

  function Duration(r: Request): int { r.end.inst - r.start.inst }

  /** The duration as `time.Time.Sub` reports it. */
  function Reported(r: Request): int { Sub(r.end, r.start) }

  /** What a click on Next moves a window by. */
  function Stride(r: Request): int { WholeHours(Reported(r)) }

  /** The duration is a whole number of hours, and one that a 64-bit duration can hold and negate. */
  predicate Tileable(r: Request) { Duration(r) % HOUR == 0 && -MAX_DURATION <= Duration(r) <= MAX_DURATION }

  /** The window moved by `d`. */
  function Moved(r: Request, d: int): Request { r.(start := Add(r.start, d), end := Add(r.end, d)) }

  /** The times of the window moved by `d` can be written to a URL. */
  predicate Lands(r: Request, d: int) { IsWritable(Add(r.start, d)) && IsWritable(Add(r.end, d)) }

  lemma CutMoved(t: ZonedTime, d: int)
    requires Aligned(t.inst, t.off)
    ensures TruncateHour(Add(t, d)) == Add(t, WholeHours(d))
  {
    TruncateHourUnique(Add(t, d), t.inst + WholeHours(d));
  }

  /** Moving an hour-aligned window through the URL moves both ends by the same whole number of hours. */
  lemma ClickMoved(r: Request, env: Env, d: int)
    requires IsWindow(r) && Lands(r, d)
    ensures Click(Shifted(r, env, d)) == Moved(r, WholeHours(d))
  {
    var target := Shifted(r, env, d);
    ClickOf(target);
    CutMoved(r.start, d);
    CutMoved(r.end, d);
    CleanCols(r.cols);
  }

  /** The links move a window by its reported duration. */
  lemma Targets(r: Request, env: Env)
    requires r.range == ""
    ensures Next(r, env) == Shifted(r, env, Reported(r))
    ensures Prev(r, env) == Shifted(r, env, Negate(Reported(r)))
  {
  }

  /** Next, then the URL: both ends move on by the reported duration cut to whole hours, and the duration stays. */
  lemma ClickNext(r: Request, env: Env)
    requires IsWindow(r) && Lands(r, Reported(r))
    ensures Click(Next(r, env)) == Moved(r, Stride(r))
  {
    Targets(r, env);
    ClickMoved(r, env, Reported(r));
  }

  lemma ClickPrev(r: Request, env: Env)
    requires IsWindow(r) && Lands(r, Negate(Reported(r)))
    ensures Click(Prev(r, env)) == Moved(r, WholeHours(Negate(Reported(r))))
  {
    Targets(r, env);
    ClickMoved(r, env, Negate(Reported(r)));
  }

  /** The links of the page are those two clicks. */
  lemma FollowLinks(r: Request, env: Env)
    requires IsWindow(r)
    ensures Lands(r, Reported(r)) ==> Click(Target(r, LinkNext, env).value) == Moved(r, Stride(r))
    ensures Lands(r, Negate(Reported(r))) ==>
      Click(Target(r, LinkPrev, env).value) == Moved(r, WholeHours(Negate(Reported(r))))
  {
    hide Click, Moved, WholeHours, Lands, Next, Prev;
    if Lands(r, Reported(r)) {
      ClickNext(r, env);
    }
    if Lands(r, Negate(Reported(r))) {
      ClickPrev(r, env);
    }
  }

  predicate InRange(r: Request, d: int) { Lands(r, d) && !ZeroHour(Add(r.start, d)) && !ZeroHour(Add(r.end, d)) }

  lemma MovedIsWindow(r: Request, d: int)
    requires IsWindow(r) && d % HOUR == 0 && InRange(r, d)
    ensures IsWindow(Moved(r, d))
  {
    CutMoved(r.start, d);
    CutMoved(r.end, d);
    CutToZero(Add(r.start, d));
    CutToZero(Add(r.end, d));
  }

  lemma MovedTwice(r: Request, a: int, b: int)
    ensures Moved(Moved(r, a), b) == Moved(r, a + b)
    ensures Lands(Moved(r, a), b) <==> Lands(r, a + b)
    ensures Duration(Moved(r, a)) == Duration(r) && Reported(Moved(r, a)) == Reported(r)
  {
    assert Add(Add(r.start, a), b) == Add(r.start, a + b);
    assert Add(Add(r.end, a), b) == Add(r.end, a + b);
  }

  lemma ThereAndBack(r: Request, there: Request, back: Request, a: int, b: int)
    requires there == Moved(r, a) && back == Moved(there, b)
    ensures back == r <==> a + b == 0
  {
  }

  /** Neither the longest durations nor any but whole hours cancel out. */
  lemma StridesCancel(r: Request)
    ensures Stride(r) + WholeHours(Negate(Reported(r))) == 0 <==> Tileable(r)
    ensures Stride(r) == Duration(r) <== Tileable(r)
    ensures Duration(r) > 0 ==> 0 <= Stride(r) && (Stride(r) < Duration(r) <==> !Tileable(r))
  {
    LongestDuration();
  }

  lemma LongestDuration()
    ensures MAX_DURATION % HOUR != 0 && (-MAX_DURATION - 1) % HOUR != 0
    ensures WholeHours(-MAX_DURATION - 1) < 0
  {
  }

  /**
   Prev after Next leads back if and only if the window is a whole number of hours long and no longer than a 64-bit
   duration can hold, as far as the times on the way can be written.
   */
  lemma PrevUndoesNext(r: Request, env: Env)
    requires IsWindow(r) && Lands(r, Reported(r)) && InRange(r, Stride(r))
    requires Lands(r, Stride(r) + Negate(Reported(r)))
    ensures Click(Prev(Click(Next(r, env)), env)) == r <==> Tileable(r)
  {
    hide *;
    var there, d := Click(Next(r, env)), Reported(r);
    ClickNext(r, env);
    WholeStride(d);
    assert Stride(r) == WholeHours(d) by {
      StrideIs(r);
    }
    MovedIsWindow(r, Stride(r));
    MovedTwice(r, Stride(r), Negate(d));
    ClickPrev(there, env);
    ThereAndBack(r, there, Click(Prev(there, env)), Stride(r), WholeHours(Negate(d)));
    StridesCancel(r);
  }

  /** Likewise for Next after Prev. */
  lemma NextUndoesPrev(r: Request, env: Env)
    requires IsWindow(r) && Lands(r, Negate(Reported(r))) && InRange(r, WholeHours(Negate(Reported(r))))
    requires Lands(r, WholeHours(Negate(Reported(r))) + Reported(r))
    ensures Click(Next(Click(Prev(r, env)), env)) == r <==> Tileable(r)
  {
    hide *;
    var there, d := Click(Prev(r, env)), Reported(r);
    ClickPrev(r, env);
    WholeStride(Negate(d));
    MovedIsWindow(r, WholeHours(Negate(d)));
    MovedTwice(r, WholeHours(Negate(d)), d);
    ClickNext(there, env);
    StrideIs(r);
    StrideIs(there);
    ThereAndBack(r, there, Click(Next(there, env)), WholeHours(Negate(d)), Stride(r));
    StridesCancel(r);
  }

  lemma WholeStride(d: int)
    ensures WholeHours(d) % HOUR == 0
  {
  }

  lemma StrideIs(r: Request)
    ensures Stride(r) == WholeHours(Reported(r))
  {
  }

  /** In one zone every well-formed window is a whole number of hours, so only its length can be in the way. */
  lemma OneZoneWholeHours(r: Request)
    requires IsWindow(r) && r.start.off == r.end.off
    ensures Duration(r) % HOUR == 0
    ensures Tileable(r) <==> -MAX_DURATION <= Duration(r) <= MAX_DURATION
  {
    AlignedGap(r.start.inst, r.end.inst, r.start.off);
  }

  // ---------- windows of a range ----------

  /** The window that a request stands for at the moment of a click. */
  function Opened(r: Request, env: Env): Request {
    r.(range := "", start := Dates(r, env).0, end := Dates(r, env).1)
  }

  /** Prev and Next look at nothing but that window. */
  lemma OpenedLinks(r: Request, env: Env, later: Env)
    ensures Prev(r, env) == Prev(Opened(r, env), later)
    ensures Next(r, env) == Next(Opened(r, env), later)
  {
  }

  /**
   The range ends on the last whole hour of UTC, and begins its duration before the one at the moment its start is
   worked out; it begins on a whole hour if and only if its duration is whole hours.
   */
  lemma OpenedEnds(r: Request, env: Env)
    requires r.range != "" && env.duration(r.range).Some?
    ensures
      var w, d := Opened(r, env), env.duration(r.range).value;
      && w.start.off == w.end.off == 0
      && w.end.inst % HOUR == 0 && w.end.inst <= env.endNow < w.end.inst + HOUR
      && (w.start.inst + d) % HOUR == 0 && w.start.inst + d <= env.now < w.start.inst + d + HOUR
      && (Aligned(w.start.inst, 0) <==> Duration(w) % HOUR == 0)
      && (Duration(w) % HOUR == 0 <==> d % HOUR == 0)
  {
    var w, d := Opened(r, env), env.duration(r.range).value;
    var first, second := TruncateHour(Time(env.now, 0)).inst, TruncateHour(Time(env.endNow, 0)).inst;
    assert w.start.inst == first - d && w.end.inst == second;
    AlignedGap(second, w.start.inst, 0);
    HourGap(first, second, d);
  }

  lemma HourGap(first: int, second: int, d: int)
    requires first % HOUR == 0 && second % HOUR == 0
    ensures (second - (first - d)) % HOUR == 0 <==> d % HOUR == 0
    ensures (first - d - second) % HOUR == 0 <==> d % HOUR == 0
  {
  }

  /**
   From a range, Next after Prev leads to the window that the range stood for at the moment of the first click if and
   only if that is a whole number of hours, and not too many, as far as the times on the way can be written.
   */
  lemma NextUndoesPrevOfRange(r: Request, env: Env, later: Env)
    requires WellFormed(r) && r.range != "" && env.duration(r.range).Some?
    requires
      var w := Opened(r, env);
      Duration(w) % HOUR == 0 ==>
        && InRange(w, 0)
        && Lands(w, Negate(Reported(w))) && InRange(w, WholeHours(Negate(Reported(w))))
        && Lands(w, WholeHours(Negate(Reported(w))) + Reported(w))
    ensures Click(Next(Click(Prev(r, env)), later)) == Opened(r, env) <==> Tileable(Opened(r, env))
  {
    var w := Opened(r, env);
    OpenedLinks(r, env, later);
    OpenedEnds(r, env);
    if Duration(w) % HOUR == 0 {
      OpenedIsWindow(r, env);
      hide *;
      NextUndoesPrev(w, later);
    } else {
      var target := Next(Click(Prev(r, env)), later);
      ClickAligned(target);
    }
  }

  lemma OpenedIsWindow(r: Request, env: Env)
    requires WellFormed(r) && r.range != "" && env.duration(r.range).Some?
    requires Duration(Opened(r, env)) % HOUR == 0 && InRange(Opened(r, env), 0)
    ensures IsWindow(Opened(r, env))
  {
    var w := Opened(r, env);
    OpenedEnds(r, env);
    assert Add(w.start, 0) == w.start && Add(w.end, 0) == w.end;
    AlignedWritable(w.start);
    AlignedWritable(w.end);
  }

  lemma AlignedWritable(t: ZonedTime)
    requires Aligned(t.inst, t.off) && IsWritable(t)
    ensures Bound(t)
  {
  }

  /** No click leads to a time off the hour. */
  lemma ClickAligned(target: Request)
    ensures Aligned(Click(target).start.inst, Click(target).start.off)
  {
    hide *;
    ClickOf(target);
    CutIsAligned(target.start);
  }

  lemma CutIsAligned(t: ZonedTime)
    ensures Aligned(TruncateHour(t).inst, TruncateHour(t).off) && Aligned(ZERO.inst, ZERO.off)
  {
  }

  // ---------- windows that drift ----------

  const DAYS := 24 * HOUR

  /** From 1698-07-03 to 2300-11-05, in one zone: more hours than a 64-bit number of nanoseconds holds. */
  const LONG_WINDOW := Request([], "", "", Time(620_000 * DAYS, 0), Time(840_000 * DAYS, 0))

  /** Two midnights a day apart, the second on a clock five and a half hours ahead. */
  const MIXED_WINDOW := Request([], "", "", Time(700_000 * DAYS, 0), Time(700_001 * DAYS - 19800 * SECOND, 19800))

  /** Times between 2000 and 3_000_000 days after the start of year 1 can be written, and are not in the zero hour. */
  lemma MidCentury(t: ZonedTime)
    requires 2000 * DAYS <= t.inst <= 3_000_000 * DAYS
    ensures IsWritable(t) && !ZeroHour(t) && (Aligned(t.inst, t.off) ==> Bound(t))
  {
  }

  lemma MidCenturyMoves(r: Request, d: int)
    requires 2000 * DAYS <= r.start.inst + d <= 3_000_000 * DAYS && 2000 * DAYS <= r.end.inst + d <= 3_000_000 * DAYS
    ensures InRange(r, d) && Lands(r, d)
  {
    hide IsWritable, ZeroHour, Bound;
    MidCentury(Add(r.start, d));
    MidCentury(Add(r.end, d));
  }

  /** In the middle centuries every time on the way can be written, so only the duration matters. */
  lemma Drifts(r: Request, env: Env)
    requires r.cols == [] && r.orderBy == "" && r.range == ""
    requires Aligned(r.start.inst, r.start.off) && Aligned(r.end.inst, r.end.off)
    requires 400_000 * DAYS <= r.start.inst <= 1_000_000 * DAYS && 400_000 * DAYS <= r.end.inst <= 1_000_000 * DAYS
    ensures IsWindow(r)
    ensures Click(Prev(Click(Next(r, env)), env)) == r <==> Tileable(r)
  {
    MidCentury(r.start);
    MidCentury(r.end);
    MidCenturyMoves(r, Reported(r));
    MidCenturyMoves(r, Stride(r));
    MidCenturyMoves(r, Stride(r) + Negate(Reported(r)));
    hide Bound, Aligned, Click, Prev, Next, Tileable, Lands, InRange, Stride, Reported, Negate;
    PrevUndoesNext(r, env);
  }

  /** A whole number of hours is not enough. */
  lemma LongWindowDrifts(env: Env)
    ensures IsWindow(LONG_WINDOW) && Duration(LONG_WINDOW) % HOUR == 0
    ensures Click(Prev(Click(Next(LONG_WINDOW, env)), env)) != LONG_WINDOW
  {
    hide Click, Prev, Next, IsWindow;
    Drifts(LONG_WINDOW, env);
  }

  /** Nor are two hour-aligned ends, when they are in different zones. */
  lemma MixedZonesDrift(env: Env)
    ensures IsWindow(MIXED_WINDOW) && Duration(MIXED_WINDOW) % HOUR != 0
    ensures Click(Prev(Click(Next(MIXED_WINDOW, env)), env)) != MIXED_WINDOW
  {
    hide Click, Prev, Next, IsWindow;
    Drifts(MIXED_WINDOW, env);
  }

  // ---------- tiling ----------

  /** The request after `n` clicks on Next. */
  function NextTimes(r: Request, n: nat, env: Env): Request {
    if n == 0 then r else Click(Next(NextTimes(r, n - 1, env), env))
  }

  /** None of the first `n` windows leaves the years that can be written, or begins or ends in the zero hour. */
  ghost predicate StaysInRange(r: Request, n: nat) {
    forall k :: 0 <= k <= n ==> InRange(r, k * Stride(r)) && (k < n ==> Lands(r, k * Stride(r) + Reported(r)))
  }

  lemma MultipleOfHour(d: int, k: int)
    requires d % HOUR == 0
    ensures (k * d) % HOUR == 0
  {
    var hours := d / HOUR;
    assert k * d == HOUR * (k * hours);
  }

  lemma StaysInRangeAt(r: Request, n: nat, k: nat)
    requires StaysInRange(r, n) && k <= n
    ensures InRange(r, k * Stride(r)) && StaysInRange(r, k)
    ensures k < n ==> Lands(r, k * Stride(r) + Reported(r))
  {
  }

  lemma NotMoved(r: Request, env: Env)
    ensures NextTimes(r, 0, env) == r == Moved(r, 0 * Stride(r))
  {
  }

  /** After `n` clicks the window has moved by exactly `n` times its stride. */
  lemma {:induction false} NextTimesMoves(r: Request, n: nat, env: Env)
    requires IsWindow(r) && StaysInRange(r, n)
    ensures NextTimes(r, n, env) == Moved(r, n * Stride(r))
    ensures IsWindow(NextTimes(r, n, env))
  {
    hide *;
    if n == 0 {
      NotMoved(r, env);
    } else {
      NextTimesMoves(r, n - 1, env) by {
        StaysInRangeAt(r, n, n - 1);
      }
      NextTimesStep(r, n, env);
    }
  }

  lemma NextTimesStep(r: Request, n: nat, env: Env)
    requires n > 0 && IsWindow(r) && StaysInRange(r, n)
    requires NextTimes(r, n - 1, env) == Moved(r, (n - 1) * Stride(r)) && IsWindow(NextTimes(r, n - 1, env))
    ensures NextTimes(r, n, env) == Moved(r, n * Stride(r))
    ensures IsWindow(NextTimes(r, n, env))
  {
    hide *;
    var before := NextTimes(r, n - 1, env);
    LastClick(r, n, env);
    StaysInRangeAt(r, n, n);
    StaysInRangeAt(r, n, n - 1);
    StrideIs(r);
    WholeStride(Reported(r));
    MultipleOfHour(Stride(r), n);
    OneMore(n, Stride(r));
    OneClick(r, before, (n - 1) * Stride(r), env);
  }

  lemma LastClick(r: Request, n: nat, env: Env)
    requires n > 0
    ensures NextTimes(r, n, env) == Click(Next(NextTimes(r, n - 1, env), env))
  {
  }

  lemma OneMore(n: nat, d: int)
    ensures n * d == (n - 1) * d + d
  {
  }

  lemma OneClick(r: Request, before: Request, from: int, env: Env)
    requires IsWindow(r) && IsWindow(before) && before == Moved(r, from)
    requires Lands(r, from + Reported(r)) && InRange(r, from + Stride(r)) && (from + Stride(r)) % HOUR == 0
    ensures Click(Next(before, env)) == Moved(r, from + Stride(r))
    ensures IsWindow(Moved(r, from + Stride(r)))
  {
    hide *;
    MovedTwice(r, from, Reported(r));
    MovedTwice(r, from, Stride(r));
    StrideIs(r);
    StrideIs(before);
    ClickNext(before, env);
    MovedIsWindow(r, from + Stride(r));
  }

  /** The instant belongs to the window reached by `k` clicks on Next. */
  predicate InTile(r: Request, k: nat, env: Env, inst: int) {
    var w := NextTimes(r, k, env);
    InWindow(inst, w.start.inst, w.end.inst)
  }

  lemma InTileAt(r: Request, n: nat, k: nat, env: Env, inst: int)
    requires IsWindow(r) && StaysInRange(r, n) && k <= n
    ensures
      var from := r.start.inst + k * Stride(r);
      InTile(r, k, env, inst) <==> InWindow(inst, from, from + Duration(r))
  {
    StaysInRangeAt(r, n, k);
    NextTimesMoves(r, k, env);
    MovedEnds(r, k * Stride(r), NextTimes(r, k, env), inst);
    assert InTile(r, k, env, inst) <==>
      InWindow(inst, NextTimes(r, k, env).start.inst, NextTimes(r, k, env).end.inst);
  }

  lemma MovedEnds(r: Request, d: int, w: Request, inst: int)
    requires w == Moved(r, d)
    ensures InWindow(inst, w.start.inst, w.end.inst) <==>
      InWindow(inst, r.start.inst + d, r.start.inst + d + Duration(r))
  {
  }

  lemma TileAt(start: int, d: int, inst: int, k: int)
    requires d > 0
    ensures InWindow(inst, start + k * d, start + k * d + d) <==> k == (inst - start) / d
  {
    Quotient(inst - start, d, (inst - start) / d, (inst - start) % d, k);
  }

  lemma Quotient(x: int, d: int, q: int, m: int, k: int)
    requires d > 0 && x == q * d + m && 0 <= m < d
    ensures k * d <= x < k * d + d <==> k == q
  {
    if k < q {
      assert (k + 1) * d <= q * d;
    } else if k > q {
      assert (q + 1) * d <= k * d;
    }
  }

  /** The quotient by `d` is from 0 to `n` exactly for the first `n + 1` stretches of length `d`. */
  lemma QuotientRange(x: int, d: int, n: nat)
    requires d > 0
    ensures 0 <= x / d <= n <==> 0 <= x < n * d + d
  {
    var q, m := x / d, x % d;
    assert x == q * d + m;
    if q > n {
      assert (n + 1) * d <= q * d;
    } else if 0 <= q {
      assert 0 <= q * d <= n * d;
    } else {
      assert q * d <= -1 * d;
    }
  }

  /**
   The windows reached by Next from a tileable one tile time: every instant from the start of the first window to
   the end of the last is in exactly one of them, and no other instant is in any.
   */
  lemma NextTilesTime(r: Request, n: nat, env: Env, inst: int)
    requires IsWindow(r) && Duration(r) > 0 && Tileable(r) && StaysInRange(r, n)
    ensures
      var q := (inst - r.start.inst) / Duration(r);
      && (r.start.inst <= inst < r.start.inst + n * Duration(r) + Duration(r) <==> 0 <= q <= n)
      && forall k: nat :: k <= n ==> (InTile(r, k, env, inst) <==> k == q)
  {
    StridesCancel(r);
    hide *;
    var start, d := r.start.inst, Duration(r);
    QuotientRange(inst - start, d, n);
    forall k: nat | k <= n ensures InTile(r, k, env, inst) <==> k == (inst - start) / d {
      InTileAt(r, n, k, env, inst);
      TileAt(start, d, inst, k);
    }
  }

  /** Some instant is in two of the windows from `r` to the one `n` clicks on. */
  ghost predicate CountsTwice(r: Request, n: nat, env: Env) {
    exists inst: int, j: nat, k: nat :: j < k <= n && InTile(r, j, env, inst) && InTile(r, k, env, inst)
  }

  /** Any other window overlaps its successor, so that some instant is counted twice. */
  lemma OnlyTileableTiles(r: Request, n: nat, env: Env)
    requires IsWindow(r) && Duration(r) > 0 && n > 0 && StaysInRange(r, n)
    ensures CountsTwice(r, n, env) <==> !Tileable(r)
  {
    StridesCancel(r);
    if Tileable(r) {
      forall inst: int, j: nat, k: nat | j < k <= n ensures !(InTile(r, j, env, inst) && InTile(r, k, env, inst)) {
        NextTilesTime(r, n, env, inst);
      }
    } else {
      hide *;
      var inst := r.start.inst + Stride(r);
      InTileAt(r, n, 0, env, inst);
      InTileAt(r, n, 1, env, inst);
      FirstTwo(r.start.inst, Stride(r), Duration(r));
      assert CountsTwice(r, n, env) by {
        assert InTile(r, 0, env, inst) && InTile(r, 1, env, inst);
      }
    }
  }

  lemma FirstTwo(start: int, stride: int, d: int)
    requires 0 <= stride < d
    ensures
      && InWindow(start + stride, start + 0 * stride, start + 0 * stride + d)
      && InWindow(start + stride, start + 1 * stride, start + 1 * stride + d)
  {
  }

  /**
   The row under which the scraper books a sample is selected by exactly the windows that contain the sample, when
   both ends are hours of the scraper's zone; when the windows tile, that is one window.
   */
  lemma SampleInOneTile(r: Request, n: nat, env: Env, ms: int, zone: int, k: nat)
    requires IsWindow(r) && StaysInRange(r, n) && k <= n
    requires Aligned(r.start.inst, zone) && Aligned(r.end.inst, zone)
    ensures InTile(r, k, env, Bucket(ms, zone)) <==> InTile(r, k, env, UnixMilli(ms, zone).inst)
    ensures Duration(r) > 0 && Tileable(r) ==>
      (InTile(r, k, env, Bucket(ms, zone)) <==> k == (UnixMilli(ms, zone).inst - r.start.inst) / Duration(r))
  {
    StrideIs(r);
    WholeStride(Reported(r));
    hide *;
    BucketInTile(r.start.inst, Stride(r), r.end.inst, k, ms, zone);
    EndIs(r);
    InTileAt(r, n, k, env, Bucket(ms, zone));
    InTileAt(r, n, k, env, UnixMilli(ms, zone).inst);
    if Duration(r) > 0 && Tileable(r) {
      NextTilesTime(r, n, env, UnixMilli(ms, zone).inst);
    }
  }

  lemma EndIs(r: Request)
    ensures r.end.inst == r.start.inst + Duration(r)
  {
  }

  lemma BucketInTile(start: int, stride: int, end: int, k: int, ms: int, zone: int)
    requires Aligned(start, zone) && Aligned(end, zone) && stride % HOUR == 0
    ensures
      InWindow(Bucket(ms, zone), start + k * stride, end + k * stride) <==>
      InWindow(UnixMilli(ms, zone).inst, start + k * stride, end + k * stride)
  {
    MultipleOfHour(stride, k);
    AlignedGap(start, start + k * stride, zone);
    AlignedGap(end, end + k * stride, zone);
    BucketInAlignedWindow(UnixMilli(ms, zone), start + k * stride, end + k * stride);
  }
}
