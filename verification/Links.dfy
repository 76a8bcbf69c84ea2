/**
 The links of the workload page: every click builds a new request, writes it to a URL and reads it back.
 */
module Links {
  import opened Clock
  import opened Rfc3339
  import opened Sums
  import opened WorkloadQuery
  import opened WorkloadRequest
  import opened Wrappers

  /**
   The clock, when the start of a range is worked out and when its end is, and what `time.ParseDuration` makes of a
   range, in nanoseconds.
   */
  datatype Env = Env(now: int, endNow: int, duration: string -> Option<int>)

  datatype QueryError = MutuallyExclusive | InvalidRange

  /** `rangeToStartEnd`: a range ends at the last whole hour of UTC. */
  function RangeToStartEnd(range: string, env: Env): Result<(ZonedTime, ZonedTime), QueryError> {
    if range == "" then Ok((ZERO, ZERO))
    else
      match env.duration(range)
      case None => Err(InvalidRange)
      case Some(d) =>
        var end := TruncateHour(Time(env.now, 0));
        Ok((Time(end.inst - d, 0), end))
  }

  function ToQuery(r: Request, env: Env): Result<AggRequest, QueryError> {
    if r.range != "" && (!IsZero(r.start) || !IsZero(r.end)) then Err(MutuallyExclusive)
    else if IsZero(r.start) || IsZero(r.end) then
      match RangeToStartEnd(r.range, env)
      case Err(e) => Err(e)
      case Ok(w) => Ok(AggRequest(r.cols, r.orderBy, w.0, w.1))
    else Ok(AggRequest(r.cols, r.orderBy, r.start, r.end))
  }

  /** `StartDate` and `EndDate`, which read the clock one after the other and drop the error of an unreadable range. */
  function Dates(r: Request, env: Env): (ZonedTime, ZonedTime) {
    if r.range == "" then (r.start, r.end)
    else
      match (RangeToStartEnd(r.range, env), RangeToStartEnd(r.range, env.(now := env.endNow)))
      case (Ok(first), Ok(second)) => (first.0, second.1)
      case _ => (ZERO, ZERO)
  }

  const MAX_DURATION := 0x7fff_ffff_ffff_ffff

  /** `time.Time.Sub`, which stops at the longest durations. */
  function Sub(a: Time, b: Time): (d: int)
    ensures -MAX_DURATION - 1 <= d <= MAX_DURATION
    ensures -MAX_DURATION - 1 <= a.inst - b.inst <= MAX_DURATION ==> d == a.inst - b.inst
  {
    var d := a.inst - b.inst;
    if d > MAX_DURATION then MAX_DURATION else if d < -MAX_DURATION - 1 then -MAX_DURATION - 1 else d
  }

  /** Negation of a 64-bit duration, which wraps the least one around. */
  function Negate(d: int): (n: int)
    ensures -MAX_DURATION - 1 <= d <= MAX_DURATION ==> -MAX_DURATION - 1 <= n <= MAX_DURATION
    ensures n != d ==> n == -d
  {
    if d == -MAX_DURATION - 1 then d else -d
  }

  function Add(t: ZonedTime, d: int): ZonedTime { t.(inst := t.inst + d) }

  function Shifted(r: Request, env: Env, d: int): Request {
    var (start, end) := Dates(r, env);
    r.(start := Add(start, d), end := Add(end, d), range := "")
  }

  function Prev(r: Request, env: Env): Request {
    var (start, end) := Dates(r, env);
    Shifted(r, env, Negate(Sub(end, start)))
  }

  function Next(r: Request, env: Env): Request {
    var (start, end) := Dates(r, env);
    Shifted(r, env, Sub(end, start))
  }

  function Remove(cols: seq<string>, col: string): seq<string> {
    if cols == [] then []
    else
      var front, last := Remove(cols[..|cols| - 1], col), cols[|cols| - 1];
      if last == col then front else front + [last]
  }

  function ToggleCol(r: Request, col: string): Request {
    r.(cols := if col in r.cols then Remove(r.cols, col) else r.cols + [col])
  }

  /** Clicking a column head: sorts by it, then flips the direction. */
  function ToggleOrder(r: Request, col: string): Request {
    var current := OrderCol(r.orderBy);
    r.(orderBy :=
      if current != col then col
      else if HasSuffix(r.orderBy, " desc") then current + " asc"
      else current + " desc")
  }

  datatype Link =
    | LinkRange(range: string)
    | LinkPrev
    | LinkNext
    | LinkToggleCol(col: string)
    | LinkToggleOrder(col: string)

  /** The request a link is built from; ordering by a column the page does not know yields no link. */
  function Target(r: Request, link: Link, env: Env): Option<Request> {
    match link
    case LinkRange(range) => Some(r.(range := range))
    case LinkPrev => Some(Prev(r, env))
    case LinkNext => Some(Next(r, env))
    case LinkToggleCol(col) => Some(ToggleCol(r, col))
    case LinkToggleOrder(col) => if col in COLS then Some(ToggleOrder(r, col)) else None
  }

  /** Prev and Next change the window only; sorting changes the order only, and is offered for known columns only. */
  lemma TargetsChange(r: Request, col: string, env: Env)
    ensures
      var prev, next := Target(r, LinkPrev, env).value, Target(r, LinkNext, env).value;
      prev.cols == next.cols == r.cols && prev.orderBy == next.orderBy == r.orderBy && prev.range == next.range == ""
    ensures Target(r, LinkToggleOrder(col), env).Some? <==> col in COLS
    ensures col in COLS ==>
      var sorted := Target(r, LinkToggleOrder(col), env).value;
      && sorted == r.(orderBy := sorted.orderBy)
      && (OrderCol(r.orderBy) != col ==> sorted.orderBy == col)
  {
  }

  // ---------- every reachable request is well formed ----------

  /** The first hour of year 1 in a zone of whole hours, which cutting to the hour turns into the zero time. */
  predicate ZeroHour(t: Time) { 0 <= t.inst < HOUR && Aligned(0, t.off) }

  lemma CutToZero(t: Time)
    ensures IsZero(TruncateHour(t)) <==> ZeroHour(t)
  {
    if ZeroHour(t) {
      TruncateHourUnique(t, 0);
    }
  }

  predicate InZeroHour(v: Values) {
    Windowed(v) && (ZeroHour(ParseOrZero(Get(v, "start"))) || ZeroHour(ParseOrZero(Get(v, "end"))))
  }

  lemma ReadBound(s: string)
    requires !IsZero(ParseOrZero(s))
    ensures Bound(TruncateHour(ParseOrZero(s))) <==> !ZeroHour(ParseOrZero(s))
  {
    ParsedIsPrintable(s);
    CutToZero(ParseOrZero(s));
  }

  /**
   Whatever the URL, the request read from it has valid columns, and exactly one of a range and two
   aligned times unless one of the times falls in the zero hour.
   */
  lemma UnmarshalIsValid(v: Values)
    ensures ValidCols(Unmarshal(v).cols)
    ensures ValidWindow(Unmarshal(v)) <==> !InZeroHour(v)
  {
    CleanCols(if "col" in v then v["col"] else []);
    if Windowed(v) {
      ReadBound(Get(v, "start"));
      ReadBound(Get(v, "end"));
    }
  }

  lemma ReadHalfPastMidnight()
    ensures ParseOrZero("0001-01-01T00:30:00Z") == Time(1800 * SECOND, 0)
  {
    var s := "0001-01-01T00:30:00Z";
    assert ReadTwo(s, 0) == Some(0) && ReadTwo(s, 2) == Some(1) && ReadTwo(s, 5) == Some(1) && ReadTwo(s, 8) == Some(1);
    assert ReadTwo(s, 11) == Some(0) && ReadTwo(s, 14) == Some(30) && ReadTwo(s, 17) == Some(0);
    assert s[19..] == "Z";
  }

  /** A URL whose times fall in the zero hour is read as a request with neither a range nor times. */
  lemma ZeroHourIsLost()
    ensures
      var v: Values := map["start" := ["0001-01-01T00:30:00Z"], "end" := ["0001-01-01T00:30:00Z"]];
      InZeroHour(v) && !ValidWindow(Unmarshal(v)) && IsZero(Unmarshal(v).start) && Unmarshal(v).range == ""
  {
    var v: Values := map["start" := ["0001-01-01T00:30:00Z"], "end" := ["0001-01-01T00:30:00Z"]];
    ReadHalfPastMidnight();
    hide ParseOrZero;
    KeysDiffer();
    CutToZero(Time(1800 * SECOND, 0));
    UnmarshalIsValid(v);
  }

  /** Reading a request never leaves the two kinds of time mixed, so the query is never refused for that. */
  lemma NeverMutuallyExclusive(v: Values, env: Env)
    ensures ToQuery(Unmarshal(v), env) != Err(MutuallyExclusive)
    ensures WellFormed(Unmarshal(v)) ==>
      var r := Unmarshal(v);
      ToQuery(r, env) ==
        if r.range == "" then Ok(AggRequest(r.cols, r.orderBy, r.start, r.end))
        else if env.duration(r.range).None? then Err(InvalidRange)
        else
          var end := env.now - env.now % HOUR;
          Ok(AggRequest(r.cols, r.orderBy, Time(end - env.duration(r.range).value, 0), Time(end, 0)))
  {
    if Windowed(v) {
      CutToZero(ParseOrZero(Get(v, "start")));
    }
  }

  /** A request is refused exactly when it has both a range and a time, or needs a range that cannot be read. */
  lemma QueryErrors(r: Request, env: Env)
    ensures ToQuery(r, env) == Err(MutuallyExclusive) <==> r.range != "" && (r.start.inst != 0 || r.end.inst != 0)
    ensures ToQuery(r, env) == Err(InvalidRange) <==>
      r.range != "" && r.start.inst == 0 && r.end.inst == 0 && env.duration(r.range).None?
  {
  }

  /** The click would read a time that falls in the zero hour. */
  predicate EntersZeroHour(target: Request) {
    && target.range == "" && IsWritable(target.start) && IsWritable(target.end)
    && (ZeroHour(target.start) || ZeroHour(target.end))
  }

  lemma {:induction false} Removed(cols: seq<string>, col: string)
    ensures forall c :: c in Remove(cols, col) <==> c in cols && c != col
    ensures Distinct(cols) ==> Distinct(Remove(cols, col))
  {
    if cols == [] {
    } else {
      var front, last := cols[..|cols| - 1], cols[|cols| - 1];
      Removed(front, col);
      assert cols == front + [last];
      assert Distinct(cols) ==> last !in front;
      assert last !in front ==> last !in Remove(front, col);
    }
  }

  lemma NamedMembers(cols: seq<string>, c: string)
    requires ValidCols(cols) && c in cols
    ensures Named(c)
  {
  }

  lemma TargetOrder(r: Request, link: Link, env: Env)
    requires ValidCols(r.cols) && Target(r, link, env).Some?
    requires link.LinkToggleCol? && !Named(link.col) ==> WellFormed(r)
    ensures OrderSurvives(Target(r, link, env).value)
  {
    var t := Target(r, link, env).value;
    if Ordered(t) {
      var col := OrderCol(t.orderBy);
      if link.LinkToggleCol? {
        Removed(r.cols, link.col);
        assert col in r.cols || col == link.col;
      }
      if col in r.cols {
        NamedMembers(r.cols, col);
      }
    }
  }

  /** The column that the target is ordered by, if any, is not dropped as unnamed when the URL is read. */
  predicate OrderSurvives(target: Request) { Ordered(target) ==> Named(OrderCol(target.orderBy)) }

  lemma TimesAfterClick(target: Request)
    ensures ValidWindow(Click(target)) <==> !EntersZeroHour(target)
  {
    ClickOf(target);
    if target.range == "" && IsWritable(target.start) && IsWritable(target.end) {
      WritableBound(target.start);
      WritableBound(target.end);
    }
  }

  lemma WritableBound(t: ZonedTime)
    requires IsWritable(t)
    ensures Bound(TruncateHour(t)) <==> !ZeroHour(t)
  {
    ReadTime(t);
    ReadBound(TimeText(t));
    CutToZero(t);
    CutToZero(ParseOrZero(TimeText(t)));
  }

  /** What a click leads to is well formed exactly for targets that avoid the zero hour and order by a named column. */
  lemma ClickIsWellFormed(target: Request)
    ensures WellFormed(Click(target)) <==> !EntersZeroHour(target) && OrderSurvives(target)
  {
    ClickOf(target);
    CleanCols(target.cols);
    TimesAfterClick(target);
    hide ValidWindow, Click, EntersZeroHour, Uniq, KeepNamed, TrimSuffix;
  }

  /** One click from a well-formed request leads to a well-formed one, unless it enters the zero hour. */
  lemma ClickKeepsWellFormed(r: Request, link: Link, env: Env)
    requires WellFormed(r) && Target(r, link, env).Some?
    ensures WellFormed(Click(Target(r, link, env).value)) <==> !EntersZeroHour(Target(r, link, env).value)
  {
    TargetOrder(r, link, env);
    ClickIsWellFormed(Target(r, link, env).value);
  }

  /** A link followed, and the moment it was built. */
  datatype Visit = Visit(link: Link, env: Env)

  /** The request after a sequence of clicks; a link that is not there leads nowhere. */
  function Browse(r: Request, clicks: seq<Visit>): Request {
    if clicks == [] then r
    else
      var front, last := Browse(r, clicks[..|clicks| - 1]), clicks[|clicks| - 1];
      match Target(front, last.link, last.env)
      case Some(t) => Click(t)
      case None => front
  }

  /** No click of the sequence enters the zero hour. */
  predicate AvoidsZeroHour(r: Request, clicks: seq<Visit>) {
    clicks == [] ||
    var front, last := Browse(r, clicks[..|clicks| - 1]), clicks[|clicks| - 1];
    && AvoidsZeroHour(r, clicks[..|clicks| - 1])
    && (Target(front, last.link, last.env).Some? ==> !EntersZeroHour(Target(front, last.link, last.env).value))
  }

  /** Every request reachable by any sequence of clicks is well formed, so its URL reads back to itself. */
  lemma {:induction false} BrowsingStaysWellFormed(r: Request, clicks: seq<Visit>)
    requires WellFormed(r) && AvoidsZeroHour(r, clicks)
    ensures WellFormed(Browse(r, clicks))
    ensures Unmarshal(ToValues(Browse(r, clicks))) == Browse(r, clicks)
  {
    if clicks == [] {
    } else {
      var front, last := Browse(r, clicks[..|clicks| - 1]), clicks[|clicks| - 1];
      BrowsingStaysWellFormed(r, clicks[..|clicks| - 1]);
      if Target(front, last.link, last.env).Some? {
        ClickKeepsWellFormed(front, last.link, last.env);
      }
    }
    RoundTrip(Browse(r, clicks));
  }

  /** Some link of the sequence was there to follow. */
  predicate Follows(r: Request, clicks: seq<Visit>) {
    clicks != [] &&
    var front, last := clicks[..|clicks| - 1], clicks[|clicks| - 1];
    Follows(r, front) || Target(Browse(r, front), last.link, last.env).Some?
  }

  lemma {:induction false} BrowsingFromValidCols(r: Request, clicks: seq<Visit>)
    requires ValidCols(r.cols) && AvoidsZeroHour(r, clicks)
    requires forall i :: 0 <= i < |clicks| && clicks[i].link.LinkToggleCol? ==> Named(clicks[i].link.col)
    ensures if Follows(r, clicks) then WellFormed(Browse(r, clicks)) else Browse(r, clicks) == r
  {
    if clicks == [] {
    } else {
      var front, last := clicks[..|clicks| - 1], clicks[|clicks| - 1];
      BrowsingFromValidCols(r, front);
      var before := Browse(r, front);
      if Target(before, last.link, last.env).Some? {
        TargetOrder(before, last.link, last.env);
        ClickIsWellFormed(Target(before, last.link, last.env).value);
      }
    }
  }

  /**
   Whatever URL the browsing begins with, once a link was followed every request is well formed and reads back to
   itself; toggled columns are named, as they are on the page.
   */
  lemma BrowsingFromAnyUrl(v: Values, clicks: seq<Visit>)
    requires AvoidsZeroHour(Unmarshal(v), clicks) && Follows(Unmarshal(v), clicks)
    requires forall i :: 0 <= i < |clicks| && clicks[i].link.LinkToggleCol? ==> Named(clicks[i].link.col)
    ensures WellFormed(Browse(Unmarshal(v), clicks))
    ensures Unmarshal(ToValues(Browse(Unmarshal(v), clicks))) == Browse(Unmarshal(v), clicks)
  {
    UnmarshalIsValid(v);
    hide *;
    BrowsingFromValidCols(Unmarshal(v), clicks);
    RoundTrip(Browse(Unmarshal(v), clicks));
  }

  // ---------- toggling a column twice ----------

  lemma {:induction false} RemoveLeavesLabels(cols: seq<string>, col: string)
    requires !IsLabel(col)
    ensures Labels(Remove(cols, col)) == Labels(cols)
  {
    if cols == [] {
    } else {
      var front, last := cols[..|cols| - 1], cols[|cols| - 1];
      RemoveLeavesLabels(front, col);
      if last != col {
        assert (Remove(front, col) + [last])[..|Remove(front, col)|] == Remove(front, col);
      }
    }
  }

  lemma {:induction false} RemoveAbsent(cols: seq<string>, col: string)
    requires col !in cols
    ensures Remove(cols, col) == cols
    ensures Remove(cols + [col], col) == cols
  {
    assert (cols + [col])[..|cols|] == cols;
    if cols == [] {
    } else {
      assert cols[|cols| - 1] in cols;
      RemoveAbsent(cols[..|cols| - 1], col);
    }
  }

  lemma ColsAreNamed(col: string)
    requires col in COLS
    ensures Named(col)
  {
    assert "undefined"[0] == 'u';
    if col[..1] == "u" {
      assert col == "used_cpu_core_hours" || col == "used_memory_gb_hours";
      assert col[1] == 's';
    }
  }

  /** The removed column leaves the others in their places. */
  lemma {:induction false} RemoveBetween(a: seq<string>, col: string, b: seq<string>)
    requires col !in a && col !in b
    ensures Remove(a + [col] + b, col) == a + b
  {
    var cols := a + [col] + b;
    if b == [] {
      assert cols == a + [col] && a + b == a;
      RemoveAbsent(a, col);
    } else {
      var n := |b| - 1;
      assert cols[..|cols| - 1] == a + [col] + b[..n];
      assert b[n] in b && forall c :: c in b[..n] ==> c in b;
      RemoveBetween(a, col, b[..n]);
      assert a + b[..n] + [b[n]] == a + b;
    }
  }

  /** A click whose target has a valid selection and window changes at most the order. */
  lemma ClickKeeps(t: Request)
    requires ValidCols(t.cols) && ValidWindow(t)
    ensures Click(t) == t.(orderBy := if Ordered(t) then t.orderBy else "")
  {
    ClickOf(t);
    CleanCols(t.cols);
    BoundIsFixed(t.start);
    BoundIsFixed(t.end);
  }

  lemma ValidWithout(cols: seq<string>, col: string)
    requires ValidCols(cols) && Named(col)
    ensures ValidCols(Remove(cols, col)) && ValidCols(Remove(cols, col) + [col])
    ensures col !in cols ==> ValidCols(cols + [col])
  {
    Removed(cols, col);
    var rest := Remove(cols, col);
    forall i | 0 <= i < |rest| ensures Named(rest[i]) && rest[i] != col {
      assert rest[i] in rest;
      assert rest[i] in cols;
    }
    assert forall i :: 0 <= i < |cols| ==> cols[i] in cols;
  }

  /** The request with other columns, ordered as before as far as the order column is still selected. */
  function WithCols(r: Request, cols: seq<string>): Request {
    r.(cols := cols, orderBy := if Ordered(r.(cols := cols)) then r.orderBy else "")
  }

  /** Toggling a column, through the URL. */
  lemma ClickToggle(r: Request, col: string)
    requires ValidCols(r.cols) && ValidWindow(r) && Named(col)
    ensures Click(ToggleCol(r, col)) == WithCols(r, if col in r.cols then Remove(r.cols, col) else r.cols + [col])
  {
    ValidWithout(r.cols, col);
    hide Click, ValidCols, Remove, Ordered;
    ClickKeeps(ToggleCol(r, col));
  }

  /** Selecting a column and deselecting it again leads back to the same request. */
  lemma ToggleOnAndOff(r: Request, col: string)
    requires WellFormed(r) && Named(col) && col !in r.cols
    ensures Click(ToggleCol(Click(ToggleCol(r, col)), col)) == r
  {
    var on := WithCols(r, r.cols + [col]);
    ValidWithout(r.cols, col);
    RemoveAbsent(r.cols, col);
    assert Ordered(r) ==> Ordered(r.(cols := r.cols + [col]));
    assert ValidWindow(on) && on.cols == r.cols + [col] && col in on.cols && WithCols(on, r.cols) == r;
    hide *;
    ClickToggle(r, col);
    ClickToggle(on, col);
  }

  /** Deselecting a column and selecting it again moves it to the end, and loses the order if it was by that column. */
  lemma ToggleOffAndOn(r: Request, col: string)
    requires WellFormed(r) && Named(col) && col in r.cols
    ensures
      var r2 := Click(ToggleCol(Click(ToggleCol(r, col)), col));
      && r2 == r.(cols := Remove(r.cols, col) + [col], orderBy := r2.orderBy)
      && (r2.orderBy == r.orderBy <==> r.orderBy == "" || OrderCol(r.orderBy) != col)
  {
    var rest := Remove(r.cols, col);
    var off := WithCols(r, rest);
    ValidWithout(r.cols, col);
    Removed(r.cols, col);
    assert ValidWindow(off) && off.cols == rest && col !in rest;
    OrderAfterToggles(r, col);
    ClickToggle(r, col);
    hide Click, ToggleCol, ValidCols, Ordered, OrderCol, Remove, ValidWindow;
    ClickToggle(off, col);
  }

  lemma OrderAfterToggles(r: Request, col: string)
    requires WellFormed(r) && col in r.cols
    ensures
      var rest := Remove(r.cols, col);
      WithCols(WithCols(r, rest), rest + [col]).orderBy == r.orderBy <==> r.orderBy == "" || OrderCol(r.orderBy) != col
  {
    Removed(r.cols, col);
    hide TrimSuffix, OrderCol, ValidCols, ValidWindow, Remove;
  }

  /** Toggling a known column off and on again selects the same expressions; labels keep their places. */
  lemma SelectionAfterToggles(cols: seq<string>, col: string)
    requires col in COLS && col in cols
    ensures
      var again := Remove(cols, col) + [col];
      && Base(COLS, again) == Base(COLS, cols) && Labels(again) == Labels(cols)
      && forall c :: c in again <==> c in cols
  {
    var rest := Remove(cols, col);
    ColsAreNoLabels(col);
    hide IsLabel;
    assert (rest + [col])[..|rest|] == rest;
    RemoveLeavesLabels(cols, col);
    Removed(cols, col);
    hide Remove;
    BaseDependsOnSet(COLS, rest + [col], cols);
  }

  lemma CompilesAlike(a: AggRequest, b: AggRequest)
    requires a.start == b.start && a.end == b.end
    requires forall c :: c in a.cols <==> c in b.cols
    ensures Compile(a).Ok? <==> Compile(b).Ok?
  {
    CompileFails(a);
    CompileFails(b);
    SameMembers(a.cols, b.cols);
    SameMembers(b.cols, a.cols);
    hide Compile, BadLabel, Recognised;
  }

  lemma SameMembers(a: seq<string>, b: seq<string>)
    requires forall c :: c in a <==> c in b
    ensures (exists i :: 0 <= i < |a| && BadLabel(a[i])) ==> exists i :: 0 <= i < |b| && BadLabel(b[i])
    ensures (exists i :: 0 <= i < |a| && Recognised(a[i])) ==> exists i :: 0 <= i < |b| && Recognised(b[i])
  {
    hide BadLabel, Recognised;
    if i :| 0 <= i < |a| && BadLabel(a[i]) {
      assert a[i] in b;
    }
    if i :| 0 <= i < |a| && Recognised(a[i]) {
      assert a[i] in b;
    }
  }

  /**
   Clicking a selected known column off and on again leads to a request that compiles exactly when the first one
   did, with the same SELECT and the same GROUP BY, although the requested columns changed order.
   */
  lemma ToggleKeepsSelection(r: Request, col: string, start: ZonedTime, end: ZonedTime)
    requires WellFormed(r) && col in COLS && col in r.cols
    ensures
      var r2 := Click(ToggleCol(Click(ToggleCol(r, col)), col));
      var a := Compile(AggRequest(r.cols, r.orderBy, start, end));
      var b := Compile(AggRequest(r2.cols, r2.orderBy, start, end));
      && (a.Ok? <==> b.Ok?)
      && (a.Ok? ==> b.value == a.value.(orderBy := r2.orderBy))
  {
    ColsAreNamed(col);
    ToggleOffAndOn(r, col);
    var r2 := Click(ToggleCol(Click(ToggleCol(r, col)), col));
    assert r2.cols == Remove(r.cols, col) + [col];
    hide *;
    SelectionAfterToggles(r.cols, col);
    SameSelection(AggRequest(r.cols, r.orderBy, start, end), AggRequest(r2.cols, r2.orderBy, start, end));
  }

  lemma SameSelection(a: AggRequest, b: AggRequest)
    requires Base(COLS, b.cols) == Base(COLS, a.cols) && Labels(b.cols) == Labels(a.cols)
    requires forall c :: c in b.cols <==> c in a.cols
    requires a.start == b.start && a.end == b.end
    ensures Compile(a).Ok? <==> Compile(b).Ok?
    ensures Compile(a).Ok? ==> Compile(b).value == Compile(a).value.(orderBy := b.orderBy)
  {
    hide Base, Labels, FirstBadLabel;
    CompilesAlike(a, b);
  }

  // ---------- toggling the order ----------

  /** The marks shown in a column head. */
  predicate IsOrderAsc(r: Request, col: string) { TrimSuffix(r.orderBy, " asc") == col }

  predicate IsOrderDesc(r: Request, col: string) { r.orderBy == col + " desc" }

  predicate HasSpace(s: string) { ' ' in s }

  lemma ColsHaveNoSpace(col: string)
    requires col in COLS
    ensures !HasSpace(col)
  {
  }

  lemma NotSuffix(s: string, suffix: string, k: nat)
    requires k < |suffix| <= |s| ==> s[|s| - |suffix| + k] != suffix[k]
    requires k < |suffix|
    ensures !HasSuffix(s, suffix) && TrimSuffix(s, suffix) == s
  {
    assert |suffix| <= |s| ==> s[|s| - |suffix|..][k] == s[|s| - |suffix| + k];
  }

  /** A suffix that begins with a space is not part of a name without spaces. */
  lemma TrimNothing(col: string, suffix: string)
    requires !HasSpace(col) && suffix != [] && suffix[0] == ' '
    ensures TrimSuffix(col, suffix) == col && !HasSuffix(col, suffix)
    ensures TrimSuffix(col + suffix, suffix) == col && HasSuffix(col + suffix, suffix)
  {
    NotSuffix(col, suffix, 0);
    assert (col + suffix)[|col|..] == suffix && (col + suffix)[..|col|] == col;
  }

  /** The two suffixes do not end alike. */
  lemma AscIsNotDesc(col: string)
    ensures !HasSuffix(col + " asc", " desc") && TrimSuffix(col + " asc", " desc") == col + " asc"
    ensures !HasSuffix(col + " desc", " asc") && TrimSuffix(col + " desc", " asc") == col + " desc"
  {
    NotSuffix(col + " asc", " desc", 2);
    NotSuffix(col + " desc", " asc", 1);
  }

  /**
   Clicking the head of a known column sorts by it, descending if it was marked ascending, and ascending in every
   other case, even when the clause carried both suffixes.
   */
  lemma ToggleOrderFlips(r: Request, col: string)
    requires col in COLS
    ensures IsOrderAsc(r, col) ==> IsOrderDesc(ToggleOrder(r, col), col) && !IsOrderAsc(ToggleOrder(r, col), col)
    ensures !IsOrderAsc(r, col) ==> IsOrderAsc(ToggleOrder(r, col), col) && !IsOrderDesc(ToggleOrder(r, col), col)
  {
    ColsHaveNoSpace(col);
    TrimNothing(col, " asc");
    TrimNothing(col, " desc");
    AscIsNotDesc(col);
    OrderTexts(r.orderBy, col);
    hide TrimSuffix, HasSuffix, HasSpace;
  }

  /** The texts that order by a name without spaces, and what their suffixes are. */
  lemma OrderTexts(orderBy: string, col: string)
    requires !HasSpace(col)
    ensures TrimSuffix(orderBy, " asc") == col ==> orderBy == col || orderBy == col + " asc"
    ensures !HasSuffix(col, " desc") && col != col + " desc" && col + " asc" != col + " desc"
  {
    TrimNothing(col, " desc");
    if TrimSuffix(orderBy, " asc") == col && orderBy != col {
      assert orderBy == orderBy[..|orderBy| - 4] + " asc";
    }
    assert (col + " asc")[|col| + 1] == 'a' && (col + " desc")[|col| + 1] == 'd';
  }

  /** Sorting a well-formed request by a selected known column changes nothing but its order. */
  lemma SortClick(r: Request, col: string)
    requires WellFormed(r) && col in COLS && col in r.cols
    ensures Click(ToggleOrder(r, col)) == r.(orderBy := ToggleOrder(r, col).orderBy)
    ensures ToggleOrder(r, col).orderBy != ""
  {
    var t := ToggleOrder(r, col);
    ClickKeeps(t);
    ColsHaveNoSpace(col);
    ColsAreNamed(col);
    SortedByCol(r, col);
    OrderColOf(t.orderBy, col);
  }

  lemma SortedByCol(r: Request, col: string)
    requires col in COLS
    ensures IsOrderOf(ToggleOrder(r, col).orderBy, col) && (col != "" ==> ToggleOrder(r, col).orderBy != "")
  {
  }

  /** Choosing a range drops the window and keeps the rest; an empty range cannot be chosen and leads to 24 hours. */
  lemma RangeClick(r: Request, range: string, env: Env)
    requires WellFormed(r) && r.range != ""
    ensures Target(r, LinkRange(range), env).Some?
    ensures Click(Target(r, LinkRange(range), env).value) ==
      r.(range := if range == "" || range == "undefined" then "24h" else range)
  {
    var t := Target(r, LinkRange(range), env).value;
    ClickOf(t);
    CleanCols(r.cols);
    assert !IsWritable(ZERO);
  }

  /** From a window, choosing a range drops the window; only the empty range keeps it. */
  lemma RangeInsteadOfWindow(r: Request, range: string, env: Env)
    requires WellFormed(r) && r.range == ""
    ensures Click(Target(r, LinkRange(range), env).value) ==
      if range == "" then r
      else r.(range := if range == "undefined" then "24h" else range, start := ZERO, end := ZERO)
  {
    var t := Target(r, LinkRange(range), env).value;
    ClickOf(t);
    CleanCols(r.cols);
    if range == "" {
      BoundIsFixed(r.start);
      BoundIsFixed(r.end);
    }
  }

  // ---------- the order clause that reaches the query ----------

  /** The clause names the column, with or without a direction. */
  predicate IsOrderOf(orderBy: string, col: string) {
    orderBy == col || orderBy == col + " asc" || orderBy == col + " desc"
  }

  ghost predicate OrdersByKnown(orderBy: string, cols: seq<string>) {
    exists col :: col in COLS && col in cols && IsOrderOf(orderBy, col)
  }

  lemma OrderColOf(orderBy: string, col: string)
    requires !HasSpace(col) && IsOrderOf(orderBy, col)
    ensures OrderCol(orderBy) == col && orderBy != col + " asc desc"
  {
    TrimNothing(col, " asc");
    TrimNothing(col, " desc");
    AscIsNotDesc(col);
    assert |col + " asc desc"| == |col| + 9;
  }

  lemma OrderShape(orderBy: string)
    ensures IsOrderOf(orderBy, OrderCol(orderBy)) || orderBy == OrderCol(orderBy) + " asc desc"
  {
    var front := TrimSuffix(orderBy, " desc");
    TrimmedOrNot(orderBy, " desc");
    TrimmedOrNot(front, " asc");
    hide TrimSuffix;
    Suffixes(OrderCol(orderBy), front, orderBy);
  }

  lemma Suffixes(col: string, front: string, orderBy: string)
    requires front == col || front == col + " asc"
    requires orderBy == front || orderBy == front + " desc"
    ensures IsOrderOf(orderBy, col) || orderBy == col + " asc desc"
  {
    assert " asc" + " desc" == " asc desc";
    assert (col + " asc") + " desc" == col + (" asc" + " desc");
  }

  lemma TrimmedOrNot(s: string, suffix: string)
    ensures s == TrimSuffix(s, suffix) || s == TrimSuffix(s, suffix) + suffix
  {
  }

  /**
   The order clause of a request, well formed or not, names a selected known column with at most a direction if and
   only if its column is known and selected, and it does not carry both suffixes.
   */
  lemma OrderClause(r: Request)
    requires r.orderBy != ""
    ensures OrdersByKnown(r.orderBy, r.cols) <==>
      && OrderCol(r.orderBy) in COLS
      && OrderCol(r.orderBy) in r.cols
      && r.orderBy != OrderCol(r.orderBy) + " asc desc"
  {
    OrderShape(r.orderBy);
    hide TrimSuffix, OrderCol;
    if c :| c in COLS && c in r.cols && IsOrderOf(r.orderBy, c) {
      ColsHaveNoSpace(c);
      OrderColOf(r.orderBy, c);
    }
  }

  /** A URL that orders by a known column that is not selected: the clause reaches the query as it is. */
  lemma UnselectedOrderReachesQuery(start: ZonedTime, end: ZonedTime)
    requires start.inst <= end.inst
    ensures
      var r := Unmarshal(map["col" := ["name"], "orderby" := ["namespace"]]);
      var query := Compile(AggRequest(r.cols, r.orderBy, start, end));
      query.Ok? && query.value.orderBy == "namespace" && !OrdersByKnown(r.orderBy, r.cols)
  {
    var r := Unmarshal(map["col" := ["name"], "orderby" := ["namespace"]]);
    NameByNamespace();
    NotKnown();
    hide Unmarshal;
    NotByName();
    CompilesByName(AggRequest(r.cols, r.orderBy, start, end));
  }

  lemma NotByName()
    ensures !IsOrderOf("namespace", "name")
  {
    assert |"namespace"| == 9 && |"name"| == 4;
    assert "namespace"[4] == 's' && ("name" + " desc")[4] == ' ';
  }

  lemma NameByNamespace()
    ensures
      var r := Unmarshal(map["col" := ["name"], "orderby" := ["namespace"]]);
      r.cols == ["name"] && r.orderBy == "namespace"
  {
    var v: Values := map["col" := ["name"], "orderby" := ["namespace"]];
    hide Parse, ParseOrZero, TruncateHour, KeepNamed, Uniq, Windowed;
    KeysDiffer();
    OneName("name");
    CleanCols(["name"]);
    assert Get(v, "orderby") == "namespace";
  }

  lemma OneName(col: string)
    requires col != [] && col[0] != 'u'
    ensures ValidCols([col])
  {
    assert "undefined"[0] == 'u';
  }

  /** A request for the name, and maybe for columns that nothing is known about, compiles. */
  lemma CompilesByName(req: AggRequest)
    requires req.start.inst <= req.end.inst && "name" in req.cols
    requires forall c :: c in req.cols ==> !IsLabel(c)
    ensures Compile(req).Ok? && Compile(req).value.orderBy == req.orderBy
  {
    NotKnown();
    var i :| 0 <= i < |req.cols| && req.cols[i] == "name";
    assert Recognised(req.cols[i]);
    forall j | 0 <= j < |req.cols| ensures !BadLabel(req.cols[j]) {
      assert req.cols[j] in req.cols;
    }
    CompileFails(req);
  }

  /** A URL that orders by a position: the request is well formed, and the clause reaches the query as it is. */
  lemma UnknownOrderReachesQuery(start: ZonedTime, end: ZonedTime)
    requires start.inst <= end.inst
    ensures
      var r := Request(["name", "1"], "1", "24h", ZERO, ZERO);
      var query := Compile(AggRequest(r.cols, r.orderBy, start, end));
      WellFormed(r) && query.Ok? && query.value.orderBy == "1" && !OrdersByKnown("1", r.cols)
  {
    var r := Request(["name", "1"], "1", "24h", ZERO, ZERO);
    PlainOrder();
    assert Named("name") && Named("1") && "name" != "1";
    assert "24h"[0] != "undefined"[0];
    assert WellFormed(r);
    NotKnown();
    hide WellFormed;
    OrderClause(r);
    assert !IsLabel("1") by {
      assert LABEL_PREFIX[0] == 'l' && "1"[0] == '1';
    }
    CompilesByName(AggRequest(r.cols, r.orderBy, start, end));
  }

  lemma PlainOrder()
    ensures OrderCol("1") == "1"
  {
  }

  lemma NotKnown()
    ensures "1" !in COLS && "name" in COLS && !IsLabel("name")
  {
    assert COLS[6] == "name";
    ColsAreNoLabels("name");
    assert forall i :: 0 <= i < |COLS| ==> |COLS[i]| > 1;
  }

  ghost predicate SafeOrder(r: Request) { r.orderBy == "" || OrdersByKnown(r.orderBy, r.cols) }

  /** Links never lose that: a click keeps the order clause empty or on a selected known column, from any request. */
  lemma ClickKeepsOrder(r: Request, link: Link, env: Env)
    requires SafeOrder(r) && Target(r, link, env).Some?
    ensures SafeOrder(Click(Target(r, link, env).value))
  {
    var t := Target(r, link, env).value;
    ClickOf(t);
    CleanCols(t.cols);
    if Ordered(t) {
      var col := KnownOrder(r, link, env);
      ColsHaveNoSpace(col);
      ColsAreNamed(col);
      OrderColOf(t.orderBy, col);
    }
  }

  lemma KnownOrder(r: Request, link: Link, env: Env) returns (col: string)
    requires SafeOrder(r) && Target(r, link, env).Some? && Target(r, link, env).value.orderBy != ""
    ensures col in COLS && IsOrderOf(Target(r, link, env).value.orderBy, col)
  {
    if link.LinkToggleOrder? {
      col := link.col;
    } else {
      col :| col in COLS && col in r.cols && IsOrderOf(r.orderBy, col);
    }
  }

  lemma {:induction false} BrowsingKeepsOrder(r: Request, clicks: seq<Visit>)
    requires SafeOrder(r)
    ensures SafeOrder(Browse(r, clicks))
  {
    if clicks == [] {
    } else {
      var front, last := Browse(r, clicks[..|clicks| - 1]), clicks[|clicks| - 1];
      BrowsingKeepsOrder(r, clicks[..|clicks| - 1]);
      if Target(front, last.link, last.env).Some? {
        ClickKeepsOrder(front, last.link, last.env);
      }
    }
  }
}
