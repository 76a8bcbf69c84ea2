/**
 The workload page's request: how it is read from URL values and written back, the links that lead from
 one request to the next, and the requests that survive the round trip unchanged.
 */
module WorkloadRequest {
  import opened Clock
  import opened Rfc3339
  import opened Sums

  /** Every time the server handles was read by `Parse` or is in UTC, so its offset is a whole number of minutes. */
  type ZonedTime = t: Time | Zoned(t) witness ZERO

  datatype Request = Request(cols: seq<string>, orderBy: string, range: string, start: ZonedTime, end: ZonedTime)

  /** The decoded query string: for each key the values in order. */
  type Values = map<string, seq<string>>

  function Get(v: Values, key: string): string { if key in v && v[key] != [] then v[key][0] else "" }

  predicate Named(col: string) { col != "" && col != "undefined" }

  function KeepNamed(cols: seq<string>): seq<string> {
    if cols == [] then []
    else
      var front, col := KeepNamed(cols[..|cols| - 1]), cols[|cols| - 1];
      if Named(col) then front + [col] else front
  }

  /** First occurrences only. */
  function Uniq(cols: seq<string>): seq<string> {
    if cols == [] then []
    else
      var front, col := Uniq(cols[..|cols| - 1]), cols[|cols| - 1];
      if col in front then front else front + [col]
  }

  /** `time.Parse` with its error dropped: the zero time when the text cannot be read. */
  function ParseOrZero(s: string): ZonedTime { match Parse(s) case Some(t) => t case None => ZERO }

  function Range(v: Values): string { if Get(v, "range") == "undefined" then "" else Get(v, "range") }

  /** The values name no range but two readable times, neither of them the zero time. */
  predicate Windowed(v: Values) {
    Range(v) == "" && !IsZero(ParseOrZero(Get(v, "start"))) && !IsZero(ParseOrZero(Get(v, "end")))
  }

  function Unmarshal(v: Values): Request {
    Request(
      Uniq(KeepNamed(if "col" in v then v["col"] else [])),
      Get(v, "orderby"),
      if Windowed(v) then "" else if Range(v) == "" then "24h" else Range(v),
      if Windowed(v) then TruncateHour(ParseOrZero(Get(v, "start"))) else ZERO,
      if Windowed(v) then TruncateHour(ParseOrZero(Get(v, "end"))) else ZERO)
  }

  method UnmarshalWorkloadRequest(v: Values) returns (result: Request)
    ensures result == Unmarshal(v)
  {
    hide Parse, KeepNamed, Uniq;
    result := Request([], "", Get(v, "range"), ZERO, ZERO);
    if result.range == "undefined" {
      result := result.(range := "");
    }
    if result.range == "" {
      result := result.(start := ParseOrZero(Get(v, "start")), end := ParseOrZero(Get(v, "end")));
      if IsZero(result.start) || IsZero(result.end) {
        result := result.(start := ZERO, end := ZERO, range := "24h");
      }
    }
    result := result.(cols := KeepNamed(if "col" in v then v["col"] else []));
    result := result.(cols := Uniq(result.cols));
    result := result.(orderBy := Get(v, "orderby"));
    result := result.(start := TruncateHour(result.start));
    result := result.(end := TruncateHour(result.end));
  }

  predicate HasSuffix(s: string, suffix: string) { |suffix| <= |s| && s[|s| - |suffix|..] == suffix }

  function TrimSuffix(s: string, suffix: string): string {
    if HasSuffix(s, suffix) then s[..|s| - |suffix|] else s
  }

  /** The column an order clause names. */
  function OrderCol(orderBy: string): string { TrimSuffix(TrimSuffix(orderBy, " desc"), " asc") }

  predicate Ordered(r: Request) { r.orderBy != "" && OrderCol(r.orderBy) in r.cols }

  function Put(v: Values, present: bool, key: string, value: string): Values {
    if present then v[key := [value]] else v
  }

  /** The values for given texts of the start and the end; an empty text stands for the zero time. */
  function Written(r: Request, start: string, end: string): Values {
    var v := map["col" := r.cols];
    var v := Put(v, r.range != "", "range", r.range);
    var v := Put(v, r.range == "" && start != "", "start", start);
    var v := Put(v, r.range == "" && end != "", "end", end);
    Put(v, Ordered(r), "orderby", r.orderBy)
  }

  /** `timeToString`. */
  function TimeText(t: ZonedTime): string { if IsZero(t) then "" else Print(t) }

  /** The values that a request is written to. */
  function ToValues(r: Request): Values { Written(r, TimeText(r.start), TimeText(r.end)) }

  method UrlValues(r: Request) returns (values: Values)
    ensures values == ToValues(r)
  {
    values := WriteValues(r, TimeText(r.start), TimeText(r.end));
  }

  method WriteValues(r: Request, start: string, end: string) returns (values: Values)
    ensures values == Written(r, start, end)
  {
    values := map["col" := r.cols];
    if r.range != "" {
      values := values["range" := [r.range]];
    } else {
      if start != "" {
        values := values["start" := [start]];
      }
      if end != "" {
        values := values["end" := [end]];
      }
    }
    var orderByCol := TrimSuffix(TrimSuffix(r.orderBy, " desc"), " asc");
    if r.orderBy != "" && orderByCol in r.cols {
      values := values["orderby" := [r.orderBy]];
    }
  }

  // ---------- columns ----------

  ghost predicate ValidCols(cols: seq<string>) {
    Distinct(cols) && forall i :: 0 <= i < |cols| ==> Named(cols[i])
  }

  lemma {:induction false} CleanedCols(cols: seq<string>)
    ensures forall c :: c in KeepNamed(cols) <==> c in cols && Named(c)
    ensures (forall i :: 0 <= i < |cols| ==> Named(cols[i])) ==> KeepNamed(cols) == cols
  {
    if cols == [] {
    } else {
      var front, col := cols[..|cols| - 1], cols[|cols| - 1];
      assert cols == front + [col];
      CleanedCols(front);
    }
  }

  lemma {:induction false} UniqCols(cols: seq<string>)
    ensures Distinct(Uniq(cols)) && forall c :: c in Uniq(cols) <==> c in cols
    ensures Distinct(cols) ==> Uniq(cols) == cols
  {
    if cols == [] {
    } else {
      var front, col := cols[..|cols| - 1], cols[|cols| - 1];
      assert cols == front + [col];
      UniqCols(front);
    }
  }

  /** Cleaning always yields valid columns, and changes nothing exactly when they were valid. */
  lemma CleanCols(cols: seq<string>)
    ensures ValidCols(Uniq(KeepNamed(cols)))
    ensures Uniq(KeepNamed(cols)) == cols <==> ValidCols(cols)
    ensures forall c :: c in Uniq(KeepNamed(cols)) <==> c in cols && Named(c)
  {
    CleanedCols(cols);
    UniqCols(KeepNamed(cols));
    var clean := Uniq(KeepNamed(cols));
    forall i | 0 <= i < |clean| ensures Named(clean[i]) {
      assert clean[i] in KeepNamed(cols);
    }
  }

  lemma {:induction false} KeptFrom(cols: seq<string>, i: nat, j: nat) returns (p: nat, q: nat)
    requires i < j < |KeepNamed(cols)|
    ensures p < q < |cols| && cols[p] == KeepNamed(cols)[i] && cols[q] == KeepNamed(cols)[j]
  {
    var front, last := cols[..|cols| - 1], |cols| - 1;
    if j < |KeepNamed(front)| {
      p, q := KeptFrom(front, i, j);
    } else {
      CleanedCols(front);
      assert KeepNamed(front)[i] in KeepNamed(front);
      p :| 0 <= p < last && front[p] == KeepNamed(front)[i];
      q := last;
    }
  }

  /** Of equal columns the first one stays, and the columns that stay keep their order. */
  lemma {:induction false} FirstOnesStay(cols: seq<string>, i: nat, j: nat) returns (p: nat, q: nat)
    requires i < j < |Uniq(cols)|
    ensures p < q < |cols| && cols[p] == Uniq(cols)[i] && cols[q] == Uniq(cols)[j]
    ensures cols[p] !in cols[..p] && cols[q] !in cols[..q]
  {
    var front, last := cols[..|cols| - 1], |cols| - 1;
    if j < |Uniq(front)| {
      p, q := FirstOnesStay(front, i, j);
      assert front[..p] == cols[..p] && front[..q] == cols[..q];
    } else {
      UniqCols(front);
      assert Uniq(front)[i] in Uniq(front);
      p := FirstAt(front, Uniq(front)[i]);
      q := last;
      assert front[..p] == cols[..p];
    }
  }

  lemma {:induction false} FirstAt(cols: seq<string>, col: string) returns (p: nat)
    requires col in cols
    ensures p < |cols| && cols[p] == col && col !in cols[..p]
  {
    var front := cols[..|cols| - 1];
    if col in front {
      p := FirstAt(front, col);
      assert front[..p] == cols[..p];
    } else {
      p := |cols| - 1;
    }
  }

  // ---------- the round trip ----------

  /** A window end that the round trip keeps. */
  predicate Bound(t: Time) { Printable(t) && Aligned(t.inst, t.off) && !IsZero(t) }

  /** Exactly one of a range and two hour-aligned times is given. */
  predicate ValidWindow(r: Request) {
    if r.range == "" then Bound(r.start) && Bound(r.end)
    else r.range != "undefined" && r.start == ZERO && r.end == ZERO
  }

  ghost predicate WellFormed(r: Request) {
    ValidCols(r.cols) && ValidWindow(r) && (r.orderBy != "" ==> OrderCol(r.orderBy) in r.cols)
  }

  /** What reading a printed time yields, before it is cut to the hour. */
  lemma ReadPrinted(t: ZonedTime)
    ensures ParseOrZero(Print(t)) == if Printable(t) then Time(t.inst - t.inst % SECOND, t.off) else ZERO
  {
    ParseInvertsPrint(t);
  }

  lemma CutToHour(t: ZonedTime, read: Time)
    requires read == Time(t.inst - t.inst % SECOND, t.off)
    ensures TruncateHour(read) == TruncateHour(t)
    ensures TruncateHour(t) == t <==> Aligned(t.inst, t.off)
    ensures Aligned(t.inst, t.off) ==> read == t
  {
    SecondsWithinHour(t);
    TruncateHourFixed(t);
  }

  lemma TruncateHourFixed(t: Time)
    ensures TruncateHour(t) == t <==> Aligned(t.inst, t.off)
  {
  }

  lemma SecondsWithinHour(t: Time)
    ensures TruncateHour(Time(t.inst - t.inst % SECOND, t.off)) == TruncateHour(t)
    ensures Aligned(t.inst, t.off) ==> t.inst % SECOND == 0
  {
    var r := TruncateHour(t).inst;
    AlignedIsWholeSecond(r, t.off);
    assert r <= t.inst - t.inst % SECOND;
    TruncateHourUnique(Time(t.inst - t.inst % SECOND, t.off), r);
    if Aligned(t.inst, t.off) {
      AlignedIsWholeSecond(t.inst, t.off);
    }
  }

  lemma AlignedIsWholeSecond(inst: int, off: int)
    requires Aligned(inst, off)
    ensures inst % SECOND == 0
  {
    var hours := (inst + off * SECOND) / HOUR;
    assert inst == SECOND * (3600 * hours - off);
  }

  lemma KeysDiffer()
    ensures "col" != "end" && "range" != "start"
    ensures |"col"| == |"end"| == 3 && |"range"| == |"start"| == 5 && |"orderby"| == 7
  {
    assert "col"[0] != "end"[0] && "range"[0] != "start"[0];
  }

  lemma WrittenValues(r: Request, start: string, end: string)
    ensures
      var v := Written(r, start, end);
      && "col" in v && v["col"] == r.cols
      && Get(v, "range") == r.range
      && Get(v, "start") == (if r.range == "" then start else "")
      && Get(v, "end") == (if r.range == "" then end else "")
      && Get(v, "orderby") == (if Ordered(r) then r.orderBy else "")
  {
    KeysDiffer();
  }

  lemma NothingToRead()
    ensures ParseOrZero("") == ZERO
  {
  }

  /** The time prints in the grammar, and not as the zero time. */
  predicate IsWritable(t: ZonedTime) { Printable(t) && !(0 <= t.inst < SECOND) }

  lemma WholeSecondZero(inst: int)
    ensures inst - inst % SECOND == 0 <==> 0 <= inst < SECOND
  {
  }

  lemma ReadTime(t: ZonedTime)
    ensures !IsZero(ParseOrZero(TimeText(t))) <==> IsWritable(t)
    ensures IsWritable(t) ==> TruncateHour(ParseOrZero(TimeText(t))) == TruncateHour(t)
  {
    if IsZero(t) {
      NothingToRead();
    } else {
      ReadPrinted(t);
      WholeSecondZero(t.inst);
      CutToHour(t, Time(t.inst - t.inst % SECOND, t.off));
    }
  }

  /** Following a link: its target is written to the URL and read from it. */
  function Click(target: Request): Request { Unmarshal(ToValues(target)) }

  /** What a click makes of its target, field by field. */
  lemma ClickOf(target: Request)
    ensures Click(target).cols == Uniq(KeepNamed(target.cols))
    ensures Click(target).orderBy == if Ordered(target) then target.orderBy else ""
    ensures target.range == "" && IsWritable(target.start) && IsWritable(target.end) ==>
      && Click(target).range == ""
      && Click(target).start == TruncateHour(target.start)
      && Click(target).end == TruncateHour(target.end)
    ensures target.range == "" && !(IsWritable(target.start) && IsWritable(target.end)) ==>
      Click(target).range == "24h" && Click(target).start == ZERO && Click(target).end == ZERO
    ensures target.range != "" ==>
      && Click(target).range == (if target.range == "undefined" then "24h" else target.range)
      && Click(target).start == ZERO && Click(target).end == ZERO
  {
    WrittenValues(target, TimeText(target.start), TimeText(target.end));
    NothingToRead();
    ReadTime(target.start);
    ReadTime(target.end);
    hide TimeText, ParseOrZero, Written, Ordered, IsWritable, Uniq, KeepNamed, TruncateHour;
  }

  lemma BoundIsFixed(t: ZonedTime)
    ensures Bound(t) <==> IsWritable(t) && TruncateHour(t) == t
  {
    TruncateHourFixed(t);
    if Aligned(t.inst, t.off) {
      AlignedIsWholeSecond(t.inst, t.off);
    }
  }

  /** The round trip through the URL is the identity on exactly the well-formed requests. */
  lemma RoundTrip(r: Request)
    ensures Unmarshal(ToValues(r)) == r <==> WellFormed(r)
  {
    ClickOf(r);
    CleanCols(r.cols);
    BoundIsFixed(r.start);
    BoundIsFixed(r.end);
    assert Click(r) == Unmarshal(ToValues(r));
    hide Click, Unmarshal, ToValues, Uniq, KeepNamed, ValidCols, Bound, IsWritable, TruncateHour;
    assert Click(r) == r <==>
      && Click(r).cols == r.cols && Click(r).orderBy == r.orderBy && Click(r).range == r.range
      && Click(r).start == r.start && Click(r).end == r.end;
  }
}
