/**
 From a URL to what the page shows: which fields of the URL a request takes, which window and order its query has,
 and which rows are added up.
 */
module Page {
  import opened Calendar
  import opened Clock
  import opened Grouping
  import opened Links
  import opened Rfc3339
  import opened Rfc3339Grammar
  import opened SampleTimes
  import opened Sums
  import opened WorkloadQuery
  import opened WorkloadRequest
  import opened Wrappers

  // ---------- reading a URL ----------

  /** The first value of a key counts; a missing or empty one is the empty text. */
  lemma FirstValueCounts(v: Values, first: string, rest: seq<string>)
    ensures Unmarshal(v["orderby" := [first] + rest]).orderBy == first
    ensures Unmarshal(v - {"orderby"}).orderBy == Unmarshal(v["orderby" := []]).orderBy == ""
  {
    hide Parse, ParseOrZero, TruncateHour, KeepNamed, Uniq;
  }

  /** A named range is taken over, whatever times the URL has; an undefined one counts as none. */
  lemma RangeIsRead(v: Values)
    requires "range" in v && v["range"] != []
    ensures
      var r := Unmarshal(v);
      && (v["range"][0] != "" && v["range"][0] != "undefined" ==>
            r.range == v["range"][0] && r.start == r.end == ZERO)
      && (v["range"][0] == "" || v["range"][0] == "undefined" ==> r == Unmarshal(v - {"range"}))
  {
    hide Parse, ParseOrZero, TruncateHour, KeepNamed, Uniq;
    var w := v - {"range"};
    RequestKeys();
    assert Get(w, "start") == Get(v, "start") && Get(w, "end") == Get(v, "end");
    assert Get(w, "orderby") == Get(v, "orderby");
    assert "col" in v <==> "col" in w;
  }

  lemma RequestKeys()
    ensures "col" != "range" && "start" != "range" && "end" != "range" && "orderby" != "range"
  {
    assert "start"[0] != "range"[0];
    assert |"col"| == |"end"| == 3 && |"range"| == 5 && |"orderby"| == 7;
  }

  /** The local hour of a text of the grammar: its date and hour, in its zone. */
  function HourOf(c: Civil, z: Zone): Time
    requires InYears(c) && ValidZone(z)
  {
    Time((ToSeconds(c.(minute := 0, second := 0)) - ZoneSeconds(z)) * SECOND, ZoneSeconds(z))
  }

  lemma DenotedHour(c: Civil, f: string, z: Zone)
    requires InYears(c) && AllDigits(f) && ValidZone(z)
    ensures TruncateHour(Denoted(c, f, z)) == HourOf(c, z)
  {
    var t := Denoted(c, f, z);
    NanosValue(f, 9);
    PowersOfTen();
    assert 0 <= NumberOf(Padded(f, 9)) < SECOND;
    HourBegins(c);
    CutDenoted(ToSeconds(c), ZoneSeconds(z), NumberOf(Padded(f, 9)));
  }

  lemma HourBegins(c: Civil)
    requires InYears(c)
    ensures ToSeconds(c.(minute := 0, second := 0)) == ToSeconds(c) - ToSeconds(c) % 3600
  {
    DayAndHour(c);
  }

  lemma CutDenoted(local: int, off: int, nanos: int)
    requires 0 <= nanos < SECOND
    ensures TruncateHour(Time((local - off) * SECOND + nanos, off)) ==
      Time((local - local % 3600 - off) * SECOND, off)
  {
    var hours := local / 3600;
    assert (local - local % 3600 - off) * SECOND + off * SECOND == HOUR * hours;
    TruncateHourUnique(Time((local - off) * SECOND + nanos, off), (local - local % 3600 - off) * SECOND);
  }

  /**
   Two texts of the grammar, with or without fractions and in any zones, and no range: the request is for the window
   between exactly their hours, unless one of them is the zero time.
   */
  lemma PickedWindow(v: Values, c: Civil, f: string, z: Zone, c': Civil, f': string, z': Zone)
    requires IsText(Get(v, "start"), c, f, z) && IsText(Get(v, "end"), c', f', z')
    requires Get(v, "range") == "" || Get(v, "range") == "undefined"
    ensures
      var r := Unmarshal(v);
      if Denoted(c, f, z).inst != 0 && Denoted(c', f', z').inst != 0 then
        r.range == "" && r.start == HourOf(c, z) && r.end == HourOf(c', z')
      else r.range == "24h" && r.start == r.end == ZERO
  {
    var t, t' := Denoted(c, f, z), Denoted(c', f', z');
    ParseReadsGrammar(Get(v, "start"));
    ParseReadsGrammar(Get(v, "end"));
    DenotedHour(c, f, z);
    DenotedHour(c', f', z');
    hide *;
    TimesRead(v, t, t');
  }

  lemma TimesRead(v: Values, t: Time, t': Time)
    requires Parse(Get(v, "start")) == Some(t) && Parse(Get(v, "end")) == Some(t')
    requires Get(v, "range") == "" || Get(v, "range") == "undefined"
    ensures
      var r := Unmarshal(v);
      if t.inst != 0 && t'.inst != 0 then r.range == "" && r.start == TruncateHour(t) && r.end == TruncateHour(t')
      else r.range == "24h" && r.start == r.end == ZERO
  {
    hide Parse, TruncateHour, KeepNamed, Uniq, Get;
  }

  /** Without a range, and with a time that is no text of the grammar, the request is for the last 24 hours. */
  lemma UnreadableWindow(v: Values)
    requires Get(v, "range") == "" || Get(v, "range") == "undefined"
    requires
      || !(exists c, f, z :: IsText(Get(v, "start"), c, f, z))
      || !(exists c, f, z :: IsText(Get(v, "end"), c, f, z))
    ensures Unmarshal(v).range == "24h" && Unmarshal(v).start == Unmarshal(v).end == ZERO
  {
    ParseReadsGrammar(Get(v, "start"));
    ParseReadsGrammar(Get(v, "end"));
    hide Parse, TruncateHour, KeepNamed, Uniq, Get;
  }

  // ---------- the rows that are shown ----------

  /** The window of a request at the moment of its query. */
  function WindowOf(r: Request, env: Env): (int, int) {
    if r.range == "" then (r.start.inst, r.end.inst)
    else
      var end := env.now - env.now % HOUR;
      (if env.duration(r.range).Some? then end - env.duration(r.range).value else end, end)
  }

  /** A request with a valid window is refused exactly for a range that cannot be read, and else asks for its window. */
  lemma QueryOf(r: Request, env: Env)
    requires ValidWindow(r)
    ensures ToQuery(r, env).Ok? <==> r.range == "" || env.duration(r.range).Some?
    ensures ToQuery(r, env).Ok? ==>
      var req := ToQuery(r, env).value;
      && req.cols == r.cols && req.orderBy == r.orderBy
      && (req.start.inst, req.end.inst) == WindowOf(r, env)
  {
  }

  /**
   From a URL whose times avoid the zero hour to the page: the sums shown add up to the measures of just the rows in
   the request's window, and the order clause is the URL's own.
   */
  lemma PageShows(v: Values, env: Env, rows: seq<CostRow>, col: string)
    requires !InZeroHour(v)
    requires ToQuery(Unmarshal(v), env).Ok? && Compile(ToQuery(Unmarshal(v), env).value).Ok?
    ensures
      var req := ToQuery(Unmarshal(v), env).value;
      var q, window := Compile(req).value, WindowOf(Unmarshal(v), env);
      && req.start.inst == window.0 && req.end.inst == window.1
      && SumOfGroups(q, rows, Groups(q, rows), col) == Weight(rows, InRequest(req, col))
      && q.orderBy == Get(v, "orderby")
      && q.select == Base(COLS, Unmarshal(v).cols) + Labels(Unmarshal(v).cols)
  {
    UnmarshalIsValid(v);
    QueryOf(Unmarshal(v), env);
    hide InRequest, Groups, SumOfGroups, Base, Labels, FirstBadLabel, ToQuery, WindowOf, ParseOrZero, KeepNamed, Uniq;
    RequestConserves(ToQuery(Unmarshal(v), env).value, rows, col);
  }
}
