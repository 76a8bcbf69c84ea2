/** The compilation of a workload request to a grouped query over `cost_hourly`. */
module WorkloadQuery {
  import opened Clock
  import opened Wrappers

  /** `queries.Cols`: the columns the page knows, in the order in which they are shown. */
  const COLS: seq<string> := [
    "timestamp", "date", "cluster", "namespace", "controller_kind", "controller_name", "name", "node_name",
    "request_cpu_core_hours", "used_cpu_core_hours", "request_memory_gb_hours", "used_memory_gb_hours",
    "request_storage_gb_hours", "hours", "cpu_cost", "memory_cost", "storage_cost", "total_cost"
  ]

  /** The columns that rows are grouped by; the others are aggregates. */
  const GROUPING: set<string> := {
    "timestamp", "date", "cluster", "namespace", "controller_kind", "controller_name", "name", "node_name"
  }

  const LABEL_PREFIX := "label_"

  datatype AggRequest = AggRequest(cols: seq<string>, orderBy: string, start: Time, end: Time)

  /** A selected column under its own name, or a label under the name of the requested column. */
  datatype Selected = Column(col: string) | LabelColumn(tag: string, alias: string)

  /** A grouping expression: a column's expression, or a label of the pod. */
  datatype Grouped = ByColumn(col: string) | ByLabel(tag: string)

  datatype Query = Query(select: seq<Selected>, groupBy: seq<Grouped>, start: int, end: int, orderBy: string)

  datatype CompileError = StartAfterEnd | InvalidLabel(tag: string) | NothingSelected

  predicate IsLabel(col: string) { LABEL_PREFIX <= col }

  function LabelOf(col: string): string
    requires IsLabel(col)
  {
    col[|LABEL_PREFIX|..]
  }

  predicate Alphanumeric(c: char) { 'a' <= c <= 'z' || 'A' <= c <= 'Z' || '0' <= c <= '9' }

  /** The label pattern: letters, digits, `-`, `_`, `.`, a letter or digit at both ends, two characters or more. */
  predicate ValidLabel(s: string) {
    && |s| >= 2
    && Alphanumeric(s[0]) && Alphanumeric(s[|s| - 1])
    && forall i :: 0 <= i < |s| ==> Alphanumeric(s[i]) || s[i] == '-' || s[i] == '_' || s[i] == '.'
  }

  // ---------- the query that is meant ----------

  /** The known columns among `cs` that are requested. */
  function Base(cs: seq<string>, req: seq<string>): seq<Selected> {
    if cs == [] then []
    else
      var front, c := Base(cs[..|cs| - 1], req), cs[|cs| - 1];
      if c in req then front + [Column(c)] else front
  }

  /** The requested labels, in the order of the request. */
  function Labels(req: seq<string>): seq<Selected> {
    if req == [] then []
    else
      var front, c := Labels(req[..|req| - 1]), req[|req| - 1];
      if IsLabel(c) then front + [LabelColumn(LabelOf(c), c)] else front
  }

  predicate IsGrouping(s: Selected) { s.LabelColumn? || s.col in GROUPING }

  function GroupedBy(s: Selected): Grouped { if s.LabelColumn? then ByLabel(s.tag) else ByColumn(s.col) }

  /** Exactly the selected columns that are no aggregates, in the order of the selection. */
  function Grouping(select: seq<Selected>): seq<Grouped> {
    if select == [] then []
    else
      var front, s := Grouping(select[..|select| - 1]), select[|select| - 1];
      if IsGrouping(s) then front + [GroupedBy(s)] else front
  }

  predicate BadLabel(col: string) { IsLabel(col) && !ValidLabel(LabelOf(col)) }

  /** The first requested label that does not match the pattern. */
  function FirstBadLabel(req: seq<string>): Option<string> {
    if req == [] then None
    else
      var before, c := FirstBadLabel(req[..|req| - 1]), req[|req| - 1];
      if before.None? && BadLabel(c) then Some(LabelOf(c)) else before
  }

  function Compile(req: AggRequest): Result<Query, CompileError> {
    var select := Base(COLS, req.cols) + Labels(req.cols);
    if req.start.inst > req.end.inst then Err(StartAfterEnd)
    else if FirstBadLabel(req.cols).Some? then Err(InvalidLabel(FirstBadLabel(req.cols).value))
    else if select == [] then Err(NothingSelected)
    else Ok(Query(select, Grouping(select), req.start.inst, req.end.inst, req.orderBy))
  }

  // ---------- the loops that build it ----------

  method WorkloadQuery(req: AggRequest) returns (res: Result<Query, CompileError>)
    ensures res == Compile(req)
  {
    if req.start.inst > req.end.inst {
      return Err(StartAfterEnd);
    }
    var selectStmts, groupByStmts := SelectKnown(COLS, req.cols);
    var bad: Option<string>;
    selectStmts, groupByStmts, bad := SelectLabels(selectStmts, groupByStmts, req.cols);
    if bad.Some? {
      return Err(InvalidLabel(bad.value));
    }
    if selectStmts == [] {
      return Err(NothingSelected);
    }
    res := Ok(Query(selectStmts, groupByStmts, req.start.inst, req.end.inst, req.orderBy));
  }

  method SelectKnown(cs: seq<string>, req: seq<string>) returns (selectStmts: seq<Selected>, groupByStmts: seq<Grouped>)
    ensures selectStmts == Base(cs, req) && groupByStmts == Grouping(selectStmts)
  {
    selectStmts, groupByStmts := [], [];
    var i := 0;
    while i < |cs|
      invariant 0 <= i <= |cs|
      invariant selectStmts == Base(cs[..i], req) && groupByStmts == Grouping(selectStmts)
    {
      var c := cs[i];
      assert cs[..i + 1][..i] == cs[..i];
      if c in req {
        GroupingStep(selectStmts, Column(c));
        selectStmts := selectStmts + [Column(c)];
        if c in GROUPING {
          groupByStmts := groupByStmts + [ByColumn(c)];
        }
      }
      i := i + 1;
    }
    assert cs[..i] == cs;
  }

  /** Appends the requested labels, stopping at the first that does not match the pattern. */
  method SelectLabels(base: seq<Selected>, baseGroups: seq<Grouped>, req: seq<string>)
    returns (selectStmts: seq<Selected>, groupByStmts: seq<Grouped>, bad: Option<string>)
    requires baseGroups == Grouping(base)
    ensures bad == FirstBadLabel(req)
    ensures bad.None? ==> selectStmts == base + Labels(req) && groupByStmts == Grouping(selectStmts)
  {
    selectStmts, groupByStmts, bad := base, baseGroups, None;
    var i := 0;
    while i < |req|
      invariant 0 <= i <= |req|
      invariant bad.None? && FirstBadLabel(req[..i]).None?
      invariant selectStmts == base + Labels(req[..i]) && groupByStmts == Grouping(selectStmts)
    {
      var c := req[i];
      assert req[..i + 1][..i] == req[..i];
      i := i + 1;
      if !IsLabel(c) {
        continue;
      }
      var tag := LabelOf(c);
      if !ValidLabel(tag) {
        FirstBadLabelStays(req, i);
        bad := Some(tag);
        return;
      }
      GroupingStep(selectStmts, LabelColumn(tag, c));
      selectStmts := selectStmts + [LabelColumn(tag, c)];
      groupByStmts := groupByStmts + [ByLabel(tag)];
    }
    assert req[..i] == req;
  }

  lemma GroupingStep(select: seq<Selected>, s: Selected)
    ensures Grouping(select + [s]) == Grouping(select) + if IsGrouping(s) then [GroupedBy(s)] else []
  {
    assert (select + [s])[..|select|] == select;
  }

  lemma {:induction false} FirstBadLabelStays(req: seq<string>, n: nat)
    requires n <= |req| && FirstBadLabel(req[..n]).Some?
    ensures FirstBadLabel(req) == FirstBadLabel(req[..n])
    decreases |req|
  {
    if n == |req| {
      assert req[..n] == req;
    } else {
      assert req[..|req| - 1][..n] == req[..n];
      FirstBadLabelStays(req[..|req| - 1], n);
    }
  }

  // ---------- what the query promises ----------

  lemma {:induction false} BadLabelFound(req: seq<string>)
    ensures FirstBadLabel(req).Some? <==> exists i :: 0 <= i < |req| && BadLabel(req[i])
  {
    if req == [] {
    } else {
      BadLabelFound(req[..|req| - 1]);
    }
  }

  lemma {:induction false} BaseMembers(cs: seq<string>, req: seq<string>)
    ensures forall s :: s in Base(cs, req) <==> s.Column? && s.col in cs && s.col in req
  {
    if cs == [] {
    } else {
      BaseMembers(cs[..|cs| - 1], req);
      assert cs == cs[..|cs| - 1] + [cs[|cs| - 1]];
    }
  }

  /** The known columns are selected in the order in which they are listed. */
  lemma {:induction false} BaseFollowsOrder(cs: seq<string>, req: seq<string>, i: nat, j: nat) returns (p: nat, q: nat)
    requires i < j < |Base(cs, req)|
    ensures p < q < |cs| && Base(cs, req)[i] == Column(cs[p]) && Base(cs, req)[j] == Column(cs[q])
  {
    var front, last := cs[..|cs| - 1], |cs| - 1;
    if j < |Base(front, req)| {
      p, q := BaseFollowsOrder(front, req, i, j);
    } else {
      BaseMembers(front, req);
      assert Base(front, req)[i] in Base(front, req);
      p :| 0 <= p < last && cs[p] == Base(front, req)[i].col;
      q := last;
    }
  }

  lemma {:induction false} LabelMembers(req: seq<string>)
    ensures forall s :: s in Labels(req) <==>
      s.LabelColumn? && s.alias in req && IsLabel(s.alias) && s.tag == LabelOf(s.alias)
  {
    if req == [] {
    } else {
      LabelMembers(req[..|req| - 1]);
      assert req == req[..|req| - 1] + [req[|req| - 1]];
    }
  }

  /** Each label is selected where the request has it, as often as the request has it. */
  lemma {:induction false} LabelsFollowRequest(a: seq<string>, b: seq<string>)
    ensures Labels(a + b) == Labels(a) + Labels(b)
    ensures |a| == 1 ==> Labels(a) == if IsLabel(a[0]) then [LabelColumn(a[0][6..], a[0])] else []
  {
    assert |LABEL_PREFIX| == 6;
    assert |a| == 1 ==> a[..0] == [] && Labels(a[..0]) == [];
    if b == [] {
      assert a + b == a;
    } else {
      LabelsFollowRequest(a, b[..|b| - 1]);
      assert (a + b)[..|a + b| - 1] == a + b[..|b| - 1];
    }
  }

  /** The grouping expressions are those of the selected columns that are no aggregates, in their places. */
  lemma {:induction false} GroupingFollowsSelect(a: seq<Selected>, b: seq<Selected>)
    ensures Grouping(a + b) == Grouping(a) + Grouping(b)
    ensures |a| == 1 && a[0].Column? ==> Grouping(a) == if a[0].col in GROUPING then [ByColumn(a[0].col)] else []
    ensures |a| == 1 && a[0].LabelColumn? ==> Grouping(a) == [ByLabel(a[0].tag)]
  {
    assert |a| == 1 ==> a[..0] == [] && Grouping(a[..0]) == [];
    if b == [] {
      assert a + b == a;
    } else {
      GroupingFollowsSelect(a, b[..|b| - 1]);
      assert (a + b)[..|a + b| - 1] == a + b[..|b| - 1];
    }
  }

  /** Labels of at least two characters, without slashes; labels with a prefix before a slash cannot be asked for. */
  lemma LabelPattern()
    ensures ValidLabel("app") && ValidLabel("app.kubernetes.io") && ValidLabel("A-1_b")
    ensures !ValidLabel("") && !ValidLabel("a") && !ValidLabel("-a") && !ValidLabel("a.") && !ValidLabel("a b")
    ensures !ValidLabel("app.kubernetes.io/name")
    ensures IsLabel("label_app") && LabelOf("label_app") == "app" && !IsLabel("label-app") && !IsLabel("label")
  {
    assert "label_app"[6..] == "app" && "label-app"[5] == '-' && LABEL_PREFIX[5] == '_';
    assert "app.kubernetes.io/name"[17] == '/';
    assert "a b"[1] == ' ';
  }

  predicate Recognised(col: string) { col in COLS || IsLabel(col) }

  /**
   A request fails to compile exactly when its window is reversed, a label is malformed, or nothing is recognised;
   the first of these that holds is the error, and of the malformed labels the first one is named.
   */
  lemma CompileFails(req: AggRequest)
    ensures Compile(req) == Err(StartAfterEnd) <==> req.start.inst > req.end.inst
    ensures forall i :: 0 <= i < |req.cols| && IsFirstBad(req.cols, i) ==>
      req.start.inst > req.end.inst || Compile(req) == Err(InvalidLabel(LabelOf(req.cols[i])))
    ensures Compile(req).Err? <==>
      || req.start.inst > req.end.inst
      || (exists i :: 0 <= i < |req.cols| && BadLabel(req.cols[i]))
      || !(exists i :: 0 <= i < |req.cols| && Recognised(req.cols[i]))
  {
    BadLabelFound(req.cols);
    forall i | 0 <= i < |req.cols| && IsFirstBad(req.cols, i)
      ensures FirstBadLabel(req.cols) == Some(LabelOf(req.cols[i]))
    {
      FirstBadLabelAt(req.cols, i);
    }
    BaseMembers(COLS, req.cols);
    LabelMembers(req.cols);
    var select := Base(COLS, req.cols) + Labels(req.cols);
    forall i | 0 <= i < |req.cols| && Recognised(req.cols[i]) ensures select != [] {
      var c := req.cols[i];
      var s := if c in COLS then Column(c) else LabelColumn(LabelOf(c), c);
      assert s in Base(COLS, req.cols) || s in Labels(req.cols);
    }
    if select != [] {
      assert select[0] in select;
      var c := if select[0].Column? then select[0].col else select[0].alias;
      assert c in req.cols;
      var i :| 0 <= i < |req.cols| && req.cols[i] == c;
      assert Recognised(req.cols[i]);
    }
  }

  lemma {:induction false} FirstBadLabelAt(req: seq<string>, i: nat)
    requires i < |req| && IsFirstBad(req, i)
    ensures FirstBadLabel(req) == Some(LabelOf(req[i]))
  {
    var n := |req| - 1;
    if i == n {
      BadLabelFound(req[..n]);
    } else {
      FirstBadLabelAt(req[..n], i);
    }
  }

  ghost predicate IsFirstBad(req: seq<string>, i: int)
    requires 0 <= i < |req|
  {
    BadLabel(req[i]) && forall j :: 0 <= j < i ==> !BadLabel(req[j])
  }

  /** Every label that reaches the query text matches the pattern, so it holds no quote. */
  lemma LabelsAreSafe(req: AggRequest)
    requires Compile(req).Ok?
    ensures forall s :: s in Compile(req).value.select && s.LabelColumn? ==> ValidLabel(s.tag) && '\'' !in s.tag
  {
    BadLabelFound(req.cols);
    BaseMembers(COLS, req.cols);
    LabelMembers(req.cols);
    forall s | s in Compile(req).value.select && s.LabelColumn? ensures ValidLabel(s.tag) && '\'' !in s.tag {
      assert s in Labels(req.cols);
      var i :| 0 <= i < |req.cols| && req.cols[i] == s.alias;
      assert !BadLabel(req.cols[i]);
    }
  }

  /** The known columns of a query depend only on which of them are requested, not on order or repetition. */
  lemma {:induction false} BaseDependsOnSet(cs: seq<string>, a: seq<string>, b: seq<string>)
    requires forall c :: c in cs ==> (c in a <==> c in b)
    ensures Base(cs, a) == Base(cs, b)
  {
    if cs == [] {
    } else {
      assert cs[|cs| - 1] in cs;
      assert forall c :: c in cs[..|cs| - 1] ==> c in cs;
      BaseDependsOnSet(cs[..|cs| - 1], a, b);
    }
  }

  /** Two requests for the same known columns and the same labels in the same order compile to the same query. */
  lemma SameColumnsSameQuery(a: AggRequest, b: AggRequest)
    requires forall c :: c in COLS ==> (c in a.cols <==> c in b.cols)
    requires Labels(a.cols) == Labels(b.cols)
    requires a.start == b.start && a.end == b.end && a.orderBy == b.orderBy
    requires Compile(a).Ok? && Compile(b).Ok?
    ensures Compile(a) == Compile(b)
  {
    BaseDependsOnSet(COLS, a.cols, b.cols);
  }

  /** No known column looks like a label. */
  lemma ColsAreNoLabels(c: string)
    requires c in COLS
    ensures !IsLabel(c)
  {
    assert LABEL_PREFIX[0] == 'l';
    assert forall i :: 0 <= i < |COLS| ==> COLS[i] != [] && COLS[i][0] != 'l';
  }
}
