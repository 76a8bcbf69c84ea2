/**
 What a compiled query returns: rows of `cost_hourly` inside the window, grouped and summed.  Whatever the
 columns, grouping shares out the total of the window.
 */
module Grouping {
  import opened Clock
  import opened Sums
  import opened WorkloadQuery
  import opened Wrappers

  /** One row of the view: its hour, its dimensions and labels (absent when NULL), and its measures. */
  datatype CostRow = CostRow(
    timestamp: int, fields: map<string, string>, labels: map<string, string>,
    hours: real, requestCpu: real, usedCpu: real, requestMemory: real, usedMemory: real, requestStorage: real,
    cpuCost: real, memoryCost: real, storageCost: real)

  /** The values of the grouping expressions. */
  type GroupKey = seq<Option<string>>

  function ValueOf(row: CostRow, e: Grouped): Option<string> {
    match e
    case ByColumn(c) => if c in row.fields then Some(row.fields[c]) else None
    case ByLabel(l) => if l in row.labels then Some(row.labels[l]) else None
  }

  function KeyBy(groupBy: seq<Grouped>): CostRow -> GroupKey {
    (row: CostRow) => seq(|groupBy|, i requires 0 <= i < |groupBy| => ValueOf(row, groupBy[i]))
  }

  /** The expression summed by an aggregate column, for one row. */
  function Measure(row: CostRow, col: string): real {
    if col == "request_cpu_core_hours" then row.requestCpu * row.hours
    else if col == "used_cpu_core_hours" then row.usedCpu * row.hours
    else if col == "request_memory_gb_hours" then row.requestMemory * row.hours
    else if col == "used_memory_gb_hours" then row.usedMemory * row.hours
    else if col == "request_storage_gb_hours" then row.requestStorage * row.hours
    else if col == "hours" then row.hours
    else if col == "cpu_cost" then row.cpuCost
    else if col == "memory_cost" then row.memoryCost
    else if col == "storage_cost" then row.storageCost
    else if col == "total_cost" then row.memoryCost + row.cpuCost + row.storageCost
    else 0.0
  }

  function MeasureOf(col: string): CostRow -> real { (row: CostRow) => Measure(row, col) }

  /** The rows that the WHERE clause keeps. */
  function Windowed(rows: seq<CostRow>, start: int, end: int): seq<CostRow> {
    if rows == [] then []
    else
      var front, row := Windowed(rows[..|rows| - 1], start, end), rows[|rows| - 1];
      if InWindow(row.timestamp, start, end) then front + [row] else front
  }

  /** The measure of a row inside the window, and nothing outside. */
  function MeasureIn(col: string, start: int, end: int): CostRow -> real {
    (row: CostRow) => if InWindow(row.timestamp, start, end) then Measure(row, col) else 0.0
  }

  /** The keys that occur, each once, in the order in which they are met. */
  function Keys<T, K(==)>(rows: seq<T>, key: T -> K): seq<K> {
    if rows == [] then []
    else
      var front, k := Keys(rows[..|rows| - 1], key), key(rows[|rows| - 1]);
      if k in front then front else front + [k]
  }

  lemma {:induction false} KeysCover<T, K>(rows: seq<T>, key: T -> K)
    ensures Distinct(Keys(rows, key))
    ensures forall i :: 0 <= i < |rows| ==> key(rows[i]) in Keys(rows, key)
  {
    if rows == [] {
    } else {
      KeysCover(rows[..|rows| - 1], key);
    }
  }

  /** One result row for each group; without a grouping expression there is one group, even for no rows. */
  function Groups(q: Query, rows: seq<CostRow>): seq<GroupKey> {
    if q.groupBy == [] then [[]] else Keys(Windowed(rows, q.start, q.end), KeyBy(q.groupBy))
  }

  /** Some row in the window belongs to group `k`. */
  ghost predicate HasRow(q: Query, rows: seq<CostRow>, k: GroupKey) {
    var kept := Windowed(rows, q.start, q.end);
    exists i :: 0 <= i < |kept| && KeyBy(q.groupBy)(kept[i]) == k
  }

  /**
   The result has one row for each group: every row in the window belongs to one, and each but the only group of a
   query without grouping columns has such a row.
   */
  lemma ResultRows(q: Query, rows: seq<CostRow>)
    ensures Distinct(Groups(q, rows)) && (q.groupBy == [] ==> |Groups(q, rows)| == 1)
    ensures forall k :: HasRow(q, rows, k) ==> k in Groups(q, rows)
    ensures q.groupBy != [] ==> forall k :: k in Groups(q, rows) ==> HasRow(q, rows, k)
  {
    var kept, key := Windowed(rows, q.start, q.end), KeyBy(q.groupBy);
    KeysCover(kept, key);
    if q.groupBy == [] {
      assert forall row :: key(row) == [];
    } else {
      forall k | k in Groups(q, rows) ensures HasRow(q, rows, k) {
        var i := KeysOccur(kept, key, k);
      }
    }
  }

  /** The unrounded sum shown for a group under an aggregate column. */
  function GroupSum(q: Query, rows: seq<CostRow>, k: GroupKey, col: string): real {
    KeyWeight(Windowed(rows, q.start, q.end), KeyBy(q.groupBy), MeasureOf(col), k)
  }

  function SumOfGroups(q: Query, rows: seq<CostRow>, groups: seq<GroupKey>, col: string): real {
    if groups == [] then 0.0
    else SumOfGroups(q, rows, groups[..|groups| - 1], col) + GroupSum(q, rows, groups[|groups| - 1], col)
  }

  lemma {:induction false} SumOfGroupsIsSumOverKeys(q: Query, rows: seq<CostRow>, groups: seq<GroupKey>, col: string)
    ensures SumOfGroups(q, rows, groups, col) ==
      SumOverKeys(groups, Windowed(rows, q.start, q.end), KeyBy(q.groupBy), MeasureOf(col))
  {
    if groups == [] {
    } else {
      SumOfGroupsIsSumOverKeys(q, rows, groups[..|groups| - 1], col);
    }
  }

  lemma {:induction false} WindowTotal(rows: seq<CostRow>, start: int, end: int, col: string)
    ensures Weight(Windowed(rows, start, end), MeasureOf(col)) == Weight(rows, MeasureIn(col, start, end))
  {
    if rows == [] {
    } else {
      var front, row := rows[..|rows| - 1], rows[|rows| - 1];
      WindowTotal(front, start, end, col);
      var kept := Windowed(front, start, end);
      assert (kept + [row])[..|kept|] == kept;
    }
  }

  /** The group sums of any query add up to the total of the rows in its window. */
  lemma GroupingConserves(q: Query, rows: seq<CostRow>, col: string)
    ensures SumOfGroups(q, rows, Groups(q, rows), col) == Weight(rows, MeasureIn(col, q.start, q.end))
  {
    var kept, key := Windowed(rows, q.start, q.end), KeyBy(q.groupBy);
    SumOfGroupsIsSumOverKeys(q, rows, Groups(q, rows), col);
    WindowTotal(rows, q.start, q.end, col);
    KeysCover(kept, key);
    if q.groupBy == [] {
      assert forall row :: key(row) == [];
    }
    Conservation(Groups(q, rows), kept, key, MeasureOf(col));
  }

  /** The measure of a row that the request's window holds, and nothing outside. */
  function InRequest(req: AggRequest, col: string): CostRow -> real {
    (row: CostRow) => if req.start.inst <= row.timestamp < req.end.inst then Measure(row, col) else 0.0
  }

  lemma {:induction false} SameWeight<T>(rows: seq<T>, v: T -> real, w: T -> real)
    requires forall i :: 0 <= i < |rows| ==> v(rows[i]) == w(rows[i])
    ensures Weight(rows, v) == Weight(rows, w)
  {
    if rows == [] {
    } else {
      SameWeight(rows[..|rows| - 1], v, w);
    }
  }

  /** The sums shown for a request add up to the measures of just the rows from its start up to its end. */
  lemma RequestConserves(req: AggRequest, rows: seq<CostRow>, col: string)
    requires Compile(req).Ok?
    ensures
      var q := Compile(req).value;
      SumOfGroups(q, rows, Groups(q, rows), col) == Weight(rows, InRequest(req, col))
  {
    var q := Compile(req).value;
    GroupingConserves(q, rows, col);
    SameWeight(rows, MeasureIn(col, q.start, q.end), InRequest(req, col));
  }

  // ---------- what the columns stand for ----------

  /** The known columns are eight to group by, and after them ten aggregates. */
  lemma ColumnsSplit(i: nat)
    requires i < |COLS|
    ensures COLS[i] in GROUPING <==> i < 8
    ensures |COLS| == 18
  {
  }

  predicate SameField(a: CostRow, b: CostRow, col: string) {
    (col in a.fields <==> col in b.fields) && (col in a.fields ==> a.fields[col] == b.fields[col])
  }

  predicate SameLabel(a: CostRow, b: CostRow, tag: string) {
    (tag in a.labels <==> tag in b.labels) && (tag in a.labels ==> a.labels[tag] == b.labels[tag])
  }

  /** The rows agree on every requested grouping column and label. */
  ghost predicate Agree(req: seq<string>, a: CostRow, b: CostRow) {
    && (forall c :: c in req && c in COLS[..8] ==> SameField(a, b, c))
    && (forall c :: c in req && IsLabel(c) ==> SameLabel(a, b, LabelOf(c)))
  }

  /** Two rows fall into one group if and only if they agree on every requested grouping column and label. */
  lemma GroupedAlike(req: AggRequest, a: CostRow, b: CostRow)
    requires Compile(req).Ok?
    ensures KeyBy(Compile(req).value.groupBy)(a) == KeyBy(Compile(req).value.groupBy)(b) <==> Agree(req.cols, a, b)
  {
    var q := Compile(req).value;
    var select := Base(COLS, req.cols) + Labels(req.cols);
    assert q.groupBy == Grouping(select);
    hide *;
    if KeyBy(q.groupBy)(a) == KeyBy(q.groupBy)(b) {
      SameGroupAgrees(req.cols, select, q.groupBy, a, b);
    }
    if Agree(req.cols, a, b) {
      AgreeingRows(req.cols, select, q.groupBy, a, b);
    }
  }

  lemma SameGroupAgrees(req: seq<string>, select: seq<Selected>, groupBy: seq<Grouped>, a: CostRow, b: CostRow)
    requires select == Base(COLS, req) + Labels(req) && groupBy == Grouping(select)
    requires KeyBy(groupBy)(a) == KeyBy(groupBy)(b)
    ensures Agree(req, a, b)
  {
    BaseMembers(COLS, req);
    LabelMembers(req);
    forall c | c in req && c in COLS[..8] ensures SameField(a, b, c) {
      FirstEight(c);
      hide *;
      assert Selected.Column(c) in select;
      GroupExpression(select, groupBy, Selected.Column(c), a, b);
      FieldOf(c, a, b);
    }
    forall c | c in req && IsLabel(c) ensures SameLabel(a, b, LabelOf(c)) {
      assert LabelColumn(LabelOf(c), c) in select;
      GroupExpression(select, groupBy, LabelColumn(LabelOf(c), c), a, b);
    }
  }

  lemma FirstEight(c: string)
    requires c in COLS
    ensures c in COLS[..8] <==> c in GROUPING
  {
    if i :| 0 <= i < |COLS| && COLS[i] == c {
      ColumnsSplit(i);
      assert i < 8 ==> COLS[..8][i] == c;
    }
    if j :| 0 <= j < 8 && COLS[..8][j] == c {
      ColumnsSplit(j);
    }
  }

  lemma FieldOf(c: string, a: CostRow, b: CostRow)
    requires c in GROUPING
    ensures IsGrouping(Selected.Column(c))
    ensures ValueOf(a, GroupedBy(Selected.Column(c))) == ValueOf(b, GroupedBy(Selected.Column(c))) <==>
      SameField(a, b, c)
  {
  }

  lemma AgreeingRows(req: seq<string>, select: seq<Selected>, groupBy: seq<Grouped>, a: CostRow, b: CostRow)
    requires select == Base(COLS, req) + Labels(req) && groupBy == Grouping(select)
    requires Agree(req, a, b)
    ensures KeyBy(groupBy)(a) == KeyBy(groupBy)(b)
  {
    BaseMembers(COLS, req);
    LabelMembers(req);
    GroupingMembers(select);
    forall i | 0 <= i < |groupBy| ensures KeyBy(groupBy)(a)[i] == KeyBy(groupBy)(b)[i] {
      assert groupBy[i] in groupBy;
      var j :| 0 <= j < |select| && IsGrouping(select[j]) && GroupedBy(select[j]) == groupBy[i];
      assert select[j] in Base(COLS, req) || select[j] in Labels(req);
      if select[j].Column? {
        FirstEight(select[j].col);
        assert SameField(a, b, select[j].col);
      }
    }
  }

  lemma GroupExpression(select: seq<Selected>, groupBy: seq<Grouped>, s: Selected, a: CostRow, b: CostRow)
    requires groupBy == Grouping(select) && s in select && IsGrouping(s)
    requires KeyBy(groupBy)(a) == KeyBy(groupBy)(b)
    ensures ValueOf(a, GroupedBy(s)) == ValueOf(b, GroupedBy(s))
  {
    GroupingMembers(select);
    var j :| 0 <= j < |select| && select[j] == s;
    assert GroupedBy(s) in groupBy;
    var i :| 0 <= i < |groupBy| && groupBy[i] == GroupedBy(s);
    assert KeyBy(groupBy)(a)[i] == KeyBy(groupBy)(b)[i];
  }

  lemma {:induction false} AddedWeights<T, K>(
    rows: seq<T>, key: T -> K, k: K, u: T -> real, v: T -> real, w: T -> real, x: T -> real)
    requires forall i :: 0 <= i < |rows| ==> u(rows[i]) == v(rows[i]) + w(rows[i]) + x(rows[i])
    ensures KeyWeight(rows, key, u, k) ==
      KeyWeight(rows, key, v, k) + KeyWeight(rows, key, w, k) + KeyWeight(rows, key, x, k)
  {
    if rows == [] {
    } else {
      AddedWeights(rows[..|rows| - 1], key, k, u, v, w, x);
    }
  }

  /** In every group the total cost is the cost of CPU, memory and storage together. */
  lemma TotalCost(q: Query, rows: seq<CostRow>, k: GroupKey)
    ensures GroupSum(q, rows, k, "total_cost") ==
      GroupSum(q, rows, k, "cpu_cost") + GroupSum(q, rows, k, "memory_cost") + GroupSum(q, rows, k, "storage_cost")
  {
    AddedWeights(
      Windowed(rows, q.start, q.end), KeyBy(q.groupBy), k,
      MeasureOf("total_cost"), MeasureOf("cpu_cost"), MeasureOf("memory_cost"), MeasureOf("storage_cost"));
  }

  /** One of the three costs of a row. */
  datatype CostField = CpuCost | MemoryCost | StorageCost

  function Raised(row: CostRow, f: CostField, extra: real): CostRow {
    match f
    case CpuCost => row.(cpuCost := row.cpuCost + extra)
    case MemoryCost => row.(memoryCost := row.memoryCost + extra)
    case StorageCost => row.(storageCost := row.storageCost + extra)
  }

  function CostColumn(f: CostField): string {
    match f
    case CpuCost => "cpu_cost"
    case MemoryCost => "memory_cost"
    case StorageCost => "storage_cost"
  }

  /** What is added to the rows of group `k` inside the window. */
  function Added(q: Query, rows: seq<CostRow>, extra: seq<real>, k: GroupKey): real
    requires |extra| == |rows|
  {
    if rows == [] then 0.0
    else
      var n := |rows| - 1;
      Added(q, rows[..n], extra[..n], k) +
      if q.start <= rows[n].timestamp < q.end && KeyBy(q.groupBy)(rows[n]) == k then extra[n] else 0.0
  }

  lemma {:induction false} GroupSumStep(q: Query, rows: seq<CostRow>, k: GroupKey, col: string)
    requires rows != []
    ensures
      var front, row := rows[..|rows| - 1], rows[|rows| - 1];
      GroupSum(q, rows, k, col) == GroupSum(q, front, k, col) +
        if q.start <= row.timestamp < q.end && KeyBy(q.groupBy)(row) == k then Measure(row, col) else 0.0
  {
    var kept := Windowed(rows[..|rows| - 1], q.start, q.end);
    assert (kept + [rows[|rows| - 1]])[..|kept|] == kept;
  }

  lemma RaisedMeasure(q: Query, row: CostRow, f: CostField, extra: real, col: string)
    ensures Measure(Raised(row, f, extra), col) ==
      Measure(row, col) + if col == CostColumn(f) || col == "total_cost" then extra else 0.0
    ensures KeyBy(q.groupBy)(Raised(row, f, extra)) == KeyBy(q.groupBy)(row)
  {
    forall i | 0 <= i < |q.groupBy| ensures ValueOf(Raised(row, f, extra), q.groupBy[i]) == ValueOf(row, q.groupBy[i]) {
    }
  }

  /** Where one cost of the rows changes, its own column and the total change by as much, and no other column does. */
  lemma {:induction false} OneCostChanges(
    q: Query, a: seq<CostRow>, b: seq<CostRow>, f: CostField, extra: seq<real>, k: GroupKey, col: string)
    requires |a| == |b| == |extra| && forall i :: 0 <= i < |a| ==> b[i] == Raised(a[i], f, extra[i])
    ensures GroupSum(q, b, k, col) ==
      GroupSum(q, a, k, col) + if col == CostColumn(f) || col == "total_cost" then Added(q, a, extra, k) else 0.0
  {
    if a == [] {
    } else {
      var n := |a| - 1;
      OneCostChanges(q, a[..n], b[..n], f, extra[..n], k, col);
      RaisedMeasure(q, a[n], f, extra[n], col);
      hide Measure, KeyBy, GroupSum, CostColumn;
      GroupSumStep(q, a, k, col);
      GroupSumStep(q, b, k, col);
    }
  }

  /** The columns that count hours. */
  const HOURLY: set<string> := {
    "request_cpu_core_hours", "used_cpu_core_hours", "request_memory_gb_hours", "used_memory_gb_hours",
    "request_storage_gb_hours", "hours"
  }

  lemma HourlyMeasure(q: Query, row: CostRow, scaled: CostRow, factor: real, col: string)
    requires scaled == row.(hours := factor * row.hours)
    ensures Measure(scaled, col) == if col in HOURLY then factor * Measure(row, col) else Measure(row, col)
    ensures KeyBy(q.groupBy)(scaled) == KeyBy(q.groupBy)(row)
  {
    forall i | 0 <= i < |q.groupBy| ensures ValueOf(scaled, q.groupBy[i]) == ValueOf(row, q.groupBy[i]) {
    }
    Commute(row.requestCpu, factor, row.hours);
    Commute(row.usedCpu, factor, row.hours);
    Commute(row.requestMemory, factor, row.hours);
    Commute(row.usedMemory, factor, row.hours);
    Commute(row.requestStorage, factor, row.hours);
  }

  lemma Commute(x: real, factor: real, hours: real)
    ensures x * (factor * hours) == factor * (x * hours)
  {
  }

  /** Where all the hours of the rows are scaled, the columns that count hours scale with them, and no other changes. */
  lemma {:induction false} HoursScale(
    q: Query, a: seq<CostRow>, b: seq<CostRow>, factor: real, k: GroupKey, col: string)
    requires |a| == |b| && forall i :: 0 <= i < |a| ==> b[i] == a[i].(hours := factor * a[i].hours)
    ensures GroupSum(q, b, k, col) == if col in HOURLY then factor * GroupSum(q, a, k, col) else GroupSum(q, a, k, col)
  {
    if a == [] {
    } else {
      var n := |a| - 1;
      HoursScale(q, a[..n], b[..n], factor, k, col);
      HoursScaleStep(q, a, b, factor, k, col);
    }
  }

  lemma HoursScaleStep(q: Query, a: seq<CostRow>, b: seq<CostRow>, factor: real, k: GroupKey, col: string)
    requires |a| == |b| > 0 && b[|a| - 1] == a[|a| - 1].(hours := factor * a[|a| - 1].hours)
    requires
      var x, y := GroupSum(q, a[..|a| - 1], k, col), GroupSum(q, b[..|a| - 1], k, col);
      y == if col in HOURLY then factor * x else x
    ensures GroupSum(q, b, k, col) == if col in HOURLY then factor * GroupSum(q, a, k, col) else GroupSum(q, a, k, col)
  {
    var n := |a| - 1;
    hide *;
    HourlyMeasure(q, a[n], b[n], factor, col);
    GroupSumStep(q, a, k, col);
    GroupSumStep(q, b, k, col);
    var inside := q.start <= a[n].timestamp < q.end && KeyBy(q.groupBy)(a[n]) == k;
    var x, m := GroupSum(q, a[..n], k, col), if inside then Measure(a[n], col) else 0.0;
    assert GroupSum(q, a, k, col) == x + m;
    assert GroupSum(q, b, k, col) ==
      (if col in HOURLY then factor * x else x) + if inside then Measure(b[n], col) else 0.0;
    ScaleSum(factor, x, m);
    ZeroProduct(factor);
  }

  lemma ZeroProduct(factor: real)
    ensures factor * 0.0 == 0.0
  {
  }

  lemma ScaleSum(factor: real, x: real, y: real)
    ensures factor * (x + y) == factor * x + factor * y
  {
  }

  // ---------- refinement ----------

  /** The rows that carry key `k`. */
  function WithKey<T, K(==)>(rows: seq<T>, key: T -> K, k: K): seq<T> {
    if rows == [] then []
    else
      var front, row := WithKey(rows[..|rows| - 1], key, k), rows[|rows| - 1];
      if key(row) == k then front + [row] else front
  }

  lemma {:induction false} WithKeyWeight<T, K>(rows: seq<T>, key: T -> K, w: T -> real, k: K)
    ensures Weight(WithKey(rows, key, k), w) == KeyWeight(rows, key, w, k)
    ensures forall i :: 0 <= i < |WithKey(rows, key, k)| ==> key(WithKey(rows, key, k)[i]) == k
  {
    if rows == [] {
    } else {
      var front, row := rows[..|rows| - 1], rows[|rows| - 1];
      WithKeyWeight(front, key, w, k);
      var kept := WithKey(front, key, k);
      assert (kept + [row])[..|kept|] == kept;
    }
  }

  /** Rows with the same fine key have the same coarse key. */
  ghost predicate Refines<T(!new), K, L>(fine: T -> L, coarse: T -> K) {
    forall a, b :: fine(a) == fine(b) ==> coarse(a) == coarse(b)
  }

  /** A fine group that meets a coarse group lies wholly inside it. */
  lemma {:induction false} ChildInsideParent<T(!new), K, L>(
    rows: seq<T>, coarse: T -> K, fine: T -> L, w: T -> real, k: K, row: T)
    requires Refines(fine, coarse) && coarse(row) == k
    ensures KeyWeight(WithKey(rows, coarse, k), fine, w, fine(row)) == KeyWeight(rows, fine, w, fine(row))
  {
    if rows == [] {
    } else {
      var front, last := rows[..|rows| - 1], rows[|rows| - 1];
      ChildInsideParent(front, coarse, fine, w, k, row);
      var kept := WithKey(front, coarse, k);
      assert (kept + [last])[..|kept|] == kept;
    }
  }

  lemma {:induction false} KeysOccur<T, K>(rows: seq<T>, key: T -> K, k: K) returns (i: nat)
    requires k in Keys(rows, key)
    ensures i < |rows| && key(rows[i]) == k
  {
    var last := |rows| - 1;
    if k in Keys(rows[..last], key) {
      i := KeysOccur(rows[..last], key, k);
    } else {
      i := last;
    }
  }

  lemma {:induction false} ChildrenOfParent<T(!new), K, L>(
    ls: seq<L>, rows: seq<T>, coarse: T -> K, fine: T -> L, w: T -> real, k: K)
    requires Refines(fine, coarse)
    requires forall i :: 0 <= i < |ls| ==> ls[i] in Keys(WithKey(rows, coarse, k), fine)
    ensures SumOverKeys(ls, WithKey(rows, coarse, k), fine, w) == SumOverKeys(ls, rows, fine, w)
  {
    if ls == [] {
    } else {
      ChildrenOfParent(ls[..|ls| - 1], rows, coarse, fine, w, k);
      var i := KeysOccur(WithKey(rows, coarse, k), fine, ls[|ls| - 1]);
      WithKeyWeight(rows, coarse, w, k);
      ChildInsideParent(rows, coarse, fine, w, k, WithKey(rows, coarse, k)[i]);
    }
  }

  /** The sub-groups of a group add up to it. */
  lemma ChildrenSumToParent<T(!new), K, L>(rows: seq<T>, coarse: T -> K, fine: T -> L, w: T -> real, k: K)
    requires Refines(fine, coarse)
    ensures SumOverKeys(Keys(WithKey(rows, coarse, k), fine), rows, fine, w) == KeyWeight(rows, coarse, w, k)
  {
    var kept := WithKey(rows, coarse, k);
    KeysCover(kept, fine);
    ChildrenOfParent(Keys(kept, fine), rows, coarse, fine, w, k);
    Conservation(Keys(kept, fine), kept, fine, w);
    WithKeyWeight(rows, coarse, w, k);
  }

  /** A query that groups by every expression of another, and maybe more, refines its groups. */
  lemma MoreExpressionsRefine(coarse: seq<Grouped>, fine: seq<Grouped>)
    requires forall e :: e in coarse ==> e in fine
    ensures Refines(KeyBy(fine), KeyBy(coarse))
  {
    forall a: CostRow, b: CostRow | KeyBy(fine)(a) == KeyBy(fine)(b) ensures KeyBy(coarse)(a) == KeyBy(coarse)(b) {
      forall i | 0 <= i < |coarse| ensures KeyBy(coarse)(a)[i] == KeyBy(coarse)(b)[i] {
        assert coarse[i] in fine;
        var j :| 0 <= j < |fine| && fine[j] == coarse[i];
        assert KeyBy(fine)(a)[j] == KeyBy(fine)(b)[j];
      }
    }
  }

  lemma {:induction false} GroupingMembers(select: seq<Selected>)
    ensures forall e :: e in Grouping(select) <==>
      exists i :: 0 <= i < |select| && IsGrouping(select[i]) && GroupedBy(select[i]) == e
  {
    if select == [] {
    } else {
      var front := select[..|select| - 1];
      GroupingMembers(front);
      forall e
        ensures e in Grouping(select) <==>
          exists i :: 0 <= i < |select| && IsGrouping(select[i]) && GroupedBy(select[i]) == e
      {
        if e in Grouping(front) {
          var i :| 0 <= i < |front| && IsGrouping(front[i]) && GroupedBy(front[i]) == e;
          assert select[i] == front[i];
        }
        if i :| 0 <= i < |select| && IsGrouping(select[i]) && GroupedBy(select[i]) == e {
          if i < |front| {
            assert front[i] == select[i];
          }
        }
      }
    }
  }

  /** Requesting more columns only adds grouping expressions. */
  lemma MoreColumnsMoreGroups(a: AggRequest, b: AggRequest)
    requires Compile(a).Ok? && Compile(b).Ok?
    requires forall c :: c in a.cols ==> c in b.cols
    ensures forall e :: e in Compile(a).value.groupBy ==> e in Compile(b).value.groupBy
  {
    var sa, sb := Compile(a).value.select, Compile(b).value.select;
    BaseMembers(COLS, a.cols);
    BaseMembers(COLS, b.cols);
    LabelMembers(a.cols);
    LabelMembers(b.cols);
    GroupingMembers(sa);
    GroupingMembers(sb);
    forall e | e in Grouping(sa) ensures e in Grouping(sb) {
      var i :| 0 <= i < |sa| && IsGrouping(sa[i]) && GroupedBy(sa[i]) == e;
      assert sa[i] in sb by {
        assert sa[i] in Base(COLS, a.cols) || sa[i] in Labels(a.cols);
      }
      var j :| 0 <= j < |sb| && sb[j] == sa[i];
    }
  }

  /** The groups of `fine` that share a row with the group `k` of `coarse`. */
  function Inside(coarse: Query, fine: Query, rows: seq<CostRow>, k: GroupKey): seq<GroupKey> {
    Keys(WithKey(Windowed(rows, coarse.start, coarse.end), KeyBy(coarse.groupBy), k), KeyBy(fine.groupBy))
  }

  /**
   Adding columns to a request splits each of its groups: the group's sum is shared out among the new
   groups that lie inside it.
   */
  lemma AddingColumnsRefines(a: AggRequest, b: AggRequest, rows: seq<CostRow>, k: GroupKey, col: string)
    requires Compile(a).Ok? && Compile(b).Ok?
    requires forall c :: c in a.cols ==> c in b.cols
    requires a.start == b.start && a.end == b.end
    ensures
      var qa, qb := Compile(a).value, Compile(b).value;
      && SumOfGroups(qb, rows, Inside(qa, qb, rows, k), col) == GroupSum(qa, rows, k, col)
      && forall l :: l in Inside(qa, qb, rows, k) ==> l in Groups(qb, rows)
  {
    var qa, qb := Compile(a).value, Compile(b).value;
    var kept := Windowed(rows, qa.start, qa.end);
    assert qa.start == qb.start && qa.end == qb.end;
    MoreColumnsMoreGroups(a, b);
    MoreExpressionsRefine(qa.groupBy, qb.groupBy);
    ChildrenSumToParent(kept, KeyBy(qa.groupBy), KeyBy(qb.groupBy), MeasureOf(col), k);
    SumOfGroupsIsSumOverKeys(qb, rows, Inside(qa, qb, rows, k), col);
    forall l | l in Inside(qa, qb, rows, k) ensures l in Groups(qb, rows) {
      InsideIsGroup(kept, KeyBy(qa.groupBy), KeyBy(qb.groupBy), k, l);
      GroupWithRows(qb, rows, l);
    }
  }

  lemma GroupWithRows(q: Query, rows: seq<CostRow>, k: GroupKey)
    requires k in Keys(Windowed(rows, q.start, q.end), KeyBy(q.groupBy))
    ensures k in Groups(q, rows)
  {
    var i := KeysOccur(Windowed(rows, q.start, q.end), KeyBy(q.groupBy), k);
  }

  lemma {:induction false} WithKeyRows<T, K>(rows: seq<T>, key: T -> K, k: K)
    ensures forall row :: row in WithKey(rows, key, k) <==> row in rows && key(row) == k
  {
    if rows == [] {
    } else {
      WithKeyRows(rows[..|rows| - 1], key, k);
      assert rows == rows[..|rows| - 1] + [rows[|rows| - 1]];
    }
  }

  /** A key that occurs among the rows of group `k` occurs among all the rows, on a row of group `k`. */
  lemma InsideIsGroup<T, K, L>(rows: seq<T>, coarse: T -> K, fine: T -> L, k: K, l: L)
    ensures l in Keys(WithKey(rows, coarse, k), fine) <==>
      exists i :: 0 <= i < |rows| && coarse(rows[i]) == k && fine(rows[i]) == l
    ensures l in Keys(WithKey(rows, coarse, k), fine) ==> l in Keys(rows, fine)
  {
    var kept := WithKey(rows, coarse, k);
    WithKeyRows(rows, coarse, k);
    KeysCover(kept, fine);
    KeysCover(rows, fine);
    if l in Keys(kept, fine) {
      var j := KeysOccur(kept, fine, l);
      assert kept[j] in rows;
      var i :| 0 <= i < |rows| && rows[i] == kept[j];
      assert coarse(rows[i]) == k && fine(rows[i]) == l;
    }
    if i :| 0 <= i < |rows| && coarse(rows[i]) == k && fine(rows[i]) == l {
      assert rows[i] in kept;
      var j :| 0 <= j < |kept| && kept[j] == rows[i];
      assert fine(kept[j]) in Keys(kept, fine);
    }
  }

  /**
   Each of the new groups lies in exactly one of the old ones; only the one group that a query without grouping
   columns shows for no rows lies in none.
   */
  lemma FinerGroupsPartition(a: AggRequest, b: AggRequest, rows: seq<CostRow>, l: GroupKey)
    requires Compile(a).Ok? && Compile(b).Ok?
    requires forall c :: c in a.cols ==> c in b.cols
    requires a.start == b.start && a.end == b.end
    requires l in Groups(Compile(b).value, rows)
    ensures
      var qa, qb := Compile(a).value, Compile(b).value;
      if Windowed(rows, qa.start, qa.end) == [] then qb.groupBy == [] && forall k :: l !in Inside(qa, qb, rows, k)
      else exists k :: k in Groups(qa, rows) && forall k' :: l in Inside(qa, qb, rows, k') <==> k' == k
  {
    var qa, qb := Compile(a).value, Compile(b).value;
    var kept := Windowed(rows, qa.start, qa.end);
    var coarse, fine := KeyBy(qa.groupBy), KeyBy(qb.groupBy);
    MoreColumnsMoreGroups(a, b);
    MoreExpressionsRefine(qa.groupBy, qb.groupBy);
    forall k
      ensures l in Inside(qa, qb, rows, k) <==>
        exists i :: 0 <= i < |kept| && coarse(kept[i]) == k && fine(kept[i]) == l
    {
      InsideIsGroup(kept, coarse, fine, k, l);
    }
    if kept != [] {
      var i := RowOfGroup(qb, rows, l);
      var k := coarse(kept[i]);
      KeysCover(kept, coarse);
      GroupWithRows(qa, rows, k);
      assert k in Groups(qa, rows) && forall k' :: l in Inside(qa, qb, rows, k') <==> k' == k;
    }
  }

  lemma RowOfGroup(q: Query, rows: seq<CostRow>, k: GroupKey) returns (i: nat)
    requires k in Groups(q, rows) && Windowed(rows, q.start, q.end) != []
    ensures i < |Windowed(rows, q.start, q.end)| && KeyBy(q.groupBy)(Windowed(rows, q.start, q.end)[i]) == k
  {
    if q.groupBy == [] {
      i := 0;
    } else {
      i := KeysOccur(Windowed(rows, q.start, q.end), KeyBy(q.groupBy), k);
    }
  }

  // ---------- rounding ----------

  /** SQL's `round(x, 2)`: half away from zero. */
  function Round2(x: real): real {
    if x >= 0.0 then (x * 100.0 + 0.5).Floor as real / 100.0 else -((-x * 100.0 + 0.5).Floor as real / 100.0)
  }

  /** The result is a whole number of hundredths, at most half a hundredth away, and odd like the argument. */
  lemma RoundingError(x: real)
    ensures -0.005 <= Round2(x) - x <= 0.005
    ensures (Round2(x) * 100.0).Floor as real == Round2(x) * 100.0
    ensures Round2(-x) == -Round2(x)
  {
    var n := if x >= 0.0 then (x * 100.0 + 0.5).Floor else -((-x * 100.0 + 0.5).Floor);
    assert Round2(x) * 100.0 == n as real;
  }

  /** The aggregates shown in gigabyte hours. */
  const GIGABYTES: set<string> := {"request_memory_gb_hours", "used_memory_gb_hours", "request_storage_gb_hours"}

  const GIB := 1_073_741_824.0

  /** SQL's `round(x)`: half away from zero. */
  function Round0(x: real): real { if x >= 0.0 then (x + 0.5).Floor as real else -((-x + 0.5).Floor as real) }

  /**
   What the cell of an aggregate shows of its sum: two decimals, where sums in gigabytes are first rounded to whole
   byte hours, then divided, and rounded to two decimals only by the cell.
   */
  function Shown(col: string, sum: real): real {
    if col in GIGABYTES then Round2(Round0(sum) / GIB) else Round2(sum)
  }

  /** The unit of the column: what one shown unit is worth in the unit of the sums. */
  function Unit(col: string): real { if col in GIGABYTES then GIB else 1.0 }

  /** How far a cell may be off: half a hundredth, and for gigabytes half a byte hour before that. */
  function Slack(col: string): real { if col in GIGABYTES then 0.005 + 0.5 / GIB else 0.005 }

  lemma WholeError(x: real)
    ensures -0.5 <= Round0(x) - x <= 0.5
  {
  }

  /**
   A cell is off by at most half a hundredth, and in the three gigabyte columns, where 1024 * 1024 * 1024 byte hours
   are worth one, by half a byte hour more.
   */
  lemma ShownError(col: string, sum: real)
    ensures -Slack(col) <= Shown(col, sum) - sum / Unit(col) <= Slack(col)
    ensures col in {"request_memory_gb_hours", "used_memory_gb_hours", "request_storage_gb_hours"} ==>
      Unit(col) == 1024.0 * 1024.0 * 1024.0 && Slack(col) == 0.005 + 0.5 / Unit(col)
    ensures col !in {"request_memory_gb_hours", "used_memory_gb_hours", "request_storage_gb_hours"} ==>
      Unit(col) == 1.0 && Slack(col) == 0.005
  {
    if col in GIGABYTES {
      WholeError(sum);
      RoundingError(Round0(sum) / GIB);
      DividedError(Round0(sum), sum);
    } else {
      RoundingError(sum);
    }
  }

  lemma DividedError(a: real, b: real)
    requires -0.5 <= a - b <= 0.5
    ensures -0.5 / GIB <= a / GIB - b / GIB <= 0.5 / GIB
  {
  }

  function SumOfShown(q: Query, rows: seq<CostRow>, groups: seq<GroupKey>, col: string): real {
    if groups == [] then 0.0
    else
      SumOfShown(q, rows, groups[..|groups| - 1], col) + Shown(col, GroupSum(q, rows, groups[|groups| - 1], col))
  }

  lemma {:induction false} ShownSums(q: Query, rows: seq<CostRow>, groups: seq<GroupKey>, col: string)
    ensures
      var error := SumOfShown(q, rows, groups, col) - SumOfGroups(q, rows, groups, col) / Unit(col);
      -Slack(col) * |groups| as real <= error <= Slack(col) * |groups| as real
  {
    hide Shown, GroupSum, Slack, Unit;
    if groups == [] {
      DividedSum(0.0, 0.0, col);
    } else {
      var front, k := groups[..|groups| - 1], groups[|groups| - 1];
      var sum, shown := SumOfGroups(q, rows, front, col), SumOfShown(q, rows, front, col);
      var one, cell := GroupSum(q, rows, k, col), Shown(col, GroupSum(q, rows, k, col));
      ShownSums(q, rows, front, col);
      ShownError(col, one);
      DividedSum(sum, one, col);
      assert SumOfGroups(q, rows, groups, col) == sum + one && SumOfShown(q, rows, groups, col) == shown + cell;
      hide *;
      ErrorStep(shown - sum / Unit(col), cell - one / Unit(col), Slack(col), |front|);
    }
  }

  lemma ErrorStep(error: real, more: real, slack: real, n: nat)
    requires -slack * n as real <= error <= slack * n as real && -slack <= more <= slack
    ensures -slack * (n + 1) as real <= error + more <= slack * (n + 1) as real
  {
    assert (n + 1) as real == n as real + 1.0;
    assert slack * (n as real + 1.0) == slack * n as real + slack;
  }

  lemma DividedSum(a: real, b: real, col: string)
    ensures (a + b) / Unit(col) == a / Unit(col) + b / Unit(col) && 0.0 / Unit(col) == 0.0
  {
  }

  /**
   The sums shown for `g` groups miss the total of the window by at most half a hundredth for each group, and in the
   gigabyte columns by half a byte hour more.
   */
  lemma DisplayedTotal(q: Query, rows: seq<CostRow>, col: string)
    ensures
      var groups := Groups(q, rows);
      var error := SumOfShown(q, rows, groups, col) - Weight(rows, MeasureIn(col, q.start, q.end)) / Unit(col);
      -Slack(col) * |groups| as real <= error <= Slack(col) * |groups| as real
  {
    GroupingConserves(q, rows, col);
    ShownSums(q, rows, Groups(q, rows), col);
  }
}
