/**
 The scrape manager: a goroutine for each target, contexts to cancel them, and every interleaving of
 adds, removals, ticks, scrapes and the cancellation of the parent context.
 */
module Manager {
  /** Where a target's goroutine stands. */
  datatype Phase = Delaying | Scraping | Waiting | Exited

  /** A goroutine: its target, the scraper it calls, whether its own context was cancelled, and its calls so far. */
  datatype Routine = Routine(id: string, scraper: nat, phase: Phase, cancelled: bool, calls: nat)

  /** `targets` maps an id to the goroutine whose cancel function it holds; `scrapers` counts scrapers made. */
  datatype World = World(targets: map<string, nat>, routines: seq<Routine>, parentDone: bool, scrapers: nat)

  const START := World(map[], [], false, 0)

  datatype Action =
    /** A node is added: a new scraper is made and offered to the manager, which ignores it if the id is known. */
    | NodeAdded(name: string)
    | NodeDeleted(name: string)
    | ParentCancelled
    /** The initial delay ends, by time or by cancellation, and the first scrape begins. */
    | Wake(g: nat)
    /** The ticker fires and is chosen by the select, even if the context is done as well. */
    | Tick(g: nat)
    /** The running scrape returns. */
    | Return(g: nat)
    /** The select chooses the context's end. */
    | Leave(g: nat)

  predicate Enabled(w: World, a: Action) {
    match a
    case NodeAdded(_) => true
    case NodeDeleted(_) => true
    case ParentCancelled => true
    case Wake(g) => g < |w.routines| && w.routines[g].phase == Delaying
    case Tick(g) => g < |w.routines| && w.routines[g].phase == Waiting
    case Return(g) => g < |w.routines| && w.routines[g].phase == Scraping
    case Leave(g) => g < |w.routines| && w.routines[g].phase == Waiting && (w.routines[g].cancelled || w.parentDone)
  }

  function TargetID(name: string): string { "node/" + name }

  /** `AddTarget`: an id that is known keeps its goroutine. */
  function Added(w: World, id: string, scraper: nat): World {
    if id in w.targets then w
    else
      w.(targets := w.targets[id := |w.routines|],
         routines := w.routines + [Routine(id, scraper, Delaying, false, 0)])
  }

  /** `RemoveTarget`: cancels the goroutine of the id and forgets the id. */
  function Removed(w: World, id: string): World {
    if id in w.targets && w.targets[id] < |w.routines| then
      w.(targets := w.targets - {id},
         routines := w.routines[w.targets[id] := w.routines[w.targets[id]].(cancelled := true)])
    else w
  }

  function Enter(w: World, g: nat, phase: Phase): World
    requires g < |w.routines|
  {
    var r := w.routines[g];
    w.(routines := w.routines[g := r.(phase := phase, calls := r.calls + if phase == Scraping then 1 else 0)])
  }

  function Step(w: World, a: Action): World
    requires Enabled(w, a)
  {
    match a
    case NodeAdded(name) => if name == "" then w else Added(w, TargetID(name), w.scrapers).(scrapers := w.scrapers + 1)
    case NodeDeleted(name) => if name == "" then w else Removed(w, TargetID(name))
    case ParentCancelled => w.(parentDone := true)
    case Wake(g) => Enter(w, g, Scraping)
    case Tick(g) => Enter(w, g, Scraping)
    case Return(g) => Enter(w, g, Waiting)
    case Leave(g) => Enter(w, g, Exited)
  }

  predicate Possible(acts: seq<Action>)
    decreases |acts|, 0
  {
    acts == [] || (Possible(acts[..|acts| - 1]) && Enabled(After(acts[..|acts| - 1]), acts[|acts| - 1]))
  }

  /** The world after a possible run from the start of the process. */
  function After(acts: seq<Action>): World
    requires Possible(acts)
    decreases |acts|, 1
  {
    if acts == [] then START else Step(After(acts[..|acts| - 1]), acts[|acts| - 1])
  }

  // ---------- the invariant ----------

  /** Targets and goroutines that were not cancelled correspond one to one. */
  ghost predicate Linked(w: World) {
    && (forall id :: id in w.targets ==>
          && w.targets[id] < |w.routines|
          && w.routines[w.targets[id]].id == id
          && !w.routines[w.targets[id]].cancelled)
    && (forall g :: 0 <= g < |w.routines| && !w.routines[g].cancelled ==>
          w.routines[g].id in w.targets && w.targets[w.routines[g].id] == g)
  }

  /** No goroutine has exited unasked, or before its first scrape call. */
  ghost predicate Obedient(w: World) {
    forall g :: 0 <= g < |w.routines| ==>
      && (w.routines[g].phase == Exited ==> w.routines[g].cancelled || w.parentDone)
      && (w.routines[g].phase == Delaying <==> w.routines[g].calls == 0)
  }

  /** No two goroutines share a scraper. */
  ghost predicate Unshared(w: World) {
    && (forall g :: 0 <= g < |w.routines| ==> w.routines[g].scraper < w.scrapers)
    && (forall g, h :: 0 <= g < h < |w.routines| ==> w.routines[g].scraper != w.routines[h].scraper)
  }

  ghost predicate Inv(w: World) { Linked(w) && Obedient(w) && Unshared(w) }

  /** The routines of `w'` are those of `w`, as far as they existed, but for the one at `k`. */
  ghost predicate SameBut(w: World, w': World, k: int) {
    |w.routines| <= |w'.routines| && forall g :: 0 <= g < |w.routines| && g != k ==> w'.routines[g] == w.routines[g]
  }

  /** `w'` is `w` with a fresh goroutine and scraper for a new target. */
  ghost predicate Grown(w: World, w': World, id: string) {
    && id !in w.targets
    && SameBut(w, w', |w.routines|)
    && |w'.routines| == |w.routines| + 1
    && w'.routines[|w.routines|] == Routine(id, w.scrapers, Delaying, false, 0)
    && w'.targets == w.targets[id := |w.routines|]
    && w'.parentDone == w.parentDone
    && w'.scrapers == w.scrapers + 1
  }

  lemma LinkedGrown(w: World, w': World, id: string)
    requires Grown(w, w', id) && Linked(w)
    ensures Linked(w')
  {
  }

  lemma ObedientGrown(w: World, w': World, id: string)
    requires Grown(w, w', id) && Obedient(w)
    ensures Obedient(w')
  {
  }

  lemma UnsharedGrown(w: World, w': World, id: string)
    requires Grown(w, w', id) && Unshared(w)
    ensures Unshared(w')
  {
  }

  lemma InvAdded(w: World, id: string)
    requires Inv(w)
    ensures Inv(Added(w, id, w.scrapers).(scrapers := w.scrapers + 1))
  {
    var w' := Added(w, id, w.scrapers).(scrapers := w.scrapers + 1);
    if id !in w.targets {
      assert Grown(w, w', id);
      hide Added, Grown;
      LinkedGrown(w, w', id);
      ObedientGrown(w, w', id);
      UnsharedGrown(w, w', id);
    }
  }

  lemma InvRemoved(w: World, id: string)
    requires Inv(w)
    ensures Inv(Removed(w, id))
  {
    var w' := Removed(w, id);
    if id in w.targets {
      var k := w.targets[id];
      assert forall g :: 0 <= g < |w.routines| && g != k ==> w'.routines[g] == w.routines[g];
      assert w'.routines[k] == w.routines[k].(cancelled := true);
    }
  }

  lemma InvEnter(w: World, g: nat, phase: Phase)
    requires Inv(w) && g < |w.routines|
    requires phase != Delaying && (phase == Scraping || w.routines[g].phase != Delaying)
    requires phase == Exited ==> w.routines[g].cancelled || w.parentDone
    ensures Inv(Enter(w, g, phase))
  {
    var w' := Enter(w, g, phase);
    assert forall h :: 0 <= h < |w.routines| ==>
      && w'.routines[h].id == w.routines[h].id
      && w'.routines[h].scraper == w.routines[h].scraper
      && w'.routines[h].cancelled == w.routines[h].cancelled;
    assert forall h :: 0 <= h < |w.routines| && h != g ==> w'.routines[h] == w.routines[h];
  }

  lemma InvStep(w: World, a: Action)
    requires Enabled(w, a) && Inv(w)
    ensures Inv(Step(w, a))
  {
    match a
    case NodeAdded(name) => InvAdded(w, TargetID(name));
    case NodeDeleted(name) => InvRemoved(w, TargetID(name));
    case ParentCancelled =>
    case Wake(g) => InvEnter(w, g, Scraping);
    case Tick(g) => InvEnter(w, g, Scraping);
    case Return(g) => InvEnter(w, g, Waiting);
    case Leave(g) => InvEnter(w, g, Exited);
  }

  lemma {:induction false} InvAfter(acts: seq<Action>)
    requires Possible(acts)
    ensures Inv(After(acts))
  {
    if acts == [] {
    } else {
      InvAfter(acts[..|acts| - 1]);
      InvStep(After(acts[..|acts| - 1]), acts[|acts| - 1]);
    }
  }

  /** The goroutine `g` works for target `id` and its own cancel function was never called. */
  predicate Serves(w: World, g: nat, id: string) {
    g < |w.routines| && w.routines[g].id == id && !w.routines[g].cancelled
  }

  /**
   In every interleaving: a known id has exactly one goroutine whose own cancel was never called, an
   unknown id has none, and no goroutine exits before its own or the parent context is cancelled, nor
   without having scraped at least once, cancelled or not.
   */
  lemma OneRoutinePerTarget(acts: seq<Action>, id: string)
    requires Possible(acts)
    ensures
      var w := After(acts);
      && (id in w.targets ==> exists g :: Serves(w, g, id) && forall h :: Serves(w, h, id) ==> h == g)
      && (id !in w.targets ==> !exists g :: Serves(w, g, id))
      && forall g :: 0 <= g < |w.routines| && w.routines[g].phase == Exited ==>
        (w.routines[g].cancelled || w.parentDone) && w.routines[g].calls > 0
  {
    InvAfter(acts);
    var w := After(acts);
    if id in w.targets {
      assert Serves(w, w.targets[id], id);
    }
  }

  // ---------- calls on one scraper ----------

  /** Whether an action begins (+1) or ends (-1) a call on scraper `s`. */
  function Delta(w: World, a: Action, s: nat): int
    requires Enabled(w, a)
  {
    match a
    case Wake(g) => if w.routines[g].scraper == s then 1 else 0
    case Tick(g) => if w.routines[g].scraper == s then 1 else 0
    case Return(g) => if w.routines[g].scraper == s then -1 else 0
    case _ => 0
  }

  /** Calls on scraper `s` begun and not yet returned. */
  function OpenCalls(acts: seq<Action>, s: nat): int
    requires Possible(acts)
  {
    if acts == [] then 0
    else
      var front := acts[..|acts| - 1];
      OpenCalls(front, s) + Delta(After(front), acts[|acts| - 1], s)
  }

  ghost predicate Busy(w: World, s: nat) {
    exists g :: 0 <= g < |w.routines| && w.routines[g].scraper == s && w.routines[g].phase == Scraping
  }

  lemma BusyStep(w: World, a: Action, s: nat)
    requires Enabled(w, a) && Inv(w)
    ensures Delta(w, a, s) == (if Busy(Step(w, a), s) then 1 else 0) - (if Busy(w, s) then 1 else 0)
  {
    var w' := Step(w, a);
    match a
    case NodeAdded(_) => SameWork(w, w', s);
    case NodeDeleted(_) => SameWork(w, w', s);
    case ParentCancelled => SameWork(w, w', s);
    case Wake(g) => OwnWork(w, w', g, s);
    case Tick(g) => OwnWork(w, w', g, s);
    case Return(g) => OwnWork(w, w', g, s);
    case Leave(g) => OwnWork(w, w', g, s);
  }

  /** Only goroutines that do not scrape were added. */
  lemma SameWork(w: World, w': World, s: nat)
    requires |w.routines| <= |w'.routines|
    requires forall g :: 0 <= g < |w.routines| ==>
      w'.routines[g].scraper == w.routines[g].scraper && w'.routines[g].phase == w.routines[g].phase
    requires forall g :: |w.routines| <= g < |w'.routines| ==> w'.routines[g].phase != Scraping
    ensures Busy(w', s) <==> Busy(w, s)
  {
    if Busy(w, s) {
      var g :| 0 <= g < |w.routines| && w.routines[g].scraper == s && w.routines[g].phase == Scraping;
      assert w'.routines[g].phase == Scraping;
    }
  }

  /** A scraper is busy exactly when the one goroutine that owns it is scraping. */
  lemma OwnWork(w: World, w': World, g: nat, s: nat)
    requires Inv(w) && g < |w.routines| == |w'.routines|
    requires w'.routines[g].scraper == w.routines[g].scraper
    requires forall h :: 0 <= h < |w.routines| && h != g ==> w'.routines[h] == w.routines[h]
    ensures w.routines[g].scraper == s ==>
      (Busy(w, s) <==> w.routines[g].phase == Scraping) && (Busy(w', s) <==> w'.routines[g].phase == Scraping)
    ensures w.routines[g].scraper != s ==> (Busy(w', s) <==> Busy(w, s))
  {
    if w.routines[g].scraper == s {
      forall h | 0 <= h < |w.routines| && h != g ensures w.routines[h].scraper != s {
        assert w.routines[if g < h then g else h].scraper != w.routines[if g < h then h else g].scraper;
      }
    } else if Busy(w, s) {
      var h :| 0 <= h < |w.routines| && w.routines[h].scraper == s && w.routines[h].phase == Scraping;
      assert w'.routines[h] == w.routines[h];
    }
  }

  /** Calls on one scraper never overlap: after every run at most one is open. */
  lemma {:induction false} CallsNeverOverlap(acts: seq<Action>, s: nat)
    requires Possible(acts)
    ensures OpenCalls(acts, s) == if Busy(After(acts), s) then 1 else 0
  {
    if acts == [] {
    } else {
      var front := acts[..|acts| - 1];
      CallsNeverOverlap(front, s);
      InvAfter(front);
      BusyStep(After(front), acts[|acts| - 1], s);
    }
  }

  // ---------- removed targets ----------

  lemma RunStep(acts: seq<Action>, a: Action)
    requires Possible(acts) && Enabled(After(acts), a)
    ensures Possible(acts + [a]) && After(acts + [a]) == Step(After(acts), a)
  {
    assert (acts + [a])[..|acts|] == acts;
  }

  /** A goroutine of target `id` that has not exited. */
  predicate Live(w: World, g: nat, id: string) {
    g < |w.routines| && w.routines[g].id == id && w.routines[g].phase != Exited
  }

  /** At most one goroutine of `id` may still run, and none when `id` is no target. */
  ghost predicate SoleRoutine(w: World, id: string) {
    && (forall g: nat, h: nat :: Live(w, g, id) && Live(w, h, id) ==> g == h)
    && (id !in w.targets ==> forall g: nat :: !Live(w, g, id))
  }

  /** Two goroutines of `id` are scraping. */
  ghost predicate Overlap(w: World, id: string) {
    exists g: nat, h: nat :: g < h && ScrapingFor(w, g, id) && ScrapingFor(w, h, id)
  }

  predicate ScrapingFor(w: World, g: nat, id: string) { Live(w, g, id) && w.routines[g].phase == Scraping }

  lemma TargetIDInjective(a: string, b: string)
    requires TargetID(a) == TargetID(b)
    ensures a == b
  {
    assert TargetID(a)[5..] == a && TargetID(b)[5..] == b;
  }

  /** Every step but the node's own removal keeps at most one of its goroutines running, and none without a target. */
  lemma SoleRoutineStep(w: World, a: Action, name: string)
    requires Enabled(w, a) && SoleRoutine(w, TargetID(name))
    requires a != NodeDeleted(name)
    ensures SoleRoutine(Step(w, a), TargetID(name))
  {
    var id, w' := TargetID(name), Step(w, a);
    if a.NodeDeleted? && TargetID(a.name) == id {
      TargetIDInjective(a.name, name);
    }
    assert id in w.targets ==> id in w'.targets;
    forall g: nat | Live(w', g, id) && g < |w.routines| ensures Live(w, g, id) {
    }
    forall g: nat | Live(w', g, id) && g >= |w.routines| ensures g == |w.routines| && id !in w.targets {
    }
  }

  lemma {:induction false} SoleRoutineRun(before: seq<Action>, later: seq<Action>, name: string)
    requires Possible(before) && Possible(before + later) && SoleRoutine(After(before), TargetID(name))
    requires NodeDeleted(name) !in later
    ensures SoleRoutine(After(before + later), TargetID(name))
    decreases |later|
  {
    if later == [] {
      assert before + later == before;
    } else {
      var n := |later| - 1;
      assert (before + later)[..|before + later| - 1] == before + later[..n];
      assert later == later[..n] + [later[n]];
      SoleRoutineRun(before, later[..n], name);
      SoleRoutineStep(After(before + later[..n]), later[n], name);
    }
  }

  /** Some run that goes on after `acts`, without the removal of the node, has two of its goroutines scraping. */
  ghost predicate CanOverlap(acts: seq<Action>, name: string) {
    exists later: seq<Action> ::
      NodeDeleted(name) !in later && Possible(acts + later) && Overlap(After(acts + later), TargetID(name))
  }

  /** What wakes a goroutine up to scrape. */
  function ToScrape(w: World, g: nat): seq<Action>
    requires g < |w.routines|
  {
    match w.routines[g].phase
    case Delaying => [Wake(g)]
    case Waiting => [Tick(g)]
    case _ => []
  }

  /** A goroutine that has not exited can be found scraping, whatever its contexts; no other goroutine moves. */
  lemma LiveCanScrape(acts: seq<Action>, g: nat)
    requires Possible(acts) && g < |After(acts).routines| && After(acts).routines[g].phase != Exited
    ensures
      var w, to := After(acts), acts + ToScrape(After(acts), g);
      && Possible(to)
      && |After(to).routines| == |w.routines|
      && After(to).routines[g].phase == Scraping && After(to).routines[g].id == w.routines[g].id
      && forall h :: 0 <= h < |w.routines| && h != g ==> After(to).routines[h] == w.routines[h]
  {
    var w := After(acts);
    match w.routines[g].phase
    case Delaying => RunStep(acts, Wake(g));
    case Waiting => RunStep(acts, Tick(g));
    case Scraping => assert acts + [] == acts;
  }

  lemma BothLive(acts: seq<Action>, name: string, g: nat)
    requires Possible(acts) && name != "" && TargetID(name) !in After(acts).targets
    requires Live(After(acts), g, TargetID(name))
    ensures Possible(acts + [NodeAdded(name)]) && g < |After(acts).routines|
    ensures Live(After(acts + [NodeAdded(name)]), g, TargetID(name))
    ensures Live(After(acts + [NodeAdded(name)]), |After(acts).routines|, TargetID(name))
  {
    RunStep(acts, NodeAdded(name));
  }

  lemma TwoScrape(acts: seq<Action>, later: seq<Action>, g: nat, h: nat, name: string)
    requires NodeDeleted(name) !in later && Possible(acts + later) && g < h
    requires ScrapingFor(After(acts + later), g, TargetID(name)) && ScrapingFor(After(acts + later), h, TargetID(name))
    ensures CanOverlap(acts, name)
  {
    assert Overlap(After(acts + later), TargetID(name));
  }

  lemma TwoLiveOverlap(acts: seq<Action>, name: string, g: nat, h: nat)
    requires Possible(acts) && g < h
    requires Live(After(acts), g, TargetID(name)) && Live(After(acts), h, TargetID(name))
    ensures CanOverlap(acts, name)
  {
    hide After, Possible, ScrapingFor, CanOverlap, ToScrape;
    LiveScrapes(acts, g, TargetID(name));
    var first := ToScrape(After(acts), g);
    LiveScrapes(acts + first, h, TargetID(name));
    var second := ToScrape(After(acts + first), h);
    assert acts + first + second == acts + (first + second);
    TwoScrape(acts, first + second, g, h, name);
  }

  lemma LiveScrapes(acts: seq<Action>, g: nat, id: string)
    requires Possible(acts) && Live(After(acts), g, id)
    ensures
      var w, to := After(acts), acts + ToScrape(After(acts), g);
      && Possible(to) && ScrapingFor(After(to), g, id)
      && (forall name :: NodeDeleted(name) !in ToScrape(w, g))
      && (forall h: nat :: h != g && Live(w, h, id) ==> Live(After(to), h, id))
      && (forall h: nat :: h != g && ScrapingFor(w, h, id) ==> ScrapingFor(After(to), h, id))
  {
    LiveCanScrape(acts, g);
    hide After, Possible;
  }

  lemma OverlapAfterStep(acts: seq<Action>, a: Action, name: string)
    requires a != NodeDeleted(name) && CanOverlap(acts + [a], name)
    ensures CanOverlap(acts, name)
  {
    var later: seq<Action> :|
      NodeDeleted(name) !in later && Possible(acts + [a] + later) && Overlap(After(acts + [a] + later), TargetID(name));
    hide *;
    assert acts + [a] + later == acts + ([a] + later);
    OverlapIn(acts, [a] + later, name);
  }

  lemma OverlapIn(acts: seq<Action>, later: seq<Action>, name: string)
    requires NodeDeleted(name) !in later && Possible(acts + later) && Overlap(After(acts + later), TargetID(name))
    ensures CanOverlap(acts, name)
  {
  }

  /**
   Two goroutines of a node can scrape at once, before the node is next removed, if and only if two of them have
   not exited, or one has not and the node is no target.
   */
  lemma OverlapPossible(acts: seq<Action>, name: string)
    requires Possible(acts) && name != ""
    ensures CanOverlap(acts, name) <==> !SoleRoutine(After(acts), TargetID(name))
  {
    var id, w := TargetID(name), After(acts);
    if SoleRoutine(w, id) {
      forall later: seq<Action> | NodeDeleted(name) !in later && Possible(acts + later)
        ensures !Overlap(After(acts + later), id)
      {
        SoleRoutineRun(acts, later, name);
      }
    } else if id !in w.targets {
      var g: nat :| Live(w, g, id);
      BothLive(acts, name, g);
      TwoLiveOverlap(acts + [NodeAdded(name)], name, g, |w.routines|);
      OverlapAfterStep(acts, NodeAdded(name), name);
    } else {
      var g: nat, h: nat :| Live(w, g, id) && Live(w, h, id) && g != h;
      TwoLiveOverlap(acts, name, if g < h then g else h, if g < h then h else g);
    }
  }

  /** So after a node is added that is no target, exactly when a goroutine of an earlier addition has not exited. */
  lemma OverlapAfterAdd(acts: seq<Action>, name: string)
    requires Possible(acts) && name != "" && TargetID(name) !in After(acts).targets
    ensures Possible(acts + [NodeAdded(name)])
    ensures CanOverlap(acts + [NodeAdded(name)], name) <==> exists g: nat :: Live(After(acts), g, TargetID(name))
  {
    var id, w := TargetID(name), After(acts);
    var added := acts + [NodeAdded(name)];
    RunStep(acts, NodeAdded(name));
    OverlapPossible(added, name);
    if g: nat :| Live(w, g, id) {
      BothLive(acts, name, g);
      assert g != |w.routines|;
    } else {
      forall g: nat | Live(After(added), g, id) ensures g == |w.routines| {
        assert g < |w.routines| ==> Live(w, g, id);
      }
    }
  }

  /** The step is one of a goroutine, and not one of the nodes or of the parent context. */
  predicate OfRoutine(a: Action) { a.Wake? || a.Tick? || a.Return? || a.Leave? }

  /** The goroutine exits in some run that goes on with steps of goroutines only. */
  ghost predicate CanEnd(acts: seq<Action>, g: nat) {
    exists later: seq<Action> :: Ends(acts, later, g)
  }

  ghost predicate Ends(acts: seq<Action>, later: seq<Action>, g: nat) {
    && (forall i :: 0 <= i < |later| ==> OfRoutine(later[i]))
    && Possible(acts + later)
    && g < |After(acts + later).routines|
    && After(acts + later).routines[g].phase == Exited
  }

  /** A goroutine is free to end: its own context or the parent's is cancelled. */
  predicate Released(w: World, g: nat) {
    g < |w.routines| && (w.routines[g].cancelled || w.parentDone)
  }

  lemma ReleasesStep(w: World, a: Action, g: nat)
    requires Enabled(w, a) && OfRoutine(a)
    ensures |Step(w, a).routines| == |w.routines| && (Released(Step(w, a), g) <==> Released(w, g))
  {
  }

  lemma {:induction false} ReleasesStay(acts: seq<Action>, later: seq<Action>, g: nat)
    requires Possible(acts) && Possible(acts + later)
    requires forall i :: 0 <= i < |later| ==> OfRoutine(later[i])
    ensures |After(acts + later).routines| == |After(acts).routines|
    ensures Released(After(acts + later), g) <==> Released(After(acts), g)
    decreases |later|
  {
    if later == [] {
      assert acts + later == acts;
    } else {
      var n := |later| - 1;
      assert (acts + later)[..|acts + later| - 1] == acts + later[..n];
      assert (acts + later)[|acts + later| - 1] == later[n];
      assert After(acts + later) == Step(After(acts + later[..n]), later[n]);
      hide After, Possible;
      ReleasesStay(acts, later[..n], g);
      ReleasesStep(After(acts + later[..n]), later[n], g);
    }
  }

  lemma WaitingEnds(acts: seq<Action>, g: nat)
    requires Possible(acts) && Released(After(acts), g) && After(acts).routines[g].phase == Waiting
    ensures CanEnd(acts, g)
  {
    RunStep(acts, Leave(g));
    assert Ends(acts, [Leave(g)], g);
  }

  lemma ScrapingEnds(acts: seq<Action>, g: nat)
    requires Possible(acts) && Released(After(acts), g) && After(acts).routines[g].phase == Scraping
    ensures CanEnd(acts, g)
  {
    RunStep(acts, Return(g));
    assert Released(After(acts + [Return(g)]), g);
    WaitingEnds(acts + [Return(g)], g);
    EndsAfter(acts, Return(g), g);
  }

  lemma ReleasedEnds(acts: seq<Action>, g: nat)
    requires Possible(acts) && Released(After(acts), g)
    ensures CanEnd(acts, g)
  {
    match After(acts).routines[g].phase
    case Exited =>
      assert acts + [] == acts;
      assert Ends(acts, [], g);
    case Waiting => WaitingEnds(acts, g);
    case Scraping => ScrapingEnds(acts, g);
    case Delaying =>
      RunStep(acts, Wake(g));
      assert Released(After(acts + [Wake(g)]), g);
      ScrapingEnds(acts + [Wake(g)], g);
      EndsAfter(acts, Wake(g), g);
  }

  lemma EndsAfter(acts: seq<Action>, a: Action, g: nat)
    requires OfRoutine(a) && CanEnd(acts + [a], g)
    ensures CanEnd(acts, g)
  {
    var later: seq<Action> :| Ends(acts + [a], later, g);
    assert acts + [a] + later == acts + ([a] + later);
    assert Ends(acts, [a] + later, g);
  }

  /**
   Without any further removal or cancellation a goroutine can end if and only if its own context or the parent's is
   cancelled by then; so after the cancellation of the parent every goroutine can.
   */
  lemma CanEndWhenReleased(acts: seq<Action>, g: nat)
    requires Possible(acts) && g < |After(acts).routines|
    ensures CanEnd(acts, g) <==> Released(After(acts), g)
    ensures Possible(acts + [ParentCancelled]) && CanEnd(acts + [ParentCancelled], g)
  {
    RunStep(acts, ParentCancelled);
    ReleasedEnds(acts + [ParentCancelled], g);
    if Released(After(acts), g) {
      ReleasedEnds(acts, g);
    } else if later: seq<Action> :| Ends(acts, later, g) {
      ReleasesStay(acts, later, g);
      InvAfter(acts + later);
    }
  }

  /** The goroutine exits in some run that goes on after `acts`, without scraping again. */
  ghost predicate CanExitQuietly(acts: seq<Action>, g: nat)
    requires Possible(acts) && g < |After(acts).routines|
  {
    exists later: seq<Action> :: ExitsQuietly(acts, g, later)
  }

  ghost predicate ExitsQuietly(acts: seq<Action>, g: nat, later: seq<Action>)
    requires Possible(acts) && g < |After(acts).routines|
  {
    && Possible(acts + later)
    && g < |After(acts + later).routines|
    && After(acts + later).routines[g].phase == Exited
    && After(acts + later).routines[g].calls == After(acts).routines[g].calls
  }

  /** A cancelled goroutine that has scraped before can exit once its call, if one is running, returns. */
  function ToExit(w: World, g: nat): seq<Action>
    requires g < |w.routines|
  {
    match w.routines[g].phase
    case Waiting => [Leave(g)]
    case Scraping => [Return(g), Leave(g)]
    case _ => []
  }

  lemma ScrapedCanExit(acts: seq<Action>, g: nat)
    requires Possible(acts) && g < |After(acts).routines|
    requires After(acts).routines[g].cancelled && After(acts).routines[g].phase != Delaying
    ensures ExitsQuietly(acts, g, ToExit(After(acts), g))
  {
    var w := After(acts);
    match w.routines[g].phase
    case Waiting => LeavesQuietly(acts, g);
    case Scraping =>
      RunStep(acts, Return(g));
      var w' := Step(w, Return(g));
      assert w'.routines[g] == w.routines[g].(phase := Waiting);
      hide Step, Linked, Obedient, Unshared;
      LeavesQuietly(acts + [Return(g)], g);
      assert acts + [Return(g)] + [Leave(g)] == acts + [Return(g), Leave(g)];
    case Exited => assert acts + [] == acts;
  }

  lemma LeavesQuietly(acts: seq<Action>, g: nat)
    requires Possible(acts) && g < |After(acts).routines|
    requires After(acts).routines[g].cancelled && After(acts).routines[g].phase == Waiting
    ensures ExitsQuietly(acts, g, [Leave(g)])
  {
    RunStep(acts, Leave(g));
  }

  lemma UnscrapedCannotExit(acts: seq<Action>, g: nat, later: seq<Action>)
    requires Possible(acts) && g < |After(acts).routines| && After(acts).routines[g].calls == 0
    ensures !ExitsQuietly(acts, g, later)
  {
    if ExitsQuietly(acts, g, later) {
      InvAfter(acts + later);
    }
  }

  /**
   A removed goroutine can end without another scrape call if and only if it had made one before: cancelled in
   its initial delay, it always scrapes once more.
   */
  lemma QuietExit(acts: seq<Action>, name: string)
    requires Possible(acts) && name != "" && TargetID(name) in After(acts).targets
    ensures
      var removed, g := acts + [NodeDeleted(name)], After(acts).targets[TargetID(name)];
      && Possible(removed) && g < |After(removed).routines|
      && (CanExitQuietly(removed, g) <==> After(acts).routines[g].calls > 0)
  {
    InvAfter(acts);
    var removed, g := acts + [NodeDeleted(name)], After(acts).targets[TargetID(name)];
    RunStep(acts, NodeDeleted(name));
    InvAfter(removed);
    hide After, Possible, Step, Linked, Unshared, ExitsQuietly;
    if After(acts).routines[g].calls > 0 {
      ScrapedCanExit(removed, g);
    } else {
      forall later: seq<Action> ensures !ExitsQuietly(removed, g, later) {
        UnscrapedCannotExit(removed, g, later);
      }
    }
  }

  /**
   Calls for one node may overlap once it was removed and added again: a cancelled goroutine can still be
   in its first scrape, begun after the cancellation, while its successor scrapes too.
   */
  lemma ReplacedTargetOverlaps(name: string)
    requires name != ""
    ensures
      var acts := [NodeAdded(name), NodeDeleted(name), NodeAdded(name), Wake(0), Wake(1)];
      && Possible(acts)
      && |After(acts).routines| == 2
      && After(acts).routines[0] == Routine(TargetID(name), 0, Scraping, true, 1)
      && After(acts).routines[1] == Routine(TargetID(name), 1, Scraping, false, 1)
      && Overlap(After(acts), TargetID(name))
  {
    var id := TargetID(name);
    var a1 := [NodeAdded(name)];
    RunStep([], NodeAdded(name));
    assert [] + [NodeAdded(name)] == a1;
    var a2 := [NodeAdded(name), NodeDeleted(name)];
    RunStep(a1, NodeDeleted(name));
    assert a1 + [NodeDeleted(name)] == a2;
    assert After(a2) == World(map[], [Routine(id, 0, Delaying, true, 0)], false, 1);
    var a3 := [NodeAdded(name), NodeDeleted(name), NodeAdded(name)];
    RunStep(a2, NodeAdded(name));
    assert a2 + [NodeAdded(name)] == a3;
    var a4 := [NodeAdded(name), NodeDeleted(name), NodeAdded(name), Wake(0)];
    RunStep(a3, Wake(0));
    assert a3 + [Wake(0)] == a4;
    RunStep(a4, Wake(1));
    var a5 := [NodeAdded(name), NodeDeleted(name), NodeAdded(name), Wake(0), Wake(1)];
    assert a4 + [Wake(1)] == a5;
    assert ScrapingFor(After(a5), 0, id) && ScrapingFor(After(a5), 1, id);
  }

  // ---------- the manager object ----------

  /** The manager's map, its goroutines and their contexts; each method runs under the manager's mutex. */
  class Manager {
    var targets: map<string, nat>
    var routines: seq<Routine>
    var parentDone: bool

    /** Scrapers made so far, which number the scrapers apart. */
    var scrapers: nat

    /** The state of the protocol. */
    ghost function State(): World
      reads this
    {
      World(targets, routines, parentDone, scrapers)
    }

    constructor ()
      ensures State() == START
    {
      targets, routines, parentDone, scrapers := map[], [], false, 0;
    }

    method AddTarget(id: string, scraper: nat)
      modifies this
      ensures State() == Added(old(State()), id, scraper)
      ensures id in old(targets) ==> State() == old(State())
      ensures id !in old(targets) ==>
        && targets == old(targets)[id := |old(routines)|]
        && routines == old(routines) + [Routine(id, scraper, Delaying, false, 0)]
    {
      if id in targets {
        return;
      }
      targets := targets[id := |routines|];
      routines := routines + [Routine(id, scraper, Delaying, false, 0)];
    }

    method RemoveTarget(id: string)
      requires Inv(State())
      modifies this
      ensures State() == Removed(old(State()), id)
      ensures id !in old(targets) ==> State() == old(State())
      ensures id in old(targets) ==>
        var g := old(targets)[id];
        && targets == old(targets) - {id}
        && g < |old(routines)| && routines == old(routines)[g := old(routines)[g].(cancelled := true)]
    {
      if id in targets {
        routines := routines[targets[id] := routines[targets[id]].(cancelled := true)];
        targets := targets - {id};
      }
    }

    /** `NodeEventHandler.OnAdd`: every call makes a new scraper, even for a node that is already a target. */
    method OnAdd(name: string)
      modifies this
      ensures State() == Step(old(State()), NodeAdded(name))
      ensures name == "" ==> State() == old(State())
      ensures name != "" ==> "node/" + name in targets
    {
      if name == "" {
        return;
      }
      AddTarget(TargetID(name), scrapers);
      scrapers := scrapers + 1;
    }

    /** `NodeEventHandler.OnDelete`. */
    method OnDelete(name: string)
      requires Inv(State())
      modifies this
      ensures State() == Step(old(State()), NodeDeleted(name))
      ensures name == "" ==> State() == old(State())
      ensures name != "" ==> "node/" + name !in targets
    {
      if name == "" {
        return;
      }
      RemoveTarget(TargetID(name));
    }
  }
}
