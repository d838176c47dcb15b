/** What holds of every run of a submitted graph instance, however its steps interleave. */
module GraphSafety {
  import opened Digraph
  import opened GraphRun
  import opened Outcome
  import opened Sequences

  ghost predicate IsRun(root: Node, states: seq<State>, events: seq<Event>) {
    && |states| == |events| + 1
    && Initial(root, states[0])
    && forall i :: 0 <= i < |events| ==> Step(root, states[i], events[i], states[i + 1])
  }

  lemma {:induction false} RunInv(root: Node, states: seq<State>, events: seq<Event>, n: nat)
    requires IsRun(root, states, events) && n < |states|
    ensures Inv(root, states[n])
    ensures states[n].Keys == states[0].Keys
  {
    if n == 0 {
      InitialInv(root, states[0]);
    } else {
      RunInv(root, states, events, n - 1);
      assert Step(root, states[n - 1], events[n - 1], states[n]);
      StepInv(root, states[n - 1], events[n - 1], states[n]);
    }
  }

  lemma RunExtends(root: Node, states: seq<State>, events: seq<Event>, e: Event)
    requires IsRun(root, states, events) && Enabled(root, states[|events|], e)
    ensures IsRun(root, states + [Effect(states[|events|], e)], events + [e])
  {
    var states', events' := states + [Effect(states[|events|], e)], events + [e];
    forall i | 0 <= i < |events'| ensures Step(root, states'[i], events'[i], states'[i + 1]) {
      if i < |events| { assert Step(root, states[i], events[i], states[i + 1]); }
    }
  }

  // ---------------------------------------------------------------- each node runs once

  /** A node's status is the record of its events: each was submitted and completed as often as its status says. */
  ghost predicate Accounted(past: multiset<Event>, p: Path, status: Status) {
    && past[Submit(p)] == (if status.Pending? then 0 else 1)
    && past[Succeed(p)] == (if status.Done? then 1 else 0)
    && past[Fail(p)] == (if status.Failed? then 1 else 0)
  }

  lemma AccountStep(root: Node, s: State, e: Event, s': State, past: multiset<Event>, p: Path)
    requires Step(root, s, e, s') && p in s && Accounted(past, p, s[p])
    ensures p in s' && Accounted(past + multiset{e}, p, s'[p])
  {
    match e
    case Submit(q) =>
    case Busy(q) =>
    case Succeed(q) =>
    case Fail(q) =>
  }

  lemma {:induction false} Accounting(root: Node, states: seq<State>, events: seq<Event>, n: nat, p: Path)
    requires IsRun(root, states, events) && n < |states| && p in states[0]
    ensures p in states[n] && Accounted(Before(events, n), p, states[n][p])
  {
    assert n == 0 ==> Before(events, n) == multiset{};
    if n > 0 {
      Accounting(root, states, events, n - 1, p);
      assert Step(root, states[n - 1], events[n - 1], states[n]);
      BeforeNext(events, n - 1);
      AccountStep(root, states[n - 1], events[n - 1], states[n], Before(events, n - 1), p);
    }
  }

  /** A node's status tells exactly how often it has been submitted, has completed and has failed. */
  lemma StatusIsTheRecord(root: Node, states: seq<State>, events: seq<Event>, n: nat, p: Path)
    requires IsRun(root, states, events) && n < |states| && NodeAt(root, p).Some?
    ensures p in states[n]
    ensures var past, s := multiset(events[..n]), states[n][p];
            && past[Submit(p)] == (if s == Pending then 0 else 1)
            && past[Succeed(p)] == (if s == Done then 1 else 0)
            && past[Fail(p)] == (if s == Failed then 1 else 0)
  {
    assert p in states[0];
    Accounting(root, states, events, n, p);
  }

  lemma EventNodes(root: Node, states: seq<State>, events: seq<Event>, n: nat)
    requires IsRun(root, states, events) && n < |events|
    ensures events[n].p in states[0] && Step(root, states[n], events[n], states[n + 1])
  {
    RunInv(root, states, events, n);
    assert Step(root, states[n], events[n], states[n + 1]);
  }

  lemma EventInPast(events: seq<Event>, n: nat, e: Event) returns (m: nat)
    requires n <= |events| && e in Before(events, n)
    ensures m < n && events[m] == e
  {
    m :| 0 <= m < n && events[..n][m] == e;
  }

  /**
   * In every run a node is submitted at most once, completes at most once, never both well and
   * badly, and never without having been submitted. For [] this says that an instance gets at
   * most one callback in all.
   */
  lemma ExecutedAtMostOnce(root: Node, states: seq<State>, events: seq<Event>, p: Path)
    requires IsRun(root, states, events)
    ensures var past := multiset(events);
            past[Succeed(p)] + past[Fail(p)] <= past[Submit(p)] <= 1
  {
    assert events[..|events|] == events;
    if p in states[0] {
      Accounting(root, states, events, |events|, p);
    } else {
      forall e: Event | e.p == p ensures e !in events {
        if e in events {
          var n :| 0 <= n < |events| && events[n] == e;
          EventNodes(root, states, events, n);
        }
      }
    }
  }

  // ---------------------------------------------------------------- dependencies first, at every depth

  /** Everything inside a completed node has completed. */
  lemma {:induction false} DoneInside(root: Node, s: State, a: Path, x: Path)
    requires Inv(root, s) && a in s && x in s && a <= x && s[a].Done?
    ensures s[x].Done?
    decreases |x|
  {
    if a != x {
      ParentCovered(root, s, x);
      assert NodeInv(root, s, x);
      assert a <= Up(x);
      DoneInside(root, s, a, Up(x));
    }
  }

  /** Whatever has started, the nodes around it have started. */
  lemma {:induction false} StartedAround(root: Node, s: State, b: Path, y: Path)
    requires Inv(root, s) && b <= y && y in s && !s[y].Pending?
    ensures b in s && !s[b].Pending?
    decreases |y|
  {
    if b != y {
      ParentCovered(root, s, y);
      assert NodeInv(root, s, y);
      assert b <= Up(y);
      StartedAround(root, s, b, Up(y));
    }
  }

  /** A started node has all its ancestors in the dependency graph behind it, not just its direct ones. */
  lemma {:induction false} AncestorsDone(root: Node, s: State, c: Path, path: seq<nat>)
    requires WellFormed(root) && Inv(root, s)
    requires IsPath(DepsAt(root, c), path)
    requires c + [path[|path| - 1]] in s && !s[c + [path[|path| - 1]]].Pending?
    ensures c + [path[0]] in s && s[c + [path[0]]].Done?
    decreases |path|
  {
    var i, j := path[|path| - 1], path[|path| - 2];
    var p := c + [i];
    assert Up(p) == c && Last(p) == i;
    assert NodeInv(root, s, p);
    assert (path[|path| - 2], path[|path| - 1]) in DepsAt(root, c);
    assert Sibling(p, j) == c + [j];
    if |path| > 2 {
      var init := path[..|path| - 1];
      assert IsPath(DepsAt(root, c), init);
      AncestorsDone(root, s, c, init);
    }
  }

  /**
   * x must be over before y may begin: somewhere, in the sub-graph at c, the node containing x
   * precedes the node containing y, directly or through other nodes.
   */
  ghost predicate Precedes(root: Node, x: Path, y: Path) {
    exists c: Path, j: nat, i: nat ::
      Reaches(DepsAt(root, c), j, i) && c + [j] <= x && c + [i] <= y
  }

  lemma PrecedesDone(root: Node, s: State, x: Path, y: Path)
    requires WellFormed(root) && Inv(root, s) && Precedes(root, x, y)
    requires x in s && y in s && !s[y].Pending?
    ensures s[x].Done?
  {
    var c: Path, j: nat, i: nat :| Reaches(DepsAt(root, c), j, i) && c + [j] <= x && c + [i] <= y;
    StartedAround(root, s, c + [i], y);
    var path :| IsPath(DepsAt(root, c), path) && path[0] == j && path[|path| - 1] == i;
    AncestorsDone(root, s, c, path);
    DoneInside(root, s, c + [j], x);
  }

  /**
   * The ordering promise, at any nesting depth. Before a node y is submitted, every node that
   * precedes it has completed successfully: its own dependencies, everything inside them when they
   * are sub-graphs, and everything the sub-graphs around y depend on.
   */
  lemma PredecessorsCompleteFirst(root: Node, states: seq<State>, events: seq<Event>, n: nat, x: Path)
    returns (m: nat)
    requires WellFormed(root) && IsRun(root, states, events) && n < |events| && events[n].Submit?
    requires x in states[0] && Precedes(root, x, events[n].p)
    ensures m < n && events[m] == Succeed(x)
  {
    EventNodes(root, states, events, n);
    RunInv(root, states, events, n + 1);
    RunInv(root, states, events, n);
    PrecedesDone(root, states[n + 1], x, events[n].p);
    assert x != events[n].p;
    Accounting(root, states, events, n, x);
    m := EventInPast(events, n, Succeed(x));
  }

  /**
   * The same over the graphs themselves. When the graph at c makes node i depend on node j, then
   * node i, and whatever runs inside it, is submitted only after node j, and whatever runs inside
   * that, has completed successfully.
   */
  lemma DependenciesFirst(
      root: Node, states: seq<State>, events: seq<Event>, n: nat, c: Path, g: Graph, j: nat, i: nat, x: Path)
    returns (m: nat)
    requires WellFormed(root) && IsRun(root, states, events) && n < |events|
    requires NodeAt(root, c) == Some(Sub(g)) && (j, i) in g.deps
    requires events[n].Submit? && c + [i] <= events[n].p
    requires c + [j] <= x && NodeAt(root, x).Some?
    ensures m < n && events[m] == Succeed(x)
  {
    EdgeReaches(DepsAt(root, c), j, i);
    assert Precedes(root, x, events[n].p);
    assert x in states[0];
    m := PredecessorsCompleteFirst(root, states, events, n, x);
  }

  lemma DependencyFirst(
      root: Node, states: seq<State>, events: seq<Event>, n: nat, c: Path, g: Graph, j: nat, i: nat)
    returns (m: nat)
    requires WellFormed(root) && IsRun(root, states, events) && n < |events|
    requires NodeAt(root, c) == Some(Sub(g)) && (j, i) in g.deps && events[n] == Submit(c + [i])
    ensures m < n && events[m] == Succeed(c + [j])
  {
    WellFormedAt(root, c);
    var e: (nat, nat) := (j, i);
    assert e in g.deps && e.0 < |g.nodes|;
    ChildAt(root, c, g, j);
    m := DependenciesFirst(root, states, events, n, c, g, j, i, c + [j]);
  }

  /** Precedence is reachability in one of the graphs, between the nodes that x and y lie in, ... */
  lemma PrecedesInAGraph(root: Node, x: Path, y: Path) returns (c: Path, g: Graph, j: nat, i: nat)
    requires Precedes(root, x, y)
    ensures NodeAt(root, c) == Some(Sub(g)) && Reaches(g.deps, j, i) && c + [j] <= x && c + [i] <= y
  {
    c, j, i :| Reaches(DepsAt(root, c), j, i) && c + [j] <= x && c + [i] <= y;
    var b := LastEdge(DepsAt(root, c), j, i);
    g := NodeAt(root, c).value.graph;
  }

  /** ... and any such reachability is precedence. */
  lemma InAGraphPrecedes(root: Node, x: Path, y: Path, c: Path, g: Graph, j: nat, i: nat)
    requires NodeAt(root, c) == Some(Sub(g)) && Reaches(g.deps, j, i) && c + [j] <= x && c + [i] <= y
    ensures Precedes(root, x, y)
  {
    assert Reaches(DepsAt(root, c), j, i);
  }

  // ---------------------------------------------------------------- the completion callback

  /** A completed instance has executed every node at every depth exactly once, and none has failed. */
  lemma CompletionMeansEverythingRan(root: Node, states: seq<State>, events: seq<Event>, n: nat, p: Path)
    requires IsRun(root, states, events) && n < |events| && events[n] == Succeed([])
    requires NodeAt(root, p).Some?
    ensures var past := multiset(events[..n + 1]);
            past[Submit(p)] == 1 && past[Succeed(p)] == 1 && past[Fail(p)] == 0
  {
    assert p in states[0];
    EventNodes(root, states, events, n);
    RunInv(root, states, events, n + 1);
    Accounting(root, states, events, n + 1, p);
    DoneInside(root, states[n + 1], [], p);
  }

  /** While an instance is over, nothing inside it is still in flight. */
  lemma {:induction false} NothingInFlightInside(root: Node, s: State, a: Path, x: Path)
    requires Inv(root, s) && a in s && x in s && a <= x && !s[a].InFlight?
    ensures !s[x].InFlight?
    decreases |x|
  {
    if a != x {
      ParentCovered(root, s, x);
      assert NodeInv(root, s, x);
      assert a <= Up(x);
      NothingInFlightInside(root, s, a, Up(x));
    }
  }

  /** After the callback of the instance, of either kind, no event at all is possible. */
  lemma NothingAfterTheCallback(root: Node, states: seq<State>, events: seq<Event>, n: nat)
    requires IsRun(root, states, events) && n < |events| && (events[n] == Succeed([]) || events[n] == Fail([]))
    ensures n + 1 == |events|
  {
    EventNodes(root, states, events, n);
    var s := states[n + 1];
    RunInv(root, states, events, n + 1);
    if n + 1 < |events| {
      EventNodes(root, states, events, n + 1);
      var p := events[n + 1].p;
      NothingInFlightInside(root, s, [], p);
      assert p != [];
      NothingInFlightInside(root, s, [], Up(p));
      assert false;
    }
  }

  // ---------------------------------------------------------------- failure

  lemma {:induction false} FinishedStays(root: Node, states: seq<State>, events: seq<Event>, m: nat, n: nat, p: Path)
    requires IsRun(root, states, events) && m <= n < |states|
    requires p in states[m] && (states[m][p].Failed? || states[m][p].Done?)
    ensures p in states[n] && states[n][p] == states[m][p]
    decreases n
  {
    if m < n {
      FinishedStays(root, states, events, m, n - 1, p);
      assert Step(root, states[n - 1], events[n - 1], states[n]);
    }
  }

  /** Once a node has failed, no further node of the same instance is ever submitted. */
  lemma NoSubmissionAfterFailure(root: Node, states: seq<State>, events: seq<Event>, m: nat, n: nat)
    requires IsRun(root, states, events) && m < n < |events|
    requires events[m].Fail? && events[m].p != [] && events[n].Submit? && events[n].p != []
    ensures Up(events[m].p) != Up(events[n].p)
  {
    var failed := events[m].p;
    EventNodes(root, states, events, m);
    EventNodes(root, states, events, n);
    FinishedStays(root, states, events, m + 1, n, failed);
  }

  /** Whatever is in flight, the nodes around it are in flight. */
  lemma {:induction false} InFlightAround(root: Node, s: State, b: Path, y: Path)
    requires Inv(root, s) && b <= y && y in s && s[y].InFlight?
    ensures b in s && s[b].InFlight?
    decreases |y|
  {
    if b != y {
      ParentCovered(root, s, y);
      assert NodeInv(root, s, y);
      assert b <= Up(y);
      InFlightAround(root, s, b, Up(y));
    }
  }

  /** A node submitted before step m that is in flight at a later step n is in flight at m. */
  lemma InFlightBetween(root: Node, states: seq<State>, events: seq<Event>, k: nat, m: nat, n: nat, b: Path)
    requires IsRun(root, states, events) && k < m <= n < |states| && events[k] == Submit(b)
    requires b in states[n] && states[n][b].InFlight?
    ensures b in states[m] && states[m][b].InFlight?
  {
    RunInv(root, states, events, m);
    RunInv(root, states, events, n);
    Accounting(root, states, events, m, b);
    assert events[..m][k] == Submit(b);
    if !states[m][b].InFlight? { FinishedStays(root, states, events, m, n, b); }
  }

  /**
   * Exactly what a failure stops. If a node x of the instance at c has failed, whatever is still
   * submitted anywhere inside that instance lies within one of its sub-graphs, other than x, that
   * was already in flight when x failed; that sub-graph is itself an instance that must complete.
   */
  lemma SubmissionsAfterFailure(root: Node, states: seq<State>, events: seq<Event>, m: nat, n: nat, c: Path)
    requires IsRun(root, states, events) && m < n < |events|
    requires events[m].Fail? && ChildOf(events[m].p, c)
    requires events[n].Submit? && c <= events[n].p && c != events[n].p
    ensures var b := events[n].p[..|c| + 1];
            && b != events[n].p && b != events[m].p && ChildOf(b, c)
            && b in states[m] && states[m][b].InFlight? && IsSub(root, b)
  {
    var x, y := events[m].p, events[n].p;
    var b := y[..|c| + 1];
    EventNodes(root, states, events, m);
    EventNodes(root, states, events, n);
    RunInv(root, states, events, n);
    assert Up(b) == c;
    NoSubmissionAfterFailure(root, states, events, m, n);
    assert b <= Up(y);
    InFlightAround(root, states[n], b, Up(y));
    FinishedStays(root, states, events, m + 1, n, x);
    Accounting(root, states, events, n, b);
    var k := EventInPast(events, n, Submit(b));
    if m < k { NoSubmissionAfterFailure(root, states, events, m, k); }
    InFlightBetween(root, states, events, k, m, n, b);
    InsideIsSub(root, states[n], b, y);
  }

  /** A node with others inside it runs a sub-graph. */
  lemma {:induction false} InsideIsSub(root: Node, s: State, b: Path, y: Path)
    requires Covers(root, s) && b <= y && b != y && y in s
    ensures IsSub(root, b)
    decreases |y|
  {
    ParentCovered(root, s, y);
    assert b <= Up(y);
    if b != Up(y) { InsideIsSub(root, s, b, Up(y)); }
  }

  /**
   * An instance, at whatever depth, reports failure only after one of its nodes failed, and only
   * when everything in flight inside it, at every depth, has drained.
   */
  lemma FailureReportedAfterDraining(root: Node, states: seq<State>, events: seq<Event>, n: nat, x: Path)
    returns (m: nat)
    requires IsRun(root, states, events) && n < |events|
    requires events[n].Fail? && IsSub(root, events[n].p)
    requires x in states[0] && events[n].p <= x && x != events[n].p
    ensures x in states[n] && !states[n][x].InFlight?
    ensures m < n && events[m].Fail? && ChildOf(events[m].p, events[n].p)
  {
    var p := events[n].p;
    EventNodes(root, states, events, n);
    RunInv(root, states, events, n);
    RunInv(root, states, events, n + 1);
    NothingInFlightInside(root, states[n + 1], p, x);
    var c :| c in states[n] && ChildOf(c, p) && states[n][c].Failed?;
    Accounting(root, states, events, n, c);
    m := EventInPast(events, n, Fail(c));
  }

  ghost predicate ShorterThan(s: State, bound: nat) {
    forall p :: p in s ==> |p| < bound
  }

  /** A failed instance contains a context or user node that failed: failure never arises from nothing. */
  lemma {:induction false} FailureHasACause(root: Node, s: State, p: Path, bound: nat) returns (x: Path)
    requires Inv(root, s) && ShorterThan(s, bound) && p in s && s[p].Failed?
    ensures p <= x && x in s && s[x].Failed? && !IsSub(root, x)
    decreases bound - |p|
  {
    if IsSub(root, p) {
      assert NodeInv(root, s, p);
      var c :| c in s && ChildOf(c, p) && s[c].Failed?;
      assert p <= c;
      x := FailureHasACause(root, s, c, bound);
    } else {
      x := p;
    }
  }
}
