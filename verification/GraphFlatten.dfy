/**
 * A graph of graphs and its flattening.
 *
 * Flattening forgets when sub-graph nodes are submitted and completed and keeps the context and
 * user nodes, each of which waits for all the nodes that precede it at any depth. What is left of
 * nesting is which sub-graphs are open: a sub-graph can be entered once everything that precedes
 * it is done, unless a node beside it has failed before that. A run of the nested graph is, event
 * for event on the kept nodes, a run of the flattening, and every run of the flattening, with or
 * without failures, comes from a run of the nested graph. Without failures order is all there is.
 */
module GraphFlatten {
  import opened Digraph
  import opened GraphRun
  import opened GraphSafety
  import opened GraphLiveness

  ghost predicate Leaf(root: Node, p: Path) { NodeAt(root, p).Some? && !IsSub(root, p) }

  /** The part of a state that the flattening keeps. */
  function Leaves(root: Node, s: State): State { map p | p in s && !IsSub(root, p) :: s[p] }

  function LeafEvents(root: Node, events: seq<Event>): seq<Event> {
    if events == [] then []
    else
      var n := |events| - 1;
      LeafEvents(root, events[..n]) + if IsSub(root, events[n].p) then [] else [events[n]]
  }

  /** Every leaf that precedes y is done. */
  ghost predicate Clear(root: Node, f: State, y: Path) {
    forall x :: x in f && !IsSub(root, x) && Precedes(root, x, y) ==> f[x].Done?
  }

  /** A context or user node directly in the sub-graph at p has failed. */
  ghost predicate Blocked(f: State, p: Path) {
    exists c :: c in f && ChildOf(c, p) && f[c].Failed?
  }

  /** Sub-graph b is open already or, with the one around it open, can be entered now. */
  ghost predicate Entered(root: Node, f: State, open: set<Path>, b: Path)
    decreases |b|
  {
    b == [] || (&& Entered(root, f, open, Up(b))
                && (b in open || (!Blocked(f, Up(b)) && Clear(root, f, b))))
  }

  /** The sub-graphs that are open once the leaves are as in f. */
  ghost function Opened(root: Node, f: State, open: set<Path>): set<Path> {
    set b | b in AllPaths(root) && IsSub(root, b) && Entered(root, f, open, b)
  }

  /** A leaf may be submitted when all before it are done, its sub-graph is open, and no leaf beside it has failed. */
  ghost predicate MaySubmit(root: Node, f: State, open: set<Path>, y: Path)
    requires y in f
  {
    f[y].Pending? && Clear(root, f, y) && y != [] && Up(y) in open && !Blocked(f, Up(y))
  }

  ghost predicate FlatEnabled(root: Node, f: State, open: set<Path>, e: Event) {
    && e.p in f && Leaf(root, e.p)
    && match e
       case Submit(y) => MaySubmit(root, f, open, y)
       case Busy(y) => MaySubmit(root, f, open, y) && NodeAt(root, y).value.Ctx?
       case Succeed(y) => f[y].InFlight?
       case Fail(y) => f[y].InFlight?
  }

  ghost predicate FlatInitial(root: Node, f: State) {
    forall p: Path {:trigger p in f} :: (p in f <==> Leaf(root, p)) && (p in f ==> f[p].Pending?)
  }

  ghost predicate FlatStep(root: Node, f: State, open: set<Path>, e: Event, f': State, open': set<Path>) {
    FlatEnabled(root, f, open, e) && f' == Effect(f, e) && open' == Opened(root, f', open)
  }

  /** The flattening can take these events, in this order, through these states. */
  ghost predicate FlatRun(root: Node, fs: seq<State>, opens: seq<set<Path>>, flat: seq<Event>) {
    && |fs| == |opens| == |flat| + 1
    && FlatInitial(root, fs[0]) && opens[0] == Opened(root, fs[0], {})
    && forall i :: 0 <= i < |flat| ==> FlatStep(root, fs[i], opens[i], flat[i], fs[i + 1], opens[i + 1])
  }

  // ---------------------------------------------------------------- the flattening is a graph

  lemma PrefixCompare(a: Path, b: Path, x: Path)
    requires a <= x && b <= x
    ensures |a| <= |b| ==> a <= b
  {
    if |a| <= |b| {
      forall k | 0 <= k < |a| ensures a[k] == b[k] { assert a[k] == x[k] && b[k] == x[k]; }
    }
  }

  /** Precedence goes on through the dependencies around and inside sub-graphs. */
  lemma PrecedesTransitive(root: Node, x: Path, y: Path, z: Path)
    requires Precedes(root, x, y) && Precedes(root, y, z)
    ensures Precedes(root, x, z)
  {
    var c: Path, j: nat, i: nat :| Reaches(DepsAt(root, c), j, i) && c + [j] <= x && c + [i] <= y;
    var d: Path, k: nat, l: nat :| Reaches(DepsAt(root, d), k, l) && d + [k] <= y && d + [l] <= z;
    PrefixCompare(c + [i], d + [k], y);
    PrefixCompare(d + [k], c + [i], y);
    if |c| == |d| {
      assert (c + [i])[..|c|] == c && (d + [k])[..|d|] == d;
      assert c == d && (c + [i])[|c|] == (d + [k])[|d|];
      ReachesTransitive(DepsAt(root, c), j, i, l);
    } else if |c| < |d| {
      // the second dependency lies inside the node that the first one leads to
      assert c + [i] <= d by { assert (d + [k])[..|d|] == d; PrefixCompare(c + [i], d, d + [k]); }
      assert c + [i] <= z;
      assert Reaches(DepsAt(root, c), j, i) && c + [j] <= x && c + [i] <= z;
    } else {
      // the first dependency lies inside the node that the second one starts from
      assert d + [k] <= c by { assert (c + [i])[..|c|] == c; PrefixCompare(d + [k], c, c + [i]); }
      assert d + [k] <= x;
      assert Reaches(DepsAt(root, d), k, l) && d + [k] <= x && d + [l] <= z;
    }
  }

  /** Precedence never runs in a circle, so the flattening can be executed at all. */
  lemma PrecedesIrreflexive(root: Node, x: Path)
    requires WellFormed(root)
    ensures !Precedes(root, x, x)
  {
    if Precedes(root, x, x) {
      var c: Path, j: nat, i: nat :| Reaches(DepsAt(root, c), j, i) && c + [j] <= x && c + [i] <= x;
      assert x[|c|] == j && x[|c|] == i;
      DepsAcyclic(root, c);
    }
  }

  // ---------------------------------------------------------------- nested runs are flat runs

  /** A node that may be submitted has everything that precedes it, at any depth, behind it. */
  lemma ReadyIsClear(root: Node, s: State, y: Path)
    requires WellFormed(root) && Inv(root, s) && Ready(root, s, y)
    ensures Clear(root, s, y)
  {
    var started := s[y := InFlight];
    assert Step(root, s, Submit(y), started);
    StepInv(root, s, Submit(y), started);
    forall x | x in s && !IsSub(root, x) && Precedes(root, x, y) ensures s[x].Done? {
      PrecedesDone(root, started, x, y);
    }
  }

  lemma LeavesOfUpdate(root: Node, s: State, p: Path, st: Status)
    requires p in s
    ensures Leaves(root, s[p := st]) == if IsSub(root, p) then Leaves(root, s) else Leaves(root, s)[p := st]
  {
  }

  /** What has been entered stays open, with everything around it. */
  ghost predicate OpenOutwards(root: Node, open: set<Path>) {
    forall b :: b in open ==> b in AllPaths(root) && IsSub(root, b) && (b != [] ==> Up(b) in open)
  }

  /** Whatever can be entered is open. */
  ghost predicate OpenInwards(root: Node, f: State, open: set<Path>) {
    forall b :: b in AllPaths(root) && IsSub(root, b) ==>
      (b == [] || (Up(b) in open && !Blocked(f, Up(b)) && Clear(root, f, b)) ==> b in open)
  }

  lemma OpenedIsOpen(root: Node, f: State, open: set<Path>)
    requires OpenOutwards(root, open)
    ensures OpenOutwards(root, Opened(root, f, open)) && OpenInwards(root, f, Opened(root, f, open))
    ensures open <= Opened(root, f, open)
  {
    forall b | b in Opened(root, f, open) && b != [] ensures Up(b) in Opened(root, f, open) {
      AllPathsAreTheNodes(root, b);
      AllPathsAreTheNodes(root, Up(b));
    }
    forall b | b in open ensures b in Opened(root, f, open) { StaysEntered(root, f, open, b); }
  }

  lemma {:induction false} StaysEntered(root: Node, f: State, open: set<Path>, b: Path)
    requires OpenOutwards(root, open) && b in open
    ensures Entered(root, f, open, b)
    decreases |b|
  {
    if b != [] { StaysEntered(root, f, open, Up(b)); }
  }

  /** The nested state s may be what the flattening is in: no more sub-graphs have started than are open. */
  ghost predicate Within(root: Node, s: State, open: set<Path>) {
    && OpenOutwards(root, open) && OpenInwards(root, Leaves(root, s), open)
    && forall b :: b in s && IsSub(root, b) && !s[b].Pending? ==> b in open
  }

  lemma ReadyIsOpen(root: Node, s: State, y: Path, open: set<Path>)
    requires WellFormed(root) && Inv(root, s) && Ready(root, s, y) && Within(root, s, open)
    ensures Clear(root, Leaves(root, s), y)
    ensures y != [] ==> Up(y) in open && !Blocked(Leaves(root, s), Up(y))
    ensures IsSub(root, y) ==> y in open
  {
    ReadyIsClear(root, s, y);
    if y != [] { ParentCovered(root, s, y); }
    AllPathsAreTheNodes(root, y);
  }

  /** One step of the nested graph is a step of the flattening, or is invisible there. */
  lemma StepFlattens(root: Node, s: State, e: Event, open: set<Path>) returns (open': set<Path>)
    requires WellFormed(root) && root.Sub? && Inv(root, s) && Enabled(root, s, e) && Within(root, s, open)
    ensures Within(root, Effect(s, e), open')
    ensures if IsSub(root, e.p) then Leaves(root, Effect(s, e)) == Leaves(root, s) && open' == open
            else FlatStep(root, Leaves(root, s), open, e, Leaves(root, Effect(s, e)), open')
  {
    LeavesOfStep(root, s, e);
    if e.Submit? || e.Busy? { ReadyIsOpen(root, s, e.p, open); }
    if IsSub(root, e.p) {
      open' := open;
    } else {
      open' := Opened(root, Leaves(root, Effect(s, e)), open);
      OpenedIsOpen(root, Leaves(root, Effect(s, e)), open);
    }
  }

  lemma RunStepFlattens(root: Node, states: seq<State>, events: seq<Event>, n: nat, open: set<Path>)
    returns (open': set<Path>)
    requires WellFormed(root) && root.Sub? && IsRun(root, states, events) && n < |events|
    requires Within(root, states[n], open)
    ensures Within(root, states[n + 1], open')
    ensures if IsSub(root, events[n].p) then Leaves(root, states[n + 1]) == Leaves(root, states[n]) && open' == open
            else FlatStep(root, Leaves(root, states[n]), open, events[n], Leaves(root, states[n + 1]), open')
  {
    RunInv(root, states, events, n);
    EventNodes(root, states, events, n);
    open' := StepFlattens(root, states[n], events[n], open);
  }

  lemma LeavesOfStep(root: Node, s: State, e: Event)
    requires Enabled(root, s, e)
    ensures Leaves(root, Effect(s, e))
            == if IsSub(root, e.p) then Leaves(root, s) else Effect(Leaves(root, s), e)
  {
    match e
    case Submit(p) => LeavesOfUpdate(root, s, p, InFlight);
    case Busy(p) =>
    case Succeed(p) => LeavesOfUpdate(root, s, p, Done);
    case Fail(p) => LeavesOfUpdate(root, s, p, Failed);
  }

  lemma FlatRunExtends(
      root: Node, fs: seq<State>, opens: seq<set<Path>>, flat: seq<Event>, e: Event, f: State, open: set<Path>)
    requires FlatRun(root, fs, opens, flat) && FlatStep(root, fs[|flat|], opens[|flat|], e, f, open)
    ensures FlatRun(root, fs + [f], opens + [open], flat + [e])
  {
    var fs', opens', flat' := fs + [f], opens + [open], flat + [e];
    forall i | 0 <= i < |flat'| ensures FlatStep(root, fs'[i], opens'[i], flat'[i], fs'[i + 1], opens'[i + 1]) {
      if i < |flat| { assert FlatStep(root, fs[i], opens[i], flat[i], fs[i + 1], opens[i + 1]); }
    }
  }

  lemma LeafEventsSnoc(root: Node, events: seq<Event>, n: nat)
    requires n < |events|
    ensures LeafEvents(root, events[..n + 1])
            == LeafEvents(root, events[..n]) + if IsSub(root, events[n].p) then [] else [events[n]]
  {
    assert events[..n + 1][..n] == events[..n];
  }

  /** Every run of the nested graph, failures included, projects to a run of its flattening. */
  lemma {:induction false} RunsFlatten(root: Node, states: seq<State>, events: seq<Event>, n: nat)
    returns (fs: seq<State>, opens: seq<set<Path>>)
    requires WellFormed(root) && root.Sub? && IsRun(root, states, events) && n <= |events|
    ensures FlatRun(root, fs, opens, LeafEvents(root, events[..n]))
    ensures fs[|fs| - 1] == Leaves(root, states[n]) && Within(root, states[n], opens[|opens| - 1])
  {
    if n == 0 {
      var f := Leaves(root, states[0]);
      OpenedIsOpen(root, f, {});
      fs, opens := [f], [Opened(root, f, {})];
      StartFlattens(root, states[0]);
    } else {
      fs, opens := RunsFlatten(root, states, events, n - 1);
      fs, opens := OneMoreFlattens(root, states, events, n - 1, fs, opens);
    }
  }

  lemma OneMoreFlattens(
      root: Node, states: seq<State>, events: seq<Event>, n: nat, fs: seq<State>, opens: seq<set<Path>>)
    returns (fs': seq<State>, opens': seq<set<Path>>)
    requires WellFormed(root) && root.Sub? && IsRun(root, states, events) && n < |events|
    requires FlatRun(root, fs, opens, LeafEvents(root, events[..n]))
    requires fs[|fs| - 1] == Leaves(root, states[n]) && Within(root, states[n], opens[|opens| - 1])
    ensures FlatRun(root, fs', opens', LeafEvents(root, events[..n + 1]))
    ensures fs'[|fs'| - 1] == Leaves(root, states[n + 1]) && Within(root, states[n + 1], opens'[|opens'| - 1])
  {
    var open := RunStepFlattens(root, states, events, n, opens[|opens| - 1]);
    LeafEventsSnoc(root, events, n);
    var flat := LeafEvents(root, events[..n]);
    if IsSub(root, events[n].p) {
      assert flat + [] == flat;
      fs', opens' := fs, opens;
    } else {
      var f := Leaves(root, states[n + 1]);
      FlatRunExtends(root, fs, opens, flat, events[n], f, open);
      fs', opens' := fs + [f], opens + [open];
    }
  }

  lemma StartFlattens(root: Node, s: State)
    requires Initial(root, s)
    ensures FlatInitial(root, Leaves(root, s))
  {
  }

  // ---------------------------------------------------------------- flat runs come from nested runs

  /** No sub-graph is waiting to be submitted or to complete. */
  ghost predicate Settled(root: Node, s: State) {
    forall p :: p in s && IsSub(root, p) ==>
      !Enabled(root, s, Submit(p)) && !Enabled(root, s, Succeed(p))
  }

  /** Sub-graphs with failed nodes have not reported it yet, and never need to. */
  ghost predicate SubsUnfailed(root: Node, s: State) {
    forall p :: p in s && IsSub(root, p) ==> !s[p].Failed?
  }

  ghost function Rank(root: Node, b: Path): nat
    requires b != []
  {
    |set e | e in DepsAt(root, Up(b)) && Reaches(DepsAt(root, Up(b)), e.0, Last(b)) :: e.0|
  }

  lemma RankDecreases(root: Node, b: Path, j: nat)
    requires WellFormed(root) && b != [] && NodeAt(root, b).Some? && (j, Last(b)) in DepsAt(root, Up(b))
    ensures Rank(root, Sibling(b, j)) < Rank(root, b)
  {
    var es, d := DepsAt(root, Up(b)), Sibling(b, j);
    WellFormedAt(root, Up(b));
    assert Up(d) == Up(b) && Last(d) == j;
    EdgeReaches(es, j, Last(b));
    var below := set e | e in es && Reaches(es, e.0, j) :: e.0;
    var above := set e | e in es && Reaches(es, e.0, Last(b)) :: e.0;
    forall n | n in below ensures n in above {
      ReachesTransitive(es, n, j, Last(b));
    }
    assert (j, Last(b)).0 in above && j !in below;
    StrictSubsetSmaller(below, above);
  }

  /** The precedence of a node includes that of the node around it and of its dependencies. */
  lemma ClearOutwards(root: Node, s: State, b: Path)
    requires Clear(root, s, b) && b != []
    ensures Clear(root, s, Up(b))
    ensures forall j: nat :: (j, Last(b)) in DepsAt(root, Up(b)) ==>
              Clear(root, s, Sibling(b, j)) && LeavesDone(root, s, Sibling(b, j))
  {
    forall x | x in s && !IsSub(root, x) && Precedes(root, x, Up(b)) ensures s[x].Done? {
      var c: Path, j: nat, i: nat :| Reaches(DepsAt(root, c), j, i) && c + [j] <= x && c + [i] <= Up(b);
      assert c + [i] <= b;
      assert Precedes(root, x, b);
    }
    forall j: nat | (j, Last(b)) in DepsAt(root, Up(b))
      ensures Clear(root, s, Sibling(b, j)) && LeavesDone(root, s, Sibling(b, j))
    {
      EdgeReaches(DepsAt(root, Up(b)), j, Last(b));
      assert b == Up(b) + [Last(b)];
      assert Precedes(root, Sibling(b, j), b);
      forall x | x in s && !IsSub(root, x) && Precedes(root, x, Sibling(b, j)) ensures s[x].Done? {
        PrecedesTransitive(root, x, Sibling(b, j), b);
      }
      forall x | x in s && !IsSub(root, x) && Sibling(b, j) <= x ensures s[x].Done? {
        assert Reaches(DepsAt(root, Up(b)), j, Last(b)) && Up(b) + [j] <= x && Up(b) + [Last(b)] <= b;
        assert Precedes(root, x, b);
      }
    }
  }

  ghost predicate LeavesDone(root: Node, s: State, b: Path) {
    forall x :: x in s && !IsSub(root, x) && b <= x ==> s[x].Done?
  }

  /** A child of a node whose leaves are all done has nothing to wait for either. */
  lemma ClearInwards(root: Node, s: State, b: Path, c: Path)
    requires Clear(root, s, b) && LeavesDone(root, s, b) && ChildOf(c, b)
    ensures Clear(root, s, c) && LeavesDone(root, s, c)
  {
    assert b <= c;
    forall x | x in s && !IsSub(root, x) && Precedes(root, x, c) ensures s[x].Done? {
      var d: Path, j: nat, i: nat :| Reaches(DepsAt(root, d), j, i) && d + [j] <= x && d + [i] <= c;
      if |d| < |b| {
        PrefixCompare(d + [i], b, c);
        assert Precedes(root, x, b);
      } else {
        assert (d + [i])[..|d|] == d;
        PrefixCompare(b, d, c);
        assert b <= x;
      }
    }
  }

  /** Where nothing has failed beside it, a node is done as soon as its leaves and their predecessors are. */
  lemma {:induction false} DoneWhenLeavesAre(root: Node, s: State, b: Path, bound: nat)
    requires WellFormed(root) && Inv(root, s) && Settled(root, s) && SubsUnfailed(root, s) && ShorterThan(s, bound)
    requires b in s && b != [] && Up(b) in s && !s[Up(b)].Pending? && NoChildFailed(s, Up(b))
    requires Clear(root, s, b) && LeavesDone(root, s, b)
    ensures s[b].Done?
    decreases bound - |b|, Rank(root, b)
  {
    if !IsSub(root, b) { return; }
    ReadyWhenClear(root, s, b, bound);
    assert !Enabled(root, s, Submit(b));
    forall c | c in s && ChildOf(c, b) ensures !s[c].Failed? {
      assert b <= c;
    }
    forall c | c in s && ChildOf(c, b) ensures s[c].Done? {
      ClearInwards(root, s, b, c);
      DoneWhenLeavesAre(root, s, c, bound);
    }
    assert !Enabled(root, s, Succeed(b));
  }

  lemma {:induction false} DependenciesWhenClear(root: Node, s: State, b: Path, bound: nat)
    requires WellFormed(root) && Inv(root, s) && Settled(root, s) && SubsUnfailed(root, s) && ShorterThan(s, bound)
    requires b in s && b != [] && Up(b) in s && !s[Up(b)].Pending? && NoChildFailed(s, Up(b)) && Clear(root, s, b)
    ensures DependenciesDone(root, s, b)
    decreases bound - |b|, Rank(root, b), 0
  {
    ClearOutwards(root, s, b);
    forall e | e in DepsAt(root, Up(b)) && e.1 == Last(b)
      ensures Sibling(b, e.0) in s && s[Sibling(b, e.0)].Done?
    {
      assert (e.0, Last(b)) in DepsAt(root, Up(b));
      SiblingCovered(root, s, b, e.0);
      RankDecreases(root, b, e.0);
      DoneWhenLeavesAre(root, s, Sibling(b, e.0), bound);
    }
  }

  /** In a settled state, what the flattening may start or enter the nested graph may submit. */
  lemma {:induction false} ReadyWhenClear(root: Node, s: State, y: Path, bound: nat)
    requires WellFormed(root) && Inv(root, s) && Settled(root, s) && SubsUnfailed(root, s) && ShorterThan(s, bound)
    requires y in s && y != [] && Up(y) in s && !s[Up(y)].Pending? && NoChildFailed(s, Up(y)) && Clear(root, s, y)
    ensures s[y].Pending? ==> Ready(root, s, y)
    ensures IsSub(root, y) ==> !s[y].Pending?
    decreases bound - |y|, Rank(root, y), 1
  {
    ParentCovered(root, s, y);
    assert NodeInv(root, s, y);
    DependenciesWhenClear(root, s, y, bound);
    assert IsSub(root, y) ==> !Enabled(root, s, Submit(y));
  }

  /** In a settled state every open sub-graph has started. */
  ghost predicate AllStarted(s: State, open: set<Path>) { forall b :: b in open ==> b in s && !s[b].Pending? }

  lemma UnblockedMeansNoneFailed(root: Node, s: State, p: Path)
    requires SubsUnfailed(root, s) && !Blocked(Leaves(root, s), p)
    ensures NoChildFailed(s, p)
  {
    forall c | c in s && ChildOf(c, p) ensures !s[c].Failed? {
      assert c in Leaves(root, s) || IsSub(root, c);
    }
  }

  lemma {:induction false} EnteredHasStarted(root: Node, s: State, open: set<Path>, b: Path, bound: nat)
    requires WellFormed(root) && Inv(root, s) && Settled(root, s) && SubsUnfailed(root, s) && ShorterThan(s, bound)
    requires AllStarted(s, open) && b in s && IsSub(root, b) && Entered(root, Leaves(root, s), open, b)
    ensures !s[b].Pending?
    decreases |b|
  {
    if b == [] {
      assert !Enabled(root, s, Submit(b));
    } else if b !in open {
      ParentCovered(root, s, b);
      EnteredHasStarted(root, s, open, Up(b), bound);
      UnblockedMeansNoneFailed(root, s, Up(b));
      assert Clear(root, s, b);
      ReadyWhenClear(root, s, b, bound);
    }
  }

  lemma OpenedHasStarted(root: Node, s: State, open: set<Path>)
    requires WellFormed(root) && Inv(root, s) && Settled(root, s) && SubsUnfailed(root, s) && AllStarted(s, open)
    ensures AllStarted(s, Opened(root, Leaves(root, s), open))
  {
    forall b | b in Opened(root, Leaves(root, s), open) ensures b in s && !s[b].Pending? {
      AllPathsAreTheNodes(root, b);
      var deepest := Deepest(s.Keys);
      EnteredHasStarted(root, s, open, b, |deepest| + 1);
    }
  }

  ghost predicate RunTo(root: Node, states: seq<State>, events: seq<Event>, s: State) {
    IsRun(root, states, events) && states[|events|] == s
  }

  lemma Extend(root: Node, states: seq<State>, events: seq<Event>, e: Event)
    returns (states': seq<State>, events': seq<Event>)
    requires IsRun(root, states, events) && Enabled(root, states[|events|], e)
    ensures events' == events + [e] && RunTo(root, states', events', Effect(states[|events|], e))
    ensures LeafEvents(root, events') == LeafEvents(root, events) + if IsSub(root, e.p) then [] else [e]
  {
    states', events' := states + [Effect(states[|events|], e)], events + [e];
    RunExtends(root, states, events, e);
    assert events'[..|events|] == events;
  }

  lemma SettleOne(root: Node, states: seq<State>, events: seq<Event>, p: Path)
    returns (states': seq<State>, events': seq<Event>)
    requires IsRun(root, states, events) && SubsUnfailed(root, states[|events|])
    requires IsSub(root, p)
    requires Enabled(root, states[|events|], Submit(p)) || Enabled(root, states[|events|], Succeed(p))
    ensures IsRun(root, states', events') && SubsUnfailed(root, states'[|events'|])
    ensures LeafEvents(root, events') == LeafEvents(root, events)
    ensures Leaves(root, states'[|events'|]) == Leaves(root, states[|events|])
    ensures Later(states[|events|], states'[|events'|])
    ensures Work(states'[|events'|]) < Work(states[|events|])
  {
    var s := states[|events|];
    var e := if Enabled(root, s, Submit(p)) then Submit(p) else Succeed(p);
    StepUsesWork(root, s, e, Effect(s, e));
    LeavesOfStep(root, s, e);
    states', events' := Extend(root, states, events, e);
  }

  /** Sub-graphs that can be submitted or completed are, until none is left; the leaves do not notice. */
  lemma {:induction false} Settle(root: Node, states: seq<State>, events: seq<Event>)
    returns (states': seq<State>, events': seq<Event>)
    requires WellFormed(root) && IsRun(root, states, events) && SubsUnfailed(root, states[|events|])
    ensures IsRun(root, states', events') && Settled(root, states'[|events'|])
    ensures SubsUnfailed(root, states'[|events'|]) && LeafEvents(root, events') == LeafEvents(root, events)
    ensures Leaves(root, states'[|events'|]) == Leaves(root, states[|events|])
    ensures Later(states[|events|], states'[|events'|])
    decreases Work(states[|events|])
  {
    var s := states[|events|];
    RunInv(root, states, events, |events|);
    if Settled(root, s) {
      states', events' := states, events;
    } else {
      var p :| p in s && IsSub(root, p) && (Enabled(root, s, Submit(p)) || Enabled(root, s, Succeed(p)));
      states', events' := SettleOne(root, states, events, p);
      states', events' := Settle(root, states', events');
    }
  }

  /** What has started stays started. */
  ghost predicate Later(s: State, s': State) {
    forall p :: p in s && !s[p].Pending? ==> p in s' && !s'[p].Pending?
  }

  /** The nested graph follows one event of the flattening. */
  lemma FollowLeaf(root: Node, states: seq<State>, events: seq<Event>, open: set<Path>, e: Event)
    returns (states': seq<State>, events': seq<Event>)
    requires WellFormed(root) && IsRun(root, states, events)
    requires Settled(root, states[|events|]) && SubsUnfailed(root, states[|events|])
    requires AllStarted(states[|events|], open) && FlatEnabled(root, Leaves(root, states[|events|]), open, e)
    ensures IsRun(root, states', events') && Settled(root, states'[|events'|])
    ensures SubsUnfailed(root, states'[|events'|]) && LeafEvents(root, events') == LeafEvents(root, events) + [e]
    ensures Leaves(root, states'[|events'|]) == Effect(Leaves(root, states[|events|]), e)
    ensures AllStarted(states'[|events'|], open)
  {
    var s := states[|events|];
    RunInv(root, states, events, |events|);
    LeafEnabled(root, s, open, e);
    LeavesOfStep(root, s, e);
    states', events' := Extend(root, states, events, e);
    states', events' := Settle(root, states', events');
  }

  lemma SameStart(root: Node, f: State, g: State)
    requires FlatInitial(root, f) && FlatInitial(root, g)
    ensures f == g
  {
    forall p | p in f.Keys + g.Keys ensures p in f && p in g { }
    assert f.Keys == g.Keys;
  }

  /** The nested graph has followed these events of the flattening, up to these leaves and open sub-graphs. */
  ghost predicate Follows(
    root: Node, states: seq<State>, events: seq<Event>, flat: seq<Event>, f: State, open: set<Path>)
  {
    && IsRun(root, states, events) && LeafEvents(root, events) == flat
    && Leaves(root, states[|events|]) == f
    && Settled(root, states[|events|]) && SubsUnfailed(root, states[|events|])
    && AllStarted(states[|events|], open)
  }

  lemma FollowsStart(root: Node, f: State) returns (states: seq<State>, events: seq<Event>)
    requires WellFormed(root) && root.Sub? && FlatInitial(root, f)
    ensures Follows(root, states, events, [], f, Opened(root, f, {}))
  {
    states, events := [StartState(root)], [];
    StartFlattens(root, states[0]);
    SameStart(root, f, Leaves(root, states[0]));
    states, events := Settle(root, states, events);
    RunInv(root, states, events, |events|);
    OpenedHasStarted(root, states[|events|], {});
  }

  lemma FollowsStep(
      root: Node, states: seq<State>, events: seq<Event>, flat: seq<Event>, f: State, open: set<Path>,
      e: Event, f': State, open': set<Path>)
    returns (states': seq<State>, events': seq<Event>)
    requires WellFormed(root) && Follows(root, states, events, flat, f, open)
    requires FlatStep(root, f, open, e, f', open')
    ensures Follows(root, states', events', flat + [e], f', open')
  {
    states', events' := FollowLeaf(root, states, events, open, e);
    RunInv(root, states', events', |events'|);
    OpenedHasStarted(root, states'[|events'|], open);
  }

  lemma {:induction false} FlatRunsAreFollowed(
      root: Node, fs: seq<State>, opens: seq<set<Path>>, flat: seq<Event>, n: nat)
    returns (states: seq<State>, events: seq<Event>)
    requires WellFormed(root) && root.Sub? && FlatRun(root, fs, opens, flat) && n <= |flat|
    ensures Follows(root, states, events, flat[..n], fs[n], opens[n])
  {
    if n == 0 {
      states, events := FollowsStart(root, fs[0]);
      assert flat[..0] == [];
    } else {
      var i := n - 1;
      states, events := FlatRunsAreFollowed(root, fs, opens, flat, i);
      assert FlatStep(root, fs[i], opens[i], flat[i], fs[i + 1], opens[i + 1]);
      states, events := FollowsStep(root, states, events, flat[..i], fs[i], opens[i], flat[i], fs[n], opens[n]);
      assert flat[..n] == flat[..i] + [flat[i]];
    }
  }

  /**
   * Every run of the flattening is the trace of some run of the nested graph: grouping nodes into
   * sub-graphs imposes the order of the flattened dependencies and the rule on failures, no more.
   */
  lemma FlatRunsAreNested(root: Node, fs: seq<State>, opens: seq<set<Path>>, flat: seq<Event>)
    returns (states: seq<State>, events: seq<Event>)
    requires WellFormed(root) && root.Sub? && FlatRun(root, fs, opens, flat)
    ensures IsRun(root, states, events) && LeafEvents(root, events) == flat
    ensures Leaves(root, states[|events|]) == fs[|flat|]
  {
    states, events := FlatRunsAreFollowed(root, fs, opens, flat, |flat|);
    assert flat[..|flat|] == flat;
  }

  lemma LeafEnabled(root: Node, s: State, open: set<Path>, e: Event)
    requires WellFormed(root) && Inv(root, s) && Settled(root, s) && SubsUnfailed(root, s) && AllStarted(s, open)
    requires FlatEnabled(root, Leaves(root, s), open, e)
    ensures Enabled(root, s, e) && SubsUnfailed(root, Effect(s, e))
  {
    if e.Submit? || e.Busy? {
      assert Clear(root, s, e.p);
      UnblockedMeansNoneFailed(root, s, Up(e.p));
      var deepest := Deepest(s.Keys);
      ReadyWhenClear(root, s, e.p, |deepest| + 1);
    } else {
      forall c | c in s && ChildOf(c, e.p) ensures false { ParentCovered(root, s, c); }
    }
  }

  // ---------------------------------------------------------------- without failures

  lemma {:induction false} ClearIsEntered(root: Node, f: State, open: set<Path>, b: Path)
    requires Clear(root, f, b) && forall p :: p in f ==> !f[p].Failed?
    ensures Entered(root, f, open, b)
    decreases |b|
  {
    if b != [] {
      ClearOutwards(root, f, b);
      ClearIsEntered(root, f, open, Up(b));
    }
  }

  /** As long as nothing has failed, a leaf may be submitted exactly when all that precede it are done. */
  lemma OrderAloneWithoutFailures(
      root: Node, fs: seq<State>, opens: seq<set<Path>>, flat: seq<Event>, n: nat, y: Path)
    requires FlatRun(root, fs, opens, flat) && n < |fs| && y in fs[n] && Leaf(root, y) && y != []
    requires forall p :: p in fs[n] ==> !fs[n][p].Failed?
    ensures FlatEnabled(root, fs[n], opens[n], Submit(y)) <==> fs[n][y].Pending? && Clear(root, fs[n], y)
  {
    if n > 0 { assert FlatStep(root, fs[n - 1], opens[n - 1], flat[n - 1], fs[n], opens[n]); }
    var open := if n == 0 then {} else opens[n - 1];
    assert opens[n] == Opened(root, fs[n], open);
    if Clear(root, fs[n], y) {
      ClearOutwards(root, fs[n], y);
      ClearIsEntered(root, fs[n], open, Up(y));
      AllPathsAreTheNodes(root, Up(y));
    }
  }
}
