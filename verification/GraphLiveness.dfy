/** A submitted graph instance always terminates, within a number of steps known in advance. */
module GraphLiveness {
  import opened Outcome
  import opened Digraph
  import opened GraphRun
  import opened Sequences
  import opened GraphSafety

  // ---------------------------------------------------------------- the nodes are finitely many

  /** All node paths, at every depth. */
  function AllPaths(n: Node): set<Path> {
    match n
    case Sub(g) => {[]} + set i, q | 0 <= i < |g.nodes| && q in AllPaths(g.nodes[i]) :: [i as nat] + q
    case _ => {[]}
  }

  lemma {:induction false} LookupFromTheFront(n: Node, i: nat, q: Path)
    ensures NodeAt(n, [i] + q) == if n.Sub? && i < |n.graph.nodes| then NodeAt(n.graph.nodes[i], q) else None
    decreases |q|
  {
    if q != [] {
      LookupFromTheFront(n, i, Up(q));
      assert Up([i] + q) == [i] + Up(q);
    } else {
      assert [i] + q == [i] && Up([i]) == [];
      assert NodeAt(n, []) == Some(n);
    }
  }

  lemma {:induction false} AllPathsAreTheNodes(n: Node, p: Path)
    ensures p in AllPaths(n) <==> NodeAt(n, p).Some?
    decreases |p|
  {
    if p != [] {
      var i, q := p[0], p[1..];
      assert p == [i] + q;
      LookupFromTheFront(n, i, q);
      if n.Sub? && i < |n.graph.nodes| {
        AllPathsAreTheNodes(n.graph.nodes[i], q);
      }
    }
  }

  /** The state in which an instance waits to be submitted. */
  function StartState(root: Node): (s: State)
    ensures Initial(root, s)
  {
    assert forall p: Path :: p in AllPaths(root) <==> NodeAt(root, p).Some? by {
      forall p: Path ensures p in AllPaths(root) <==> NodeAt(root, p).Some? { AllPathsAreTheNodes(root, p); }
    }
    map p | p in AllPaths(root) :: Pending
  }

  /** A user node beside a sub-graph that holds another. */
  function Beside(): Node { Sub(Graph([User, Sub(Graph([User], {}))], {})) }

  lemma NodesOfBeside()
    ensures NodeAt(Beside(), []) == Some(Beside())
    ensures NodeAt(Beside(), [0]) == Some(User)
    ensures NodeAt(Beside(), [1]) == Some(Sub(Graph([User], {})))
    ensures NodeAt(Beside(), [1, 0]) == Some(User)
  {
    assert Up([0]) == [] && Up([1]) == [] && Up([1, 0]) == [1];
    assert NodeAt(Beside(), []) == Some(Beside());
  }

  /** Where no dependencies hold a node back, a run can go on with its submission. */
  lemma SubmitFree(root: Node, states: seq<State>, events: seq<Event>, p: Path) returns (s: State)
    requires IsRun(root, states, events) && p != []
    requires var s := states[|events|];
             p in s && s[p].Pending? && Up(p) in s && s[Up(p)].InFlight? && NoChildFailed(s, Up(p))
    requires DepsAt(root, Up(p)) == {}
    ensures s == states[|events|][p := InFlight] && IsRun(root, states + [s], events + [Submit(p)])
  {
    s := states[|events|][p := InFlight];
    RunExtends(root, states, events, Submit(p));
  }

  lemma StartedRun(root: Node) returns (s0: State, s1: State)
    ensures IsRun(root, [s0, s1], [Submit([])]) && s1 == s0[[] := InFlight]
    ensures forall p :: p in s1 && p != [] ==> s1[p].Pending?
    ensures forall p: Path {:trigger p in s1} :: p in s1 <==> NodeAt(root, p).Some?
  {
    s0 := StartState(root);
    s1 := s0[[] := InFlight];
    assert NodeAt(root, []).Some?;
    RunExtends(root, [s0], [], Submit([]));
    assert [s0] + [s1] == [s0, s1] && [] + [Submit([])] == [Submit([])];
  }

  lemma GoesOn(root: Node) returns (states: seq<State>, events: seq<Event>)
    requires NodeAt(root, [0]).Some? && NodeAt(root, [1]).Some? && NodeAt(root, [1, 0]).Some? && !IsSub(root, [0])
    requires DepsAt(root, []) == {} && DepsAt(root, [1]) == {}
    ensures IsRun(root, states, events)
    ensures events == [Submit([]), Submit([0]), Submit([1]), Fail([0]), Submit([1, 0])]
  {
    assert Up([0]) == [] && Up([1]) == [] && Up([1, 0]) == [1];
    var s0, s1 := StartedRun(root);
    states, events := [s0, s1], [Submit([])];
    var s2 := SubmitFree(root, states, events, [0]);
    states, events := states + [s2], events + [Submit([0])];
    var s3 := SubmitFree(root, states, events, [1]);
    states, events := states + [s3], events + [Submit([1])];
    RunExtends(root, states, events, Fail([0]));
    states, events := states + [s3[[0] := Failed]], events + [Fail([0])];
    var s5 := SubmitFree(root, states, events, [1, 0]);
    states, events := states + [s5], events + [Submit([1, 0])];
  }

  /** A failure does not stop a sub-graph in flight beside it: this run submits inside one afterwards. */
  lemma SubGraphGoesOn() returns (states: seq<State>, events: seq<Event>)
    ensures IsRun(Beside(), states, events)
    ensures events == [Submit([]), Submit([0]), Submit([1]), Fail([0]), Submit([1, 0])]
  {
    NodesOfBeside();
    states, events := GoesOn(Beside());
  }

  // ---------------------------------------------------------------- every step uses up work

  function WithStatus(s: State, st: Status): set<Path> { set p | p in s && s[p] == st }

  /** Steps still to be taken: two for a pending node, one for a node in flight. */
  function Work(s: State): nat { 2 * |WithStatus(s, Pending)| + |WithStatus(s, InFlight)| }

  lemma StepUsesWork(root: Node, s: State, e: Event, s': State)
    requires Step(root, s, e, s')
    ensures Work(s') == if e.Busy? then Work(s) else Work(s) - 1
  {
    var p := e.p;
    match e
    case Busy(_) =>
    case Submit(_) =>
      assert WithStatus(s', Pending) == WithStatus(s, Pending) - {p};
      assert WithStatus(s', InFlight) == WithStatus(s, InFlight) + {p};
    case Succeed(_) =>
      assert WithStatus(s', Pending) == WithStatus(s, Pending);
      assert WithStatus(s', InFlight) == WithStatus(s, InFlight) - {p};
    case Fail(_) =>
      assert WithStatus(s', Pending) == WithStatus(s, Pending);
      assert WithStatus(s', InFlight) == WithStatus(s, InFlight) - {p};
  }

  function BusyCount(events: seq<Event>): (n: nat)
    ensures n <= |events|
  {
    if events == [] then 0
    else BusyCount(events[..|events| - 1]) + if events[|events| - 1].Busy? then 1 else 0
  }

  /**
   * Exact bookkeeping of any run: the steps that are not overload retries, together with the work
   * still open, always add up to twice the number of nodes. So however often contexts are
   * overloaded, a run takes at most 2 * nodes other steps.
   */
  lemma {:induction false} StepsAreBounded(root: Node, states: seq<State>, events: seq<Event>, n: nat)
    requires IsRun(root, states, events) && n <= |events|
    ensures n - BusyCount(events[..n]) + Work(states[n]) == 2 * |states[0]|
  {
    if n == 0 {
      assert WithStatus(states[0], Pending) == states[0].Keys;
      assert WithStatus(states[0], InFlight) == {};
    } else {
      StepsAreBounded(root, states, events, n - 1);
      assert events[..n][..n - 1] == events[..n - 1];
      assert Step(root, states[n - 1], events[n - 1], states[n]);
      StepUsesWork(root, states[n - 1], events[n - 1], states[n]);
    }
  }

  lemma {:induction false} BusyCountIs(events: seq<Event>)
    ensures |set i | 0 <= i < |events| && !events[i].Busy?| == |events| - BusyCount(events)
  {
    if events != [] {
      var n := |events| - 1;
      BusyCountIs(events[..n]);
      var before := set i | 0 <= i < n && !events[..n][i].Busy?;
      var after := set i | 0 <= i < |events| && !events[i].Busy?;
      assert after == before + (if events[n].Busy? then {} else {n});
    }
  }

  /** A run takes no more than two steps per node, not counting overloads. */
  lemma TwoStepsPerNode(root: Node, states: seq<State>, events: seq<Event>)
    requires IsRun(root, states, events)
    ensures |set i | 0 <= i < |events| && !events[i].Busy?| <= 2 * |states[0]|
  {
    StepsAreBounded(root, states, events, |events|);
    assert events[..|events|] == events;
    BusyCountIs(events);
  }

  // ---------------------------------------------------------------- some step is always possible

  lemma {:induction false} Deepest(s: set<Path>) returns (p: Path)
    requires s != {}
    ensures p in s && forall q :: q in s ==> |q| <= |p|
    decreases |s|
  {
    p :| p in s;
    if s - {p} != {} {
      var q := Deepest(s - {p});
      if |q| > |p| { p := q; }
    }
  }

  /** In a running instance with no node in flight and none failed, some pending node is ready. */
  lemma SomeNodeReady(root: Node, s: State, q: Path) returns (p: Path)
    requires WellFormed(root) && Inv(root, s)
    requires q in s && s[q].InFlight? && IsSub(root, q)
    requires forall c :: c in s && ChildOf(c, q) ==> s[c].Pending? || s[c].Done?
    requires exists c :: c in s && ChildOf(c, q) && s[c].Pending?
    ensures Ready(root, s, p) && ChildOf(p, q)
  {
    WellFormedAt(root, q);
    var pending := set c | c in s && ChildOf(c, q) && s[c].Pending? :: Last(c);
    var c :| c in s && ChildOf(c, q) && s[c].Pending?;
    assert Last(c) in pending;
    var m := MinimalExists(DepsAt(root, q), pending);
    p :| p in s && ChildOf(p, q) && s[p].Pending? && Last(p) == m;
    forall e | e in DepsAt(root, Up(p)) && e.1 == Last(p)
      ensures Sibling(p, e.0) in s && s[Sibling(p, e.0)].Done?
    {
      assert (e.0, Last(p)) in DepsAt(root, Up(p));
      SiblingCovered(root, s, p, e.0);
      var d := Sibling(p, e.0);
      assert ChildOf(d, q);
      assert Last(d) in pending || !s[d].Pending?;
    }
  }

  /**
   * No deadlock: as long as an instance is in flight, some step other than an overload retry is
   * possible, because a finite graph without circles always has a next node or a next completion.
   */
  lemma NoDeadlock(root: Node, s: State) returns (e: Event)
    requires WellFormed(root) && Inv(root, s) && [] in s && s[[]].InFlight?
    ensures Enabled(root, s, e) && !e.Busy?
  {
    var flying := WithStatus(s, InFlight);
    assert [] in flying;
    var q := Deepest(flying);
    forall c | c in s && ChildOf(c, q) ensures !s[c].InFlight? {
      assert s[c].InFlight? ==> c in flying;
    }
    if !IsSub(root, q) {
      forall c | c in s && ChildOf(c, q) ensures false { ParentCovered(root, s, c); }
      e := Succeed(q);
    } else if !NoChildFailed(s, q) {
      e := Fail(q);
    } else if exists c :: c in s && ChildOf(c, q) && s[c].Pending? {
      var p := SomeNodeReady(root, s, q);
      e := Submit(p);
    } else {
      e := Succeed(q);
    }
  }

  /**
   * Termination under fair progress: a run of a submitted instance that cannot be continued
   * otherwise than by overload retries has reached its callback.
   */
  lemma StuckOnlyWhenFinished(root: Node, states: seq<State>, events: seq<Event>)
    requires WellFormed(root) && IsRun(root, states, events)
    requires forall e: Event :: Enabled(root, states[|events|], e) ==> e.Busy?
    ensures [] in states[|events|]
            && (states[|events|][[]].Done? || states[|events|][[]].Failed?)
    ensures multiset(events)[Succeed([])] + multiset(events)[Fail([])] == 1
  {
    assert events[..|events|] == events;
    var s := states[|events|];
    RunInv(root, states, events, |events|);
    assert [] in s by { assert NodeAt(root, []).Some?; }
    if s[[]].Pending? {
      assert Enabled(root, s, Submit([]));
      assert false;
    }
    if s[[]].InFlight? {
      var e := NoDeadlock(root, s);
      assert false;
    }
    Accounting(root, states, events, |events|, []);
  }

  /**
   * The outcome is decided by the nodes alone: once an instance can only be retried, it completed
   * exactly when no context or user node failed.
   */
  lemma CompletesIffNoNodeFails(root: Node, states: seq<State>, events: seq<Event>)
    requires WellFormed(root) && IsRun(root, states, events)
    requires forall e: Event :: Enabled(root, states[|events|], e) ==> e.Busy?
    ensures [] in states[|events|]
    ensures states[|events|][[]].Done?
            <==> forall x :: x in states[|events|] && !IsSub(root, x) ==> !states[|events|][x].Failed?
  {
    var s := states[|events|];
    StuckOnlyWhenFinished(root, states, events);
    RunInv(root, states, events, |events|);
    if s[[]].Done? {
      forall x | x in s ensures !s[x].Failed? { DoneInside(root, s, [], x); }
    } else {
      var deepest := Deepest(s.Keys);
      var x := FailureHasACause(root, s, [], |deepest| + 1);
    }
  }
}
