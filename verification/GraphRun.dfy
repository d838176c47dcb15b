/**
 * Running a graph instance.
 *
 * A node is named by its path: [] is the instance itself, [3] its fourth node, [3, 0] the first
 * node of the sub-graph run by that node, and so on to any depth. A sub-graph instance obeys the
 * same rules as the outer one, so the submission, completion and failure of the whole instance
 * are just the events of the path [].
 */
module GraphRun {
  import opened Outcome
  import opened Digraph

  datatype Node = Ctx(ctx: nat) | User | Sub(graph: Graph)

  /** deps holds (from, to) when node `to` depends on node `from`. */
  datatype Graph = Graph(nodes: seq<Node>, deps: Edges)

  ghost predicate WellFormed(n: Node) {
    n.Sub? ==>
      && (forall e :: e in n.graph.deps ==> e.0 < |n.graph.nodes| && e.1 < |n.graph.nodes|)
      && Acyclic(n.graph.deps)
      && forall i :: 0 <= i < |n.graph.nodes| ==> WellFormed(n.graph.nodes[i])
  }

  type Path = seq<nat>

  function Up(p: Path): Path
    requires p != []
  {
    p[..|p| - 1]
  }

  function Last(p: Path): nat
    requires p != []
  {
    p[|p| - 1]
  }

  function Sibling(p: Path, j: nat): Path
    requires p != []
  {
    Up(p) + [j]
  }

  function NodeAt(root: Node, p: Path): Option<Node>
    decreases |p|
  {
    if p == [] then Some(root)
    else match NodeAt(root, Up(p))
      case Some(Sub(g)) => if Last(p) < |g.nodes| then Some(g.nodes[Last(p)]) else None
      case _ => None
  }

  /** The dependencies inside the sub-graph at p. */
  function DepsAt(root: Node, p: Path): Edges {
    match NodeAt(root, p)
    case Some(Sub(g)) => g.deps
    case _ => {}
  }

  predicate IsSub(root: Node, p: Path) { NodeAt(root, p).Some? && NodeAt(root, p).value.Sub? }

  lemma {:induction false} WellFormedAt(root: Node, p: Path)
    requires WellFormed(root) && NodeAt(root, p).Some?
    ensures WellFormed(NodeAt(root, p).value)
    decreases |p|
  {
    if p != [] { WellFormedAt(root, Up(p)); }
  }

  lemma DepsAcyclic(root: Node, p: Path)
    requires WellFormed(root)
    ensures Acyclic(DepsAt(root, p))
  {
    if NodeAt(root, p).Some? {
      WellFormedAt(root, p);
    }
    if !IsSub(root, p) {
      forall n: nat ensures !Reaches({}, n, n) {
        if Reaches({}, n, n) {
          var b := LastEdge({}, n, n);
        }
      }
    }
  }

  // ---------------------------------------------------------------- states and steps

  datatype Status = Pending | InFlight | Done | Failed

  type State = map<Path, Status>

  /** The state tracks exactly the nodes there are, at every depth. */
  ghost predicate Covers(root: Node, s: State) {
    forall p: Path {:trigger p in s} :: p in s <==> NodeAt(root, p).Some?
  }

  lemma ParentCovered(root: Node, s: State, p: Path)
    requires Covers(root, s) && p in s && p != []
    ensures Up(p) in s && IsSub(root, Up(p))
  {
  }

  lemma SiblingCovered(root: Node, s: State, p: Path, j: nat)
    requires WellFormed(root) && Covers(root, s) && p in s && p != []
    requires (j, Last(p)) in DepsAt(root, Up(p))
    ensures Sibling(p, j) in s && Up(Sibling(p, j)) == Up(p) && Last(Sibling(p, j)) == j
  {
    WellFormedAt(root, Up(p));
    assert Up(Sibling(p, j)) == Up(p);
  }

  predicate ChildOf(c: Path, p: Path) { c != [] && Up(c) == p }

  datatype Event =
    | Submit(p: Path)   // the node is handed over for execution
    | Busy(p: Path)     // its context is overloaded; the node stays where it is
    | Succeed(p: Path)  // completed; for [] this is the graph completion callback
    | Fail(p: Path)     // failed; for [] this is the graph error callback

  /** All nodes of the enclosing graph that p depends on have completed successfully. */
  predicate DependenciesDone(root: Node, s: State, p: Path)
    requires p != []
  {
    forall e :: e in DepsAt(root, Up(p)) && e.1 == Last(p) ==>
      Sibling(p, e.0) in s && s[Sibling(p, e.0)].Done?
  }

  predicate NoChildFailed(s: State, p: Path) {
    forall c :: c in s && ChildOf(c, p) ==> !s[c].Failed?
  }

  /** A node may be submitted while its instance runs and nothing in that instance has failed. */
  predicate Ready(root: Node, s: State, p: Path) {
    && p in s && s[p].Pending?
    && (p == [] || (&& Up(p) in s && s[Up(p)].InFlight?
                    && NoChildFailed(s, Up(p))
                    && DependenciesDone(root, s, p)))
  }

  predicate Enabled(root: Node, s: State, e: Event) {
    match e
    case Submit(p) => Ready(root, s, p)
    case Busy(p) => Ready(root, s, p) && NodeAt(root, p).Some? && NodeAt(root, p).value.Ctx?
    case Succeed(p) => p in s && s[p].InFlight? && forall c :: c in s && ChildOf(c, p) ==> s[c].Done?
    case Fail(p) =>
      && p in s && s[p].InFlight?
      && (IsSub(root, p) ==> && !NoChildFailed(s, p)
                             && forall c :: c in s && ChildOf(c, p) ==> !s[c].InFlight?)
  }

  function Effect(s: State, e: Event): State {
    match e
    case Submit(p) => s[p := InFlight]
    case Busy(p) => s
    case Succeed(p) => s[p := Done]
    case Fail(p) => s[p := Failed]
  }

  ghost predicate Step(root: Node, s: State, e: Event, s': State) {
    Enabled(root, s, e) && s' == Effect(s, e)
  }

  ghost predicate Initial(root: Node, s: State) {
    Covers(root, s) && forall p :: p in s ==> s[p].Pending?
  }

  // ---------------------------------------------------------------- the invariant

  /** What holds of each node after any number of steps. */
  ghost predicate NodeInv(root: Node, s: State, p: Path)
    requires p in s
  {
    // nothing starts before the instance around it, nor before its dependencies are done
    && (p != [] && !s[p].Pending? ==> Up(p) in s && !s[Up(p)].Pending? && DependenciesDone(root, s, p))
    // everything in flight ends before the instance around it
    && (p != [] && s[p].InFlight? ==> Up(p) in s && s[Up(p)].InFlight?)
    // a sub-graph completes with all its nodes, and fails because one of them did
    && (p != [] && Up(p) in s && s[Up(p)].Done? ==> s[p].Done?)
    && (s[p].Failed? && IsSub(root, p) ==> !NoChildFailed(s, p))
  }

  ghost predicate Inv(root: Node, s: State) {
    Covers(root, s) && forall p {:trigger NodeInv(root, s, p)} :: p in s ==> NodeInv(root, s, p)
  }

  lemma InitialInv(root: Node, s: State)
    requires Initial(root, s)
    ensures Inv(root, s)
  {
  }

  lemma StepInv(root: Node, s: State, e: Event, s': State)
    requires Inv(root, s) && Step(root, s, e, s')
    ensures Inv(root, s')
  {
    forall p | p in s' ensures NodeInv(root, s', p) { StepNodeInv(root, s, e, s', p); }
  }

  lemma StepNodeInv(root: Node, s: State, e: Event, s': State, p: Path)
    requires Inv(root, s) && Step(root, s, e, s') && p in s
    ensures NodeInv(root, s', p)
  {
    assert NodeInv(root, s, p);
    assert s'.Keys == s.Keys;
    if p != [] {
      ParentCovered(root, s, p);
      assert ChildOf(p, Up(p));
    }
    if s[p].Failed? && IsSub(root, p) {
      var c :| c in s && ChildOf(c, p) && s[c].Failed?;
      assert s'[c].Failed?;
    }
  }

  // ---------------------------------------------------------------- the rules, read off the graphs themselves

  /** The node at path c + [i] is the i-th node of the graph that runs at c. */
  lemma ChildAt(root: Node, c: Path, g: Graph, i: nat)
    requires NodeAt(root, c) == Some(Sub(g))
    ensures NodeAt(root, c + [i]) == if i < |g.nodes| then Some(g.nodes[i]) else None
    ensures Up(c + [i]) == c && Last(c + [i]) == i && ChildOf(c + [i], c)
  {
    assert Up(c + [i]) == c;
  }

  /** The children of a node in a state are the nodes of its graph. */
  lemma ChildrenAre(root: Node, s: State, c: Path, g: Graph, p: Path)
    requires Covers(root, s) && NodeAt(root, c) == Some(Sub(g)) && p in s && ChildOf(p, c)
    ensures p == c + [Last(p)] && Last(p) < |g.nodes|
  {
    assert p == Up(p) + [Last(p)];
    ChildAt(root, c, g, Last(p));
  }

  lemma ChildrenOf(root: Node, s: State, c: Path, g: Graph)
    requires Covers(root, s) && NodeAt(root, c) == Some(Sub(g))
    ensures forall k: nat {:trigger c + [k]} :: k < |g.nodes| ==> c + [k] in s && ChildOf(c + [k], c)
    ensures forall p {:trigger ChildOf(p, c)} :: p in s && ChildOf(p, c) ==> p == c + [Last(p)] && Last(p) < |g.nodes|
  {
    forall k: nat | k < |g.nodes| ensures c + [k] in s && ChildOf(c + [k], c) { ChildAt(root, c, g, k); }
    forall p | p in s && ChildOf(p, c) ensures p == c + [Last(p)] && Last(p) < |g.nodes| {
      ChildrenAre(root, s, c, g, p);
    }
  }

  lemma ChildrenUnfailed(root: Node, s: State, c: Path, g: Graph)
    requires Covers(root, s) && NodeAt(root, c) == Some(Sub(g))
    ensures forall k: nat :: k < |g.nodes| ==> c + [k] in s
    ensures NoChildFailed(s, c) <==> forall k: nat :: k < |g.nodes| ==> !s[c + [k]].Failed?
  {
    ChildrenOf(root, s, c, g);
  }

  lemma SiblingIs(c: Path, i: nat, j: nat)
    ensures Sibling(c + [i], j) == c + [j]
  {
    assert Up(c + [i]) == c;
  }

  lemma DepsInside(root: Node, c: Path, g: Graph, e: (nat, nat))
    requires WellFormed(root) && NodeAt(root, c) == Some(Sub(g)) && e in g.deps
    ensures e.0 < |g.nodes|
  {
    WellFormedAt(root, c);
  }

  lemma DependenciesAre(root: Node, s: State, c: Path, g: Graph, i: nat)
    requires WellFormed(root) && NodeAt(root, c) == Some(Sub(g)) && i < |g.nodes|
    requires forall k: nat :: k < |g.nodes| ==> c + [k] in s
    ensures c + [i] != []
    ensures DependenciesDone(root, s, c + [i]) <==>
            forall j: nat :: (j, i) in g.deps ==> j < |g.nodes| && s[c + [j]].Done?
  {
    ChildAt(root, c, g, i);
    var p := c + [i];
    assert DepsAt(root, Up(p)) == g.deps;
    if DependenciesDone(root, s, p) {
      forall j: nat | (j, i) in g.deps ensures j < |g.nodes| && s[c + [j]].Done? {
        DepsInside(root, c, g, (j, i));
        SiblingIs(c, i, j);
      }
    } else {
      var e :| e in g.deps && e.1 == i && !(Sibling(p, e.0) in s && s[Sibling(p, e.0)].Done?);
      DepsInside(root, c, g, e);
      SiblingIs(c, i, e.0);
      assert (e.0, i) in g.deps;
    }
  }

  /**
   * A node of a graph may be submitted exactly when it is pending, its graph is in flight, no node
   * of the graph has failed, and all the nodes it depends on have completed.
   */
  lemma MaySubmitExactlyWhen(root: Node, s: State, c: Path, g: Graph, i: nat)
    requires WellFormed(root) && Covers(root, s) && NodeAt(root, c) == Some(Sub(g)) && i < |g.nodes|
    ensures c in s && forall k: nat :: k < |g.nodes| ==> c + [k] in s
    ensures Enabled(root, s, Submit(c + [i])) <==>
            && s[c + [i]].Pending? && s[c].InFlight?
            && (forall k: nat :: k < |g.nodes| ==> !s[c + [k]].Failed?)
            && (forall j: nat :: (j, i) in g.deps ==> j < |g.nodes| && s[c + [j]].Done?)
    ensures Enabled(root, s, Busy(c + [i])) <==> Enabled(root, s, Submit(c + [i])) && g.nodes[i].Ctx?
  {
    ChildAt(root, c, g, i);
    ChildrenUnfailed(root, s, c, g);
    DependenciesAre(root, s, c, g, i);
  }

  /** An instance may be submitted while it waits. */
  lemma MayBeginExactlyWhen(root: Node, s: State)
    requires Covers(root, s)
    ensures [] in s && (Enabled(root, s, Submit([])) <==> s[[]].Pending?)
  {
    assert NodeAt(root, []).Some?;
  }

  /** A graph in flight may complete exactly when all its nodes have. */
  lemma MayCompleteExactlyWhen(root: Node, s: State, c: Path, g: Graph)
    requires Covers(root, s) && NodeAt(root, c) == Some(Sub(g))
    ensures c in s && forall k: nat :: k < |g.nodes| ==> c + [k] in s
    ensures Enabled(root, s, Succeed(c)) <==>
            s[c].InFlight? && forall k: nat :: k < |g.nodes| ==> s[c + [k]].Done?
  {
    ChildrenOf(root, s, c, g);
  }

  /** A graph in flight may fail exactly when one of its nodes has failed and none is in flight. */
  lemma MayFailExactlyWhen(root: Node, s: State, c: Path, g: Graph)
    requires Covers(root, s) && NodeAt(root, c) == Some(Sub(g))
    ensures c in s && forall k: nat :: k < |g.nodes| ==> c + [k] in s
    ensures Enabled(root, s, Fail(c)) <==>
            && s[c].InFlight? && (exists k: nat :: k < |g.nodes| && s[c + [k]].Failed?)
            && forall k: nat :: k < |g.nodes| ==> !s[c + [k]].InFlight?
  {
    ChildrenUnfailed(root, s, c, g);
    ChildrenOf(root, s, c, g);
  }

  /** A context or user node in flight may complete or fail at any time. */
  lemma LeafMayEnd(root: Node, s: State, p: Path)
    requires Covers(root, s) && p in s && !IsSub(root, p)
    ensures Enabled(root, s, Succeed(p)) <==> s[p].InFlight?
    ensures Enabled(root, s, Fail(p)) <==> s[p].InFlight?
  {
    forall c | c in s ensures !ChildOf(c, p) {
      if ChildOf(c, p) { ParentCovered(root, s, c); }
    }
  }
}
