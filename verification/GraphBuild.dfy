/**
 * Building graphs: nodes, dependencies and sub-graphs, with circles refused as they would arise.
 *
 * A handle is the number of a graph in the library's table. What is built here unfolds into the
 * finite, well-formed graphs of graphs that `GraphRun` executes.
 */
module GraphBuild {
  import opened Outcome
  import opened Digraph
  import Run = GraphRun
  import GraphInstance
  import GraphLiveness
  import GraphSafety

  datatype Kind = CtxNode(ctx: nat) | UserNode | GraphNode(graph: nat)

  /** deps holds (from, to) when node `to` depends on node `from`. */
  datatype Def = Def(kinds: seq<Kind>, deps: Edges, started: bool, instances: nat, maxInstances: nat)

  /** (g, h) when graph g contains a node that runs graph h. */
  function Uses(defs: seq<Def>): Edges {
    set g, i | 0 <= g < |defs| && 0 <= i < |defs[g].kinds| && defs[g].kinds[i].GraphNode? ::
      (g as nat, defs[g].kinds[i].graph)
  }

  ghost predicate DefValid(d: Def, graphs: nat) {
    && (forall e :: e in d.deps ==> e.0 < |d.kinds| && e.1 < |d.kinds|)
    && Acyclic(d.deps)
    && (forall i :: 0 <= i < |d.kinds| && d.kinds[i].GraphNode? ==> d.kinds[i].graph < graphs)
    && (d.instances > 0 ==> d.started)
    && d.instances <= d.maxInstances
  }

  /** Neither the nodes of any graph nor the graphs themselves form a circle. */
  ghost predicate DefsValid(defs: seq<Def>) {
    && (forall g :: 0 <= g < |defs| ==> DefValid(defs[g], |defs|))
    && Acyclic(Uses(defs))
  }

  lemma EmptyAcyclic()
    ensures Acyclic({})
  {
    forall n: nat ensures !Reaches({}, n, n) {
      if Reaches({}, n, n) { var b := LastEdge({}, n, n); }
    }
  }

  /** Only the nodes matter to which graphs use which. */
  lemma SameUses(defs: seq<Def>, defs': seq<Def>)
    requires |defs| <= |defs'|
    requires forall g :: 0 <= g < |defs| ==> defs[g].kinds == defs'[g].kinds
    requires forall g :: |defs| <= g < |defs'| ==> defs'[g].kinds == []
    ensures Uses(defs) == Uses(defs')
  {
    forall e | e in Uses(defs) ensures e in Uses(defs') {
      var g, i :| 0 <= g < |defs| && 0 <= i < |defs[g].kinds| && defs[g].kinds[i].GraphNode?
                  && e == (g as nat, defs[g].kinds[i].graph);
      assert defs'[g].kinds[i].GraphNode?;
    }
    forall e | e in Uses(defs') ensures e in Uses(defs) {
      var g, i :| 0 <= g < |defs'| && 0 <= i < |defs'[g].kinds| && defs'[g].kinds[i].GraphNode?
                  && e == (g as nat, defs'[g].kinds[i].graph);
      assert defs[g].kinds[i].GraphNode?;
    }
  }

  class GraphLibrary {
    var defs: seq<Def>

    ghost predicate Valid()
      reads this
    {
      DefsValid(defs)
    }

    constructor ()
      ensures Valid() && defs == []
    {
      defs := [];
      new;
      EmptyAcyclic();
      assert Uses(defs) == {};
    }

    method Create() returns (g: nat)
      requires Valid()
      modifies this
      ensures Valid() && g == |old(defs)|
      ensures defs == old(defs) + [Def([], {}, false, 0, 0)]
    {
      g := |defs|;
      EmptyAcyclic();
      defs := defs + [Def([], {}, false, 0, 0)];
      SameUses(old(defs), defs);
    }

    /** How many instances the graph may have at a time. */
    method SetConf(g: nat, maxInstances: nat) returns (e: Error)
      requires Valid() && g < |defs|
      modifies this
      ensures Valid()
      ensures e == if old(defs)[g].started then BadState else Success
      ensures defs == if e.Success? then old(defs)[g := old(defs)[g].(maxInstances := maxInstances)] else old(defs)
    {
      if defs[g].started { return BadState; }
      defs := defs[g := defs[g].(maxInstances := maxInstances)];
      SameUses(old(defs), defs);
      return Success;
    }

    /** Adds a context node; it becomes a root, with no dependencies. */
    method NodeFromCtx(g: nat, ctx: nat) returns (e: Error, node: nat)
      requires Valid() && g < |defs|
      modifies this
      ensures Valid()
      ensures e == if old(defs)[g].started then BadState else Success
      ensures e.Success? ==> node == |old(defs)[g].kinds|
      ensures e.Success? ==> defs == old(defs)[g := old(defs)[g].(kinds := old(defs)[g].kinds + [CtxNode(ctx)])]
      ensures !e.Success? ==> defs == old(defs)
    {
      if defs[g].started { return BadState, 0; }
      node := |defs[g].kinds|;
      WithNodeUses(defs, g, CtxNode(ctx));
      defs := WithNode(defs, g, CtxNode(ctx));
      return Success, node;
    }

    method NodeFromUser(g: nat) returns (e: Error, node: nat)
      requires Valid() && g < |defs|
      modifies this
      ensures Valid()
      ensures e == if old(defs)[g].started then BadState else Success
      ensures e.Success? ==> node == |old(defs)[g].kinds|
      ensures e.Success? ==> defs == old(defs)[g := old(defs)[g].(kinds := old(defs)[g].kinds + [UserNode])]
      ensures !e.Success? ==> defs == old(defs)
    {
      if defs[g].started { return BadState, 0; }
      node := |defs[g].kinds|;
      WithNodeUses(defs, g, UserNode);
      defs := WithNode(defs, g, UserNode);
      return Success, node;
    }

    /**
     * Adds a node that runs another graph. Refused as forming a circle exactly when the graphs
     * would otherwise contain themselves, directly or through others.
     */
    method NodeFromGraph(g: nat, sub: nat) returns (e: Error, node: nat)
      requires Valid() && g < |defs| && sub < |defs|
      modifies this
      ensures Valid()
      ensures e == if old(defs)[g].started || !old(defs)[sub].started then BadState
                   else if !Acyclic(Uses(old(defs)) + {(g, sub)}) then NotPermitted
                   else Success
      ensures e.Success? ==> node == |old(defs)[g].kinds|
      ensures e.Success? ==> defs == old(defs)[g := old(defs)[g].(kinds := old(defs)[g].kinds + [GraphNode(sub)])]
      ensures !e.Success? ==> defs == old(defs)
    {
      if defs[g].started || !defs[sub].started { return BadState, 0; }
      var below := Explore(Uses(defs), sub);
      NewEdgeCircle(Uses(defs), g, sub);
      if g in below { return NotPermitted, 0; }
      node := |defs[g].kinds|;
      WithNodeUses(defs, g, GraphNode(sub));
      defs := WithNode(defs, g, GraphNode(sub));
      return Success, node;
    }

    /**
     * Makes `to` depend on `from`. Refused as forming a circle exactly when the dependencies would
     * no longer be acyclic.
     */
    method AddDependency(g: nat, from: nat, to: nat) returns (e: Error)
      requires Valid() && g < |defs|
      modifies this
      ensures Valid()
      ensures e == if from >= |old(defs)[g].kinds| || to >= |old(defs)[g].kinds| then InvalidValue
                   else if old(defs)[g].started then BadState
                   else if !Acyclic(old(defs)[g].deps + {(from, to)}) then NotPermitted
                   else Success
      ensures defs == if e.Success? then old(defs)[g := old(defs)[g].(deps := old(defs)[g].deps + {(from, to)})]
                      else old(defs)
    {
      if from >= |defs[g].kinds| || to >= |defs[g].kinds| { return InvalidValue; }
      if defs[g].started { return BadState; }
      var after := Explore(defs[g].deps, to);
      NewEdgeCircle(defs[g].deps, from, to);
      if from in after { return NotPermitted; }
      defs := defs[g := defs[g].(deps := defs[g].deps + {(from, to)})];
      SameUses(old(defs), defs);
      return Success;
    }

    /** Starts a graph that has a context node and whose contexts all run; a started graph stays started. */
    method Start(g: nat, running: set<nat>) returns (e: Error)
      requires Valid() && g < |defs|
      modifies this
      ensures Valid()
      ensures e == if old(defs)[g].started
                      || ((exists i :: 0 <= i < |old(defs)[g].kinds| && old(defs)[g].kinds[i].CtxNode?)
                          && forall c :: CtxNode(c) in old(defs)[g].kinds ==> c in running)
                   then Success else BadState
      ensures defs == if e.Success? then old(defs)[g := old(defs)[g].(started := true)] else old(defs)
    {
      if !defs[g].started && !Startable(defs[g], running) { return BadState; }
      defs := defs[g := defs[g].(started := true)];
      SameUses(old(defs), defs);
      return Success;
    }

    /** Stops a graph whose instances have all been destroyed. */
    method Stop(g: nat) returns (e: Error)
      requires Valid() && g < |defs|
      modifies this
      ensures Valid()
      ensures e == if old(defs)[g].instances > 0 then InUse else Success
      ensures defs == if e.Success? then old(defs)[g := old(defs)[g].(started := false)] else old(defs)
    {
      if defs[g].instances > 0 { return InUse; }
      defs := defs[g := defs[g].(started := false)];
      SameUses(old(defs), defs);
      return Success;
    }

    /** Creates an instance, ready to be submitted, of everything that is behind the graph. */
    method InstanceCreate(g: nat) returns (e: Error, instance: GraphInstance.Instance?)
      requires Valid() && g < |defs|
      modifies this
      ensures Valid()
      ensures e == if !old(defs)[g].started then BadState
                   else if old(defs)[g].instances == old(defs)[g].maxInstances then NoMemory
                   else Success
      ensures defs == if e.Success? then old(defs)[g := old(defs)[g].(instances := old(defs)[g].instances + 1)]
                      else old(defs)
      ensures e.Success? ==> instance != null && fresh(instance) && instance.Valid() && !instance.Submitted()
                             && instance.root == Unfold(old(defs), g)
      ensures e.Success? ==> var d, root := old(defs)[g], instance.root;
                             && root.Sub? && root.graph.deps == d.deps && |root.graph.nodes| == |d.kinds|
                             && forall i :: 0 <= i < |d.kinds| ==>
                                  match d.kinds[i]
                                  case CtxNode(c) => root.graph.nodes[i] == Run.Ctx(c)
                                  case UserNode => root.graph.nodes[i] == Run.User
                                  case GraphNode(h) => root.graph.nodes[i].Sub?
    {
      if !defs[g].started { return BadState, null; }
      if defs[g].instances == defs[g].maxInstances { return NoMemory, null; }
      UnfoldsWellFormed(defs, g);
      UnfoldedAsBuilt(defs, g);
      instance := new GraphInstance.Instance(Unfold(defs, g));
      defs := defs[g := defs[g].(instances := defs[g].instances + 1)];
      SameUses(old(defs), defs);
      return Success, instance;
    }

    /** Destroys an instance of g, unless it is submitted or is the node data of another instance. */
    method InstanceDestroy(g: nat, instance: GraphInstance.Instance, asNodeData: bool) returns (e: Error)
      requires Valid() && g < |defs| && defs[g].instances > 0 && instance.Valid()
      modifies this
      ensures Valid()
      ensures e == if old(instance.Submitted()) || asNodeData then InUse else Success
      ensures defs == if e.Success? then old(defs)[g := old(defs)[g].(instances := old(defs)[g].instances - 1)]
                      else old(defs)
    {
      if instance.Submitted() || asNodeData { return InUse; }
      defs := defs[g := defs[g].(instances := defs[g].instances - 1)];
      SameUses(old(defs), defs);
      return Success;
    }
  }

  predicate Startable(d: Def, running: set<nat>) {
    && (exists i :: 0 <= i < |d.kinds| && d.kinds[i].CtxNode?)
    && (forall i :: 0 <= i < |d.kinds| && d.kinds[i].CtxNode? ==> d.kinds[i].ctx in running)
  }

  function WithNode(defs: seq<Def>, g: nat, k: Kind): seq<Def>
    requires g < |defs|
  {
    defs[g := defs[g].(kinds := defs[g].kinds + [k])]
  }

  /** Graph g uses graph h exactly when one of its nodes runs h. */
  lemma UsesMeans(defs: seq<Def>, g: nat, h: nat)
    ensures (g, h) in Uses(defs) <==> g < |defs| && GraphNode(h) in defs[g].kinds
  {
    if g < |defs| && GraphNode(h) in defs[g].kinds {
      var i :| 0 <= i < |defs[g].kinds| && defs[g].kinds[i] == GraphNode(h);
    }
  }

  lemma WithNodeUses(defs: seq<Def>, g: nat, k: Kind)
    requires g < |defs|
    ensures Uses(WithNode(defs, g, k)) == if k.GraphNode? then Uses(defs) + {(g, k.graph)} else Uses(defs)
  {
    var more := WithNode(defs, g, k);
    forall e | e in Uses(defs) ensures e in Uses(more) {
      var h, i :| 0 <= h < |defs| && 0 <= i < |defs[h].kinds| && defs[h].kinds[i].GraphNode?
                  && e == (h as nat, defs[h].kinds[i].graph);
      assert more[h].kinds[i] == defs[h].kinds[i];
    }
    if k.GraphNode? {
      assert more[g].kinds[|defs[g].kinds|] == k;
    }
  }

  /** A started graph holding a single context node. */
  method SingleNode(library: GraphLibrary)
    requires library.Valid() && library.defs == []
    modifies library
    ensures library.Valid() && library.defs == [Def([CtxNode(0)], {}, true, 0, 0)]
  {
    var inner := library.Create();
    var _, _ := library.NodeFromCtx(inner, 0);
    assert library.defs[0].kinds == [CtxNode(0)];
    assert library.defs[0].kinds[0].CtxNode?;
    var _ := library.Start(inner, {0});
  }

  /** A second graph, which contains the first one. */
  method Nest(library: GraphLibrary)
    requires library.Valid() && library.defs == [Def([CtxNode(0)], {}, true, 0, 0)]
    modifies library
    ensures library.Valid()
    ensures library.defs == [Def([CtxNode(0)], {}, true, 0, 0), Def([GraphNode(0)], {}, false, 0, 0)]
  {
    var outer := library.Create();
    assert library.defs == [Def([CtxNode(0)], {}, true, 0, 0), Def([], {}, false, 0, 0)];
    assert Uses(library.defs) == {};
    NewEdgeCircle({}, 1, 0);
    if Reaches({}, 0, 1) { var b := LastEdge({}, 0, 1); }
    var e, _ := library.NodeFromGraph(1, 0);
    assert e.Success?;
    assert library.defs[1].kinds == [GraphNode(0)];
  }

  /**
   * The state rules alone would not keep graphs from containing themselves: a graph may be stopped
   * after it was made a sub-graph, and then only the circle check stands in the way.
   */
  method CircleThroughAStoppedGraph(library: GraphLibrary) returns (e: Error)
    requires library.Valid() && library.defs == []
    modifies library
    ensures e == NotPermitted
  {
    SingleNode(library);
    Nest(library);
    var _, _ := library.NodeFromCtx(1, 0);
    assert library.defs[1].kinds == [GraphNode(0), CtxNode(0)];
    assert library.defs[1].kinds[1].CtxNode?;
    var _ := library.Start(1, {0});
    var _ := library.Stop(0);
    assert !library.defs[0].started && library.defs[1].started;
    var es := Uses(library.defs);
    assert library.defs[1].kinds[0].GraphNode?;
    EdgeReaches(es, 1, 0);
    NewEdgeCircle(es, 0, 1);
    var refused, _ := library.NodeFromGraph(0, 1);
    return refused;
  }

  // ---------------------------------------------------------------- from the table to a graph of graphs

  /** The graphs that run inside g, at any depth. */
  ghost function Below(defs: seq<Def>, g: nat): set<nat> {
    set e | e in Uses(defs) && Reaches(Uses(defs), g, e.1) :: e.1
  }

  lemma BelowShrinks(defs: seq<Def>, g: nat, h: nat)
    requires Acyclic(Uses(defs)) && (g, h) in Uses(defs)
    ensures |Below(defs, h)| < |Below(defs, g)|
  {
    var es := Uses(defs);
    EdgeReaches(es, g, h);
    forall n | n in Below(defs, h) ensures n in Below(defs, g) { ReachesTransitive(es, g, h, n); }
    assert (g, h).1 in Below(defs, g) && h !in Below(defs, h);
    StrictSubsetSmaller(Below(defs, h), Below(defs, g));
  }

  /** The graph of graphs behind a handle; it is finite because no graph contains itself. */
  function Unfold(defs: seq<Def>, g: nat): Run.Node
    requires DefsValid(defs) && g < |defs|
    decreases |Below(defs, g)|, |defs[g].kinds| + 1
  {
    Run.Sub(Run.Graph(UnfoldNodes(defs, g, |defs[g].kinds|), defs[g].deps))
  }

  function UnfoldNodes(defs: seq<Def>, g: nat, n: nat): (nodes: seq<Run.Node>)
    requires DefsValid(defs) && g < |defs| && n <= |defs[g].kinds|
    ensures |nodes| == n
    decreases |Below(defs, g)|, n
  {
    if n == 0 then []
    else
      UnfoldNodes(defs, g, n - 1)
      + [match defs[g].kinds[n - 1]
         case CtxNode(c) => Run.Ctx(c)
         case UserNode => Run.User
         case GraphNode(h) =>
           assert DefValid(defs[g], |defs|);
           assert (g, h) in Uses(defs);
           BelowShrinks(defs, g, h);
           Unfold(defs, h)]
  }

  /**
   * Whatever is built through the library, in any order of calls, unfolds into a graph of graphs
   * that is acyclic at every depth: all the results about runs apply to it.
   */
  lemma {:induction false} UnfoldsWellFormed(defs: seq<Def>, g: nat)
    requires DefsValid(defs) && g < |defs|
    ensures Run.WellFormed(Unfold(defs, g))
    decreases |Below(defs, g)|, |defs[g].kinds| + 1
  {
    assert DefValid(defs[g], |defs|);
    UnfoldNodesWellFormed(defs, g, |defs[g].kinds|);
  }

  lemma {:induction false} UnfoldNodesWellFormed(defs: seq<Def>, g: nat, n: nat)
    requires DefsValid(defs) && g < |defs| && n <= |defs[g].kinds|
    ensures forall i :: 0 <= i < n ==> Run.WellFormed(UnfoldNodes(defs, g, n)[i])
    decreases |Below(defs, g)|, n
  {
    if n > 0 {
      UnfoldNodesWellFormed(defs, g, n - 1);
      if defs[g].kinds[n - 1].GraphNode? {
        var h := defs[g].kinds[n - 1].graph;
        assert DefValid(defs[g], |defs|);
        assert (g, h) in Uses(defs);
        BelowShrinks(defs, g, h);
        UnfoldsWellFormed(defs, h);
      }
    }
  }

  lemma {:induction false} UnfoldNodesAt(defs: seq<Def>, g: nat, n: nat, i: nat)
    requires DefsValid(defs) && g < |defs| && i < n <= |defs[g].kinds|
    ensures match defs[g].kinds[i]
            case CtxNode(c) => UnfoldNodes(defs, g, n)[i] == Run.Ctx(c)
            case UserNode => UnfoldNodes(defs, g, n)[i] == Run.User
            case GraphNode(h) => h < |defs| && UnfoldNodes(defs, g, n)[i] == Unfold(defs, h)
    decreases n
  {
    assert DefValid(defs[g], |defs|);
    if i < n - 1 { UnfoldNodesAt(defs, g, n - 1, i); }
  }

  /** An unfolded graph has the dependencies and the nodes of its table entry, and runs what they name. */
  lemma UnfoldedAsBuilt(defs: seq<Def>, g: nat)
    requires DefsValid(defs) && g < |defs|
    ensures var d, root := defs[g], Unfold(defs, g);
            && root.Sub? && root.graph.deps == d.deps && |root.graph.nodes| == |d.kinds|
            && forall i :: 0 <= i < |d.kinds| ==>
                 match d.kinds[i]
                 case CtxNode(c) => root.graph.nodes[i] == Run.Ctx(c)
                 case UserNode => root.graph.nodes[i] == Run.User
                 case GraphNode(h) => h < |defs| && root.graph.nodes[i] == Unfold(defs, h)
  {
    var d, root := defs[g], Unfold(defs, g);
    forall i | 0 <= i < |d.kinds|
      ensures match d.kinds[i]
              case CtxNode(c) => root.graph.nodes[i] == Run.Ctx(c)
              case UserNode => root.graph.nodes[i] == Run.User
              case GraphNode(h) => h < |defs| && root.graph.nodes[i] == Unfold(defs, h)
    {
      UnfoldNodesAt(defs, g, |d.kinds|, i);
    }
  }

  /** Going from graph g down the sub-graph nodes c[0], c[1], ... leads through the graphs hs. */
  ghost predicate Trail(defs: seq<Def>, g: nat, c: Run.Path, hs: seq<nat>) {
    && |hs| == |c| + 1 && hs[0] == g && (forall k :: 0 <= k < |hs| ==> hs[k] < |defs|)
    && forall k :: 0 <= k < |c| ==>
         c[k] < |defs[hs[k]].kinds| && defs[hs[k]].kinds[c[k]] == GraphNode(hs[k + 1])
  }

  lemma {:induction false} UnfoldAt(defs: seq<Def>, g: nat, c: Run.Path, hs: seq<nat>)
    requires DefsValid(defs) && Trail(defs, g, c, hs)
    ensures Run.NodeAt(Unfold(defs, g), c) == Some(Unfold(defs, hs[|c|]))
    decreases |c|
  {
    if c != [] {
      UnfoldedAsBuilt(defs, g);
      GraphLiveness.LookupFromTheFront(Unfold(defs, g), c[0], c[1..]);
      assert c == [c[0]] + c[1..];
      assert defs[hs[0]].kinds[c[0]] == GraphNode(hs[1]);
      forall k | 0 <= k < |c[1..]|
        ensures c[1..][k] < |defs[hs[1..][k]].kinds|
                && defs[hs[1..][k]].kinds[c[1..][k]] == GraphNode(hs[1..][k + 1])
      {
        assert defs[hs[k + 1]].kinds[c[k + 1]] == GraphNode(hs[k + 2]);
      }
      UnfoldAt(defs, hs[1], c[1..], hs[1..]);
    }
  }

  /** At every path, what runs is what the table says of the graph reached there. */
  lemma NestedAsBuilt(defs: seq<Def>, g: nat, c: Run.Path, hs: seq<nat>, i: nat)
    requires DefsValid(defs) && Trail(defs, g, c, hs) && i < |defs[hs[|c|]].kinds|
    ensures var d, n := defs[hs[|c|]], Run.NodeAt(Unfold(defs, g), c);
            && n.Some? && n.value.Sub? && n.value.graph.deps == d.deps && |n.value.graph.nodes| == |d.kinds|
            && match d.kinds[i]
               case CtxNode(k) => n.value.graph.nodes[i] == Run.Ctx(k)
               case UserNode => n.value.graph.nodes[i] == Run.User
               case GraphNode(h) => h < |defs| && Trail(defs, g, c + [i], hs + [h])
                                    && Run.NodeAt(Unfold(defs, g), c + [i]) == Some(n.value.graph.nodes[i])
  {
    UnfoldAt(defs, g, c, hs);
    UnfoldedAsBuilt(defs, hs[|c|]);
    assert DefValid(defs[hs[|c|]], |defs|);
    var graph := Unfold(defs, hs[|c|]).graph;
    Run.ChildAt(Unfold(defs, g), c, graph, i);
  }

  /** A dependency in any graph of the table is obeyed wherever that graph runs, at any depth. */
  lemma TableOrder(defs: seq<Def>, g: nat, c: Run.Path, hs: seq<nat>, from: nat, to: nat,
                   states: seq<Run.State>, events: seq<Run.Event>, n: nat)
    returns (m: nat)
    requires DefsValid(defs) && Trail(defs, g, c, hs) && (from, to) in defs[hs[|c|]].deps
    requires GraphSafety.IsRun(Unfold(defs, g), states, events) && n < |events| && events[n] == Run.Submit(c + [to])
    ensures m < n && events[m] == Run.Succeed(c + [from])
  {
    UnfoldAt(defs, g, c, hs);
    UnfoldsWellFormed(defs, g);
    m := GraphSafety.DependencyFirst(Unfold(defs, g), states, events, n, c, Unfold(defs, hs[|c|]).graph, from, to);
  }

  /**
   * From the calls to the runs: a dependency that was added is obeyed by every run of every instance
   * of the graph. All goes well exactly when the dependency may be added and the graph started.
   */
  method DependAndCreate(library: GraphLibrary, g: nat, from: nat, to: nat, running: set<nat>)
    returns (e: Error, instance: GraphInstance.Instance?)
    requires library.Valid() && g < |library.defs|
    modifies library
    ensures library.Valid()
    ensures e.Success? <==> var d := old(library.defs)[g];
              && from < |d.kinds| && to < |d.kinds| && !d.started && Acyclic(d.deps + {(from, to)})
              && (exists i :: 0 <= i < |d.kinds| && d.kinds[i].CtxNode?)
              && (forall c :: CtxNode(c) in d.kinds ==> c in running)
              && d.maxInstances > 0
    ensures e.Success? ==> instance != null && fresh(instance) && instance.Valid()
    ensures e.Success? ==>
              forall states, events, n: nat {:trigger GraphSafety.IsRun(instance.root, states, events), events[n]} ::
                GraphSafety.IsRun(instance.root, states, events) && n < |events| && events[n] == Run.Submit([to]) ==>
                  exists m :: 0 <= m < n && events[m] == Run.Succeed([from])
  {
    instance := null;
    e := library.AddDependency(g, from, to);
    if !e.Success? { return; }
    e := library.Start(g, running);
    if !e.Success? { return; }
    e, instance := library.InstanceCreate(g);
    if !e.Success? { return; }
    var root := instance.root;
    assert [] + [to] == [to] && [] + [from] == [from];
    forall states, events, n: nat
      | GraphSafety.IsRun(root, states, events) && n < |events| && events[n] == Run.Submit([to])
      ensures exists m :: 0 <= m < n && events[m] == Run.Succeed([from])
    {
      var m := GraphSafety.DependencyFirst(root, states, events, n, [], root.graph, from, to);
    }
  }
}
