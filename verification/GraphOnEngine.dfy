/**
 * A graph instance running on a progress engine.
 *
 * Each context node carries a task of its context. Submitting the node submits the task, and the
 * completion of the task, which goes to the graph instead of to the task's callbacks, ends the node.
 * Meanwhile the application goes on calling the engine: it stops and starts contexts, and submits
 * and frees tasks of its own. A node whose context does not run when its turn comes cannot be
 * submitted, and counts as failed.
 */
module GraphOnEngine {
  import opened GraphRun
  import GraphSafety
  import GraphLiveness
  import E = EngineRun
  import Context

  datatype Slot = Slot(c: nat, t: nat)

  type Binding = map<Path, Slot>

  /** Every context node has a task of its own, allocated by the node's context. */
  ghost predicate Binds(root: Node, b: Binding) {
    && (forall p: Path {:trigger p in b} :: p in b <==> NodeAt(root, p).Some? && NodeAt(root, p).value.Ctx?)
    && (forall p :: p in b ==> b[p].c == NodeAt(root, p).value.ctx)
    && (forall p, q :: p in b && q in b && b[p] == b[q] ==> p == q)
  }

  datatype Both = Both(s: State, w: E.World)

  datatype Move =
    | Own(e: Event)       // of a node without a task, or an overload
    | Task(e: Event)      // of a context node, carried out by its task
    | Refused(p: Path)    // a context node whose context does not run
    | Other(o: E.Event)   // anything the application or other tasks do

  /** What a node's event is to its task. */
  function OnTask(b: Binding, e: Event): E.Event
    requires e.p in b && !e.Busy?
  {
    var k := b[e.p];
    match e
    case Submit(_) => E.Submit(k.c, k.t)
    case Succeed(_) => E.Complete(k.c, k.t)
    case Fail(_) => E.Error(k.c, k.t)
  }

  predicate Concerns(e: E.Event, k: Slot) {
    && (e.Alloc? || e.Submit? || e.Release? || e.Complete? || e.Error?)
    && e.c == k.c && e.t == k.t
  }

  predicate Runs(w: E.World, c: nat) { c < |w.ctxs| && w.ctxs[c].state.Running? }

  ghost predicate Next(root: Node, b: Binding, x: Both, m: Move, y: Both) {
    match m
    case Own(e) => (e.p !in b || e.Busy?) && Step(root, x.s, e, y.s) && y.w == x.w
    case Task(e) => e.p in b && !e.Busy? && Step(root, x.s, e, y.s) && E.Step(x.w, OnTask(b, e), y.w)
    case Refused(p) =>
      p in b && !Runs(x.w, b[p].c) && Enabled(root, x.s, Submit(p)) && y == Both(x.s[p := Failed], x.w)
    case Other(o) => (forall p :: p in b ==> !Concerns(o, b[p])) && E.Step(x.w, o, y.w) && y.s == x.s
  }

  /** DOCA owns the tasks of the nodes in flight, and the user those of all others. */
  ghost predicate Coupled(b: Binding, x: Both) {
    forall p :: p in b ==>
      p in x.s && E.OwnerOf(x.w, b[p].c, b[p].t) == if x.s[p].InFlight? then Context.Doca else Context.User
  }

  ghost predicate Sound(root: Node, b: Binding, x: Both) { Inv(root, x.s) && E.Inv(x.w) && Coupled(b, x) }

  /** An instance that waits for submission, with its tasks allocated, on an engine in any state it can be in. */
  ghost predicate Begins(root: Node, b: Binding, x: Both) {
    && Binds(root, b) && Initial(root, x.s) && E.Inv(x.w)
    && forall p :: p in b ==> E.OwnerOf(x.w, b[p].c, b[p].t).User?
  }

  ghost predicate IsRun(root: Node, b: Binding, xs: seq<Both>, moves: seq<Move>) {
    && |xs| == |moves| + 1
    && Begins(root, b, xs[0])
    && forall i :: 0 <= i < |moves| ==> Next(root, b, xs[i], moves[i], xs[i + 1])
  }

  // ---------------------------------------------------------------- nodes and tasks stay coupled

  /** A task that is not free has its owner changed only by events of its own. */
  lemma OwnerStays(w: E.World, e: E.Event, w': E.World, k: Slot)
    requires E.Step(w, e, w') && !Concerns(e, k) && !E.OwnerOf(w, k.c, k.t).Free?
    ensures E.OwnerOf(w', k.c, k.t) == E.OwnerOf(w, k.c, k.t)
  {
  }

  lemma OwnerMoves(w: E.World, b: Binding, e: Event, w': E.World)
    requires e.p in b && !e.Busy? && E.Step(w, OnTask(b, e), w')
    ensures E.OwnerOf(w', b[e.p].c, b[e.p].t) == if e.Submit? then Context.Doca else Context.User
  {
  }

  lemma TaskCoupled(root: Node, b: Binding, x: Both, e: Event, y: Both)
    requires Binds(root, b) && Coupled(b, x) && Next(root, b, x, Task(e), y)
    ensures Coupled(b, y)
  {
    OwnerMoves(x.w, b, e, y.w);
    forall p | p in b
      ensures p in y.s && E.OwnerOf(y.w, b[p].c, b[p].t) == if y.s[p].InFlight? then Context.Doca else Context.User
    {
      if p != e.p {
        assert b[p] != b[e.p];
        OwnerStays(x.w, OnTask(b, e), y.w, b[p]);
      }
    }
  }

  lemma OtherCoupled(root: Node, b: Binding, x: Both, o: E.Event, y: Both)
    requires Coupled(b, x) && Next(root, b, x, Other(o), y)
    ensures Coupled(b, y)
  {
    forall p | p in b
      ensures p in y.s && E.OwnerOf(y.w, b[p].c, b[p].t) == if y.s[p].InFlight? then Context.Doca else Context.User
    {
      OwnerStays(x.w, o, y.w, b[p]);
    }
  }

  /** A leaf is submitted and fails at once when it is refused. */
  lemma RefusedIsFailed(root: Node, s: State, p: Path)
    requires Inv(root, s) && Enabled(root, s, Submit(p)) && !IsSub(root, p)
    ensures Step(root, s, Submit(p), s[p := InFlight])
    ensures Step(root, s[p := InFlight], Fail(p), s[p := Failed])
  {
    assert s[p := InFlight][p := Failed] == s[p := Failed];
  }

  lemma SoundStep(root: Node, b: Binding, x: Both, m: Move, y: Both)
    requires Binds(root, b) && Sound(root, b, x) && Next(root, b, x, m, y)
    ensures Sound(root, b, y)
  {
    match m
    case Own(e) =>
      StepInv(root, x.s, e, y.s);
    case Task(e) =>
      StepInv(root, x.s, e, y.s);
      E.StepInv(x.w, OnTask(b, e), y.w);
      TaskCoupled(root, b, x, e, y);
    case Refused(p) =>
      RefusedIsFailed(root, x.s, p);
      StepInv(root, x.s, Submit(p), x.s[p := InFlight]);
      StepInv(root, x.s[p := InFlight], Fail(p), y.s);
    case Other(o) =>
      E.StepInv(x.w, o, y.w);
      OtherCoupled(root, b, x, o, y);
  }

  /**
   * Throughout every run, whatever the application does to the engine, the context nodes in flight
   * are just those whose tasks DOCA owns.
   */
  lemma {:induction false} RunSound(root: Node, b: Binding, xs: seq<Both>, moves: seq<Move>, n: nat)
    requires IsRun(root, b, xs, moves) && n < |xs|
    ensures Sound(root, b, xs[n])
  {
    if n == 0 {
      InitialInv(root, xs[0].s);
    } else {
      RunSound(root, b, xs, moves, n - 1);
      assert Next(root, b, xs[n - 1], moves[n - 1], xs[n]);
      SoundStep(root, b, xs[n - 1], moves[n - 1], xs[n]);
    }
  }

  /** An idle or starting context runs no node of any instance. */
  lemma IdleContextsRunNoNode(root: Node, b: Binding, x: Both, p: Path)
    requires Sound(root, b, x) && p in b && b[p].c < |x.w.ctxs|
    requires x.w.ctxs[b[p].c].state.Idle? || x.w.ctxs[b[p].c].state.Starting?
    ensures p in x.s && !x.s[p].InFlight?
  {
    var c := x.w.ctxs[b[p].c];
    assert Context.Sound(c);
    Context.CountZero(c.slots);
  }

  // ---------------------------------------------------------------- the run of the graph behind it

  function Events(m: Move): seq<Event> {
    match m
    case Own(e) => [e]
    case Task(e) => [e]
    case Refused(p) => [Submit(p), Fail(p)]
    case Other(_) => []
  }

  function AllEvents(moves: seq<Move>): seq<Event> {
    if moves == [] then [] else AllEvents(moves[..|moves| - 1]) + Events(moves[|moves| - 1])
  }

  lemma AllEventsSnoc(moves: seq<Move>, n: nat)
    requires n < |moves|
    ensures AllEvents(moves[..n + 1]) == AllEvents(moves[..n]) + Events(moves[n])
  {
    assert moves[..n + 1][..n] == moves[..n];
  }

  /** On the engine the instance makes a run of its graph, so everything that holds of those holds here. */
  lemma {:induction false} GraphPart(root: Node, b: Binding, xs: seq<Both>, moves: seq<Move>, n: nat)
    returns (states: seq<State>)
    requires IsRun(root, b, xs, moves) && n < |xs|
    ensures GraphSafety.IsRun(root, states, AllEvents(moves[..n])) && states[|states| - 1] == xs[n].s
    ensures states[0] == xs[0].s
  {
    if n == 0 {
      states := [xs[0].s];
    } else {
      states := GraphPart(root, b, xs, moves, n - 1);
      RunSound(root, b, xs, moves, n - 1);
      assert Next(root, b, xs[n - 1], moves[n - 1], xs[n]);
      AllEventsSnoc(moves, n - 1);
      states := OneMore(root, b, states, AllEvents(moves[..n - 1]), xs[n - 1], moves[n - 1], xs[n]);
    }
  }

  lemma OneMore(root: Node, b: Binding, states: seq<State>, events: seq<Event>, x: Both, m: Move, y: Both)
    returns (more: seq<State>)
    requires GraphSafety.IsRun(root, states, events) && states[|events|] == x.s
    requires Binds(root, b) && Sound(root, b, x) && Next(root, b, x, m, y)
    ensures GraphSafety.IsRun(root, more, events + Events(m)) && more[|more| - 1] == y.s && more[0] == states[0]
  {
    match m
    case Own(e) =>
      GraphSafety.RunExtends(root, states, events, e);
      more := states + [y.s];
    case Task(e) =>
      GraphSafety.RunExtends(root, states, events, e);
      more := states + [y.s];
    case Refused(p) =>
      RefusedIsFailed(root, x.s, p);
      GraphSafety.RunExtends(root, states, events, Submit(p));
      more := states + [x.s[p := InFlight]];
      GraphSafety.RunExtends(root, more, events + [Submit(p)], Fail(p));
      more := more + [y.s];
      assert events + [Submit(p)] + [Fail(p)] == events + Events(m);
    case Other(o) =>
      assert events + Events(m) == events;
      more := states;
  }

  // ---------------------------------------------------------------- the run of the engine behind it

  function Calls(b: Binding, m: Move): seq<E.Event> {
    match m
    case Task(e) => if e.p in b && !e.Busy? then [OnTask(b, e)] else []
    case Other(o) => [o]
    case _ => []
  }

  function AllCalls(b: Binding, moves: seq<Move>): seq<E.Event> {
    if moves == [] then [] else AllCalls(b, moves[..|moves| - 1]) + Calls(b, moves[|moves| - 1])
  }

  /** From world to world by these events. */
  ghost predicate Leads(ws: seq<E.World>, events: seq<E.Event>, w: E.World, w': E.World) {
    && |ws| == |events| + 1 && ws[0] == w && ws[|events|] == w'
    && forall i :: 0 <= i < |events| ==> E.Step(ws[i], events[i], ws[i + 1])
  }

  lemma LeadsOn(ws: seq<E.World>, events: seq<E.Event>, w: E.World, w': E.World, e: E.Event, w'': E.World)
    requires Leads(ws, events, w, w') && E.Step(w', e, w'')
    ensures Leads(ws + [w''], events + [e], w, w'')
  {
    var ws', events' := ws + [w''], events + [e];
    forall i | 0 <= i < |events'| ensures E.Step(ws'[i], events'[i], ws'[i + 1]) {
      if i < |events| { assert E.Step(ws[i], events[i], ws[i + 1]); }
    }
  }

  /** Meanwhile the engine makes steps of its own kind: those of the nodes' tasks and all others. */
  lemma {:induction false} EnginePart(root: Node, b: Binding, xs: seq<Both>, moves: seq<Move>, n: nat)
    returns (ws: seq<E.World>)
    requires IsRun(root, b, xs, moves) && n < |xs|
    ensures Leads(ws, AllCalls(b, moves[..n]), xs[0].w, xs[n].w)
  {
    if n == 0 {
      ws := [xs[0].w];
    } else {
      ws := EnginePart(root, b, xs, moves, n - 1);
      assert Next(root, b, xs[n - 1], moves[n - 1], xs[n]);
      AllCallsSnoc(b, moves, n - 1);
      var before := AllCalls(b, moves[..n - 1]);
      if moves[n - 1].Task? || moves[n - 1].Other? {
        var e := Calls(b, moves[n - 1])[0];
        assert Calls(b, moves[n - 1]) == [e];
        LeadsOn(ws, before, xs[0].w, xs[n - 1].w, e, xs[n].w);
        ws := ws + [xs[n].w];
      } else {
        assert before + [] == before;
      }
    }
  }

  lemma AllCallsSnoc(b: Binding, moves: seq<Move>, n: nat)
    requires n < |moves|
    ensures AllCalls(b, moves[..n + 1]) == AllCalls(b, moves[..n]) + Calls(b, moves[n])
  {
    assert moves[..n + 1][..n] == moves[..n];
  }

  /** A node has been submitted, has completed and has failed as often as its task, or was refused. */
  ghost predicate Agree(past: multiset<Event>, calls: multiset<E.Event>, refused: nat, p: Path, k: Slot) {
    && past[Submit(p)] == calls[E.Submit(k.c, k.t)] + refused
    && past[Succeed(p)] == calls[E.Complete(k.c, k.t)]
    && past[Fail(p)] == calls[E.Error(k.c, k.t)] + refused
  }

  lemma TaskAgrees(b: Binding, e: Event, p: Path)
    requires p in b && e.p in b && !e.Busy? && (e.p != p ==> b[e.p] != b[p])
    ensures Agree(multiset{e}, multiset{OnTask(b, e)}, 0, p, b[p])
  {
  }

  lemma OtherAgrees(o: E.Event, p: Path, k: Slot)
    requires !Concerns(o, k)
    ensures Agree(multiset{}, multiset{o}, 0, p, k)
  {
  }

  lemma OwnAgrees(e: Event, p: Path, k: Slot)
    requires e.p != p || e.Busy?
    ensures Agree(multiset{e}, multiset{}, 0, p, k)
  {
  }

  lemma RefusedAgrees(q: Path, p: Path, k: Slot)
    ensures Agree(multiset{Submit(q), Fail(q)}, multiset{}, if q == p then 1 else 0, p, k)
  {
  }

  lemma MoveAgrees(root: Node, b: Binding, x: Both, m: Move, y: Both, p: Path)
    requires Binds(root, b) && Next(root, b, x, m, y) && p in b
    ensures Agree(multiset(Events(m)), multiset(Calls(b, m)), if m == Refused(p) then 1 else 0, p, b[p])
  {
    match m
    case Own(e) =>
      OwnAgrees(e, p, b[p]);
      assert multiset(Events(m)) == multiset{e};
    case Task(e) =>
      TaskAgrees(b, e, p);
      assert multiset(Events(m)) == multiset{e} && multiset(Calls(b, m)) == multiset{OnTask(b, e)};
    case Refused(q) =>
      RefusedAgrees(q, p, b[p]);
      assert multiset(Events(m)) == multiset{Submit(q), Fail(q)};
    case Other(o) =>
      OtherAgrees(o, p, b[p]);
      assert multiset(Calls(b, m)) == multiset{o};
  }

  lemma AgreeAdds(
      events: seq<Event>, calls: seq<E.Event>, refused: nat,
      events': seq<Event>, calls': seq<E.Event>, refused': nat, p: Path, k: Slot)
    requires Agree(multiset(events), multiset(calls), refused, p, k)
    requires Agree(multiset(events'), multiset(calls'), refused', p, k)
    ensures Agree(multiset(events + events'), multiset(calls + calls'), refused + refused', p, k)
  {
  }

  lemma RefusedAdds(moves: seq<Move>, n: nat, p: Path)
    requires n < |moves|
    ensures multiset(moves[..n + 1])[Refused(p)]
            == multiset(moves[..n])[Refused(p)] + if moves[n] == Refused(p) then 1 else 0
  {
    assert moves[..n + 1] == moves[..n] + [moves[n]];
  }

  lemma {:induction false} AgreeThroughout(
      root: Node, b: Binding, xs: seq<Both>, moves: seq<Move>, n: nat, p: Path)
    requires IsRun(root, b, xs, moves) && n < |xs| && p in b
    ensures Agree(multiset(AllEvents(moves[..n])), multiset(AllCalls(b, moves[..n])),
                  multiset(moves[..n])[Refused(p)], p, b[p])
  {
    if n > 0 {
      var i := n - 1;
      AgreeThroughout(root, b, xs, moves, i, p);
      assert Next(root, b, xs[i], moves[i], xs[i + 1]);
      MoveAgrees(root, b, xs[i], moves[i], xs[i + 1], p);
      AllEventsSnoc(moves, i);
      AllCallsSnoc(b, moves, i);
      RefusedAdds(moves, i, p);
      AgreeAdds(AllEvents(moves[..i]), AllCalls(b, moves[..i]), multiset(moves[..i])[Refused(p)],
                Events(moves[i]), Calls(b, moves[i]), if moves[i] == Refused(p) then 1 else 0, p, b[p]);
    }
  }

  /**
   * Over every run, a context node has been submitted, has completed and has failed just as often as
   * its task has been submitted, has completed and has failed, but for the times it was refused.
   */
  lemma NodesAndTasksAgree(root: Node, b: Binding, xs: seq<Both>, moves: seq<Move>, n: nat, p: Path)
    requires IsRun(root, b, xs, moves) && n < |xs| && p in b
    ensures var k, past := b[p], multiset(AllEvents(moves[..n]));
            var calls, refused := multiset(AllCalls(b, moves[..n])), multiset(moves[..n])[Refused(p)];
            && past[Submit(p)] == calls[E.Submit(k.c, k.t)] + refused
            && past[Succeed(p)] == calls[E.Complete(k.c, k.t)]
            && past[Fail(p)] == calls[E.Error(k.c, k.t)] + refused
  {
    AgreeThroughout(root, b, xs, moves, n, p);
  }

  // ---------------------------------------------------------------- the instance always ends

  /** A move that brings the instance closer to its end. */
  predicate Advances(m: Move) { m.Task? || m.Refused? || (m.Own? && !m.e.Busy?) }

  /**
   * While an instance is in flight, some move advances it, in whatever state the contexts are: those
   * that run take nodes, those that stop hand theirs back, and the others refuse.
   */
  lemma NoDeadlock(root: Node, b: Binding, x: Both) returns (m: Move, y: Both)
    requires WellFormed(root) && Binds(root, b) && Sound(root, b, x) && [] in x.s && x.s[[]].InFlight?
    ensures Next(root, b, x, m, y) && Advances(m)
  {
    var e := GraphLiveness.NoDeadlock(root, x.s);
    if e.p !in b {
      m, y := Own(e), Both(Effect(x.s, e), x.w);
    } else if e.Submit? && !Runs(x.w, b[e.p].c) {
      m, y := Refused(e.p), Both(x.s[e.p := Failed], x.w);
    } else {
      var o := OnTask(b, e);
      if !e.Submit? { E.CompletionsCounted(x.w, o.c, o.t); }
      m, y := Task(e), Both(Effect(x.s, e), E.Effect(x.w, o));
    }
  }

  function Advancing(moves: seq<Move>): nat {
    if moves == [] then 0
    else Advancing(moves[..|moves| - 1]) + if Advances(moves[|moves| - 1]) then 1 else 0
  }

  lemma MoveUsesWork(root: Node, b: Binding, x: Both, m: Move, y: Both)
    requires Binds(root, b) && Sound(root, b, x) && Next(root, b, x, m, y)
    ensures if Advances(m) then GraphLiveness.Work(y.s) < GraphLiveness.Work(x.s)
            else GraphLiveness.Work(y.s) == GraphLiveness.Work(x.s)
  {
    match m
    case Own(e) => GraphLiveness.StepUsesWork(root, x.s, e, y.s);
    case Task(e) => GraphLiveness.StepUsesWork(root, x.s, e, y.s);
    case Refused(p) =>
      RefusedIsFailed(root, x.s, p);
      GraphLiveness.StepUsesWork(root, x.s, Submit(p), x.s[p := InFlight]);
      GraphLiveness.StepUsesWork(root, x.s[p := InFlight], Fail(p), y.s);
    case Other(_) =>
  }

  /** An instance advances at most twice as often as it has nodes, however much else goes on. */
  lemma {:induction false} AdvancesAreBounded(root: Node, b: Binding, xs: seq<Both>, moves: seq<Move>, n: nat)
    requires IsRun(root, b, xs, moves) && n < |xs|
    ensures Advancing(moves[..n]) + GraphLiveness.Work(xs[n].s) <= 2 * |xs[0].s|
  {
    if n == 0 {
      var s := xs[0].s;
      assert GraphLiveness.WithStatus(s, Pending) == s.Keys && GraphLiveness.WithStatus(s, InFlight) == {};
    } else {
      AdvancesAreBounded(root, b, xs, moves, n - 1);
      assert moves[..n][..n - 1] == moves[..n - 1];
      RunSound(root, b, xs, moves, n - 1);
      assert Next(root, b, xs[n - 1], moves[n - 1], xs[n]);
      MoveUsesWork(root, b, xs[n - 1], moves[n - 1], xs[n]);
    }
  }

  /**
   * Whatever the contexts do, an instance that cannot advance any more has had exactly one callback:
   * stopping contexts under it neither loses nor doubles it.
   */
  lemma OneCallback(root: Node, b: Binding, xs: seq<Both>, moves: seq<Move>)
    requires WellFormed(root) && IsRun(root, b, xs, moves)
    requires forall m, y :: Next(root, b, xs[|moves|], m, y) ==> !Advances(m)
    ensures var past := multiset(AllEvents(moves)); past[Succeed([])] + past[Fail([])] == 1
  {
    var x := xs[|moves|];
    RunSound(root, b, xs, moves, |moves|);
    assert moves[..|moves|] == moves;
    var states := GraphPart(root, b, xs, moves, |moves|);
    var events := AllEvents(moves);
    assert NodeAt(root, []).Some?;
    if x.s[[]].InFlight? { var m, y := NoDeadlock(root, b, x); }
    if x.s[[]].Pending? { Begun(root, b, x); }
    GraphSafety.RunInv(root, states, events, |events|);
    GraphSafety.Accounting(root, states, events, |events|, []);
    assert events[..|events|] == events;
  }

  lemma Begun(root: Node, b: Binding, x: Both)
    requires Binds(root, b) && Sound(root, b, x) && [] in x.s && x.s[[]].Pending?
    ensures exists m, y :: Next(root, b, x, m, y) && Advances(m)
  {
    assert Enabled(root, x.s, Submit([]));
    if [] !in b {
      assert Next(root, b, x, Own(Submit([])), Both(Effect(x.s, Submit([])), x.w));
    } else if !Runs(x.w, b[[]].c) {
      assert Next(root, b, x, Refused([]), Both(x.s[[] := Failed], x.w));
    } else {
      var o := OnTask(b, Submit([]));
      assert Next(root, b, x, Task(Submit([])), Both(Effect(x.s, Submit([])), E.Effect(x.w, o)));
    }
  }

  // ---------------------------------------------------------------- a context that stops

  lemma {:induction false} NotRunNotStarted(
      root: Node, b: Binding, xs: seq<Both>, moves: seq<Move>, m: nat, n: nat, p: Path)
    requires IsRun(root, b, xs, moves) && m <= n < |xs| && p in b
    requires p in xs[m].s && xs[m].s[p].Pending?
    requires forall i :: m <= i < n ==> !Runs(xs[i].w, b[p].c)
    ensures p in xs[n].s && (xs[n].s[p].Pending? || xs[n].s[p].Failed?)
    decreases n
  {
    if m < n {
      NotRunNotStarted(root, b, xs, moves, m, n - 1, p);
      assert Next(root, b, xs[n - 1], moves[n - 1], xs[n]);
      NotRunStep(root, b, xs[n - 1], moves[n - 1], xs[n], p);
    }
  }

  lemma NotRunStep(root: Node, b: Binding, x: Both, m: Move, y: Both, p: Path)
    requires Next(root, b, x, m, y) && p in b && !Runs(x.w, b[p].c)
    requires p in x.s && (x.s[p].Pending? || x.s[p].Failed?)
    ensures p in y.s && (y.s[p].Pending? || y.s[p].Failed?)
  {
    match m
    case Own(e) =>
    case Task(e) =>
    case Refused(q) =>
    case Other(_) =>
  }

  /**
   * A node that was still waiting when its context ceased to run is never executed before the
   * context runs again, so an instance that ends before that has failed.
   */
  lemma StoppedContextFailsTheInstance(
      root: Node, b: Binding, xs: seq<Both>, moves: seq<Move>, m: nat, n: nat, p: Path)
    requires IsRun(root, b, xs, moves) && m <= n < |xs| && p in b
    requires p in xs[m].s && xs[m].s[p].Pending?
    requires forall i :: m <= i < n ==> !Runs(xs[i].w, b[p].c)
    ensures [] in xs[n].s && !xs[n].s[[]].Done?
  {
    NotRunNotStarted(root, b, xs, moves, m, n, p);
    RunSound(root, b, xs, moves, n);
    assert NodeAt(root, []).Some?;
    if xs[n].s[[]].Done? { GraphSafety.DoneInside(root, xs[n].s, [], p); }
  }
}
