/**
 * Steps of a progress engine and its contexts: calls of the application and occurrences that
 * progress reports, in any interleaving.
 */
module EngineRun {
  import opened Context
  import opened Sequences

  /** inFlight is the engine's own counter of submitted tasks. */
  datatype World = World(ctxs: seq<Ctx>, inFlight: nat)

  datatype Event =
    | Connect(c: nat)
    | Configure(c: nat, tasks: nat)    // sets how many tasks the context can allocate
    | Start(c: nat)
    | Established(c: nat)              // a starting context becomes connected
    | Stop(c: nat)
    | Drained(c: nat)                  // a stopping context becomes idle
    | Alloc(c: nat, t: nat)
    | Submit(c: nat, t: nat)
    | Release(c: nat, t: nat)
    | Complete(c: nat, t: nat)         // the completion callback of the task is invoked
    | Error(c: nat, t: nat)            // the error callback of the task is invoked

  predicate Enabled(w: World, e: Event) {
    e.c < |w.ctxs| &&
    var x := w.ctxs[e.c];
    match e
    case Connect(_) => x.state.Idle? && !x.connected
    case Configure(_, _) => x.state.Idle? && forall t :: 0 <= t < |x.slots| ==> x.slots[t].Free?
    case Start(_) => x.state.Idle? && x.connected
    case Established(_) => x.state.Starting?
    case Stop(_) => x.state.Starting? || x.state.Running?
    case Drained(_) => x.state.Stopping? && x.inFlight == 0
    case Alloc(_, t) => x.state.Running? && t < |x.slots| && x.slots[t].Free?
    case Submit(_, t) => x.state.Running? && t < |x.slots| && x.slots[t].User?
    case Release(_, t) => t < |x.slots| && x.slots[t].User?
    case Complete(_, t) => t < |x.slots| && x.slots[t].Doca? && x.inFlight > 0
    case Error(_, t) => t < |x.slots| && x.slots[t].Doca? && x.inFlight > 0
  }

  /** What the event does to its context; no other context is touched. */
  function CtxEffect(w: World, e: Event): Ctx
    requires Enabled(w, e)
  {
    var x := w.ctxs[e.c];
    match e
    case Connect(_) => x.(connected := true)
    case Configure(_, n) => x.(slots := seq(n, _ => Free))
    case Start(_) => x.(state := if x.startsLater then Starting else Running)
    case Established(_) => x.(state := Running)
    case Stop(_) => x.(state := Stopping)
    case Drained(_) => x.(state := Idle)
    case Alloc(_, t) => x.(slots := x.slots[t := User])
    case Submit(_, t) => x.(slots := x.slots[t := Doca], inFlight := x.inFlight + 1)
    case Release(_, t) => x.(slots := x.slots[t := Free])
    case Complete(_, t) => x.(slots := x.slots[t := User], inFlight := x.inFlight - 1)
    case Error(_, t) =>
      x.(slots := x.slots[t := User], inFlight := x.inFlight - 1,
         state := if x.stopsOnError then Stopping else x.state)
  }

  predicate Returns(e: Event) { e.Complete? || e.Error? }

  function Effect(w: World, e: Event): World
    requires Enabled(w, e) && (Returns(e) ==> w.inFlight > 0)
  {
    World(w.ctxs[e.c := CtxEffect(w, e)],
          if e.Submit? then w.inFlight + 1 else if Returns(e) then w.inFlight - 1 else w.inFlight)
  }

  ghost predicate Step(w: World, e: Event, w': World) {
    Enabled(w, e) && (Returns(e) ==> w.inFlight > 0) && w' == Effect(w, e)
  }

  function SumInFlight(ctxs: seq<Ctx>): nat {
    if ctxs == [] then 0 else SumInFlight(ctxs[..|ctxs| - 1]) + ctxs[|ctxs| - 1].inFlight
  }

  lemma {:induction false} SumUpdate(ctxs: seq<Ctx>, c: nat, x: Ctx)
    requires c < |ctxs|
    ensures SumInFlight(ctxs[c := x]) == SumInFlight(ctxs) - ctxs[c].inFlight + x.inFlight
  {
    var n := |ctxs| - 1;
    if c == n {
      assert ctxs[c := x][..n] == ctxs[..n];
    } else {
      SumUpdate(ctxs[..n], c, x);
      assert ctxs[c := x][..n] == ctxs[..n][c := x];
    }
  }

  ghost predicate Inv(w: World) {
    && (forall c :: 0 <= c < |w.ctxs| ==> Sound(w.ctxs[c]))
    && w.inFlight == SumInFlight(w.ctxs)
  }

  /** Contexts as created: idle, connected to nothing, without tasks. */
  ghost predicate Initial(w: World) {
    && w.inFlight == 0
    && forall c :: 0 <= c < |w.ctxs| ==>
         var x := w.ctxs[c];
         x.state.Idle? && !x.connected && x.slots == [] && x.inFlight == 0
  }

  lemma {:induction false} SumOfZeros(ctxs: seq<Ctx>)
    requires forall c :: 0 <= c < |ctxs| ==> ctxs[c].inFlight == 0
    ensures SumInFlight(ctxs) == 0
  {
    if ctxs != [] {
      SumOfZeros(ctxs[..|ctxs| - 1]);
    }
  }

  lemma InitialInv(w: World)
    requires Initial(w)
    ensures Inv(w)
  {
    SumOfZeros(w.ctxs);
  }

  lemma SoundStep(w: World, e: Event)
    requires Enabled(w, e) && Sound(w.ctxs[e.c])
    ensures Sound(CtxEffect(w, e))
  {
    var x := w.ctxs[e.c];
    match e
    case Alloc(_, t) => CountUpdate(x.slots, t, User);
    case Submit(_, t) => CountUpdate(x.slots, t, Doca);
    case Release(_, t) => CountUpdate(x.slots, t, Free);
    case Complete(_, t) => CountUpdate(x.slots, t, User);
    case Error(_, t) => CountUpdate(x.slots, t, User);
    case Configure(_, n) => CountZero(x.slots); CountZero(CtxEffect(w, e).slots);
    case _ =>
  }

  lemma StepInv(w: World, e: Event, w': World)
    requires Inv(w) && Step(w, e, w')
    ensures Inv(w')
  {
    SoundStep(w, e);
    SumUpdate(w.ctxs, e.c, CtxEffect(w, e));
  }

  /** The counters are never behind: a completing task is always counted, by its context and by the engine. */
  lemma CompletionsCounted(w: World, c: nat, t: nat)
    requires Inv(w) && c < |w.ctxs| && t < |w.ctxs[c].slots| && w.ctxs[c].slots[t].Doca?
    ensures 0 < w.ctxs[c].inFlight <= w.inFlight
    ensures Enabled(w, Complete(c, t)) && Enabled(w, Error(c, t))
  {
    assert Sound(w.ctxs[c]);
    CountZero(w.ctxs[c].slots);
    SumAtLeast(w.ctxs, c);
  }

  lemma {:induction false} SumAtLeast(ctxs: seq<Ctx>, c: nat)
    requires c < |ctxs|
    ensures ctxs[c].inFlight <= SumInFlight(ctxs)
  {
    if c < |ctxs| - 1 { SumAtLeast(ctxs[..|ctxs| - 1], c); }
  }

  // ---------------------------------------------------------------- runs

  ghost predicate IsRun(states: seq<World>, events: seq<Event>) {
    && |states| == |events| + 1
    && Initial(states[0])
    && forall i :: 0 <= i < |events| ==> Step(states[i], events[i], states[i + 1])
  }

  /**
   * In every reachable state the engine's in-flight count is the sum of its contexts' counts, each
   * of which counts exactly the tasks DOCA owns; and no idle or starting context has one.
   */
  lemma {:induction false} RunInv(states: seq<World>, events: seq<Event>, n: nat)
    requires IsRun(states, events) && n < |states|
    ensures Inv(states[n]) && |states[n].ctxs| == |states[0].ctxs|
  {
    if n == 0 {
      InitialInv(states[0]);
    } else {
      RunInv(states, events, n - 1);
      assert Step(states[n - 1], events[n - 1], states[n]);
      StepInv(states[n - 1], events[n - 1], states[n]);
    }
  }

  // ---------------------------------------------------------------- every submission gets one callback

  function OwnerOf(w: World, c: nat, t: nat): Owner {
    if c < |w.ctxs| && t < |w.ctxs[c].slots| then w.ctxs[c].slots[t] else Free
  }

  /** The owner of a task is the balance of its past: allocations against releases, submissions against callbacks. */
  ghost predicate Accounted(past: multiset<Event>, c: nat, t: nat, o: Owner) {
    && past[Submit(c, t)] == past[Complete(c, t)] + past[Error(c, t)] + (if o.Doca? then 1 else 0)
    && past[Alloc(c, t)] == past[Release(c, t)] + (if o.Free? then 0 else 1)
  }

  lemma AccountStep(w: World, e: Event, w': World, past: multiset<Event>, c: nat, t: nat)
    requires Step(w, e, w') && Accounted(past, c, t, OwnerOf(w, c, t))
    ensures Accounted(past + multiset{e}, c, t, OwnerOf(w', c, t))
  {
    if e.c == c {
      match e
      case Configure(_, n) =>
      case _ =>
    }
  }

  /**
   * Ownership is linear over every run: a task is DOCA's exactly while one of its submissions has
   * had no callback yet, and free exactly when all its allocations have been released. So each
   * successful submission is answered by exactly one callback, and no callback comes unasked.
   */
  lemma {:induction false} Accounting(states: seq<World>, events: seq<Event>, n: nat, c: nat, t: nat)
    requires IsRun(states, events) && n < |states|
    ensures Accounted(Before(events, n), c, t, OwnerOf(states[n], c, t))
  {
    if n > 0 {
      Accounting(states, events, n - 1, c, t);
      assert Step(states[n - 1], events[n - 1], states[n]);
      AccountAt(events, n - 1, states[n - 1], states[n], c, t);
    }
  }

  lemma AccountAt(events: seq<Event>, n: nat, w: World, w': World, c: nat, t: nat)
    requires n < |events| && Step(w, events[n], w') && Accounted(Before(events, n), c, t, OwnerOf(w, c, t))
    ensures Accounted(Before(events, n + 1), c, t, OwnerOf(w', c, t))
  {
    BeforeNext(events, n);
    AccountStep(w, events[n], w', Before(events, n), c, t);
  }

  /** The same, read off the slots of the contexts. */
  lemma OwnersAreTheBalance(states: seq<World>, events: seq<Event>, n: nat, c: nat, t: nat)
    requires IsRun(states, events) && n < |states|
    ensures var past, ctxs := multiset(events[..n]), states[n].ctxs;
            && past[Submit(c, t)] == past[Complete(c, t)] + past[Error(c, t)]
                 + (if c < |ctxs| && t < |ctxs[c].slots| && ctxs[c].slots[t] == Doca then 1 else 0)
            && past[Alloc(c, t)] == past[Release(c, t)]
                 + (if c < |ctxs| && t < |ctxs[c].slots| && ctxs[c].slots[t] != Free then 1 else 0)
  {
    Accounting(states, events, n, c, t);
  }

  /** The engine counts every task that DOCA owns, in any context, once. */
  lemma CountersAreExact(states: seq<World>, events: seq<Event>, n: nat, c: nat)
    requires IsRun(states, events) && n < |states| && c < |states[n].ctxs|
    ensures var x := states[n].ctxs[c];
            && x.inFlight == |set t | 0 <= t < |x.slots| && x.slots[t] == Doca|
            && (x.inFlight > 0 ==> x.state == Running || x.state == Stopping)
    ensures states[n].inFlight == |TasksOut(states[n].ctxs)|
    ensures forall i, t :: (i, t) in TasksOut(states[n].ctxs) <==>
              && 0 <= i < |states[n].ctxs| && 0 <= t < |states[n].ctxs[i].slots|
              && states[n].ctxs[i].slots[t] == Doca
  {
    RunInv(states, events, n);
    assert Sound(states[n].ctxs[c]);
    CountIs(states[n].ctxs[c].slots);
    SumIs(states[n].ctxs);
  }

  /** The tasks DOCA owns, with their contexts. */
  ghost function TasksOut(ctxs: seq<Ctx>): set<(int, int)> {
    set c, t | 0 <= c < |ctxs| && 0 <= t < |ctxs[c].slots| && ctxs[c].slots[t] == Doca :: (c, t)
  }

  ghost function OutOf(slots: seq<Owner>): set<int> {
    set t | 0 <= t < |slots| && slots[t] == Doca
  }

  ghost function Tagged<T>(own: set<T>, n: int): set<(int, T)> {
    set t | t in own :: (n, t)
  }

  lemma LastOut(ctxs: seq<Ctx>)
    requires ctxs != []
    ensures var n := |ctxs| - 1;
            && TasksOut(ctxs) == TasksOut(ctxs[..n]) + Tagged(OutOf(ctxs[n].slots), n)
            && TasksOut(ctxs[..n]) !! Tagged(OutOf(ctxs[n].slots), n)
  {
  }

  lemma {:induction false} SumIs(ctxs: seq<Ctx>)
    requires forall c :: 0 <= c < |ctxs| ==> Sound(ctxs[c])
    ensures SumInFlight(ctxs) == |TasksOut(ctxs)|
  {
    if ctxs != [] {
      var n := |ctxs| - 1;
      SumIs(ctxs[..n]);
      LastOut(ctxs);
      assert Sound(ctxs[n]);
      CountIs(ctxs[n].slots);
      assert OutOf(ctxs[n].slots) == set t | 0 <= t < |ctxs[n].slots| && ctxs[n].slots[t] == Doca;
      TaggedCount(OutOf(ctxs[n].slots), n);
    } else {
      assert TasksOut(ctxs) == {};
    }
  }

  lemma {:induction false} TaggedCount<T>(own: set<T>, n: int)
    ensures |Tagged(own, n)| == |own|
  {
    if x :| x in own {
      TaggedCount(own - {x}, n);
      assert Tagged(own, n) == Tagged(own - {x}, n) + {(n, x)};
    } else {
      assert own == {} && Tagged(own, n) == {};
    }
  }

  // ---------------------------------------------------------------- the state-changed callbacks

  /** What the state-changed callback of context c has been told up to step n. */
  ghost function Trace(states: seq<World>, c: nat, n: nat): seq<(State, State)>
    requires n < |states| && forall i :: 0 <= i < |states| ==> c < |states[i].ctxs|
  {
    if n == 0 then []
    else
      var a, b := states[n - 1].ctxs[c].state, states[n].ctxs[c].state;
      if a == b then Trace(states, c, n - 1) else Trace(states, c, n - 1) + [(a, b)]
  }

  /** A path of the state diagram from the idle state to `end`. */
  ghost predicate DiagramPath(trace: seq<(State, State)>, end: State) {
    && (forall i :: 0 <= i < |trace| ==> Arrow(trace[i].0, trace[i].1))
    && (forall i :: 0 < i < |trace| ==> trace[i - 1].1 == trace[i].0)
    && (if trace == [] then end.Idle? else trace[0].0.Idle? && trace[|trace| - 1].1 == end)
  }

  lemma StateStep(w: World, e: Event, w': World, c: nat)
    requires Step(w, e, w') && Inv(w) && c < |w.ctxs|
    ensures var a, b := w.ctxs[c].state, w'.ctxs[c].state; a == b || Arrow(a, b)
  {
    assert Sound(w.ctxs[c]);
  }

  /**
   * What moves a context along which arrow: starting it, being established, stopping it, failing of
   * a task where that stops it, and having drained. Nothing else changes its state.
   */
  lemma ArrowsOfEvents(w: World, e: Event, w': World, c: nat)
    requires Step(w, e, w') && Inv(w) && c < |w.ctxs|
    ensures |w'.ctxs| == |w.ctxs|
    ensures var x, y := w.ctxs[c], w'.ctxs[c];
            && (e == Start(c) ==> x.state == Idle && y.state == if x.startsLater then Starting else Running)
            && (e == Established(c) ==> x.state == Starting && y.state == Running)
            && (e == Stop(c) ==> (x.state == Starting || x.state == Running) && y.state == Stopping)
            && (e == Drained(c) ==> x.state == Stopping && x.inFlight == 0 && y.state == Idle)
            && (e.Error? && e.c == c ==> (x.state == Running || x.state == Stopping)
                                         && y.state == if x.stopsOnError then Stopping else x.state)
            && (e.c != c || !(e.Start? || e.Established? || e.Stop? || e.Drained? || e.Error?) ==> y.state == x.state)
  {
    assert Sound(w.ctxs[c]);
  }

  lemma {:induction false} TraceIsAPath(states: seq<World>, events: seq<Event>, c: nat, n: nat)
    requires IsRun(states, events) && n < |states| && c < |states[0].ctxs|
    ensures forall i :: 0 <= i < |states| ==> c < |states[i].ctxs|
    ensures DiagramPath(Trace(states, c, n), states[n].ctxs[c].state)
  {
    forall i | 0 <= i < |states| ensures c < |states[i].ctxs| { RunInv(states, events, i); }
    if n > 0 {
      TraceIsAPath(states, events, c, n - 1);
      RunInv(states, events, n - 1);
      assert Step(states[n - 1], events[n - 1], states[n]);
      StateStep(states[n - 1], events[n - 1], states[n], c);
      PathExtends(Trace(states, c, n - 1), states[n - 1].ctxs[c].state, states[n].ctxs[c].state);
    }
  }

  /** In every run, the callbacks of each context trace a connected path of the diagram to its present state. */
  lemma TraceFollowsTheDiagram(states: seq<World>, events: seq<Event>, c: nat, n: nat)
    requires IsRun(states, events) && n < |states| && c < |states[0].ctxs|
    ensures forall i :: 0 <= i < |states| ==> c < |states[i].ctxs|
    ensures var trace, end := Trace(states, c, n), states[n].ctxs[c].state;
            && (forall i :: 0 <= i < |trace| ==>
                  trace[i] in {(Idle, Running), (Idle, Starting), (Starting, Running), (Starting, Stopping),
                               (Running, Stopping), (Stopping, Idle)})
            && (forall i :: 0 < i < |trace| ==> trace[i - 1].1 == trace[i].0)
            && (if trace == [] then end == Idle else trace[0].0 == Idle && trace[|trace| - 1].1 == end)
  {
    TraceIsAPath(states, events, c, n);
    var trace := Trace(states, c, n);
    forall i | 0 <= i < |trace|
      ensures trace[i] in {(Idle, Running), (Idle, Starting), (Starting, Running), (Starting, Stopping),
                           (Running, Stopping), (Stopping, Idle)}
    {
      assert Arrow(trace[i].0, trace[i].1) && trace[i] == (trace[i].0, trace[i].1);
    }
  }

  lemma PathExtends(trace: seq<(State, State)>, a: State, b: State)
    requires DiagramPath(trace, a) && (a == b || Arrow(a, b))
    ensures DiagramPath(if a == b then trace else trace + [(a, b)], b)
  {
  }

  // ---------------------------------------------------------------- draining

  function Callbacks(events: seq<Event>, c: nat): (n: nat)
    ensures n <= |events|
  {
    if events == [] then 0
    else Callbacks(events[..|events| - 1], c)
         + if Returns(events[|events| - 1]) && events[|events| - 1].c == c then 1 else 0
  }

  lemma {:induction false} CallbacksAre(events: seq<Event>, c: nat)
    ensures Callbacks(events, c)
            == |set i | 0 <= i < |events| && (events[i].Complete? || events[i].Error?) && events[i].c == c|
  {
    if events != [] {
      var n := |events| - 1;
      CallbacksAre(events[..n], c);
      var before := set i | 0 <= i < n && (events[..n][i].Complete? || events[..n][i].Error?) && events[..n][i].c == c;
      var after := set i | 0 <= i < |events| && (events[i].Complete? || events[i].Error?) && events[i].c == c;
      assert after == before + (if Returns(events[n]) && events[n].c == c then {n} else {});
    }
  }

  /**
   * From the moment a context stops, every callback it gets brings it one task closer to idle:
   * nothing can be allocated or submitted any more, whatever its callbacks try, so it takes exactly
   * as many callbacks as tasks were in flight.
   */
  lemma {:induction false} DrainsByTheNumber(states: seq<World>, events: seq<Event>, c: nat, m: nat, n: nat)
    requires IsRun(states, events) && m <= n < |states|
    requires forall i :: m <= i <= n ==> c < |states[i].ctxs| && states[i].ctxs[c].state == Stopping
    ensures Callbacks(events[m..n], c) + states[n].ctxs[c].inFlight == states[m].ctxs[c].inFlight
    ensures forall e :: e in events[m..n] && e.c == c ==> !e.Submit? && !e.Alloc?
  {
    if m < n {
      DrainsByTheNumber(states, events, c, m, n - 1);
      assert events[m..n] == events[m..n - 1] + [events[n - 1]];
      assert events[m..n][..n - 1 - m] == events[m..n - 1];
      assert Step(states[n - 1], events[n - 1], states[n]);
      DrainStep(states[n - 1], events[n - 1], states[n], c);
    } else {
      assert events[m..n] == [];
    }
  }

  lemma DrainStep(w: World, e: Event, w': World, c: nat)
    requires Step(w, e, w') && c < |w.ctxs| && w.ctxs[c].state.Stopping?
    ensures |w'.ctxs| == |w.ctxs|
    ensures w'.ctxs[c].inFlight + (if Returns(e) && e.c == c then 1 else 0) == w.ctxs[c].inFlight
    ensures e.c == c ==> !e.Submit? && !e.Alloc?
  {
  }

  /** A stopping context is never stuck: a callback is due, or it can become idle. */
  lemma StoppingIsNeverStuck(w: World, c: nat) returns (e: Event)
    requires Inv(w) && c < |w.ctxs| && w.ctxs[c].state.Stopping?
    ensures Enabled(w, e) && e.c == c && (e.Complete? || e.Drained?)
  {
    assert Sound(w.ctxs[c]);
    CountZero(w.ctxs[c].slots);
    if w.ctxs[c].inFlight == 0 {
      e := Drained(c);
    } else {
      var t :| 0 <= t < |w.ctxs[c].slots| && w.ctxs[c].slots[t].Doca?;
      e := Complete(c, t);
    }
  }

  /** Becoming idle needs every submission answered: at that point no task of the context is DOCA's. */
  lemma IdleMeansAnswered(states: seq<World>, events: seq<Event>, n: nat, c: nat, t: nat)
    requires IsRun(states, events) && n < |states| && c < |states[n].ctxs| && states[n].ctxs[c].state.Idle?
    ensures Before(events, n)[Submit(c, t)] == Before(events, n)[Complete(c, t)] + Before(events, n)[Error(c, t)]
  {
    RunInv(states, events, n);
    assert Sound(states[n].ctxs[c]);
    CountZero(states[n].ctxs[c].slots);
    Accounting(states, events, n, c, t);
  }
}
