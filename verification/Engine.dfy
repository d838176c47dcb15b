/** The progress engine as the application calls it. */
module Engine {
  import opened Outcome
  import opened Context
  import opened EngineRun

  /** What a task callback does with the task it got back. */
  datatype Reply = Resubmit | Give | Keep

  /** Where a task ends up when its context has drained. */
  function Drawn(before: Owner, reply: Reply): Owner {
    if !before.Doca? then before else if reply.Give? then Free else User
  }

  predicate AllFree(x: Ctx) { forall t :: 0 <= t < |x.slots| ==> x.slots[t].Free? }

  /**
   * The context after a callback for task t. A failure may have stopped it; only a running context
   * takes the task back, otherwise a callback that resubmits keeps it.
   */
  function Delivered(x: Ctx, t: nat, failed: bool, reply: Reply): (y: Ctx)
    requires t < |x.slots| && x.inFlight > 0
    ensures |y.slots| == |x.slots|
    ensures x.state.Stopping? ==> y.state.Stopping? && y.inFlight == x.inFlight - 1 && !y.slots[t].Doca?
  {
    var state := if failed && x.stopsOnError then Stopping else x.state;
    var owner := match reply
      case Give => Free
      case Keep => User
      case Resubmit => if state.Running? then Doca else User;
    x.(state := state, slots := x.slots[t := owner],
       inFlight := if owner.Doca? then x.inFlight else x.inFlight - 1)
  }

  class ProgressEngine {
    var ctxs: seq<Ctx>
    var inFlight: nat
    ghost var states: seq<World>
    ghost var events: seq<Event>

    /** The fields are the outcome of a run; all results about runs apply to the engine. */
    ghost predicate Valid()
      reads this
    {
      IsRun(states, events) && states[|events|] == World(ctxs, inFlight)
    }

    predicate IsCtx(c: nat)
      reads this
    {
      c < |ctxs|
    }

    predicate IsTask(c: nat, t: nat)
      reads this
    {
      c < |ctxs| && t < |ctxs[c].slots|
    }

    /** An engine and the contexts that may be connected to it. */
    constructor (made: seq<(bool, bool)>)
      ensures Valid() && |ctxs| == |made| && events == []
      ensures forall c :: 0 <= c < |made| ==> ctxs[c] == Ctx(Idle, false, made[c].0, made[c].1, [], 0)
    {
      var xs := seq(|made|, c requires 0 <= c < |made| => Ctx(Idle, false, made[c].0, made[c].1, [], 0));
      ctxs := xs;
      inFlight := 0;
      states := [World(xs, 0)];
      events := [];
    }

    /** One step of the run. */
    method Happen(e: Event)
      requires Valid() && Enabled(World(ctxs, inFlight), e)
      modifies this
      ensures Valid() && events == old(events) + [e] && states[..|old(states)|] == old(states)
      ensures e.c < |ctxs| == |old(ctxs)|
      ensures ctxs == old(ctxs)[e.c := CtxEffect(World(old(ctxs), old(inFlight)), e)]
    {
      ghost var w := World(ctxs, inFlight);
      RunInv(states, events, |events|);
      if Returns(e) { CompletionsCounted(w, e.c, e.t); }
      var x := CtxEffect(World(ctxs, inFlight), e);
      inFlight := if e.Submit? then inFlight + 1 else if Returns(e) then inFlight - 1 else inFlight;
      ctxs := ctxs[e.c := x];
      assert World(ctxs, inFlight) == Effect(w, e);
      states := states + [World(ctxs, inFlight)];
      events := events + [e];
    }

    // -------------------------------------------------------------- calls on contexts

    method Connect(c: nat) returns (e: Error)
      requires Valid() && IsCtx(c)
      modifies this
      ensures Valid()
      ensures e == if !old(ctxs)[c].state.Idle? then BadState
                   else if old(ctxs)[c].connected then NotPermitted
                   else Success
      ensures events == if e.Success? then old(events) + [EngineRun.Connect(c)] else old(events)
      ensures e.Success? ==> ctxs == old(ctxs)[c := old(ctxs)[c].(connected := true)]
      ensures !e.Success? ==> ctxs == old(ctxs)
    {
      if !ctxs[c].state.Idle? { return BadState; }
      if ctxs[c].connected { return NotPermitted; }
      Happen(EngineRun.Connect(c));
      return Success;
    }

    /** Sets how many tasks the context can allocate, once all it has have been freed. */
    method Configure(c: nat, tasks: nat) returns (e: Error)
      requires Valid() && IsCtx(c)
      modifies this
      ensures Valid()
      ensures e == if old(ctxs)[c].state.Idle?
                      && forall t :: 0 <= t < |old(ctxs)[c].slots| ==> old(ctxs)[c].slots[t].Free?
                   then Success else BadState
      ensures e.Success? ==> |ctxs| == |old(ctxs)| && |ctxs[c].slots| == tasks
                             && (forall t :: 0 <= t < tasks ==> ctxs[c].slots[t].Free?)
                             && ctxs == old(ctxs)[c := old(ctxs)[c].(slots := ctxs[c].slots)]
      ensures events == if e.Success? then old(events) + [EngineRun.Configure(c, tasks)] else old(events)
      ensures !e.Success? ==> ctxs == old(ctxs)
    {
      if !ctxs[c].state.Idle? || !AllFree(ctxs[c]) { return BadState; }
      Happen(EngineRun.Configure(c, tasks));
      return Success;
    }

    method Start(c: nat) returns (e: Error)
      requires Valid() && IsCtx(c)
      modifies this
      ensures Valid() && |ctxs| == |old(ctxs)|
      ensures e == if !old(ctxs)[c].connected then NotConnected
                   else if !old(ctxs)[c].state.Idle? then BadState
                   else if old(ctxs)[c].startsLater then InProgress
                   else Success
      ensures e.Success? ==> ctxs[c].state.Running?
      ensures e.InProgress? ==> ctxs[c].state.Starting?
      ensures ctxs == old(ctxs)[c := old(ctxs)[c].(state := ctxs[c].state)]
      ensures events == if e.Success? || e.InProgress? then old(events) + [EngineRun.Start(c)] else old(events)
      ensures !e.Success? && !e.InProgress? ==> ctxs == old(ctxs)
    {
      if !ctxs[c].connected { return NotConnected; }
      if !ctxs[c].state.Idle? { return BadState; }
      e := if ctxs[c].startsLater then InProgress else Success;
      Happen(EngineRun.Start(c));
    }

    /**
     * Stops the context. With nothing in flight it is idle at once; otherwise it will be after
     * enough progress.
     */
    method Stop(c: nat) returns (e: Error)
      requires Valid() && IsCtx(c)
      modifies this
      ensures Valid() && |ctxs| == |old(ctxs)| && old(events) <= events
      ensures !old(ctxs)[c].connected ==> e.NotConnected? && ctxs == old(ctxs)
      ensures old(ctxs)[c].connected ==> e.Success? || e.InProgress?
      ensures e.Success? ==> ctxs[c].state.Idle? && ctxs[c].inFlight == 0
      ensures e.InProgress? ==> ctxs[c].state.Stopping? && ctxs[c].inFlight == old(ctxs)[c].inFlight
      ensures e.InProgress? && !old(ctxs)[c].state.Stopping? ==> old(ctxs)[c].inFlight > 0
      ensures ctxs == old(ctxs)[c := old(ctxs)[c].(state := ctxs[c].state)]
    {
      RunInv(states, events, |events|);
      assert Sound(ctxs[c]);
      if !ctxs[c].connected { return NotConnected; }
      if ctxs[c].state.Idle? { return Success; }
      if ctxs[c].state.Stopping? { return InProgress; }
      Happen(EngineRun.Stop(c));
      if ctxs[c].inFlight > 0 { return InProgress; }
      Happen(Drained(c));
      return Success;
    }

    // -------------------------------------------------------------- calls on tasks

    /** Allocates a task, of which the context has a configured number and no more. */
    method AllocInit(c: nat) returns (e: Error, t: nat)
      requires Valid() && IsCtx(c)
      modifies this
      ensures Valid()
      ensures e == if !old(ctxs)[c].state.Running? then BadState
                   else if forall i :: 0 <= i < |old(ctxs)[c].slots| ==> !old(ctxs)[c].slots[i].Free? then NoMemory
                   else Success
      ensures e.Success? ==> IsTask(c, t) && t < |old(ctxs)[c].slots| && old(ctxs)[c].slots[t].Free?
                             && ctxs == old(ctxs)[c := old(ctxs)[c].(slots := old(ctxs)[c].slots[t := User])]
      ensures events == if e.Success? then old(events) + [Alloc(c, t)] else old(events)
      ensures !e.Success? ==> ctxs == old(ctxs)
    {
      t := 0;
      if !ctxs[c].state.Running? { return BadState, 0; }
      while t < |ctxs[c].slots| && !ctxs[c].slots[t].Free?
        invariant t <= |ctxs[c].slots|
        invariant forall i :: 0 <= i < t ==> !ctxs[c].slots[i].Free?
      {
        t := t + 1;
      }
      if t == |ctxs[c].slots| { return NoMemory, 0; }
      Happen(Alloc(c, t));
      return Success, t;
    }

    /** Hands a task the user owns to its context; if that fails, the user still owns it. */
    method TaskSubmit(c: nat, t: nat) returns (e: Error)
      requires Valid() && IsTask(c, t) && ctxs[c].slots[t].User?
      modifies this
      ensures Valid()
      ensures e == if old(ctxs)[c].state.Running? then Success else BadState
      ensures IsTask(c, t) && ctxs[c].slots[t] == if e.Success? then Doca else User
      ensures e.Success? ==> ctxs == old(ctxs)[c := old(ctxs)[c].(slots := old(ctxs)[c].slots[t := Doca],
                                                                  inFlight := old(ctxs)[c].inFlight + 1)]
      ensures events == if e.Success? then old(events) + [Submit(c, t)] else old(events)
      ensures !e.Success? ==> ctxs == old(ctxs)
    {
      if !ctxs[c].state.Running? { return BadState; }
      Happen(Submit(c, t));
      return Success;
    }

    /** As TaskSubmit, for a task that is checked first. */
    method TaskTrySubmit(c: nat, t: nat, wellFormed: bool) returns (e: Error)
      requires Valid() && IsTask(c, t) && ctxs[c].slots[t].User?
      modifies this
      ensures Valid()
      ensures e == if !wellFormed then InvalidValue else if old(ctxs)[c].state.Running? then Success else BadState
      ensures IsTask(c, t) && ctxs[c].slots[t] == if e.Success? then Doca else User
      ensures e.Success? ==> ctxs == old(ctxs)[c := old(ctxs)[c].(slots := old(ctxs)[c].slots[t := Doca],
                                                                  inFlight := old(ctxs)[c].inFlight + 1)]
      ensures events == if e.Success? then old(events) + [Submit(c, t)] else old(events)
      ensures !e.Success? ==> ctxs == old(ctxs)
    {
      if !wellFormed { return InvalidValue; }
      e := TaskSubmit(c, t);
    }

    /** Frees a task that is not submitted. */
    method TaskFree(c: nat, t: nat)
      requires Valid() && IsTask(c, t) && ctxs[c].slots[t].User?
      modifies this
      ensures Valid() && events == old(events) + [Release(c, t)]
      ensures IsTask(c, t) && ctxs == old(ctxs)[c := old(ctxs)[c].(slots := old(ctxs)[c].slots[t := Free])]
    {
      Happen(Release(c, t));
    }

    // -------------------------------------------------------------- progress

    /** A task that DOCA owns may get either callback. */
    lemma DueCallback(c: nat, t: nat)
      requires Valid() && IsTask(c, t) && ctxs[c].slots[t].Doca?
      ensures ctxs[c].inFlight > 0
      ensures Enabled(World(ctxs, inFlight), Complete(c, t))
      ensures Enabled(World(ctxs, inFlight), EngineRun.Error(c, t))
    {
      RunInv(states, events, |events|);
      CompletionsCounted(World(ctxs, inFlight), c, t);
    }

    /** The task has ended: its owner is the user again, and a failure may have stopped the context. */
    method GiveBack(c: nat, t: nat, failed: bool)
      requires Valid() && IsTask(c, t) && ctxs[c].slots[t].Doca?
      modifies this
      ensures Valid() && IsTask(c, t) && old(ctxs)[c].inFlight > 0
      ensures events == old(events) + [if failed then EngineRun.Error(c, t) else Complete(c, t)]
      ensures ctxs == old(ctxs)[c := Delivered(old(ctxs)[c], t, failed, Keep)]
    {
      DueCallback(c, t);
      Happen(if failed then EngineRun.Error(c, t) else Complete(c, t));
    }

    /** A callback for one task, well or badly ended, and what the callback does. */
    method Deliver(c: nat, t: nat, failed: bool, reply: Reply)
      requires Valid() && IsTask(c, t) && ctxs[c].slots[t].Doca?
      modifies this
      ensures old(ctxs)[c].inFlight > 0
      ensures Valid() && |ctxs| == |old(ctxs)|
      ensures |old(events)| < |events| && old(events) <= events
      ensures events[|old(events)|] == if failed then EngineRun.Error(c, t) else Complete(c, t)
      ensures ctxs == old(ctxs)[c := Delivered(old(ctxs)[c], t, failed, reply)]
      ensures var x, y := old(ctxs)[c], ctxs[c];
              var event := if failed then EngineRun.Error(c, t) else Complete(c, t);
              && y.state == (if failed && x.stopsOnError then Stopping else x.state)
              && |y.slots| == |x.slots|
              && match reply
                 case Resubmit =>
                   if y.state.Running? then
                     y.slots[t] == Doca && y.inFlight == x.inFlight && events == old(events) + [event, Submit(c, t)]
                   else
                     y.slots[t] == User && y.inFlight == x.inFlight - 1 && events == old(events) + [event]
                 case Give =>
                   y.slots[t] == Free && y.inFlight == x.inFlight - 1 && events == old(events) + [event, Release(c, t)]
                 case Keep =>
                   y.slots[t] == User && y.inFlight == x.inFlight - 1 && events == old(events) + [event]
      ensures forall s :: 0 <= s < |ctxs[c].slots| && s != t ==> ctxs[c].slots[s] == old(ctxs)[c].slots[s]
      ensures forall d :: 0 <= d < |ctxs| && d != c ==> ctxs[d] == old(ctxs)[d]
    {
      GiveBack(c, t, failed);
      ghost var slots := old(ctxs)[c].slots;
      match reply
      case Resubmit =>
        var e := TaskSubmit(c, t);
        assert slots[t := User][t := Doca] == slots[t := Doca];
      case Give =>
        TaskFree(c, t);
        assert slots[t := User][t := Free] == slots[t := Free];
      case Keep =>
    }

    predicate InFlightAt(c: nat, t: nat)
      reads this
    {
      IsTask(c, t) && ctxs[c].slots[t].Doca?
    }

    /** What a call of progress may find: finished tasks, connected contexts, or a context with nothing to drain. */
    predicate SomethingToDo(arrived: set<(nat, nat)>, established: set<nat>)
      reads this
    {
      || (exists p :: p in arrived && IsTask(p.0, p.1) && ctxs[p.0].slots[p.1].Doca?)
      || (exists c :: c in established && IsCtx(c) && ctxs[c].state.Starting?)
      || (exists c :: 0 <= c < |ctxs| && ctxs[c].state.Stopping? && ctxs[c].inFlight == 0)
    }

    /**
     * One call of progress, given what has arrived from the hardware. It reports progress exactly
     * when there was something to do, and then does one such thing.
     */
    method Progress(arrived: set<(nat, nat)>, faulty: set<(nat, nat)>, established: set<nat>, reply: Reply)
      returns (made: bool)
      requires Valid()
      modifies this
      ensures Valid() && |ctxs| == |old(ctxs)| && old(events) <= events
      ensures made <==>
              || (exists p :: p in arrived && p.0 < |old(ctxs)| && p.1 < |old(ctxs)[p.0].slots|
                              && old(ctxs)[p.0].slots[p.1].Doca?)
              || (exists c :: c in established && c < |old(ctxs)| && old(ctxs)[c].state.Starting?)
              || (exists c :: 0 <= c < |old(ctxs)| && old(ctxs)[c].state.Stopping? && old(ctxs)[c].inFlight == 0)
      ensures !made ==> events == old(events) && ctxs == old(ctxs)
      ensures made ==> |old(events)| < |events| && events[|old(events)|].c < |ctxs|
                       && var e := events[|old(events)|];
                          var x, y := old(ctxs)[e.c], ctxs[e.c];
                          || (&& (if (e.Complete? || e.Error?) then (e.c, e.t) in arrived else false)
                              && (e.Error? <==> (e.c, e.t) in faulty)
                              && e.t < |x.slots| == |y.slots| && x.slots[e.t].Doca?
                              && y.slots[e.t] == if reply.Give? then Free
                                                 else if reply.Resubmit? && y.state.Running? then Doca else User)
                          || (e.Established? && e.c in established && x.state.Starting? && y.state.Running?)
                          || (e.Drained? && x.state.Stopping? && x.inFlight == 0 && y.state.Idle?)
      ensures made ==> forall d :: 0 <= d < |ctxs| && d != events[|old(events)|].c ==> ctxs[d] == old(ctxs)[d]
    {
      if {
        case exists p :: p in arrived && IsTask(p.0, p.1) && ctxs[p.0].slots[p.1].Doca? =>
          var p :| p in arrived && IsTask(p.0, p.1) && ctxs[p.0].slots[p.1].Doca?;
          Deliver(p.0, p.1, p in faulty, reply);
          return true;
        case exists c :: c in established && IsCtx(c) && ctxs[c].state.Starting? =>
          var c :| c in established && IsCtx(c) && ctxs[c].state.Starting?;
          Happen(Established(c));
          return true;
        case exists c :: 0 <= c < |ctxs| && ctxs[c].state.Stopping? && ctxs[c].inFlight == 0 =>
          var c :| 0 <= c < |ctxs| && ctxs[c].state.Stopping? && ctxs[c].inFlight == 0;
          Happen(Drained(c));
          return true;
        case !SomethingToDo(arrived, established) =>
          return false;
      }
    }

    lemma SomeTaskIsOut(c: nat)
      requires Valid() && IsCtx(c) && ctxs[c].inFlight > 0
      ensures exists t :: 0 <= t < |ctxs[c].slots| && ctxs[c].slots[t].Doca?
    {
      RunInv(states, events, |events|);
      assert Sound(ctxs[c]);
      CountZero(ctxs[c].slots);
    }

    lemma NoTaskIsOut(c: nat)
      requires Valid() && IsCtx(c) && ctxs[c].inFlight == 0
      ensures forall t :: 0 <= t < |ctxs[c].slots| ==> !ctxs[c].slots[t].Doca?
    {
      RunInv(states, events, |events|);
      assert Sound(ctxs[c]);
      CountZero(ctxs[c].slots);
    }

    /**
     * Progresses until a stopping context is idle. This ends, whatever the callbacks try: every
     * task of the context gets its one callback, a resubmission is refused, and other contexts are
     * served in between `others` times. What was in flight ends up with the user or freed.
     */
    method PollForStop(c: nat, faulty: set<(nat, nat)>, reply: (nat, nat) -> Reply, others: nat)
      requires Valid() && IsCtx(c) && ctxs[c].state.Stopping?
      modifies this
      ensures Valid() && IsCtx(c) && ctxs[c].state.Idle? && ctxs[c].inFlight == 0 && old(events) <= events
      ensures |ctxs[c].slots| == |old(ctxs)[c].slots|
      ensures forall t :: 0 <= t < |ctxs[c].slots| ==>
                ctxs[c].slots[t] == if !old(ctxs)[c].slots[t].Doca? then old(ctxs)[c].slots[t]
                                    else if reply(c, t).Give? then Free else User
    {
      var turns := others;
      ghost var before := ctxs[c].slots;
      while ctxs[c].inFlight > 0
        invariant Valid() && IsCtx(c) && ctxs[c].state.Stopping? && |ctxs[c].slots| == |before|
        invariant old(events) <= events
        invariant forall t :: 0 <= t < |before| ==>
                    (ctxs[c].slots[t].Doca? ==> before[t].Doca?)
                    && (!ctxs[c].slots[t].Doca? ==> ctxs[c].slots[t] == Drawn(before[t], reply(c, t)))
        decreases ctxs[c].inFlight + turns
      {
        SomeTaskIsOut(c);
        if {
          case exists t :: 0 <= t < |ctxs[c].slots| && ctxs[c].slots[t].Doca? =>
            var t :| 0 <= t < |ctxs[c].slots| && ctxs[c].slots[t].Doca?;
            Deliver(c, t, (c, t) in faulty, reply(c, t));
          case turns > 0
               && exists d, t :: 0 <= d < |ctxs| && d != c && 0 <= t < |ctxs[d].slots| && InFlightAt(d, t) =>
            var d, t :| 0 <= d < |ctxs| && d != c && 0 <= t < |ctxs[d].slots| && InFlightAt(d, t);
            turns := turns - 1;
            Deliver(d, t, (d, t) in faulty, reply(d, t));
        }
      }
      NoTaskIsOut(c);
      Happen(Drained(c));
    }
  }
}
