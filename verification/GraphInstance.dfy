/** A graph instance as the application holds it: submitted, progressed to its callback, submitted again. */
module GraphInstance {
  import opened Outcome
  import opened GraphRun
  import opened GraphSafety
  import opened GraphLiveness

  /** So far the leaves in `faulty` have failed, if they ended at all, and no others. */
  ghost predicate EndedAs(root: Node, s: State, faulty: set<Path>) {
    forall p :: p in s && !IsSub(root, p) ==> (s[p].Failed? ==> p in faulty) && (s[p].Done? ==> p !in faulty)
  }

  /** What an execution in which just the leaves in `faulty` fail can produce. */
  predicate Fits(root: Node, faulty: set<Path>, e: Event) {
    && (e.Succeed? ==> IsSub(root, e.p) || e.p !in faulty)
    && (e.Fail? ==> IsSub(root, e.p) || e.p in faulty)
  }

  lemma SomethingFits(root: Node, s: State, faulty: set<Path>) returns (e: Event)
    requires WellFormed(root) && Inv(root, s) && [] in s && s[[]].InFlight?
    ensures Enabled(root, s, e) && !e.Busy? && Fits(root, faulty, e)
  {
    e := NoDeadlock(root, s);
    if !e.Submit? && !IsSub(root, e.p) {
      e := if e.p in faulty then Fail(e.p) else Succeed(e.p);
      forall c | c in s && ChildOf(c, e.p) ensures s[c].Done? { ParentCovered(root, s, c); }
    }
  }

  /** How an instance ended is decided by its faulty leaves. */
  lemma Verdict(root: Node, s: State, faulty: set<Path>)
    requires Inv(root, s) && EndedAs(root, s, faulty) && [] in s && (s[[]].Done? || s[[]].Failed?)
    ensures s[[]].Done? <==> forall p :: p in faulty && NodeAt(root, p).Some? ==> NodeAt(root, p).value.Sub?
  {
    if s[[]].Done? {
      forall p | p in faulty && NodeAt(root, p).Some? ensures IsSub(root, p) {
        assert p in s;
        DoneInside(root, s, [], p);
      }
    } else {
      var deepest := Deepest(s.Keys);
      var x := FailureHasACause(root, s, [], |deepest| + 1);
    }
  }

  class Instance {
    const root: Node
    var status: State
    ghost var states: seq<State>
    ghost var events: seq<Event>

    /** The fields record a run of the latest submission; all results about runs apply to it. */
    ghost predicate Valid()
      reads this
    {
      && WellFormed(root)
      && IsRun(root, states, events)
      && status == states[|events|]
      && [] in status
    }

    predicate Submitted()
      requires Valid()
      reads this
    {
      status[[]].InFlight?
    }

    constructor (root: Node)
      requires WellFormed(root)
      ensures Valid() && this.root == root && !Submitted() && events == []
    {
      this.root := root;
      status := StartState(root);
      states := [StartState(root)];
      events := [];
      new;
      assert NodeAt(root, []).Some?;
    }

    /** One step of the run. */
    method Happen(e: Event)
      requires Valid() && Enabled(root, status, e)
      modifies this
      ensures Valid() && events == old(events) + [e] && states[..|old(states)|] == old(states)
      ensures status == Effect(old(status), e)
    {
      status := Effect(status, e);
      states := states + [status];
      events := events + [e];
      RunInv(root, states, events, |events|);
      assert NodeAt(root, []).Some?;
    }

    /** Starts a fresh run, whatever became of the previous one; refused while that one is still going. */
    method Submit() returns (e: Error)
      requires Valid()
      modifies this
      ensures Valid()
      ensures e == if old(Submitted()) then InUse else Success
      ensures e.Success? ==> Submitted() && events == [GraphRun.Submit([])] && states[0] == StartState(root)
      ensures !e.Success? ==> unchanged(this)
    {
      if status[[]].InFlight? { return InUse; }
      status := StartState(root);
      states := [status];
      events := [];
      assert NodeAt(root, []).Some?;
      Happen(GraphRun.Submit([]));
      return Success;
    }

    /** One step that uses up work. */
    method Occur(e: Event, faulty: set<Path>)
      requires Valid() && Submitted() && EndedAs(root, status, faulty)
      requires Enabled(root, status, e) && Fits(root, faulty, e) && !e.Busy?
      modifies this
      ensures Valid() && EndedAs(root, status, faulty) && !status[[]].Pending?
      ensures events == old(events) + [e] && Work(status) < old(Work(status))
    {
      StepUsesWork(root, status, e, Effect(status, e));
      Happen(e);
    }

    /** One step of a submitted instance: any that is possible in an execution where just these leaves fail. */
    method Advance(faulty: set<Path>, retries: nat) returns (left: nat)
      requires Valid() && Submitted() && EndedAs(root, status, faulty)
      modifies this
      ensures Valid() && EndedAs(root, status, faulty) && !status[[]].Pending?
      ensures |events| == |old(events)| + 1 && old(events) <= events
      ensures Work(status) + left < old(Work(status)) + retries
    {
      left := retries;
      RunInv(root, states, events, |events|);
      ghost var next := SomethingFits(root, status, faulty);
      assert next.p in status;
      if {
        case exists p :: p in status && Enabled(root, status, GraphRun.Submit(p)) =>
          var p :| p in status && Enabled(root, status, GraphRun.Submit(p));
          Occur(GraphRun.Submit(p), faulty);
        case retries > 0 && exists p :: p in status && Enabled(root, status, Busy(p)) =>
          var p :| p in status && Enabled(root, status, Busy(p));
          left := retries - 1;
          Happen(Busy(p));
        case exists p :: p in status && Enabled(root, status, Succeed(p)) && Fits(root, faulty, Succeed(p)) =>
          var p :| p in status && Enabled(root, status, Succeed(p)) && Fits(root, faulty, Succeed(p));
          Occur(Succeed(p), faulty);
        case exists p :: p in status && Enabled(root, status, Fail(p)) && Fits(root, faulty, Fail(p)) =>
          var p :| p in status && Enabled(root, status, Fail(p)) && Fits(root, faulty, Fail(p));
          Occur(Fail(p), faulty);
      }
    }

    /**
     * Progresses a submitted instance to its callback. The next event is any that is possible, so
     * every order of submissions, completions and up to `overloads` overloaded contexts is covered;
     * the context and user nodes in `faulty` fail when executed. The completion callback comes
     * exactly when none of the nodes is faulty.
     */
    method ProgressToCallback(faulty: set<Path>, overloads: nat)
      requires Valid() && Submitted() && EndedAs(root, status, faulty)
      modifies this
      ensures Valid()
      ensures old(events) <= events
      ensures status[[]].Done? || status[[]].Failed?
      ensures status[[]].Done? <==> forall p :: p in faulty && NodeAt(root, p).Some? ==> NodeAt(root, p).value.Sub?
    {
      var retries := overloads;
      while status[[]].InFlight?
        invariant Valid() && EndedAs(root, status, faulty) && old(events) <= events
        invariant !status[[]].Pending?
        decreases Work(status) + retries
      {
        retries := Advance(faulty, retries);
      }
      RunInv(root, states, events, |events|);
      Verdict(root, status, faulty);
    }
  }
}
