/**
 * The orders in which the context and user nodes of an instance can be executed when none fails:
 * exactly those in which each is submitted once, after all that precede it have completed.
 */
module GraphOrder {
  import opened GraphRun
  import opened GraphSafety
  import opened GraphLiveness
  import opened GraphFlatten

  /** The events of context and user nodes are those that the flattening keeps, ... */
  lemma {:induction false} LeafEventsAre(root: Node, events: seq<Event>, e: Event)
    ensures e in LeafEvents(root, events) <==> e in events && !IsSub(root, e.p)
  {
    if events != [] {
      var n := |events| - 1;
      LeafEventsAre(root, events[..n], e);
      assert events == events[..n] + [events[n]];
    }
  }

  /** ... in the order in which they happened. */
  lemma {:induction false} LeafEventAt(root: Node, events: seq<Event>, n: nat) returns (m: nat)
    requires n < |LeafEvents(root, events)|
    ensures m < |events| && !IsSub(root, events[m].p) && events[m] == LeafEvents(root, events)[n]
    ensures LeafEvents(root, events[..m]) == LeafEvents(root, events)[..n]
  {
    var last := |events| - 1;
    var before := LeafEvents(root, events[..last]);
    if n < |before| {
      m := LeafEventAt(root, events[..last], n);
      assert events[..last][..m] == events[..m];
      assert LeafEvents(root, events)[..n] == before[..n];
    } else {
      m := last;
      assert LeafEvents(root, events)[..n] == before;
    }
  }

  /** Event e of a node without a graph of its own comes in turn after these, none of which is a failure. */
  ghost predicate InTurn(root: Node, past: seq<Event>, e: Event) {
    && NodeAt(root, e.p).Some? && !NodeAt(root, e.p).value.Sub?
    && match e
       case Submit(y) => Submit(y) !in past && PredecessorsDone(root, past, y)
       case Busy(y) => Submit(y) !in past && PredecessorsDone(root, past, y) && NodeAt(root, y).value.Ctx?
       case Succeed(y) => Submit(y) in past && Succeed(y) !in past
       case Fail(_) => false
  }

  ghost predicate PredecessorsDone(root: Node, past: seq<Event>, y: Path) {
    forall x {:trigger Precedes(root, x, y)} ::
      NodeAt(root, x).Some? && !NodeAt(root, x).value.Sub? && Precedes(root, x, y) ==> Succeed(x) in past
  }

  // ---------------------------------------------------------------- runs are in turn

  lemma PastOf(root: Node, states: seq<State>, events: seq<Event>, n: nat, p: Path)
    requires IsRun(root, states, events) && n < |states| && NodeAt(root, p).Some?
    ensures p in states[n]
    ensures Submit(p) in events[..n] <==> !states[n][p].Pending?
    ensures Succeed(p) in events[..n] <==> states[n][p].Done?
  {
    StatusIsTheRecord(root, states, events, n, p);
    var past := multiset(events[..n]);
    assert Submit(p) in events[..n] <==> past[Submit(p)] > 0;
    assert Succeed(p) in events[..n] <==> past[Succeed(p)] > 0;
  }

  lemma RunsAreInTurn(root: Node, states: seq<State>, events: seq<Event>, n: nat)
    requires WellFormed(root) && IsRun(root, states, events) && n < |events|
    requires !IsSub(root, events[n].p) && !events[n].Fail?
    ensures InTurn(root, LeafEvents(root, events[..n]), events[n])
  {
    var e, past := events[n], LeafEvents(root, events[..n]);
    EventNodes(root, states, events, n);
    RunInv(root, states, events, 0);
    PastOf(root, states, events, n, e.p);
    LeafEventsAre(root, events[..n], Submit(e.p));
    LeafEventsAre(root, events[..n], Succeed(e.p));
    if !e.Succeed? {
      forall x | NodeAt(root, x).Some? && !NodeAt(root, x).value.Sub? && Precedes(root, x, e.p)
        ensures Succeed(x) in past
      {
        EarlierSuccess(root, states, events, n, x);
        LeafEventsAre(root, events[..n], Succeed(x));
      }
    }
  }

  lemma EarlierSuccess(root: Node, states: seq<State>, events: seq<Event>, n: nat, x: Path)
    requires WellFormed(root) && IsRun(root, states, events) && n < |events| && NodeAt(root, x).Some?
    requires (events[n].Submit? || events[n].Busy?) && Precedes(root, x, events[n].p)
    ensures Succeed(x) in events[..n]
  {
    // what an overloaded node waits for is what its submission waits for
    EventNodes(root, states, events, n);
    RunInv(root, states, events, n);
    RunInv(root, states, events, 0);
    var e := Submit(events[n].p);
    var events', states' := events[..n] + [e], states[..n + 1] + [Effect(states[n], e)];
    forall i | 0 <= i < |events'| ensures Step(root, states'[i], events'[i], states'[i + 1]) {
      if i < n { assert Step(root, states[i], events[i], states[i + 1]); }
    }
    assert IsRun(root, states', events');
    var m := PredecessorsCompleteFirst(root, states', events', n, x);
    assert events[..n][m] == Succeed(x);
  }

  // ---------------------------------------------------------------- what is in turn is a run

  ghost predicate AllInTurn(root: Node, flat: seq<Event>) {
    forall n {:trigger flat[n]} :: 0 <= n < |flat| ==> InTurn(root, flat[..n], flat[n])
  }

  function StatusAfter(past: seq<Event>, p: Path): Status {
    if Succeed(p) in past then Done else if Submit(p) in past then InFlight else Pending
  }

  /** The state of the flattening after these events, none of which is a failure. */
  function After(root: Node, past: seq<Event>): State {
    map p | p in StartState(root) && !IsSub(root, p) :: StatusAfter(past, p)
  }

  lemma SubmittedFirst(root: Node, flat: seq<Event>, n: nat, p: Path)
    requires AllInTurn(root, flat) && n <= |flat| && Succeed(p) in flat[..n]
    ensures Submit(p) in flat[..n]
  {
    var m :| 0 <= m < n && flat[..n][m] == Succeed(p);
    assert flat[m] == Succeed(p);
    assert Submit(p) in flat[..m];
    var k :| 0 <= k < m && flat[..m][k] == Submit(p);
    assert flat[..n][k] == Submit(p);
  }

  lemma StatusNext(root: Node, past: seq<Event>, e: Event, p: Path)
    requires InTurn(root, past, e) && (Succeed(e.p) in past ==> Submit(e.p) in past)
    ensures StatusAfter(past + [e], p)
            == if e == Submit(p) then InFlight else if e == Succeed(p) then Done else StatusAfter(past, p)
  {
    assert Submit(p) in past + [e] <==> Submit(p) in past || e == Submit(p);
    assert Succeed(p) in past + [e] <==> Succeed(p) in past || e == Succeed(p);
  }

  lemma EffectAt(f: State, e: Event, p: Path)
    requires p in f && e.p in f && !e.Fail?
    ensures p in Effect(f, e) && Effect(f, e).Keys == f.Keys
    ensures Effect(f, e)[p] == if e == Submit(p) then InFlight else if e == Succeed(p) then Done else f[p]
  {
  }

  lemma AfterNext(root: Node, past: seq<Event>, e: Event)
    requires InTurn(root, past, e) && (Succeed(e.p) in past ==> Submit(e.p) in past)
    ensures e.p in After(root, past) && After(root, past + [e]) == Effect(After(root, past), e)
  {
    assert e.p in StartState(root);
    var f, f' := After(root, past), After(root, past + [e]);
    forall p | p in f ensures f'[p] == Effect(f, e)[p] {
      StatusNext(root, past, e, p);
      EffectAt(f, e, p);
    }
    assert f'.Keys == Effect(f, e).Keys;
  }

  lemma {:induction false} InTurnRuns(root: Node, flat: seq<Event>, n: nat)
    returns (fs: seq<State>, opens: seq<set<Path>>)
    requires WellFormed(root) && root.Sub? && AllInTurn(root, flat) && n <= |flat|
    ensures FlatRun(root, fs, opens, flat[..n]) && fs[n] == After(root, flat[..n])
  {
    if n == 0 {
      var f := After(root, []);
      fs, opens := [f], [Opened(root, f, {})];
      assert flat[..0] == [];
    } else {
      fs, opens := InTurnRuns(root, flat, n - 1);
      assert InTurn(root, flat[..n - 1], flat[n - 1]);
      if Succeed(flat[n - 1].p) in flat[..n - 1] { SubmittedFirst(root, flat, n - 1, flat[n - 1].p); }
      assert flat[..n] == flat[..n - 1] + [flat[n - 1]];
      fs, opens := OneMoreInTurn(root, fs, opens, flat[..n - 1], flat[n - 1]);
    }
  }

  lemma OneMoreInTurn(root: Node, fs: seq<State>, opens: seq<set<Path>>, past: seq<Event>, e: Event)
    returns (fs': seq<State>, opens': seq<set<Path>>)
    requires WellFormed(root) && root.Sub? && FlatRun(root, fs, opens, past) && fs[|past|] == After(root, past)
    requires InTurn(root, past, e) && (Succeed(e.p) in past ==> Submit(e.p) in past)
    ensures FlatRun(root, fs', opens', past + [e]) && fs'[|past| + 1] == After(root, past + [e])
  {
    var f, open := After(root, past), opens[|past|];
    EnabledInTurn(root, fs, opens, past, e);
    AfterNext(root, past, e);
    var f' := After(root, past + [e]);
    FlatRunExtends(root, fs, opens, past, e, f', Opened(root, f', open));
    fs', opens' := fs + [f'], opens + [Opened(root, f', open)];
  }

  lemma EnabledInTurn(root: Node, fs: seq<State>, opens: seq<set<Path>>, past: seq<Event>, e: Event)
    requires root.Sub? && FlatRun(root, fs, opens, past) && fs[|past|] == After(root, past)
    requires InTurn(root, past, e) && (Succeed(e.p) in past ==> Submit(e.p) in past)
    ensures FlatEnabled(root, fs[|past|], opens[|past|], e)
  {
    var f, y := fs[|past|], e.p;
    assert y in StartState(root) && y != [];
    if !e.Succeed? {
      forall x | x in f && !IsSub(root, x) && Precedes(root, x, y) ensures f[x].Done? { }
      OrderAloneWithoutFailures(root, fs, opens, past, |past|, y);
    }
  }

  /**
   * Without failures, a sequence of events of context and user nodes can be observed exactly when
   * every node in it is submitted at most once, after the success of all that precede it at any
   * depth, and completes at most once, after its submission.
   */
  lemma ObservableOrders(root: Node, flat: seq<Event>)
    requires WellFormed(root) && root.Sub? && forall e :: e in flat ==> !e.Fail?
    ensures (exists states, events :: IsRun(root, states, events) && LeafEvents(root, events) == flat)
            <==>
            forall n :: 0 <= n < |flat| ==>
              var past, y := flat[..n], flat[n].p;
              && NodeAt(root, y).Some? && !NodeAt(root, y).value.Sub?
              && if flat[n].Succeed? then Submit(y) in past && Succeed(y) !in past
                 else && Submit(y) !in past
                      && (flat[n].Busy? ==> NodeAt(root, y).value.Ctx?)
                      && forall x {:trigger Precedes(root, x, y)} ::
                           NodeAt(root, x).Some? && !NodeAt(root, x).value.Sub? && Precedes(root, x, y) ==>
                             Succeed(x) in past
  {
    if states, events :| IsRun(root, states, events) && LeafEvents(root, events) == flat {
      forall n | 0 <= n < |flat| ensures InTurn(root, flat[..n], flat[n]) {
        var m := LeafEventAt(root, events, n);
        assert flat[n] in flat;
        RunsAreInTurn(root, states, events, m);
      }
      assert AllInTurn(root, flat);
    } else if AllInTurn(root, flat) {
      var fs, opens := InTurnRuns(root, flat, |flat|);
      assert flat[..|flat|] == flat;
      var states, events := FlatRunsAreNested(root, fs, opens, flat);
    }
    InTurnMeans(root, flat);
  }

  lemma InTurnMeans(root: Node, flat: seq<Event>)
    requires forall e :: e in flat ==> !e.Fail?
    ensures AllInTurn(root, flat) <==>
            forall n :: 0 <= n < |flat| ==>
              var past, y := flat[..n], flat[n].p;
              && NodeAt(root, y).Some? && !NodeAt(root, y).value.Sub?
              && if flat[n].Succeed? then Submit(y) in past && Succeed(y) !in past
                 else && Submit(y) !in past
                      && (flat[n].Busy? ==> NodeAt(root, y).value.Ctx?)
                      && forall x {:trigger Precedes(root, x, y)} ::
                           NodeAt(root, x).Some? && !NodeAt(root, x).value.Sub? && Precedes(root, x, y) ==>
                             Succeed(x) in past
  {
  }
}
