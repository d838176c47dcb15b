/**
 * Contexts and their tasks: the four states of a context, and who owns each of its tasks.
 */
module Context {

  datatype State = Idle | Starting | Running | Stopping

  /** The transitions of a context. */
  predicate Arrow(a: State, b: State) {
    || (a.Idle? && (b.Running? || b.Starting?))
    || (a.Starting? && (b.Running? || b.Stopping?))
    || (a.Running? && b.Stopping?)
    || (a.Stopping? && b.Idle?)
  }

  /** A task is available for allocation, or allocated and held by the user, or submitted. */
  datatype Owner = Free | User | Doca

  /**
   * startsLater: starting needs progress to complete, as opposed to running at once.
   * stopsOnError: a failed task stops the context.
   * inFlight is the context's own counter of submitted tasks.
   */
  datatype Ctx = Ctx(
    state: State, connected: bool, startsLater: bool, stopsOnError: bool,
    slots: seq<Owner>, inFlight: nat)

  function CountDoca(slots: seq<Owner>): nat {
    if slots == [] then 0
    else CountDoca(slots[..|slots| - 1]) + if slots[|slots| - 1].Doca? then 1 else 0
  }

  lemma {:induction false} CountUpdate(slots: seq<Owner>, t: nat, o: Owner)
    requires t < |slots|
    ensures CountDoca(slots[t := o])
            == CountDoca(slots) - (if slots[t].Doca? then 1 else 0) + (if o.Doca? then 1 else 0)
  {
    var n := |slots| - 1;
    if t == n {
      assert slots[t := o][..n] == slots[..n];
    } else {
      CountUpdate(slots[..n], t, o);
      assert slots[t := o][..n] == slots[..n][t := o];
    }
  }

  lemma {:induction false} CountZero(slots: seq<Owner>)
    ensures CountDoca(slots) == 0 <==> forall t :: 0 <= t < |slots| ==> !slots[t].Doca?
  {
    if slots != [] {
      var init := slots[..|slots| - 1];
      CountZero(init);
      assert forall t :: 0 <= t < |init| ==> slots[t] == init[t];
      assert CountDoca(slots) == 0 ==> !slots[|slots| - 1].Doca?;
    }
  }

  /** The count is the number of tasks DOCA owns. */
  lemma {:induction false} CountIs(slots: seq<Owner>)
    ensures CountDoca(slots) == |set t | 0 <= t < |slots| && slots[t] == Doca|
  {
    if slots != [] {
      var n := |slots| - 1;
      CountIs(slots[..n]);
      var before := set t | 0 <= t < n && slots[..n][t] == Doca;
      var after := set t | 0 <= t < |slots| && slots[t] == Doca;
      assert forall t :: t in after <==> t in before || (t == n && slots[n] == Doca);
      if slots[n] == Doca {
        assert after == before + {n};
      } else {
        assert after == before;
      }
    }
  }

  /** The counter counts, and nothing is in flight except while the context runs or stops. */
  ghost predicate Sound(x: Ctx) {
    && x.inFlight == CountDoca(x.slots)
    && (x.inFlight > 0 ==> x.state.Running? || x.state.Stopping?)
    && (!x.state.Idle? ==> x.connected)
  }
}
