/** Sequences without repetition, and what has happened in a sequence of events. */
module Sequences {

  ghost predicate Distinct<T>(s: seq<T>) {
    forall i, j :: 0 <= i < j < |s| ==> s[i] != s[j]
  }

  /** The first n events, as often as each occurred. */
  function Before<E>(events: seq<E>, n: nat): multiset<E>
    requires n <= |events|
  {
    multiset(events[..n])
  }

  lemma BeforeNext<E>(events: seq<E>, n: nat)
    requires n < |events|
    ensures Before(events, n + 1) == Before(events, n) + multiset{events[n]}
  {
    assert events[..n + 1] == events[..n] + [events[n]];
  }
}
