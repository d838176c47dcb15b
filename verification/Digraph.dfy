/**
 * Directed graphs over numbered vertices: reachability, circles, and how one more edge changes them.
 * Used twice: for the dependencies between the nodes of a graph, and for the graphs that contain
 * other graphs as sub-graph nodes.
 */
module Digraph {

  type Edges = set<(nat, nat)>

  ghost predicate IsPath(es: Edges, p: seq<nat>) {
    |p| >= 2 && forall i :: 0 <= i < |p| - 1 ==> (p[i], p[i + 1]) in es
  }

  /** b can be reached from a along one or more edges. */
  ghost predicate Reaches(es: Edges, a: nat, b: nat) {
    exists p :: IsPath(es, p) && p[0] == a && p[|p| - 1] == b
  }

  ghost predicate ReachesOrIs(es: Edges, a: nat, b: nat) { a == b || Reaches(es, a, b) }

  ghost predicate Acyclic(es: Edges) { forall n: nat :: !Reaches(es, n, n) }

  lemma EdgeReaches(es: Edges, a: nat, b: nat)
    requires (a, b) in es
    ensures Reaches(es, a, b)
  {
    assert IsPath(es, [a, b]);
  }

  lemma ReachesTransitive(es: Edges, a: nat, b: nat, c: nat)
    requires Reaches(es, a, b) && Reaches(es, b, c)
    ensures Reaches(es, a, c)
  {
    var p :| IsPath(es, p) && p[0] == a && p[|p| - 1] == b;
    var q :| IsPath(es, q) && q[0] == b && q[|q| - 1] == c;
    var r := p + q[1..];
    forall i | 0 <= i < |r| - 1 ensures (r[i], r[i + 1]) in es {
      if i < |p| - 1 {
        assert (p[i], p[i + 1]) in es;
      } else {
        assert (q[i - |p| + 1], q[i - |p| + 2]) in es;
      }
    }
    assert IsPath(es, r);
  }

  /** Every path ends with an edge. */
  lemma LastEdge(es: Edges, a: nat, c: nat) returns (b: nat)
    requires Reaches(es, a, c)
    ensures (b, c) in es && ReachesOrIs(es, a, b)
  {
    var p :| IsPath(es, p) && p[0] == a && p[|p| - 1] == c;
    b := p[|p| - 2];
    assert (p[|p| - 2], p[|p| - 1]) in es;
    if |p| > 2 {
      assert IsPath(es, p[..|p| - 1]);
    }
  }

  lemma ReachesMonotone(es: Edges, more: Edges, a: nat, b: nat)
    requires es <= more && Reaches(es, a, b)
    ensures Reaches(more, a, b)
  {
    var p :| IsPath(es, p) && p[0] == a && p[|p| - 1] == b;
    assert IsPath(more, p);
  }

  // ---------------------------------------------------------------- adding an edge

  /** With one more edge, a path either was there before or goes through the new edge. */
  lemma {:induction false} PathWithNewEdge(es: Edges, from: nat, to: nat, p: seq<nat>)
    requires IsPath(es + {(from, to)}, p)
    ensures Reaches(es, p[0], p[|p| - 1])
            || (ReachesOrIs(es, p[0], from) && ReachesOrIs(es, to, p[|p| - 1]))
    decreases |p|
  {
    var a, b, c := p[0], p[|p| - 2], p[|p| - 1];
    assert (p[|p| - 2], p[|p| - 1]) in es + {(from, to)};
    if |p| > 2 {
      var q := p[..|p| - 1];
      assert IsPath(es + {(from, to)}, q);
      PathWithNewEdge(es, from, to, q);
    }
    if (b, c) in es {
      EdgeReaches(es, b, c);
      if Reaches(es, a, b) {
        ReachesTransitive(es, a, b, c);
      } else if a != b && to != b {
        ReachesTransitive(es, to, b, c);
      }
    }
  }

  /** A new edge closes a circle exactly when its source was already reachable from its target. */
  lemma NewEdgeCircle(es: Edges, from: nat, to: nat)
    requires Acyclic(es)
    ensures Acyclic(es + {(from, to)}) <==> !ReachesOrIs(es, to, from)
  {
    var more := es + {(from, to)};
    if ReachesOrIs(es, to, from) {
      EdgeReaches(more, from, to);
      if to != from {
        ReachesMonotone(es, more, to, from);
        ReachesTransitive(more, from, to, from);
      }
      assert Reaches(more, from, from);
    } else {
      forall n: nat ensures !Reaches(more, n, n) {
        if Reaches(more, n, n) {
          var p :| IsPath(more, p) && p[0] == n && p[|p| - 1] == n;
          PathWithNewEdge(es, from, to, p);
          if to != n && from != n {
            ReachesTransitive(es, to, n, from);
          }
        }
      }
    }
  }

  // ---------------------------------------------------------------- minimal vertices

  /** In an acyclic graph every non-empty set has a vertex with no predecessor in the set. */
  lemma MinimalExists(es: Edges, s: set<nat>) returns (m: nat)
    requires Acyclic(es) && s != {}
    ensures m in s && forall n :: n in s ==> (n, m) !in es
  {
    var x :| x in s;
    m := MinimalBelow(es, s, x);
  }

  lemma {:induction false} MinimalBelow(es: Edges, s: set<nat>, x: nat) returns (m: nat)
    requires Acyclic(es) && x in s
    ensures m in s && forall n :: n in s ==> (n, m) !in es
    decreases |set n | n in s && Reaches(es, n, x)|
  {
    if y :| y in s && (y, x) in es {
      EdgeReaches(es, y, x);
      var below, above := set n | n in s && Reaches(es, n, y), set n | n in s && Reaches(es, n, x);
      forall n | n in below ensures n in above { ReachesTransitive(es, n, y, x); }
      assert y in above && y !in below;
      assert below < above;
      StrictSubsetSmaller(below, above);
      m := MinimalBelow(es, s, y);
    } else {
      m := x;
    }
  }

  lemma StrictSubsetSmaller<T>(a: set<T>, b: set<T>)
    requires a < b
    ensures |a| < |b|
  {
    assert b == a + (b - a);
    assert b - a != {};
  }

  // ---------------------------------------------------------------- search

  ghost predicate Closed(es: Edges, s: set<nat>) {
    forall e :: e in es && e.0 in s ==> e.1 in s
  }

  lemma {:induction false} ClosedHoldsReachable(es: Edges, s: set<nat>, p: seq<nat>)
    requires Closed(es, s) && IsPath(es, p) && p[0] in s
    ensures p[|p| - 1] in s
    decreases |p|
  {
    assert (p[0], p[1]) in es;
    if |p| > 2 {
      assert IsPath(es, p[1..]) by {
        forall i | 0 <= i < |p| - 2 ensures (p[1..][i], p[1..][i + 1]) in es {
          assert (p[i + 1], p[i + 2]) in es;
        }
      }
      ClosedHoldsReachable(es, s, p[1..]);
    }
  }

  /** Everything that can be reached from a vertex, itself included. */
  method Explore(es: Edges, start: nat) returns (seen: set<nat>)
    ensures forall n: nat :: n in seen <==> ReachesOrIs(es, start, n)
  {
    seen := {start};
    var frontier := {start};
    ghost var targets := set e | e in es :: e.1;
    while frontier != {}
      invariant frontier <= seen && start in seen
      invariant forall n :: n in seen ==> ReachesOrIs(es, start, n)
      invariant forall e :: e in es && e.0 in seen - frontier ==> e.1 in seen
      decreases targets - seen, frontier
    {
      var n :| n in frontier;
      var next := set e | e in es && e.0 == n && e.1 !in seen :: e.1;
      forall m | m in next ensures ReachesOrIs(es, start, m) {
        EdgeReaches(es, n, m);
        if n != start { ReachesTransitive(es, start, n, m); }
      }
      ghost var before := seen;
      seen := seen + next;
      frontier := frontier - {n} + next;
      if next != {} {
        var m :| m in next;
        assert m in targets - before && m !in targets - seen;
      }
    }
    forall n: nat | ReachesOrIs(es, start, n) ensures n in seen {
      if n != start {
        var p :| IsPath(es, p) && p[0] == start && p[|p| - 1] == n;
        ClosedHoldsReachable(es, seen, p);
      }
    }
  }
}
