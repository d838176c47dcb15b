/**
 * Lists of buffers as values: a family of disjoint, non-empty lists, each known by its first element.
 * Chaining and unchaining are joining two lists of the family and splitting one.
 */
module BufLists {
  import opened Sequences

  type Family<!T(==)> = map<T, seq<T>>

  /** Each list starts with its key, and no element occurs twice, in the same list or in two. */
  ghost predicate Partition<T>(f: Family<T>) {
    && (forall h :: h in f ==> |f[h]| > 0 && f[h][0] == h && Distinct(f[h]))
    && (forall g, h, x :: g in f && h in f && x in f[g] && x in f[h] ==> g == h)
  }

  ghost predicate Member<T>(f: Family<T>, x: T) { exists h :: h in f && x in f[h] }

  /** Appends the list of b to the list of a. */
  function Join<T>(f: Family<T>, a: T, b: T): Family<T>
    requires a in f && b in f
  {
    (f - {b})[a := f[a] + f[b]]
  }

  function IndexIn<T(==)>(s: seq<T>, x: T): (i: nat)
    requires x in s
    ensures i < |s| && s[i] == x && x !in s[..i]
  {
    if s[0] == x then 0
    else
      assert s == [s[0]] + s[1..];
      var i := IndexIn(s[1..], x) + 1;
      assert s[..i] == [s[0]] + s[1..][..i - 1];
      i
  }

  /** Ends the list of a before b, which starts a list of its own. */
  function Split<T>(f: Family<T>, a: T, b: T): Family<T>
    requires a in f && b in f[a] && a != b
  {
    var i := IndexIn(f[a], b);
    f[a := f[a][..i]][b := f[a][i..]]
  }

  lemma JoinKeepsPartition<T>(f: Family<T>, a: T, b: T)
    requires Partition(f) && a in f && b in f && a != b
    ensures Partition(Join(f, a, b))
  {
    var g := Join(f, a, b);
    forall i, j | 0 <= i < j < |g[a]| ensures g[a][i] != g[a][j] {
      if i < |f[a]| <= j {
        assert g[a][i] in f[a] && g[a][j] in f[b];
      }
    }
    forall h | h in g ensures |g[h]| > 0 && g[h][0] == h && Distinct(g[h]) { }
  }

  lemma SplitKeepsPartition<T>(f: Family<T>, a: T, b: T)
    requires Partition(f) && a in f && b in f[a] && a != b
    ensures Partition(Split(f, a, b))
  {
    var i := IndexIn(f[a], b);
    var g := Split(f, a, b);
    assert f[a][i] == b;
    forall x | x in g[a] ensures x in f[a] && x !in g[b] {
      var j :| 0 <= j < i && g[a][j] == x;
      assert f[a][j] == x;
    }
    forall x | x in g[b] ensures x in f[a] { }
    forall h | h in g ensures |g[h]| > 0 && g[h][0] == h && Distinct(g[h]) { }
  }

  lemma JoinMember<T>(f: Family<T>, a: T, b: T, x: T)
    requires a in f && b in f && a != b
    ensures Member(Join(f, a, b), x) <==> Member(f, x)
  {
    var g := Join(f, a, b);
    if Member(f, x) {
      var h :| h in f && x in f[h];
      assert x in g[if h == b then a else h];
    }
    if Member(g, x) {
      var h :| h in g && x in g[h];
      assert h == a ==> x in f[a] || x in f[b];
    }
  }

  lemma SplitMember<T>(f: Family<T>, a: T, b: T, x: T)
    requires Partition(f) && a in f && b in f[a] && a != b
    ensures Member(Split(f, a, b), x) <==> Member(f, x)
  {
    var g := Split(f, a, b);
    var i := IndexIn(f[a], b);
    assert f[a][..i] + f[a][i..] == f[a];
    if Member(f, x) {
      var h :| h in f && x in f[h];
      assert h == a ==> x in g[a] || x in g[b];
      assert h != a ==> x in g[h];
    }
    if Member(g, x) {
      var h :| h in g && x in g[h];
      assert x in f[if h == b then a else h];
    }
  }

  /** Splitting cuts the one list in two, the second of which starts with b. */
  lemma SplitMeans<T>(f: Family<T>, a: T, b: T)
    requires Partition(f) && a in f && b in f[a] && a != b
    ensures var g := Split(f, a, b);
            && b !in f && g.Keys == f.Keys + {b}
            && g[a] + g[b] == f[a] && g[b] != [] && g[b][0] == b
            && forall h :: h in f && h != a ==> g[h] == f[h]
  {
    var i := IndexIn(f[a], b);
    assert f[a][..i] + f[a][i..] == f[a];
    assert forall h :: h in f ==> h in f[h];
  }

  /** Unchaining what was chained restores both lists, and every other. */
  lemma SplitAfterJoin<T>(f: Family<T>, a: T, b: T)
    requires Partition(f) && a in f && b in f && a != b
    ensures b in Join(f, a, b)[a] && Split(Join(f, a, b), a, b) == f
  {
    var g := Join(f, a, b);
    var n := |f[a]|;
    assert g[a][n] == b;
    var i := IndexIn(g[a], b);
    assert b in f[b];
    assert forall j :: 0 <= j < n ==> g[a][j] == f[a][j] && f[a][j] in f[a];
    forall j | 0 <= j < i ensures g[a][j] != b { assert g[a][j] in g[a][..i]; }
    assert g[a][..i] == f[a] && g[a][i..] == f[b];
  }

  /** Chaining what was unchained restores the list. */
  lemma JoinAfterSplit<T>(f: Family<T>, a: T, b: T)
    requires Partition(f) && a in f && b in f[a] && a != b
    ensures b in Split(f, a, b) && Join(Split(f, a, b), a, b) == f
  {
    var i := IndexIn(f[a], b);
    assert f[a][..i] + f[a][i..] == f[a];
  }
}
