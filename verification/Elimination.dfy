/**
 * Writing a functional as a combination of given rows, by eliminating one column at a time.
 *
 * `Express` finds coefficients c with c . (rows v) == u . v for every column v. It fails exactly
 * when some v is annihilated by every row but not by u, so its failure is never a weakness of
 * the algorithm: no method at all could compute u . v from the products rows v.
 */
module Elimination {
  import opened GaloisField
  import opened Outcome

  ghost predicate Rectangular<T>(rows: seq<seq<T>>, n: nat) {
    forall i :: 0 <= i < |rows| ==> |rows[i]| == n
  }

  /** c computes u . v from the products of the rows with v, whatever v is. */
  ghost predicate Expresses<T(!new)>(F: Field<T>, c: seq<T>, rows: seq<seq<T>>, u: seq<T>)
    requires Rectangular(rows, |u|)
  {
    |c| == |rows| && forall v: seq<T> | |v| == |u| :: Dot(F, c, Apply(F, rows, v)) == Dot(F, u, v)
  }

  /** v is invisible to the rows, yet u sees it. */
  ghost predicate Separates<T(!new)>(F: Field<T>, v: seq<T>, rows: seq<seq<T>>, u: seq<T>)
    requires Rectangular(rows, |u|)
  {
    |v| == |u| && Dot(F, u, v) != F.zero && Apply(F, rows, v) == Zeros(F, |rows|)
  }

  /** The first row with a non-zero entry in column k, or |rows|. */
  function Pivot<T(==)>(F: Field<T>, rows: seq<seq<T>>, k: nat): (p: nat)
    requires forall i :: 0 <= i < |rows| ==> k < |rows[i]|
    ensures p <= |rows|
    ensures p < |rows| ==> rows[p][k] != F.zero
    ensures forall i :: 0 <= i < p ==> rows[i][k] == F.zero
  {
    if rows == [] then 0
    else if rows[0][k] != F.zero then 0
    else 1 + Pivot(F, rows[1..], k)
  }

  function DropColumn<T>(rows: seq<seq<T>>, n: nat): (cut: seq<seq<T>>)
    requires Rectangular(rows, n + 1)
    ensures |cut| == |rows| && Rectangular(cut, n)
    ensures forall i :: 0 <= i < |rows| ==> cut[i] == rows[i][..n]
  {
    seq(|rows|, i requires 0 <= i < |rows| => rows[i][..n])
  }

  /** The multiples of the pivot row that clear column n. */
  function Factors<T>(F: Field<T>, rows: seq<seq<T>>, pivot: seq<T>, n: nat): (f: seq<T>)
    requires Rectangular(rows, n + 1) && |pivot| == n + 1
    ensures |f| == |rows|
    ensures forall i :: 0 <= i < |rows| ==> f[i] == F.mul(rows[i][n], F.inv(pivot[n]))
  {
    seq(|rows|, i requires 0 <= i < |rows| => F.mul(rows[i][n], F.inv(pivot[n])))
  }

  function Cleared<T>(F: Field<T>, row: seq<T>, pivot: seq<T>, factor: T, n: nat): (r: seq<T>)
    requires |row| == |pivot| == n + 1
    ensures |r| == n
  {
    VAdd(F, row[..n], VScale(F, factor, pivot[..n]))
  }

  function ClearedRows<T>(F: Field<T>, rows: seq<seq<T>>, pivot: seq<T>, n: nat): (r: seq<seq<T>>)
    requires Rectangular(rows, n + 1) && |pivot| == n + 1
    ensures |r| == |rows| && Rectangular(r, n)
  {
    var f := Factors(F, rows, pivot, n);
    seq(|rows|, i requires 0 <= i < |rows| => Cleared(F, rows[i], pivot, f[i], n))
  }

  function Express<T(==)>(F: Field<T>, rows: seq<seq<T>>, u: seq<T>): (c: Option<seq<T>>)
    requires Rectangular(rows, |u|)
    ensures c.Some? ==> |c.value| == |rows|
    decreases |u|
  {
    if |u| == 0 then Some(Zeros(F, |rows|))
    else
      var n := |u| - 1;
      var p := Pivot(F, rows, n);
      if p == |rows| then
        if u[n] != F.zero then None else Express(F, DropColumn(rows, n), u[..n])
      else
        var g := F.mul(u[n], F.inv(rows[p][n]));
        var f := Factors(F, rows, rows[p], n);
        var c := Express(F, ClearedRows(F, rows, rows[p], n), Cleared(F, u, rows[p], g, n));
        if c.None? then None
        else Some(c.value[p := F.add(c.value[p], F.add(g, Dot(F, c.value, f)))])
  }

  /** Clearing replaces row . v by row . v + factor * (pivot . v). */
  lemma DotCleared<T(!new)>(F: Field<T>, row: seq<T>, pivot: seq<T>, n: nat, v: seq<T>)
    requires IsField(F) && |row| == |pivot| == |v| == n + 1 && pivot[n] != F.zero
    ensures var factor := F.mul(row[n], F.inv(pivot[n]));
            Dot(F, Cleared(F, row, pivot, factor, n), v[..n])
            == F.add(Dot(F, row, v), F.mul(factor, Dot(F, pivot, v)))
  {
    var w, a := v[..n], v[n];
    var factor := F.mul(row[n], F.inv(pivot[n]));
    DotComm(F, Cleared(F, row, pivot, factor, n), w);
    DotAdd(F, w, row[..n], VScale(F, factor, pivot[..n]));
    DotScale(F, factor, w, pivot[..n]);
    DotComm(F, w, row[..n]);
    DotComm(F, w, pivot[..n]);
    var x, y := Dot(F, row[..n], w), Dot(F, pivot[..n], w);
    var s := F.mul(row[n], a);
    assert F.mul(factor, F.mul(pivot[n], a)) == s by {
      assert MulAssoc(F, factor, pivot[n], a);
      DivCancel(F, row[n], pivot[n]);
    }
    assert Distributes(F, factor, y, F.mul(pivot[n], a));
    AddSwap(F, x, s, F.mul(factor, y), s);
    assert AddSelf(F, s);
    assert AddZero(F, F.add(x, F.mul(factor, y)));
  }

  lemma ApplyCleared<T(!new)>(F: Field<T>, rows: seq<seq<T>>, p: nat, n: nat, v: seq<T>)
    requires IsField(F) && Rectangular(rows, n + 1) && |v| == n + 1
    requires p < |rows| && rows[p][n] != F.zero
    ensures Apply(F, ClearedRows(F, rows, rows[p], n), v[..n])
            == VAdd(F, Apply(F, rows, v), VScale(F, Dot(F, rows[p], v), Factors(F, rows, rows[p], n)))
  {
    forall i | 0 <= i < |rows|
      ensures Apply(F, ClearedRows(F, rows, rows[p], n), v[..n])[i]
              == VAdd(F, Apply(F, rows, v), VScale(F, Dot(F, rows[p], v), Factors(F, rows, rows[p], n)))[i]
    {
      DotCleared(F, rows[i], rows[p], n, v);
      assert MulComm(F, Factors(F, rows, rows[p], n)[i], Dot(F, rows[p], v));
    }
  }

  /** Whatever `Express` returns is right. */
  lemma ExpressSound<T(!new)>(F: Field<T>, rows: seq<seq<T>>, u: seq<T>)
    requires IsField(F) && Rectangular(rows, |u|)
    requires Express(F, rows, u).Some?
    ensures Expresses(F, Express(F, rows, u).value, rows, u)
  {
    forall v: seq<T> | |v| == |u|
      ensures Dot(F, Express(F, rows, u).value, Apply(F, rows, v)) == Dot(F, u, v)
    {
      ExpressSoundAt(F, rows, u, v);
    }
  }

  lemma {:induction false} ExpressSoundAt<T(!new)>(F: Field<T>, rows: seq<seq<T>>, u: seq<T>, v: seq<T>)
    requires IsField(F) && Rectangular(rows, |u|) && |v| == |u|
    requires Express(F, rows, u).Some?
    ensures Dot(F, Express(F, rows, u).value, Apply(F, rows, v)) == Dot(F, u, v)
    decreases |u|, 1
  {
    if |u| == 0 {
      DotZero(F, Express(F, rows, u).value, Apply(F, rows, v));
    } else if Pivot(F, rows, |u| - 1) < |rows| {
      ExpressSoundPivot(F, rows, u, v);
    } else {
      var n := |u| - 1;
      NoPivot(F, rows, u, v);
      ExpressSoundAt(F, DropColumn(rows, n), u[..n], v[..n]);
    }
  }

  lemma NoPivot<T(!new)>(F: Field<T>, rows: seq<seq<T>>, u: seq<T>, v: seq<T>)
    requires IsField(F) && Rectangular(rows, |u|) && |u| == |v| > 0
    requires Pivot(F, rows, |u| - 1) == |rows|
    ensures Apply(F, rows, v) == Apply(F, DropColumn(rows, |u| - 1), v[..|u| - 1])
    ensures u[|u| - 1] == F.zero ==> Dot(F, u, v) == Dot(F, u[..|u| - 1], v[..|u| - 1])
  {
    var n := |u| - 1;
    MulZero(F, v[n]);
    assert AddZero(F, Dot(F, u[..n], v[..n]));
    forall i | 0 <= i < |rows| ensures Dot(F, rows[i], v) == Dot(F, rows[i][..n], v[..n]) {
      assert AddZero(F, Dot(F, rows[i][..n], v[..n]));
    }
  }

  lemma {:induction false} ExpressSoundPivot<T(!new)>(F: Field<T>, rows: seq<seq<T>>, u: seq<T>, v: seq<T>)
    requires IsField(F) && Rectangular(rows, |u|) && |v| == |u| > 0
    requires Express(F, rows, u).Some? && Pivot(F, rows, |u| - 1) < |rows|
    ensures Dot(F, Express(F, rows, u).value, Apply(F, rows, v)) == Dot(F, u, v)
    decreases |u|, 0
  {
    var n := |u| - 1;
    var p := Pivot(F, rows, n);
    var g := F.mul(u[n], F.inv(rows[p][n]));
    var f := Factors(F, rows, rows[p], n);
    var u' := Cleared(F, u, rows[p], g, n);
    var rows' := ClearedRows(F, rows, rows[p], n);
    var c := Express(F, rows', u').value;
    var y := Apply(F, rows, v);
    var yp := Dot(F, rows[p], v);
    var cf := Dot(F, c, f);

    // c . (y + yp f) == u . v + g yp, by the recursive call
    ExpressSoundAt(F, rows', u', v[..n]);
    ApplyCleared(F, rows, p, n, v);
    DotAdd(F, c, y, VScale(F, yp, f));
    DotScale(F, yp, c, f);
    DotCleared(F, u, rows[p], n, v);
    var uv := Dot(F, u, v);
    assert F.add(Dot(F, c, y), F.mul(yp, cf)) == F.add(uv, F.mul(g, yp));

    // so adding (g + c . f) yp to c . y leaves u . v
    DotUpdate(F, c, y, p, F.add(g, cf));
    MulLeft(F, g, cf, yp);
    assert MulComm(F, yp, cf);
    var s, t := F.mul(g, yp), F.mul(cf, yp);
    assert AddComm(F, s, t);
    assert AddAssoc(F, Dot(F, c, y), t, s);
    AddCancel(F, s, uv);
  }

  /** When `Express` gives up, there is a column that the rows cannot see and u can. */
  lemma {:induction false} ExpressComplete<T(!new)>(F: Field<T>, rows: seq<seq<T>>, u: seq<T>) returns (v: seq<T>)
    requires IsField(F) && Rectangular(rows, |u|)
    requires Express(F, rows, u).None?
    ensures Separates(F, v, rows, u)
    decreases |u|
  {
    var n := |u| - 1;
    var p := Pivot(F, rows, n);
    if p == |rows| {
      if u[n] != F.zero {
        v := Unit(F, |u|, n);
        NoPivot(F, rows, u, v);
        forall i | 0 <= i < |rows| ensures Dot(F, rows[i][..n], v[..n]) == F.zero {
          DotZero(F, rows[i][..n], v[..n]);
        }
        DotComm(F, u, v);
        DotUnit(F, n, u);
      } else {
        var w := ExpressComplete(F, DropColumn(rows, n), u[..n]);
        v := w + [F.zero];
        assert v[..n] == w;
        NoPivot(F, rows, u, v);
      }
    } else {
      var g := F.mul(u[n], F.inv(rows[p][n]));
      var w := ExpressComplete(F, ClearedRows(F, rows, rows[p], n), Cleared(F, u, rows[p], g, n));
      v := Extended(F, rows[p], w, n);
      ApplyCleared(F, rows, p, n, v);
      DotCleared(F, u, rows[p], n, v);
      MulZero(F, g);
      assert AddZero(F, Dot(F, u, v));
      forall i | 0 <= i < |rows| ensures Dot(F, rows[i], v) == F.zero {
        var f := Factors(F, rows, rows[p], n);
        MulZero(F, f[i]);
        assert AddZero(F, Dot(F, rows[i], v));
        assert Apply(F, ClearedRows(F, rows, rows[p], n), v[..n])[i] == F.zero;
      }
    }
  }

  /** A last entry can be appended to w so that the pivot row annihilates it. */
  lemma Extended<T(!new)>(F: Field<T>, pivot: seq<T>, w: seq<T>, n: nat) returns (v: seq<T>)
    requires IsField(F) && |pivot| == n + 1 && |w| == n && pivot[n] != F.zero
    ensures |v| == n + 1 && v[..n] == w && Dot(F, pivot, v) == F.zero
  {
    var d := Dot(F, pivot[..n], w);
    var a := F.mul(d, F.inv(pivot[n]));
    v := w + [a];
    assert v[..n] == w;
    DivCancel(F, d, pivot[n]);
    assert MulComm(F, a, pivot[n]);
    assert AddSelf(F, d);
  }

  /** Two columns that the rows cannot tell apart and u can. */
  lemma ExpressAmbiguous<T(!new)>(F: Field<T>, rows: seq<seq<T>>, u: seq<T>) returns (v: seq<T>, w: seq<T>)
    requires IsField(F) && Rectangular(rows, |u|)
    requires Express(F, rows, u).None?
    ensures |v| == |w| == |u| && Apply(F, rows, v) == Apply(F, rows, w) && Dot(F, u, v) != Dot(F, u, w)
  {
    v := ExpressComplete(F, rows, u);
    w := Zeros(F, |u|);
    DotZero(F, u, w);
    forall i | 0 <= i < |rows| ensures Dot(F, rows[i], w) == F.zero {
      DotZero(F, rows[i], w);
    }
    assert Apply(F, rows, v) == Apply(F, rows, w);
  }
}
