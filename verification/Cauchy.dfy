/**
 * Every square Cauchy matrix 1/(x_i + y_j) with distinct x's and distinct y's is invertible: a
 * column it sends to zero is zero. The proof removes one row and one column at a time and never
 * speaks of determinants.
 */
module Cauchy {
  import opened GaloisField
  import opened Sequences

  function Row<T>(F: Field<T>, x: T, ys: seq<T>): (r: seq<T>)
    ensures |r| == |ys|
    ensures forall j :: 0 <= j < |ys| ==> r[j] == F.inv(F.add(x, ys[j]))
  {
    seq(|ys|, j requires 0 <= j < |ys| => F.inv(F.add(x, ys[j])))
  }

  ghost predicate Apart<T>(F: Field<T>, x: T, ys: seq<T>) {
    forall j :: 0 <= j < |ys| ==> F.add(x, ys[j]) != F.zero
  }

  /** The column left once the node t and the row of z have been eliminated. */
  function Weighted<T>(F: Field<T>, z: T, t: T, ys: seq<T>, v: seq<T>): (w: seq<T>)
    requires |ys| == |v|
    ensures |w| == |v|
    ensures forall j :: 0 <= j < |v| ==>
              w[j] == F.mul(F.mul(F.add(t, ys[j]), F.inv(F.add(z, ys[j]))), v[j])
  {
    seq(|v|, j requires 0 <= j < |v| => F.mul(F.mul(F.add(t, ys[j]), F.inv(F.add(z, ys[j]))), v[j]))
  }

  /** (x + t)/(x + y) == 1 + (t + y)/(x + y) */
  lemma OverSum<T(!new)>(F: Field<T>, x: T, y: T, t: T)
    requires IsField(F) && F.add(x, y) != F.zero
    ensures var d := F.inv(F.add(x, y)); F.mul(F.add(x, t), d) == F.add(F.one, F.mul(F.add(t, y), d))
  {
    var d := F.inv(F.add(x, y));
    assert F.add(x, t) == F.add(F.add(x, y), F.add(t, y)) by {
      AddSwap(F, x, y, t, y);
      assert AddSelf(F, y);
      assert AddZero(F, F.add(x, t));
    }
    MulLeft(F, F.add(x, y), F.add(t, y), d);
    assert MulInverse(F, F.add(x, y));
  }

  /** 1/(x + y) + 1/(z + y) == (x + z) / ((x + y)(z + y)) */
  lemma SumOfInverses<T(!new)>(F: Field<T>, x: T, z: T, y: T)
    requires IsField(F) && F.add(x, y) != F.zero && F.add(z, y) != F.zero
    ensures var d, e := F.inv(F.add(x, y)), F.inv(F.add(z, y)); F.add(d, e) == F.mul(F.add(x, z), F.mul(d, e))
  {
    var d, e := F.inv(F.add(x, y)), F.inv(F.add(z, y));
    OverSum(F, x, y, z);
    assert MulAssoc(F, F.add(x, z), d, e);
    var q := F.mul(F.add(z, y), d);
    MulLeft(F, F.one, q, e);
    assert F.mul(F.one, e) == e by {
      assert MulComm(F, F.one, e);
      assert MulOne(F, e);
    }
    assert F.mul(q, e) == d by {
      assert MulComm(F, F.add(z, y), d);
      assert MulAssoc(F, d, F.add(z, y), e);
      assert MulInverse(F, F.add(z, y));
      assert MulOne(F, d);
    }
    assert AddComm(F, e, d);
  }

  /** One term of `EliminateRow`. */
  lemma EliminateTerm<T(!new)>(F: Field<T>, x: T, z: T, t: T, y: T, v: T)
    requires IsField(F) && F.add(x, y) != F.zero && F.add(z, y) != F.zero
    ensures var d, e := F.inv(F.add(x, y)), F.inv(F.add(z, y));
            F.add(F.mul(F.add(x, t), F.mul(d, v)), F.mul(F.add(z, t), F.mul(e, v)))
            == F.mul(F.add(x, z), F.mul(d, F.mul(F.mul(F.add(t, y), e), v)))
  {
    var d, e, ty := F.inv(F.add(x, y)), F.inv(F.add(z, y)), F.add(t, y);
    assert MulAssoc(F, F.add(x, t), d, v);
    assert MulAssoc(F, F.add(z, t), e, v);
    MulLeft(F, F.mul(F.add(x, t), d), F.mul(F.add(z, t), e), v);
    // the two factors of v add up to ty (d + e)
    OverSum(F, x, y, t);
    OverSum(F, z, y, t);
    AddSwap(F, F.one, F.mul(ty, d), F.one, F.mul(ty, e));
    assert AddSelf(F, F.one);
    assert Distributes(F, ty, d, e);
    assert AddComm(F, F.zero, F.mul(ty, F.add(d, e)));
    assert AddZero(F, F.mul(ty, F.add(d, e)));
    // and d + e == (x + z) d e
    SumOfInverses(F, x, z, y);
    MulSwap(F, ty, F.add(x, z), F.mul(d, e));
    MulSwap(F, ty, d, e);
    assert MulAssoc(F, F.add(x, z), F.mul(d, F.mul(ty, e)), v);
    assert MulAssoc(F, d, F.mul(ty, e), v);
  }

  /** (x + t) S(x) + (z + t) S(z) == (x + z) S'(x), where S' has the weighted column. */
  lemma {:induction false} EliminateRow<T(!new)>(F: Field<T>, x: T, z: T, t: T, ys: seq<T>, v: seq<T>)
    requires IsField(F) && |ys| == |v| && Apart(F, x, ys) && Apart(F, z, ys)
    ensures F.add(F.mul(F.add(x, t), Dot(F, Row(F, x, ys), v)), F.mul(F.add(z, t), Dot(F, Row(F, z, ys), v)))
            == F.mul(F.add(x, z), Dot(F, Row(F, x, ys), Weighted(F, z, t, ys, v)))
  {
    if |ys| == 0 {
      MulZero(F, F.add(x, t));
      MulZero(F, F.add(z, t));
      MulZero(F, F.add(x, z));
      assert AddZero(F, F.zero);
    } else {
      var n := |ys| - 1;
      var d, e := Row(F, x, ys), Row(F, z, ys);
      var w := Weighted(F, z, t, ys, v);
      EliminateRow(F, x, z, t, ys[..n], v[..n]);
      assert d[..n] == Row(F, x, ys[..n]) && e[..n] == Row(F, z, ys[..n]);
      assert w[..n] == Weighted(F, z, t, ys[..n], v[..n]);
      EliminateTerm(F, x, z, t, ys[n], v[n]);
      var sd, se, sw := Dot(F, d[..n], v[..n]), Dot(F, e[..n], v[..n]), Dot(F, d[..n], w[..n]);
      assert Distributes(F, F.add(x, t), sd, F.mul(d[n], v[n]));
      assert Distributes(F, F.add(z, t), se, F.mul(e[n], v[n]));
      assert Distributes(F, F.add(x, z), sw, F.mul(d[n], w[n]));
      AddSwap(F, F.mul(F.add(x, t), sd), F.mul(F.add(x, t), F.mul(d[n], v[n])),
              F.mul(F.add(z, t), se), F.mul(F.add(z, t), F.mul(e[n], v[n])));
    }
  }

  /** The weight of the eliminated node itself is zero, so the last column disappears. */
  lemma DropLast<T(!new)>(F: Field<T>, x: T, z: T, ys: seq<T>, v: seq<T>)
    requires IsField(F) && |ys| == |v| > 0
    ensures var n := |ys| - 1;
            Dot(F, Row(F, x, ys), Weighted(F, z, ys[n], ys, v))
            == Dot(F, Row(F, x, ys[..n]), Weighted(F, z, ys[n], ys[..n], v[..n]))
  {
    var n := |ys| - 1;
    var w := Weighted(F, z, ys[n], ys, v);
    assert AddSelf(F, ys[n]);
    MulZero(F, F.inv(F.add(z, ys[n])));
    MulZero(F, v[n]);
    assert w[n] == F.zero;
    MulZero(F, Row(F, x, ys)[n]);
    assert w[..n] == Weighted(F, z, ys[n], ys[..n], v[..n]);
    assert Row(F, x, ys)[..n] == Row(F, x, ys[..n]);
    assert AddZero(F, Dot(F, Row(F, x, ys[..n]), w[..n]));
  }

  /** A square Cauchy matrix sends only the zero column to zero. */
  lemma {:induction false} TrivialKernel<T(!new)>(F: Field<T>, xs: seq<T>, ys: seq<T>, v: seq<T>)
    requires IsField(F) && |xs| == |ys| == |v| && Distinct(xs) && Distinct(ys)
    requires forall i :: 0 <= i < |xs| ==> Apart(F, xs[i], ys)
    requires forall i :: 0 <= i < |xs| ==> Dot(F, Row(F, xs[i], ys), v) == F.zero
    ensures forall j :: 0 <= j < |v| ==> v[j] == F.zero
  {
    if |xs| == 0 { return; }
    var n := |xs| - 1;
    var z, t := xs[n], ys[n];
    var w := Weighted(F, z, t, ys[..n], v[..n]);
    forall i | 0 <= i < n ensures Dot(F, Row(F, xs[i], ys[..n]), w) == F.zero {
      EliminateRow(F, xs[i], z, t, ys, v);
      DropLast(F, xs[i], z, ys, v);
      MulZero(F, F.add(xs[i], t));
      MulZero(F, F.add(z, t));
      assert AddZero(F, F.zero);
      SumZeroMeansEqual(F, xs[i], z);
      NoZeroDivisors(F, F.add(xs[i], z), Dot(F, Row(F, xs[i], ys[..n]), w));
    }
    forall i | 0 <= i < n ensures Apart(F, xs[..n][i], ys[..n]) {
      assert Apart(F, xs[i], ys);
    }
    TrivialKernel(F, xs[..n], ys[..n], w);
    forall j | 0 <= j < n ensures v[j] == F.zero {
      assert Apart(F, z, ys);
      assert w[j] == F.zero;
      var e := F.inv(F.add(z, ys[j]));
      NoZeroDivisors(F, F.mul(F.add(t, ys[j]), e), v[j]);
      if v[j] != F.zero {
        NoZeroDivisors(F, F.add(t, ys[j]), e);
        SumZeroMeansEqual(F, t, ys[j]);
        DivCancel(F, F.one, F.add(z, ys[j]));
      }
    }
    assert Apart(F, z, ys);
    DotSingle(F, v, Row(F, z, ys), n);
    DotComm(F, v, Row(F, z, ys));
    NoZeroDivisors(F, v[n], Row(F, z, ys)[n]);
    DivCancel(F, F.one, F.add(z, t));
  }
}
