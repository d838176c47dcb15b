/**
 * The byte arithmetic of the erasure coding engine.
 *
 * The header names Galois multiplication but fixes no field polynomial, so everything about
 * coding matrices is proved over an arbitrary field of characteristic two together with an
 * injection of the block numbers 0..255 into it. `Gf256` shows one such field.
 *
 * Every law is a predicate of its own: a quantified law is then instantiated only where a
 * proof names that law, which keeps associativity and commutativity from running away.
 */
module GaloisField {

  const MAX_BLOCKS := 256

  datatype Field<!T(==)> = Field(
    zero: T,
    one: T,
    add: (T, T) -> T,
    mul: (T, T) -> T,
    inv: T -> T,
    elem: nat -> T  // the field element written with the byte value of a block number
  )

  ghost predicate AddComm<T>(F: Field<T>, a: T, b: T) { F.add(a, b) == F.add(b, a) }

  ghost predicate AddAssoc<T>(F: Field<T>, a: T, b: T, c: T) {
    F.add(F.add(a, b), c) == F.add(a, F.add(b, c))
  }

  ghost predicate AddZero<T>(F: Field<T>, a: T) { F.add(a, F.zero) == a }

  ghost predicate AddSelf<T>(F: Field<T>, a: T) { F.add(a, a) == F.zero }

  ghost predicate MulComm<T>(F: Field<T>, a: T, b: T) { F.mul(a, b) == F.mul(b, a) }

  ghost predicate MulAssoc<T>(F: Field<T>, a: T, b: T, c: T) {
    F.mul(F.mul(a, b), c) == F.mul(a, F.mul(b, c))
  }

  ghost predicate MulOne<T>(F: Field<T>, a: T) { F.mul(a, F.one) == a }

  ghost predicate Distributes<T>(F: Field<T>, a: T, b: T, c: T) {
    F.mul(a, F.add(b, c)) == F.add(F.mul(a, b), F.mul(a, c))
  }

  ghost predicate MulInverse<T>(F: Field<T>, a: T) {
    a != F.zero ==> F.mul(a, F.inv(a)) == F.one
  }

  ghost predicate ElemInjective<T>(F: Field<T>, i: nat, j: nat) {
    i < MAX_BLOCKS && j < MAX_BLOCKS && i != j ==> F.elem(i) != F.elem(j)
  }

  /** The laws of a field of characteristic two. */
  ghost predicate FieldLaws<T(!new)>(F: Field<T>) {
    && F.zero != F.one
    && (forall a: T, b: T :: AddComm(F, a, b))
    && (forall a: T, b: T, c: T :: AddAssoc(F, a, b, c))
    && (forall a: T :: AddZero(F, a))
    && (forall a: T :: AddSelf(F, a))
    && (forall a: T, b: T :: MulComm(F, a, b))
    && (forall a: T, b: T, c: T :: MulAssoc(F, a, b, c))
    && (forall a: T :: MulOne(F, a))
    && (forall a: T, b: T, c: T :: Distributes(F, a, b, c))
    && (forall a: T :: MulInverse(F, a))
  }

  /** A field of characteristic two in which the block numbers are distinct elements. */
  ghost predicate IsField<T(!new)>(F: Field<T>) {
    FieldLaws(F) && forall i: nat, j: nat :: ElemInjective(F, i, j)
  }

  // ---------------------------------------------------------------- elementary identities

  lemma MulZero<T(!new)>(F: Field<T>, a: T)
    requires FieldLaws(F)
    ensures F.mul(a, F.zero) == F.zero && F.mul(F.zero, a) == F.zero
  {
    assert AddZero(F, F.zero);
    assert Distributes(F, a, F.zero, F.zero);
    assert AddSelf(F, F.mul(a, F.zero));
    assert MulComm(F, a, F.zero);
  }

  /** (a + b) + (c + d) == (a + c) + (b + d) */
  lemma AddSwap<T(!new)>(F: Field<T>, a: T, b: T, c: T, d: T)
    requires FieldLaws(F)
    ensures F.add(F.add(a, b), F.add(c, d)) == F.add(F.add(a, c), F.add(b, d))
  {
    assert AddAssoc(F, a, b, F.add(c, d));
    assert AddAssoc(F, b, c, d);
    assert AddComm(F, b, c);
    assert AddAssoc(F, c, b, d);
    assert AddAssoc(F, a, c, F.add(b, d));
  }

  /** a + (a + b) == b: addition is its own inverse. */
  lemma AddCancel<T(!new)>(F: Field<T>, a: T, b: T)
    requires FieldLaws(F)
    ensures F.add(a, F.add(a, b)) == b && F.add(F.add(b, a), a) == b
  {
    assert AddAssoc(F, a, a, b);
    assert AddSelf(F, a);
    assert AddComm(F, b, F.zero);
    assert AddZero(F, b);
    assert AddAssoc(F, b, a, a);
  }

  lemma SumZeroMeansEqual<T(!new)>(F: Field<T>, a: T, b: T)
    requires FieldLaws(F)
    ensures F.add(a, b) == F.zero <==> a == b
  {
    AddCancel(F, a, b);
    assert AddZero(F, a);
    assert AddSelf(F, a);
  }

  lemma MulLeft<T(!new)>(F: Field<T>, a: T, b: T, c: T)
    requires FieldLaws(F)
    ensures F.mul(F.add(a, b), c) == F.add(F.mul(a, c), F.mul(b, c))
  {
    assert MulComm(F, F.add(a, b), c);
    assert Distributes(F, c, a, b);
    assert MulComm(F, c, a);
    assert MulComm(F, c, b);
  }

  /** a(bc) == b(ac) */
  lemma MulSwap<T(!new)>(F: Field<T>, a: T, b: T, c: T)
    requires FieldLaws(F)
    ensures F.mul(a, F.mul(b, c)) == F.mul(b, F.mul(a, c))
  {
    assert MulAssoc(F, a, b, c);
    assert MulComm(F, a, b);
    assert MulAssoc(F, b, a, c);
  }

  lemma DivCancel<T(!new)>(F: Field<T>, a: T, b: T)
    requires FieldLaws(F) && b != F.zero
    ensures F.mul(F.mul(a, F.inv(b)), b) == a
    ensures F.inv(b) != F.zero
  {
    assert MulAssoc(F, a, F.inv(b), b);
    assert MulComm(F, F.inv(b), b);
    assert MulInverse(F, b);
    assert MulOne(F, a);
    MulZero(F, b);
  }

  lemma NoZeroDivisors<T(!new)>(F: Field<T>, a: T, b: T)
    requires FieldLaws(F) && F.mul(a, b) == F.zero
    ensures a == F.zero || b == F.zero
  {
    if a != F.zero {
      DivCancel(F, b, a);
      assert MulComm(F, b, F.inv(a));
      assert MulAssoc(F, F.inv(a), b, a);
      assert MulComm(F, b, a);
      MulZero(F, F.inv(a));
    }
  }

  /** Distinct block numbers have a non-zero sum, so 1/(i + j) is defined for i != j. */
  lemma ElemSumNonzero<T(!new)>(F: Field<T>, i: nat, j: nat)
    requires IsField(F) && i < MAX_BLOCKS && j < MAX_BLOCKS && i != j
    ensures F.elem(i) != F.elem(j) && F.add(F.elem(i), F.elem(j)) != F.zero
  {
    assert ElemInjective(F, i, j);
    SumZeroMeansEqual(F, F.elem(i), F.elem(j));
  }

  // ---------------------------------------------------------------- vectors

  function Zeros<T>(F: Field<T>, n: nat): (v: seq<T>)
    ensures |v| == n && forall i :: 0 <= i < n ==> v[i] == F.zero
  {
    seq(n, i => F.zero)
  }

  function Unit<T>(F: Field<T>, n: nat, j: nat): (v: seq<T>)
    requires j < n
    ensures |v| == n && forall i :: 0 <= i < n ==> v[i] == if i == j then F.one else F.zero
  {
    seq(n, i => if i == j then F.one else F.zero)
  }

  function VAdd<T>(F: Field<T>, u: seq<T>, v: seq<T>): (w: seq<T>)
    requires |u| == |v|
    ensures |w| == |u| && forall i :: 0 <= i < |u| ==> w[i] == F.add(u[i], v[i])
  {
    seq(|u|, i requires 0 <= i < |u| => F.add(u[i], v[i]))
  }

  function VScale<T>(F: Field<T>, a: T, v: seq<T>): (w: seq<T>)
    ensures |w| == |v| && forall i :: 0 <= i < |v| ==> w[i] == F.mul(a, v[i])
  {
    seq(|v|, i requires 0 <= i < |v| => F.mul(a, v[i]))
  }

  /** Scalar product, the sum of u[i] * v[i]. */
  function Dot<T>(F: Field<T>, u: seq<T>, v: seq<T>): T
    requires |u| == |v|
  {
    if |u| == 0 then F.zero
    else
      var n := |u| - 1;
      F.add(Dot(F, u[..n], v[..n]), F.mul(u[n], v[n]))
  }

  /** The product of a matrix, given by its rows, and a column. */
  function Apply<T>(F: Field<T>, rows: seq<seq<T>>, v: seq<T>): (w: seq<T>)
    requires forall i :: 0 <= i < |rows| ==> |rows[i]| == |v|
    ensures |w| == |rows| && forall i :: 0 <= i < |rows| ==> w[i] == Dot(F, rows[i], v)
  {
    seq(|rows|, i requires 0 <= i < |rows| => Dot(F, rows[i], v))
  }

  lemma {:induction false} DotZero<T(!new)>(F: Field<T>, u: seq<T>, v: seq<T>)
    requires IsField(F) && |u| == |v|
    requires forall i :: 0 <= i < |u| ==> u[i] == F.zero || v[i] == F.zero
    ensures Dot(F, u, v) == F.zero
  {
    if |u| > 0 {
      var n := |u| - 1;
      DotZero(F, u[..n], v[..n]);
      MulZero(F, u[n]);
      MulZero(F, v[n]);
      assert AddZero(F, F.zero);
    }
  }

  lemma {:induction false} DotAdd<T(!new)>(F: Field<T>, u: seq<T>, v: seq<T>, w: seq<T>)
    requires IsField(F) && |u| == |v| == |w|
    ensures Dot(F, u, VAdd(F, v, w)) == F.add(Dot(F, u, v), Dot(F, u, w))
  {
    if |u| == 0 {
      assert AddZero(F, F.zero);
    } else {
      var n := |u| - 1;
      DotAdd(F, u[..n], v[..n], w[..n]);
      assert VAdd(F, v, w)[..n] == VAdd(F, v[..n], w[..n]);
      assert Distributes(F, u[n], v[n], w[n]);
      AddSwap(F, Dot(F, u[..n], v[..n]), Dot(F, u[..n], w[..n]), F.mul(u[n], v[n]), F.mul(u[n], w[n]));
    }
  }

  lemma {:induction false} DotScale<T(!new)>(F: Field<T>, a: T, u: seq<T>, v: seq<T>)
    requires IsField(F) && |u| == |v|
    ensures Dot(F, u, VScale(F, a, v)) == F.mul(a, Dot(F, u, v))
  {
    if |u| == 0 {
      MulZero(F, a);
    } else {
      var n := |u| - 1;
      DotScale(F, a, u[..n], v[..n]);
      assert VScale(F, a, v)[..n] == VScale(F, a, v[..n]);
      MulSwap(F, u[n], a, v[n]);
      assert Distributes(F, a, Dot(F, u[..n], v[..n]), F.mul(u[n], v[n]));
    }
  }

  lemma {:induction false} DotComm<T(!new)>(F: Field<T>, u: seq<T>, v: seq<T>)
    requires IsField(F) && |u| == |v|
    ensures Dot(F, u, v) == Dot(F, v, u)
  {
    if |u| > 0 {
      var n := |u| - 1;
      DotComm(F, u[..n], v[..n]);
      assert MulComm(F, u[n], v[n]);
    }
  }

  /** u . v has a single term when u vanishes everywhere but at j. */
  lemma {:induction false} DotSingle<T(!new)>(F: Field<T>, u: seq<T>, v: seq<T>, j: nat)
    requires IsField(F) && |u| == |v| && j < |u|
    requires forall i :: 0 <= i < |u| && i != j ==> u[i] == F.zero
    ensures Dot(F, u, v) == F.mul(u[j], v[j])
  {
    var n := |u| - 1;
    if j == n {
      DotZero(F, u[..n], v[..n]);
      assert AddComm(F, F.zero, F.mul(u[n], v[n]));
      assert AddZero(F, F.mul(u[n], v[n]));
    } else {
      DotSingle(F, u[..n], v[..n], j);
      MulZero(F, v[n]);
      assert AddZero(F, F.mul(u[j], v[j]));
    }
  }

  lemma DotUnit<T(!new)>(F: Field<T>, j: nat, v: seq<T>)
    requires IsField(F) && j < |v|
    ensures Dot(F, Unit(F, |v|, j), v) == v[j]
  {
    DotSingle(F, Unit(F, |v|, j), v, j);
    assert MulComm(F, F.one, v[j]);
    assert MulOne(F, v[j]);
  }

  /** Adding d to one coefficient adds d * v[p] to the product. */
  lemma DotUpdate<T(!new)>(F: Field<T>, c: seq<T>, v: seq<T>, p: nat, d: T)
    requires IsField(F) && |c| == |v| && p < |c|
    ensures Dot(F, c[p := F.add(c[p], d)], v) == F.add(Dot(F, c, v), F.mul(d, v[p]))
  {
    var e := Zeros(F, |c|)[p := d];
    var c' := c[p := F.add(c[p], d)];
    forall i | 0 <= i < |c| ensures c'[i] == VAdd(F, c, e)[i] {
      assert AddZero(F, c[i]);
    }
    assert c' == VAdd(F, c, e);
    DotComm(F, c', v);
    DotAdd(F, v, c, e);
    DotComm(F, v, c);
    DotComm(F, v, e);
    DotSingle(F, e, v, p);
  }
}
