/**
 * A field of 256 elements that meets the laws assumed of the byte arithmetic, built from the two
 * bits by three quadratic extensions: pairs (a, b) stand for a + b w, where w w == w + t.
 */
module Gf256 {
  import opened GaloisField

  /** t is not r r + r for any r, so that x x == x + t has no solution yet. */
  ghost predicate Irreducible<T(!new)>(K: Field<T>, t: T) {
    forall r: T {:trigger K.mul(r, r)} :: K.add(K.mul(r, r), r) != t
  }

  function Plus<T>(K: Field<T>, x: (T, T), y: (T, T)): (T, T) { (K.add(x.0, y.0), K.add(x.1, y.1)) }

  function Scale<T>(K: Field<T>, s: T, x: (T, T)): (T, T) { (K.mul(s, x.0), K.mul(s, x.1)) }

  /** The product with w. */
  function TimesW<T>(K: Field<T>, t: T, x: (T, T)): (T, T) { (K.mul(t, x.1), K.add(x.0, x.1)) }

  function Times<T>(K: Field<T>, t: T, x: (T, T), y: (T, T)): (T, T) {
    Plus(K, Scale(K, x.0, y), Scale(K, x.1, TimesW(K, t, y)))
  }

  function Conjugate<T>(K: Field<T>, x: (T, T)): (T, T) { (K.add(x.0, x.1), x.1) }

  /** The product of x with its conjugate, which lies in K. */
  function Norm<T>(K: Field<T>, t: T, x: (T, T)): T {
    K.add(K.mul(x.0, K.add(x.0, x.1)), K.mul(x.1, K.mul(t, x.1)))
  }

  /** The two digits of n to the base m, for n below m * m. */
  function Low(n: nat, m: nat): nat
    requires m > 0
  {
    if n < m then n else Low(n - m, m)
  }

  function High(n: nat, m: nat): nat
    requires m > 0
  {
    if n < m then 0 else High(n - m, m) + 1
  }

  /** The extension of K by w; m elements of K are numbered. */
  function Extension<T>(K: Field<T>, t: T, m: nat): Field<(T, T)>
    requires m > 0
  {
    Field(
      (K.zero, K.zero),
      (K.one, K.zero),
      (x, y) => Plus(K, x, y),
      (x, y) => Times(K, t, x, y),
      x => Scale(K, K.inv(Norm(K, t, x)), Conjugate(K, x)),
      n => (K.elem(Low(n, m)), K.elem(High(n, m))))
  }

  // ---------------------------------------------------------------- addition

  lemma PlusLaws<T(!new)>(K: Field<T>, x: (T, T), y: (T, T), z: (T, T))
    requires FieldLaws(K)
    ensures Plus(K, x, y) == Plus(K, y, x)
    ensures Plus(K, Plus(K, x, y), z) == Plus(K, x, Plus(K, y, z))
    ensures Plus(K, x, (K.zero, K.zero)) == x && Plus(K, x, x) == (K.zero, K.zero)
  {
    assert AddComm(K, x.0, y.0) && AddComm(K, x.1, y.1);
    assert AddAssoc(K, x.0, y.0, z.0) && AddAssoc(K, x.1, y.1, z.1);
    assert AddZero(K, x.0) && AddZero(K, x.1) && AddSelf(K, x.0) && AddSelf(K, x.1);
  }

  /** (x + y) + (z + v) == (x + z) + (y + v) */
  lemma PlusSwap<T(!new)>(K: Field<T>, x: (T, T), y: (T, T), z: (T, T), v: (T, T))
    requires FieldLaws(K)
    ensures Plus(K, Plus(K, x, y), Plus(K, z, v)) == Plus(K, Plus(K, x, z), Plus(K, y, v))
  {
    AddSwap(K, x.0, y.0, z.0, v.0);
    AddSwap(K, x.1, y.1, z.1, v.1);
  }

  // ---------------------------------------------------------------- products are bilinear

  lemma ScalePlus<T(!new)>(K: Field<T>, s: T, x: (T, T), y: (T, T))
    requires FieldLaws(K)
    ensures Scale(K, s, Plus(K, x, y)) == Plus(K, Scale(K, s, x), Scale(K, s, y))
  {
    assert Distributes(K, s, x.0, y.0) && Distributes(K, s, x.1, y.1);
  }

  lemma PlusScale<T(!new)>(K: Field<T>, r: T, s: T, x: (T, T))
    requires FieldLaws(K)
    ensures Scale(K, K.add(r, s), x) == Plus(K, Scale(K, r, x), Scale(K, s, x))
  {
    MulLeft(K, r, s, x.0);
    MulLeft(K, r, s, x.1);
  }

  lemma ScaleScale<T(!new)>(K: Field<T>, r: T, s: T, x: (T, T))
    requires FieldLaws(K)
    ensures Scale(K, K.mul(r, s), x) == Scale(K, r, Scale(K, s, x))
  {
    assert MulAssoc(K, r, s, x.0) && MulAssoc(K, r, s, x.1);
  }

  lemma TimesWLinear<T(!new)>(K: Field<T>, t: T, s: T, x: (T, T), y: (T, T))
    requires FieldLaws(K)
    ensures TimesW(K, t, Plus(K, x, y)) == Plus(K, TimesW(K, t, x), TimesW(K, t, y))
    ensures TimesW(K, t, Scale(K, s, x)) == Scale(K, s, TimesW(K, t, x))
  {
    assert Distributes(K, t, x.1, y.1);
    AddSwap(K, x.0, y.0, x.1, y.1);
    MulSwap(K, t, s, x.1);
    assert Distributes(K, s, x.0, x.1);
  }

  /** w w == w + t */
  lemma TimesWTwice<T(!new)>(K: Field<T>, t: T, x: (T, T))
    requires FieldLaws(K)
    ensures TimesW(K, t, TimesW(K, t, x)) == Plus(K, TimesW(K, t, x), Scale(K, t, x))
  {
    assert Distributes(K, t, x.0, x.1);
    assert AddComm(K, K.mul(t, x.0), K.mul(t, x.1));
    assert AddComm(K, K.mul(t, x.1), K.add(x.0, x.1));
  }

  lemma TimesPlus<T(!new)>(K: Field<T>, t: T, x: (T, T), y: (T, T), z: (T, T))
    requires FieldLaws(K)
    ensures Times(K, t, Plus(K, x, y), z) == Plus(K, Times(K, t, x, z), Times(K, t, y, z))
  {
    var w := TimesW(K, t, z);
    PlusScale(K, x.0, y.0, z);
    PlusScale(K, x.1, y.1, w);
    PlusSwap(K, Scale(K, x.0, z), Scale(K, y.0, z), Scale(K, x.1, w), Scale(K, y.1, w));
  }

  lemma TimesScale<T(!new)>(K: Field<T>, t: T, s: T, x: (T, T), z: (T, T))
    requires FieldLaws(K)
    ensures Times(K, t, Scale(K, s, x), z) == Scale(K, s, Times(K, t, x, z))
  {
    var w := TimesW(K, t, z);
    ScaleScale(K, s, x.0, z);
    ScaleScale(K, s, x.1, w);
    ScalePlus(K, s, Scale(K, x.0, z), Scale(K, x.1, w));
  }

  lemma TimesWTimes<T(!new)>(K: Field<T>, t: T, x: (T, T), z: (T, T))
    requires FieldLaws(K)
    ensures Times(K, t, TimesW(K, t, x), z) == TimesW(K, t, Times(K, t, x, z))
  {
    var w := TimesW(K, t, z);
    var a, b, c := Scale(K, x.0, w), Scale(K, x.1, w), Scale(K, K.mul(t, x.1), z);
    TimesWLinear(K, t, x.0, z, z);
    TimesWLinear(K, t, x.1, w, w);
    TimesWLinear(K, t, x.0, Scale(K, x.0, z), Scale(K, x.1, w));
    TimesWTwice(K, t, z);
    ScalePlus(K, x.1, w, Scale(K, t, z));
    ScaleScale(K, x.1, t, z);
    assert MulComm(K, x.1, t);
    PlusScale(K, x.0, x.1, w);
    PlusLaws(K, a, b, c);
    PlusLaws(K, c, Plus(K, a, b), c);
  }

  lemma TimesAssociates<T(!new)>(K: Field<T>, t: T, x: (T, T), y: (T, T), z: (T, T))
    requires FieldLaws(K)
    ensures Times(K, t, Times(K, t, x, y), z) == Times(K, t, x, Times(K, t, y, z))
  {
    var w := TimesW(K, t, y);
    TimesPlus(K, t, Scale(K, x.0, y), Scale(K, x.1, w), z);
    TimesScale(K, t, x.0, y, z);
    TimesScale(K, t, x.1, w, z);
    TimesWTimes(K, t, y, z);
  }

  lemma TimesCommutes<T(!new)>(K: Field<T>, t: T, x: (T, T), y: (T, T))
    requires FieldLaws(K)
    ensures Times(K, t, x, y) == Times(K, t, y, x)
  {
    assert MulComm(K, x.0, y.0);
    MulSwap(K, x.1, t, y.1);
    MulSwap(K, y.1, t, x.1);
    assert MulComm(K, x.1, y.1);
    assert Distributes(K, x.1, y.0, y.1) && Distributes(K, y.1, x.0, x.1);
    assert MulComm(K, x.0, y.1) && MulComm(K, x.1, y.0);
    var a, b, c := K.mul(x.0, y.1), K.mul(x.1, y.0), K.mul(x.1, y.1);
    assert AddAssoc(K, a, b, c) && AddAssoc(K, b, a, c) && AddComm(K, a, b);
  }

  // ---------------------------------------------------------------- inverses

  /** Only zero has norm zero. */
  lemma NormNonzero<T(!new)>(K: Field<T>, t: T, x: (T, T))
    requires FieldLaws(K) && Irreducible(K, t) && x != (K.zero, K.zero)
    ensures Norm(K, t, x) != K.zero
  {
    var a, b := x.0, x.1;
    if b == K.zero {
      MulZero(K, t);
      MulZero(K, b);
      assert AddZero(K, a) && AddZero(K, K.mul(a, a));
      assert Norm(K, t, x) == K.mul(a, a);
      if K.mul(a, a) == K.zero { NoZeroDivisors(K, a, a); }
    } else {
      var r := K.mul(a, K.inv(b));
      DivCancel(K, a, b);
      assert MulComm(K, r, b);
      NormOfRatio(K, t, r, b);
      if Norm(K, t, x) == K.zero {
        NoZeroDivisors(K, K.mul(b, b), K.add(K.add(K.mul(r, r), r), t));
        if K.mul(b, b) == K.zero { NoZeroDivisors(K, b, b); }
        SumZeroMeansEqual(K, K.add(K.mul(r, r), r), t);
      }
    }
  }

  /** N(b r + b w) == b b (r r + r + t) */
  lemma NormOfRatio<T(!new)>(K: Field<T>, t: T, r: T, b: T)
    requires FieldLaws(K)
    ensures Norm(K, t, (K.mul(b, r), b)) == K.mul(K.mul(b, b), K.add(K.add(K.mul(r, r), r), t))
  {
    var bb, br := K.mul(b, b), K.mul(b, r);
    // b r (b r + b) == b b (r r + r)
    assert MulOne(K, b) && MulOne(K, r);
    assert MulComm(K, r, b);
    assert Distributes(K, br, br, b);
    SquareOfProduct(K, b, r);
    assert MulAssoc(K, b, r, b) && MulAssoc(K, b, b, r);
    assert Distributes(K, bb, K.mul(r, r), r);
    assert Distributes(K, bb, K.add(K.mul(r, r), r), t);
    // b (t b) == b b t
    assert MulComm(K, t, b);
    assert MulAssoc(K, b, b, t);
  }

  lemma SquareOfProduct<T(!new)>(K: Field<T>, b: T, r: T)
    requires FieldLaws(K)
    ensures K.mul(K.mul(b, r), K.mul(b, r)) == K.mul(K.mul(b, b), K.mul(r, r))
  {
    assert MulAssoc(K, b, r, K.mul(b, r));
    MulSwap(K, r, b, r);
    assert MulAssoc(K, b, b, K.mul(r, r));
  }

  lemma TimesConjugate<T(!new)>(K: Field<T>, t: T, x: (T, T))
    requires FieldLaws(K)
    ensures Times(K, t, x, Conjugate(K, x)) == (Norm(K, t, x), K.zero)
  {
    AddCancel(K, x.1, x.0);
    assert MulComm(K, x.0, x.1) && AddSelf(K, K.mul(x.0, x.1));
  }

  lemma InverseInverts<T(!new)>(K: Field<T>, t: T, x: (T, T))
    requires FieldLaws(K) && Irreducible(K, t) && x != (K.zero, K.zero)
    ensures Times(K, t, x, Scale(K, K.inv(Norm(K, t, x)), Conjugate(K, x))) == (K.one, K.zero)
  {
    var n, c := Norm(K, t, x), Conjugate(K, x);
    var s := K.inv(n);
    NormNonzero(K, t, x);
    TimesCommutes(K, t, x, Scale(K, s, c));
    TimesScale(K, t, s, c, x);
    TimesCommutes(K, t, c, x);
    TimesConjugate(K, t, x);
    MulZero(K, s);
    assert MulInverse(K, n) && MulComm(K, n, s);
  }

  // ---------------------------------------------------------------- the extension is a field

  lemma ExtensionIsAField<T(!new)>(K: Field<T>, t: T, m: nat)
    requires FieldLaws(K) && Irreducible(K, t) && m > 0
    ensures FieldLaws(Extension(K, t, m))
  {
    var F := Extension(K, t, m);
    forall x: (T, T), y: (T, T) ensures AddComm(F, x, y) { PlusLaws(K, x, y, x); }
    forall x: (T, T), y: (T, T), z: (T, T) ensures AddAssoc(F, x, y, z) { PlusLaws(K, x, y, z); }
    forall x: (T, T) ensures AddZero(F, x) { PlusLaws(K, x, x, x); }
    forall x: (T, T) ensures AddSelf(F, x) { PlusLaws(K, x, x, x); }
    forall x: (T, T), y: (T, T) ensures MulComm(F, x, y) { TimesCommutes(K, t, x, y); }
    forall x: (T, T), y: (T, T), z: (T, T) ensures MulAssoc(F, x, y, z) { TimesAssociates(K, t, x, y, z); }
    forall x: (T, T) ensures MulOne(F, x) { OneTimes(K, t, x); }
    forall x: (T, T), y: (T, T), z: (T, T) ensures Distributes(F, x, y, z) { TimesDistributes(K, t, x, y, z); }
    forall x: (T, T) ensures MulInverse(F, x) {
      if x != F.zero { InverseInverts(K, t, x); }
    }
  }

  lemma TimesDistributes<T(!new)>(K: Field<T>, t: T, x: (T, T), y: (T, T), z: (T, T))
    requires FieldLaws(K)
    ensures Times(K, t, x, Plus(K, y, z)) == Plus(K, Times(K, t, x, y), Times(K, t, x, z))
  {
    TimesCommutes(K, t, x, y);
    TimesCommutes(K, t, x, z);
    TimesCommutes(K, t, x, Plus(K, y, z));
    TimesPlus(K, t, y, z, x);
  }

  lemma OneTimes<T(!new)>(K: Field<T>, t: T, x: (T, T))
    requires FieldLaws(K)
    ensures Times(K, t, x, (K.one, K.zero)) == x
  {
    TimesCommutes(K, t, x, (K.one, K.zero));
    var w := TimesW(K, t, x);
    assert MulOne(K, x.0) && MulOne(K, x.1) && MulComm(K, x.0, K.one) && MulComm(K, x.1, K.one);
    MulZero(K, w.0);
    MulZero(K, w.1);
    assert AddZero(K, x.0) && AddZero(K, x.1);
  }

  /** t w has no root above either, so the extension can be repeated. */
  lemma StaysIrreducible<T(!new)>(K: Field<T>, t: T, m: nat)
    requires FieldLaws(K) && Irreducible(K, t) && m > 0
    ensures Irreducible(Extension(K, t, m), (K.zero, t))
  {
    var F := Extension(K, t, m);
    forall r: (T, T) ensures F.add(F.mul(r, r), r) != (K.zero, t) {
      // the second part of r r is r.1 r.1
      var a, b := r.0, r.1;
      assert Distributes(K, b, a, b) && MulComm(K, a, b);
      AddCancel(K, K.mul(a, b), K.mul(b, b));
      assert F.mul(r, r).1 == K.mul(b, b);
      assert K.add(K.mul(b, b), b) != t;
    }
  }

  // ---------------------------------------------------------------- the tower

  ghost predicate NumbersApart<T>(F: Field<T>, m: nat) {
    forall i: nat, j: nat :: i < m && j < m && i != j ==> F.elem(i) != F.elem(j)
  }

  lemma {:induction false} DigitsSmall(n: nat, m: nat, k: nat)
    requires m > 0 && n < k * m
    ensures Low(n, m) < m && High(n, m) < k
    decreases n
  {
    if n >= m {
      assert (k - 1) * m == k * m - m;
      if k > 0 { DigitsSmall(n - m, m, k - 1); }
    }
  }

  lemma {:induction false} DigitsDetermine(i: nat, j: nat, m: nat)
    requires m > 0 && Low(i, m) == Low(j, m) && High(i, m) == High(j, m)
    ensures i == j
    decreases i
  {
    if i >= m && j >= m { DigitsDetermine(i - m, j - m, m); }
  }

  lemma ExtensionNumbersApart<T(!new)>(K: Field<T>, t: T, m: nat)
    requires m > 0 && NumbersApart(K, m)
    ensures NumbersApart(Extension(K, t, m), m * m)
  {
    var F := Extension(K, t, m);
    forall i: nat, j: nat | i < m * m && j < m * m && i != j ensures F.elem(i) != F.elem(j) {
      DigitsSmall(i, m, m);
      DigitsSmall(j, m, m);
      if Low(i, m) == Low(j, m) && High(i, m) == High(j, m) { DigitsDetermine(i, j, m); }
    }
  }

  function Bits(): Field<bool> {
    Field(false, true, (a, b) => a != b, (a, b) => a && b, a => a, n => n % 2 == 1)
  }

  lemma BitsAreAField()
    ensures FieldLaws(Bits()) && Irreducible(Bits(), true) && NumbersApart(Bits(), 2)
  {
  }

  function F4(): Field<(bool, bool)> { Extension(Bits(), true, 2) }

  function F16(): Field<((bool, bool), (bool, bool))> { Extension(F4(), (false, true), 4) }

  type Byte = (((bool, bool), (bool, bool)), ((bool, bool), (bool, bool)))

  function Bytes(): Field<Byte> {
    Extension(F16(), (F4().zero, (false, true)), 16)
  }

  lemma F4IsAField()
    ensures FieldLaws(F4()) && Irreducible(F4(), (false, true)) && NumbersApart(F4(), 4)
  {
    BitsAreAField();
    ExtensionIsAField(Bits(), true, 2);
    StaysIrreducible(Bits(), true, 2);
    ExtensionNumbersApart(Bits(), true, 2);
  }

  lemma F16IsAField()
    ensures FieldLaws(F16()) && Irreducible(F16(), (F4().zero, (false, true))) && NumbersApart(F16(), 16)
  {
    F4IsAField();
    ExtensionIsAField(F4(), (false, true), 4);
    StaysIrreducible(F4(), (false, true), 4);
    ExtensionNumbersApart(F4(), (false, true), 4);
  }

  /** The laws assumed of the byte arithmetic can be met: here is a field with 256 distinct block numbers. */
  lemma BytesAreAField()
    ensures IsField(Bytes())
  {
    F16IsAField();
    var t := (F4().zero, (false, true));
    ExtensionIsAField(F16(), t, 16);
    ExtensionNumbersApart(F16(), t, 16);
    forall i: nat, j: nat ensures ElemInjective(Bytes(), i, j) { }
  }
}
