/**
 * Coding matrices of the erasure coding engine: create, update and recover.
 *
 * With k data blocks and r redundancy blocks, block numbers 0..k-1 are the data blocks and
 * k..k+r-1 the redundancy blocks. A coding matrix holds the r rows that produce the redundancy
 * blocks; the identity above them is implicit.
 */
module ErasureCoding {
  import opened GaloisField
  import opened Sequences
  import opened Outcome
  import opened Elimination
  import Cauchy

  datatype Matrix<T> = Matrix(sources: nat, rows: seq<seq<T>>)
  {
    ghost predicate Valid() { Rectangular(rows, sources) }
  }

  type Block<T> = seq<T>

  ghost predicate BlocksOf<T>(blocks: seq<Block<T>>, n: nat, size: nat) {
    |blocks| == n && forall j :: 0 <= j < n ==> |blocks[j]| == size
  }

  /** The bytes at one offset of every block. */
  function Column<T>(blocks: seq<Block<T>>, size: nat, b: nat): (c: seq<T>)
    requires BlocksOf(blocks, |blocks|, size) && b < size
    ensures |c| == |blocks| && forall j :: 0 <= j < |blocks| ==> c[j] == blocks[j][b]
  {
    seq(|blocks|, j requires 0 <= j < |blocks| => blocks[j][b])
  }

  /** What every task computes: each output byte is a matrix row times the column at its offset. */
  function Multiply<T>(F: Field<T>, m: Matrix<T>, blocks: seq<Block<T>>, size: nat): (out: seq<Block<T>>)
    requires m.Valid() && BlocksOf(blocks, m.sources, size)
    ensures BlocksOf(out, |m.rows|, size)
    ensures forall i, b :: 0 <= i < |out| && 0 <= b < size ==>
              out[i][b] == Dot(F, m.rows[i], Column(blocks, size, b))
  {
    seq(|m.rows|, i requires 0 <= i < |m.rows| =>
      seq(size, b requires 0 <= b < size => Dot(F, m.rows[i], Column(blocks, size, b))))
  }

  // ---------------------------------------------------------------- index lists

  predicate Ascending(s: seq<nat>, bound: nat) {
    (forall i, j :: 0 <= i < j < |s| ==> s[i] < s[j]) && forall i :: 0 <= i < |s| ==> s[i] < bound
  }

  function Pick<T>(v: seq<T>, s: seq<nat>): (p: seq<T>)
    requires forall t :: 0 <= t < |s| ==> s[t] < |v|
    ensures |p| == |s| && forall t :: 0 <= t < |s| ==> p[t] == v[s[t]]
  {
    seq(|s|, t requires 0 <= t < |s| => v[s[t]])
  }

  /** The numbers below n that s omits. */
  function Omitted(s: seq<nat>, n: nat): (r: seq<nat>)
    requires Ascending(s, n)
    ensures |r| + |s| == n
    ensures Ascending(r, n)
    ensures forall i: nat | i < n :: i in r <==> i !in s
    decreases n
  {
    if n == 0 then []
    else if |s| > 0 && s[|s| - 1] == n - 1 then
      assert forall i | i in s :: i == n - 1 || i in s[..|s| - 1];
      Omitted(s[..|s| - 1], n - 1)
    else Omitted(s, n - 1) + [n - 1]
  }

  /** A product whose right factor vanishes off an ascending index list is a product over the list. */
  lemma {:induction false} SparseDot<T(!new)>(F: Field<T>, u: seq<T>, v: seq<T>, s: seq<nat>)
    requires IsField(F) && |u| == |v| && Ascending(s, |u|)
    requires forall i :: 0 <= i < |v| && i !in s ==> v[i] == F.zero
    ensures Dot(F, u, v) == Dot(F, Pick(u, s), Pick(v, s))
    decreases |u|
  {
    if |u| > 0 {
      var n := |u| - 1;
      if |s| > 0 && s[|s| - 1] == n {
        SparseTail(F, v, s);
        SparseDot(F, u[..n], v[..n], s[..|s| - 1]);
        SparseLast(F, u, v, s);
      } else {
        SparseDot(F, u[..n], v[..n], s);
        SparseSkip(F, u, v, s);
      }
    }
  }

  lemma SparseLast<T>(F: Field<T>, u: seq<T>, v: seq<T>, s: seq<nat>)
    requires |u| == |v| > 0 && Ascending(s, |u|) && |s| > 0 && s[|s| - 1] == |u| - 1
    requires var n, init := |u| - 1, s[..|s| - 1];
             Ascending(init, n) && Dot(F, u[..n], v[..n]) == Dot(F, Pick(u[..n], init), Pick(v[..n], init))
    ensures Dot(F, u, v) == Dot(F, Pick(u, s), Pick(v, s))
  {
    PickInit(u, s);
    PickInit(v, s);
  }

  lemma SparseSkip<T(!new)>(F: Field<T>, u: seq<T>, v: seq<T>, s: seq<nat>)
    requires IsField(F) && |u| == |v| > 0 && Ascending(s, |u| - 1)
    requires v[|v| - 1] == F.zero
    requires var n := |u| - 1; Dot(F, u[..n], v[..n]) == Dot(F, Pick(u[..n], s), Pick(v[..n], s))
    ensures Dot(F, u, v) == Dot(F, Pick(u, s), Pick(v, s))
  {
    var n := |u| - 1;
    assert Pick(u[..n], s) == Pick(u, s) && Pick(v[..n], s) == Pick(v, s);
    MulZero(F, u[n]);
    assert AddZero(F, Dot(F, u[..n], v[..n]));
  }

  lemma PickInit<T>(v: seq<T>, s: seq<nat>)
    requires |v| > 0 && |s| > 0 && Ascending(s, |v|) && s[|s| - 1] == |v| - 1
    ensures Pick(v, s)[..|s| - 1] == Pick(v[..|v| - 1], s[..|s| - 1])
  {
  }

  lemma SparseTail<T>(F: Field<T>, v: seq<T>, s: seq<nat>)
    requires |v| > 0 && Ascending(s, |v|) && |s| > 0 && s[|s| - 1] == |v| - 1
    requires forall i :: 0 <= i < |v| && i !in s ==> v[i] == F.zero
    ensures Ascending(s[..|s| - 1], |v| - 1)
    ensures var w := v[..|v| - 1]; forall i :: 0 <= i < |w| && i !in s[..|s| - 1] ==> w[i] == F.zero
  {
    assert s == s[..|s| - 1] + [|v| - 1];
  }

  // ---------------------------------------------------------------- create

  /** The block numbers from..from+n-1 as field elements. */
  function Numbers<T>(F: Field<T>, from: nat, n: nat): (e: seq<T>)
    ensures |e| == n && forall i :: 0 <= i < n ==> e[i] == F.elem(from + i)
  {
    seq(n, i requires 0 <= i => F.elem(from + i))
  }

  /** Identity over Cauchy: the row of redundancy block j holds 1/(i + j) for every data block i. */
  function CauchyMatrix<T>(F: Field<T>, k: nat, r: nat): (m: Matrix<T>)
    ensures m.Valid() && m.sources == k && |m.rows| == r
  {
    var ys := Numbers(F, 0, k);
    var rows := seq(r, j requires 0 <= j < r => Cauchy.Row(F, F.elem(k + j), ys));
    assert forall j | 0 <= j < r :: rows[j] == Cauchy.Row(F, F.elem(k + j), ys);
    Matrix(k, rows)
  }

  /** Block numbers must be byte values, so k + r is at most 256. */
  function MatrixCreate<T>(F: Field<T>, k: nat, r: nat): (m: Result<Matrix<T>>)
    ensures m.Ok? <==> 0 < k && 0 < r && k + r <= 256
    ensures m.Ok? ==> m.value == CauchyMatrix(F, k, r)
    ensures m.Err? ==> m.error == InvalidValue
  {
    if 0 < k && 0 < r && k + r <= MAX_BLOCKS then Ok(CauchyMatrix(F, k, r)) else Err(InvalidValue)
  }

  /** Redundancy blocks of the data: the create task. */
  function Encode<T>(F: Field<T>, coding: Matrix<T>, data: seq<Block<T>>, size: nat): (rdnc: seq<Block<T>>)
    requires coding.Valid() && BlocksOf(data, coding.sources, size)
    ensures BlocksOf(rdnc, |coding.rows|, size)
  {
    Multiply(F, coding, data, size)
  }

  // ---------------------------------------------------------------- recover

  /** The row of block number b in the identity over the coding rows. */
  function BlockRow<T>(F: Field<T>, coding: Matrix<T>, b: nat): (row: seq<T>)
    requires coding.Valid() && b < coding.sources + |coding.rows|
    ensures |row| == coding.sources
  {
    if b < coding.sources then Unit(F, coding.sources, b) else coding.rows[b - coding.sources]
  }

  function BlockRows<T>(F: Field<T>, coding: Matrix<T>, s: seq<nat>): (rows: seq<seq<T>>)
    requires coding.Valid() && Ascending(s, coding.sources + |coding.rows|)
    ensures |rows| == |s| && Rectangular(rows, coding.sources)
    ensures forall t :: 0 <= t < |s| ==> rows[t] == BlockRow(F, coding, s[t])
  {
    seq(|s|, t requires 0 <= t < |s| => BlockRow(F, coding, s[t]))
  }

  /**
   * The created matrix is the identity over 1/(i + b): data block i enters data block b only if they
   * are the same, and enters redundancy block b with the coefficient that i + b multiplies to one.
   */
  lemma CreatedMatrix<T(!new)>(F: Field<T>, k: nat, r: nat, b: nat, i: nat)
    requires IsField(F) && 0 < k && 0 < r && k + r <= 256 && b < k + r && i < k
    ensures MatrixCreate(F, k, r).Ok?
    ensures var coding := MatrixCreate(F, k, r).value;
            && coding.Valid() && coding.sources == k && |coding.rows| == r
            && var c := BlockRow(F, coding, b)[i];
               if b < k then c == (if b == i then F.one else F.zero)
               else F.mul(c, F.add(F.elem(i), F.elem(b))) == F.one
  {
    if b >= k {
      ElemSumNonzero(F, i, b);
      var x, y := F.elem(b), F.elem(i);
      assert AddComm(F, x, y);
      assert MulInverse(F, F.add(x, y)) && MulComm(F, F.inv(F.add(x, y)), F.add(x, y));
      assert MatrixCreate(F, k, r).value.rows[b - k] == Cauchy.Row(F, x, Numbers(F, 0, k));
    }
  }

  predicate ValidIndices<T>(coding: Matrix<T>, missing: seq<nat>, available: seq<nat>)
  {
    && Ascending(missing, coding.sources + |coding.rows|)
    && Ascending(available, coding.sources + |coding.rows|)
    && |available| == coding.sources
    && forall b :: b in missing ==> b !in available
  }

  /** The coefficients of every target over the decode rows, if all of them have some. */
  function Solutions<T(==)>(F: Field<T>, decode: seq<seq<T>>, targets: seq<seq<T>>, n: nat): (rows: Option<seq<seq<T>>>)
    requires Rectangular(decode, n) && Rectangular(targets, n)
    ensures rows.Some? ==> |rows.value| == |targets| && Rectangular(rows.value, |decode|)
  {
    if targets == [] then Some([])
    else
      var m := |targets| - 1;
      var init := Solutions(F, decode, targets[..m], n);
      var last := Express(F, decode, targets[m]);
      if init.None? || last.None? then None else Some(init.value + [last.value])
  }

  lemma {:induction false} SolutionsAre<T>(F: Field<T>, decode: seq<seq<T>>, targets: seq<seq<T>>, n: nat, t: nat)
    requires Rectangular(decode, n) && Rectangular(targets, n) && t < |targets|
    ensures var rows := Solutions(F, decode, targets, n);
            rows.Some? ==> Express(F, decode, targets[t]) == Some(rows.value[t])
  {
    var m := |targets| - 1;
    if t < m {
      SolutionsAre(F, decode, targets[..m], n, t);
    }
  }

  lemma {:induction false} SolutionsFail<T>(F: Field<T>, decode: seq<seq<T>>, targets: seq<seq<T>>, n: nat)
    returns (t: nat)
    requires Rectangular(decode, n) && Rectangular(targets, n)
    requires Solutions(F, decode, targets, n).None?
    ensures t < |targets| && Express(F, decode, targets[t]).None?
  {
    var m := |targets| - 1;
    if Express(F, decode, targets[m]).None? {
      t := m;
    } else {
      t := SolutionsFail(F, decode, targets[..m], n);
    }
  }

  /**
   * The recover matrix. `available` lists the k surviving blocks that feed the recovery; the
   * header leaves the choice of redundancy blocks open, so everything is proved for every choice.
   */
  function MatrixCreateRecover<T(==)>(F: Field<T>, coding: Matrix<T>, missing: seq<nat>, available: seq<nat>)
    : (m: Result<Matrix<T>>)
    requires coding.Valid()
    ensures m.Ok? ==> ValidIndices(coding, missing, available)
    ensures m.Ok? ==> m.value.Valid() && m.value.sources == coding.sources && |m.value.rows| == |missing|
    ensures m.Err? ==> m.error == InvalidValue
  {
    if !ValidIndices(coding, missing, available) then Err(InvalidValue)
    else
      var rows := Solutions(F, BlockRows(F, coding, available), BlockRows(F, coding, missing), coding.sources);
      if rows.None? then Err(InvalidValue) else Ok(Matrix(coding.sources, rows.value))
  }

  /** The blocks of data and redundancy with the given numbers, in that order. */
  function Gather<T>(F: Field<T>, coding: Matrix<T>, data: seq<Block<T>>, size: nat, s: seq<nat>)
    : (blocks: seq<Block<T>>)
    requires coding.Valid() && BlocksOf(data, coding.sources, size)
    requires Ascending(s, coding.sources + |coding.rows|)
    ensures BlocksOf(blocks, |s|, size)
    ensures forall t :: 0 <= t < |s| ==> blocks[t] == (data + Encode(F, coding, data, size))[s[t]]
  {
    Pick(data + Encode(F, coding, data, size), s)
  }

  lemma BlockRowMeaning<T(!new)>(F: Field<T>, coding: Matrix<T>, data: seq<Block<T>>, size: nat, b: nat, o: nat)
    requires IsField(F) && coding.Valid() && BlocksOf(data, coding.sources, size)
    requires b < coding.sources + |coding.rows| && o < size
    ensures (data + Encode(F, coding, data, size))[b][o] == Dot(F, BlockRow(F, coding, b), Column(data, size, o))
  {
    if b < coding.sources {
      DotUnit(F, b, Column(data, size, o));
    }
  }

  lemma GatherColumn<T(!new)>(F: Field<T>, coding: Matrix<T>, data: seq<Block<T>>, size: nat, s: seq<nat>, o: nat)
    requires IsField(F) && coding.Valid() && BlocksOf(data, coding.sources, size)
    requires Ascending(s, coding.sources + |coding.rows|) && o < size
    ensures Column(Gather(F, coding, data, size, s), size, o)
            == Apply(F, BlockRows(F, coding, s), Column(data, size, o))
  {
    forall t | 0 <= t < |s|
      ensures Column(Gather(F, coding, data, size, s), size, o)[t]
              == Apply(F, BlockRows(F, coding, s), Column(data, size, o))[t]
    {
      BlockRowMeaning(F, coding, data, size, s[t], o);
    }
  }

  /**
   * A recover matrix, whenever one is returned and whatever the coding matrix, turns the
   * available blocks back into exactly the missing ones.
   */
  lemma RecoverReturnsTheLostBlocks<T(!new)>(
      F: Field<T>, coding: Matrix<T>, missing: seq<nat>, available: seq<nat>, data: seq<Block<T>>, size: nat)
    requires IsField(F) && coding.Valid() && BlocksOf(data, coding.sources, size)
    requires MatrixCreateRecover(F, coding, missing, available).Ok?
    ensures Multiply(F, MatrixCreateRecover(F, coding, missing, available).value,
                     Gather(F, coding, data, size, available), size)
            == Gather(F, coding, data, size, missing)
  {
    var m := MatrixCreateRecover(F, coding, missing, available).value;
    var survivors := Gather(F, coding, data, size, available);
    var out, lost := Multiply(F, m, survivors, size), Gather(F, coding, data, size, missing);
    var decode := BlockRows(F, coding, available);
    forall t | 0 <= t < |missing| ensures out[t] == lost[t] {
      forall o | 0 <= o < size ensures out[t][o] == lost[t][o] {
        var v := Column(data, size, o);
        GatherColumn(F, coding, data, size, available, o);
        SolutionsAre(F, decode, BlockRows(F, coding, missing), coding.sources, t);
        ExpressSoundAt(F, decode, BlockRow(F, coding, missing[t]), v);
        BlockRowMeaning(F, coding, data, size, missing[t], o);
      }
    }
  }

  /** Two columns of data agree on every block in the list. */
  ghost predicate SameOn<T>(F: Field<T>, coding: Matrix<T>, s: seq<nat>, v: seq<T>, w: seq<T>)
    requires coding.Valid() && |v| == |w| == coding.sources
    requires Ascending(s, coding.sources + |coding.rows|)
  {
    Apply(F, BlockRows(F, coding, s), v) == Apply(F, BlockRows(F, coding, s), w)
  }

  /** The available blocks determine the missing ones. */
  ghost predicate Determines<T(!new)>(F: Field<T>, coding: Matrix<T>, available: seq<nat>, missing: seq<nat>)
    requires coding.Valid() && ValidIndices(coding, missing, available)
  {
    forall v: seq<T>, w: seq<T> |
      |v| == |w| == coding.sources && SameOn(F, coding, available, v, w) :: SameOn(F, coding, missing, v, w)
  }

  /**
   * On valid indices, creating the recover matrix fails exactly when the missing blocks are not
   * a function of the available ones, that is when no decoder could exist.
   */
  lemma RecoverFailsOnlyWhenHopeless<T(!new)>(F: Field<T>, coding: Matrix<T>, missing: seq<nat>, available: seq<nat>)
    requires IsField(F) && coding.Valid()
    requires forall i, j :: 0 <= i < j < |missing| ==> missing[i] < missing[j]
    requires forall i, j :: 0 <= i < j < |available| ==> available[i] < available[j]
    requires forall i :: 0 <= i < |missing| ==>
               missing[i] < coding.sources + |coding.rows| && missing[i] !in available
    requires |available| == coding.sources
    requires forall i :: 0 <= i < |available| ==> available[i] < coding.sources + |coding.rows|
    ensures ValidIndices(coding, missing, available)
    ensures MatrixCreateRecover(F, coding, missing, available).Ok? <==> Determines(F, coding, available, missing)
  {
    if MatrixCreateRecover(F, coding, missing, available).Ok? {
      forall v: seq<T>, w: seq<T> | |v| == |w| == coding.sources && SameOn(F, coding, available, v, w)
        ensures SameOn(F, coding, missing, v, w)
      {
        var targets := BlockRows(F, coding, missing);
        forall t | 0 <= t < |missing| ensures Dot(F, targets[t], v) == Dot(F, targets[t], w) {
          SolutionsAre(F, BlockRows(F, coding, available), targets, coding.sources, t);
          ExpressSoundAt(F, BlockRows(F, coding, available), targets[t], v);
          ExpressSoundAt(F, BlockRows(F, coding, available), targets[t], w);
        }
      }
    } else {
      var targets := BlockRows(F, coding, missing);
      var t := SolutionsFail(F, BlockRows(F, coding, available), targets, coding.sources);
      HopelessBlock(F, coding, missing, available, t);
    }
  }

  lemma HopelessBlock<T(!new)>(F: Field<T>, coding: Matrix<T>, missing: seq<nat>, available: seq<nat>, t: nat)
    requires IsField(F) && coding.Valid() && ValidIndices(coding, missing, available) && t < |missing|
    requires Express(F, BlockRows(F, coding, available), BlockRow(F, coding, missing[t])).None?
    ensures !Determines(F, coding, available, missing)
  {
    var u := BlockRow(F, coding, missing[t]);
    var v, w := ExpressAmbiguous(F, BlockRows(F, coding, available), u);
    assert SameOn(F, coding, available, v, w);
    assert Apply(F, BlockRows(F, coding, missing), v)[t] == Dot(F, u, v);
    assert Apply(F, BlockRows(F, coding, missing), w)[t] == Dot(F, u, w);
  }

  /** The data blocks and the redundancy blocks of an ascending list. */
  function Below(s: seq<nat>, k: nat): (n: nat)
    requires forall i, j :: 0 <= i < j < |s| ==> s[i] < s[j]
    ensures n <= |s|
    ensures forall i :: 0 <= i < n ==> s[i] < k
    ensures forall i :: n <= i < |s| ==> s[i] >= k
  {
    if |s| == 0 then 0
    else if s[|s| - 1] < k then |s|
    else Below(s[..|s| - 1], k)
  }

  /** A surviving data block that is zero is a zero of the column. */
  lemma KeptAreZero<T(!new)>(F: Field<T>, coding: Matrix<T>, available: seq<nat>, v: seq<T>, i: nat)
    requires IsField(F) && coding.Valid() && |v| == coding.sources
    requires Ascending(available, coding.sources + |coding.rows|)
    requires Apply(F, BlockRows(F, coding, available), v) == Zeros(F, |available|)
    requires i in available && i < coding.sources
    ensures v[i] == F.zero
  {
    var t :| 0 <= t < |available| && available[t] == i;
    DotUnit(F, i, v);
    assert Apply(F, BlockRows(F, coding, available), v)[t] == F.zero;
  }

  /** A surviving redundancy block that is zero is a zero Cauchy sum over the lost data blocks. */
  ghost predicate Annihilated<T(!new)>(F: Field<T>, x: T, ys: seq<T>, w: seq<T>) {
    IsField(F) && |w| == |ys| && Cauchy.Apart(F, x, ys) && Dot(F, Cauchy.Row(F, x, ys), w) == F.zero
  }

  lemma SpareIsZero<T(!new)>(
      F: Field<T>, k: nat, r: nat, available: seq<nat>, v: seq<T>, lost: seq<nat>, t: nat)
    requires IsField(F) && k + r <= MAX_BLOCKS && |v| == k
    requires Ascending(available, k + r)
    requires Apply(F, BlockRows(F, CauchyMatrix(F, k, r), available), v) == Zeros(F, |available|)
    requires Ascending(lost, k) && forall i :: 0 <= i < k && i !in lost ==> v[i] == F.zero
    requires t < |available| && available[t] >= k
    ensures Annihilated(F, F.elem(available[t]), Pick(Numbers(F, 0, k), lost), Pick(v, lost))
  {
    var ys := Pick(Numbers(F, 0, k), lost);
    forall j | 0 <= j < |ys| ensures F.add(F.elem(available[t]), ys[j]) != F.zero {
      ElemSumNonzero(F, available[t], lost[j]);
    }
    var row := Cauchy.Row(F, F.elem(available[t]), Numbers(F, 0, k));
    assert row == BlockRow(F, CauchyMatrix(F, k, r), available[t]);
    assert Apply(F, BlockRows(F, CauchyMatrix(F, k, r), available), v)[t] == F.zero;
    SparseDot(F, row, v, lost);
    assert Pick(row, lost) == Cauchy.Row(F, F.elem(available[t]), ys);
  }

  lemma DistinctElements<T(!new)>(F: Field<T>, s: seq<nat>, xs: seq<T>)
    requires IsField(F) && Ascending(s, MAX_BLOCKS)
    requires |xs| == |s| && forall t :: 0 <= t < |s| ==> xs[t] == F.elem(s[t])
    ensures Distinct(xs)
  {
    forall i, j | 0 <= i < j < |s| ensures F.elem(s[i]) != F.elem(s[j]) {
      ElemSumNonzero(F, s[i], s[j]);
    }
  }

  /** A data column that every available block of the Cauchy code maps to zero is zero. */
  lemma CauchyDecodeKernel<T(!new)>(F: Field<T>, k: nat, r: nat, available: seq<nat>, v: seq<T>)
    requires IsField(F) && k + r <= MAX_BLOCKS && |v| == k
    requires Ascending(available, k + r) && |available| == k
    requires Apply(F, BlockRows(F, CauchyMatrix(F, k, r), available), v) == Zeros(F, k)
    ensures v == Zeros(F, k)
  {
    var coding := CauchyMatrix(F, k, r);
    var a := Below(available, k);
    var lost := Omitted(available[..a], k);
    forall i | 0 <= i < k && i !in lost ensures v[i] == F.zero {
      assert i in available[..a];
      KeptAreZero(F, coding, available, v, i);
    }
    LostAreZero(F, k, r, available, v, lost, a);
  }

  /** As many spare redundancy blocks as lost data blocks force the lost blocks to zero too. */
  lemma LostAreZero<T(!new)>(F: Field<T>, k: nat, r: nat, available: seq<nat>, v: seq<T>, lost: seq<nat>, a: nat)
    requires IsField(F) && k + r <= MAX_BLOCKS && |v| == k
    requires Ascending(available, k + r)
    requires Apply(F, BlockRows(F, CauchyMatrix(F, k, r), available), v) == Zeros(F, |available|)
    requires Ascending(lost, k) && forall i :: 0 <= i < k && i !in lost ==> v[i] == F.zero
    requires a + |lost| == |available| && forall t :: a <= t < |available| ==> available[t] >= k
    ensures v == Zeros(F, k)
  {
    var spare := available[a..];
    assert |spare| == |lost| && forall t :: 0 <= t < |spare| ==> spare[t] == available[a + t];
    forall t | 0 <= t < |spare|
      ensures Annihilated(F, F.elem(spare[t]), Pick(Numbers(F, 0, k), lost), Pick(v, lost))
    {
      SpareIsZero(F, k, r, available, v, lost, a + t);
    }
    AscendingWeaker(lost, k, MAX_BLOCKS);
    AscendingSuffix(available, k + r, a, MAX_BLOCKS);
    NoLostAtAll(F, k, spare, lost, v);
  }

  lemma AscendingWeaker(s: seq<nat>, bound: nat, bound': nat)
    requires Ascending(s, bound) && bound <= bound'
    ensures Ascending(s, bound')
  {
  }

  lemma AscendingSuffix(s: seq<nat>, bound: nat, a: nat, bound': nat)
    requires Ascending(s, bound) && a <= |s| && bound <= bound'
    ensures Ascending(s[a..], bound')
  {
  }

  lemma NoLostAtAll<T(!new)>(F: Field<T>, k: nat, spare: seq<nat>, lost: seq<nat>, v: seq<T>)
    requires IsField(F) && Ascending(spare, MAX_BLOCKS) && Ascending(lost, MAX_BLOCKS)
    requires |spare| == |lost| && |v| == k
    requires forall t :: 0 <= t < |lost| ==> lost[t] < k
    requires forall i :: 0 <= i < k && i !in lost ==> v[i] == F.zero
    requires forall t :: 0 <= t < |spare| ==>
               Annihilated(F, F.elem(spare[t]), Pick(Numbers(F, 0, k), lost), Pick(v, lost))
    ensures v == Zeros(F, k)
  {
    var xs := seq(|spare|, t requires 0 <= t < |spare| => F.elem(spare[t]));
    var ys := Pick(Numbers(F, 0, k), lost);
    assert forall t :: 0 <= t < |xs| ==> Annihilated(F, xs[t], ys, Pick(v, lost));
    DistinctElements(F, spare, xs);
    DistinctElements(F, lost, ys);
    Cauchy.TrivialKernel(F, xs, ys, Pick(v, lost));
    ZeroEverywhere(F, v, lost);
  }

  lemma ZeroEverywhere<T>(F: Field<T>, v: seq<T>, s: seq<nat>)
    requires forall t :: 0 <= t < |s| ==> s[t] < |v|
    requires forall i :: 0 <= i < |v| && i !in s ==> v[i] == F.zero
    requires Pick(v, s) == Zeros(F, |s|)
    ensures v == Zeros(F, |v|)
  {
    forall i | 0 <= i < |v| ensures v[i] == F.zero {
      if i in s {
        var t :| 0 <= t < |s| && s[t] == i;
        assert Pick(v, s)[t] == F.zero;
      }
    }
  }

  /**
   * For the Cauchy code, any k surviving blocks will do: recover-matrix creation never fails on
   * valid indices, whichever blocks are missing and whichever k survivors are used.
   */
  lemma CauchyRecoveryNeverFails<T(!new)>(F: Field<T>, k: nat, r: nat, missing: seq<nat>, available: seq<nat>)
    requires IsField(F) && 0 < k && 0 < r && k + r <= 256
    requires forall i, j :: 0 <= i < j < |missing| ==> missing[i] < missing[j]
    requires forall i, j :: 0 <= i < j < |available| ==> available[i] < available[j]
    requires forall i :: 0 <= i < |missing| ==> missing[i] < k + r && missing[i] !in available
    requires |available| == k && forall i :: 0 <= i < k ==> available[i] < k + r
    ensures MatrixCreate(F, k, r).Ok?
    ensures MatrixCreateRecover(F, MatrixCreate(F, k, r).value, missing, available).Ok?
  {
    assert ValidIndices(CauchyMatrix(F, k, r), missing, available);
    var coding := CauchyMatrix(F, k, r);
    var decode, targets := BlockRows(F, coding, available), BlockRows(F, coding, missing);
    if MatrixCreateRecover(F, coding, missing, available).Err? {
      var t := SolutionsFail(F, decode, targets, k);
      var v := ExpressComplete(F, decode, targets[t]);
      CauchyDecodeKernel(F, k, r, available, v);
      DotZero(F, targets[t], v);
      assert false;
    }
  }

  /** Losing at most n - k of n blocks always leaves k survivors to recover from. */
  lemma EnoughSurvivors(missing: seq<nat>, k: nat, n: nat) returns (available: seq<nat>)
    requires forall i, j :: 0 <= i < j < |missing| ==> missing[i] < missing[j]
    requires (forall i :: 0 <= i < |missing| ==> missing[i] < n) && k + |missing| <= n
    ensures forall i, j :: 0 <= i < j < |available| ==> available[i] < available[j]
    ensures |available| == k && forall i :: 0 <= i < k ==> available[i] < n && available[i] !in missing
  {
    assert Ascending(missing, n);
    available := Omitted(missing, n)[..k];
    PrefixSurvives(missing, Omitted(missing, n), k, n);
  }

  lemma PrefixSurvives(missing: seq<nat>, all: seq<nat>, k: nat, n: nat)
    requires Ascending(all, n) && k <= |all| && Ascending(missing, n)
    requires forall i: nat | i < n :: i in all <==> i !in missing
    ensures Ascending(all[..k], n) && |all[..k]| == k
    ensures forall b :: b in missing ==> b !in all[..k]
  {
    forall b | b in missing ensures b !in all[..k] { InPrefix(all, k, b); }
  }

  lemma InPrefix(s: seq<nat>, n: nat, x: nat)
    requires n <= |s|
    ensures x in s[..n] ==> x in s
  {
  }

  /**
   * The round trip the library exists for. Encode any data with the created matrix, lose any blocks,
   * keep any k others: the matrix created for the missing indices exists and turns the survivors
   * back into exactly what was lost, for every block size and content.
   */
  lemma CreateLoseRecover<T(!new)>(
      F: Field<T>, k: nat, r: nat, missing: seq<nat>, available: seq<nat>, data: seq<Block<T>>, size: nat)
    requires IsField(F) && 0 < k && 0 < r && k + r <= 256
    requires |data| == k && forall j :: 0 <= j < k ==> |data[j]| == size
    requires forall i, j :: 0 <= i < j < |missing| ==> missing[i] < missing[j]
    requires forall i, j :: 0 <= i < j < |available| ==> available[i] < available[j]
    requires forall i :: 0 <= i < |missing| ==> missing[i] < k + r && missing[i] !in available
    requires |available| == k && forall i :: 0 <= i < k ==> available[i] < k + r
    ensures MatrixCreate(F, k, r).Ok?
    ensures var coding := MatrixCreate(F, k, r).value;
            var blocks := data + Encode(F, coding, data, size);
            var survivors := seq(k, t requires 0 <= t < k => blocks[available[t]]);
            var recover := MatrixCreateRecover(F, coding, missing, available);
            && recover.Ok? && BlocksOf(survivors, k, size)
            && Multiply(F, recover.value, survivors, size)
               == seq(|missing|, t requires 0 <= t < |missing| => blocks[missing[t]])
  {
    var coding := CauchyMatrix(F, k, r);
    var blocks := data + Encode(F, coding, data, size);
    CauchyRecoveryNeverFails(F, k, r, missing, available);
    RecoverReturnsTheLostBlocks(F, coding, missing, available, data, size);
    assert Gather(F, coding, data, size, available) == seq(k, t requires 0 <= t < k => blocks[available[t]]);
    assert Gather(F, coding, data, size, missing)
           == seq(|missing|, t requires 0 <= t < |missing| => blocks[missing[t]]);
  }

  // ---------------------------------------------------------------- update

  /** a[0], b[0], a[1], b[1], ... */
  function Interleave<T>(a: seq<T>, b: seq<T>): (r: seq<T>)
    requires |a| == |b|
    ensures |r| == 2 * |a|
    ensures forall t :: 0 <= t < |a| ==> r[2 * t] == a[t] && r[2 * t + 1] == b[t]
  {
    if |a| == 0 then []
    else
      var n := |a| - 1;
      Interleave(a[..n], b[..n]) + [a[n], b[n]]
  }

  /** Each updated data block's coefficient, once for its old and once for its new content, then the identity. */
  function UpdateRow<T>(F: Field<T>, coding: Matrix<T>, updates: seq<nat>, i: nat): (row: seq<T>)
    requires coding.Valid() && Ascending(updates, coding.sources) && i < |coding.rows|
    ensures |row| == 2 * |updates| + |coding.rows|
  {
    var c := Pick(coding.rows[i], updates);
    Interleave(c, c) + Unit(F, |coding.rows|, i)
  }

  function MatrixCreateUpdate<T>(F: Field<T>, coding: Matrix<T>, updates: seq<nat>): (m: Result<Matrix<T>>)
    requires coding.Valid()
    ensures m.Ok? <==> (forall i, j :: 0 <= i < j < |updates| ==> updates[i] < updates[j])
                       && forall i :: 0 <= i < |updates| ==> updates[i] < coding.sources
    ensures m.Ok? ==> m.value.Valid() && m.value.sources == 2 * |updates| + |coding.rows|
                      && |m.value.rows| == |coding.rows|
    ensures m.Err? ==> m.error == InvalidValue
  {
    if !Ascending(updates, coding.sources) then Err(InvalidValue)
    else Ok(Matrix(2 * |updates| + |coding.rows|,
                   seq(|coding.rows|, i requires 0 <= i < |coding.rows| => UpdateRow(F, coding, updates, i))))
  }

  /** The update task's source: old and new content of every updated block, then the old redundancy. */
  function UpdateSource<T>(oldData: seq<Block<T>>, newData: seq<Block<T>>, updates: seq<nat>, rdnc: seq<Block<T>>)
    : (src: seq<Block<T>>)
    requires |oldData| == |newData| && Ascending(updates, |oldData|)
    ensures |src| == 2 * |updates| + |rdnc|
  {
    Interleave(Pick(oldData, updates), Pick(newData, updates)) + rdnc
  }

  /** old_i, updated_i, old_j, updated_j, ... and then the redundancy blocks. */
  lemma UpdateLayout<T>(oldData: seq<Block<T>>, newData: seq<Block<T>>, updates: seq<nat>, rdnc: seq<Block<T>>)
    requires |oldData| == |newData| && Ascending(updates, |oldData|)
    ensures var src := UpdateSource(oldData, newData, updates, rdnc);
            && |src| == 2 * |updates| + |rdnc|
            && (forall t :: 0 <= t < |updates| ==>
                  src[2 * t] == oldData[updates[t]] && src[2 * t + 1] == newData[updates[t]])
            && forall j :: 0 <= j < |rdnc| ==> src[2 * |updates| + j] == rdnc[j]
  {
    var pairs := Interleave(Pick(oldData, updates), Pick(newData, updates));
    forall t | 0 <= t < |updates|
      ensures pairs[2 * t] == oldData[updates[t]] && pairs[2 * t + 1] == newData[updates[t]]
    {
    }
  }

  ghost predicate DifferOnlyAt<T>(oldData: seq<Block<T>>, newData: seq<Block<T>>, updates: seq<nat>)
    requires |oldData| == |newData|
  {
    forall j :: 0 <= j < |oldData| && j !in updates ==> oldData[j] == newData[j]
  }

  lemma {:induction false} DotConcat<T(!new)>(F: Field<T>, a: seq<T>, b: seq<T>, c: seq<T>, d: seq<T>)
    requires IsField(F) && |a| == |c| && |b| == |d|
    ensures Dot(F, a + b, c + d) == F.add(Dot(F, a, c), Dot(F, b, d))
  {
    if |b| == 0 {
      assert a + b == a && c + d == c;
      assert AddZero(F, Dot(F, a, c));
    } else {
      var n := |b| - 1;
      DotConcat(F, a, b[..n], c, d[..n]);
      assert (a + b)[..|a| + n] == a + b[..n] && (c + d)[..|a| + n] == c + d[..n];
      assert AddAssoc(F, Dot(F, a, c), Dot(F, b[..n], d[..n]), F.mul(b[n], d[n]));
    }
  }

  lemma {:induction false} DotInterleave<T(!new)>(F: Field<T>, c: seq<T>, a: seq<T>, b: seq<T>)
    requires IsField(F) && |a| == |b| == |c|
    ensures Dot(F, Interleave(c, c), Interleave(a, b)) == Dot(F, c, VAdd(F, a, b))
  {
    if |c| > 0 {
      var n := |c| - 1;
      var cc, ab := Interleave(c[..n], c[..n]), Interleave(a[..n], b[..n]);
      DotInterleave(F, c[..n], a[..n], b[..n]);
      DotPair(F, cc, ab, c[n], a[n], b[n]);
      assert VAdd(F, a, b)[..n] == VAdd(F, a[..n], b[..n]);
    }
  }

  lemma DotPair<T(!new)>(F: Field<T>, u: seq<T>, v: seq<T>, c: T, a: T, b: T)
    requires IsField(F) && |u| == |v|
    ensures Dot(F, u + [c, c], v + [a, b]) == F.add(Dot(F, u, v), F.mul(c, F.add(a, b)))
  {
    assert (u + [c, c])[..|u| + 1] == u + [c] && (v + [a, b])[..|u| + 1] == v + [a];
    assert (u + [c])[..|u|] == u && (v + [a])[..|u|] == v;
    assert Distributes(F, c, a, b);
    assert AddAssoc(F, Dot(F, u, v), F.mul(c, a), F.mul(c, b));
  }

  lemma {:induction false} InterleaveBlocks<T>(a: seq<Block<T>>, b: seq<Block<T>>, size: nat)
    requires BlocksOf(a, |a|, size) && BlocksOf(b, |a|, size)
    ensures BlocksOf(Interleave(a, b), 2 * |a|, size)
  {
    if |a| > 0 {
      InterleaveBlocks(a[..|a| - 1], b[..|a| - 1], size);
    }
  }

  lemma {:induction false} InterleaveColumn<T>(a: seq<Block<T>>, b: seq<Block<T>>, size: nat, o: nat)
    requires BlocksOf(a, |a|, size) && BlocksOf(b, |a|, size) && o < size
    requires BlocksOf(Interleave(a, b), 2 * |a|, size)
    ensures Column(Interleave(a, b), size, o) == Interleave(Column(a, size, o), Column(b, size, o))
  {
    if |a| > 0 {
      var n := |a| - 1;
      var init := Interleave(a[..n], b[..n]);
      InterleaveBlocks(a[..n], b[..n], size);
      InterleaveColumn(a[..n], b[..n], size, o);
      assert Column(init + [a[n], b[n]], size, o) == Column(init, size, o) + [a[n][o], b[n][o]];
      assert Column(a, size, o)[..n] == Column(a[..n], size, o);
      assert Column(b, size, o)[..n] == Column(b[..n], size, o);
    }
  }

  lemma UpdateSourceColumn<T>(
      oldData: seq<Block<T>>, newData: seq<Block<T>>, updates: seq<nat>, rdnc: seq<Block<T>>, size: nat, o: nat)
    requires BlocksOf(oldData, |oldData|, size) && BlocksOf(newData, |oldData|, size)
    requires BlocksOf(rdnc, |rdnc|, size) && Ascending(updates, |oldData|) && o < size
    requires BlocksOf(UpdateSource(oldData, newData, updates, rdnc), 2 * |updates| + |rdnc|, size)
    ensures Column(UpdateSource(oldData, newData, updates, rdnc), size, o)
            == Interleave(Pick(Column(oldData, size, o), updates), Pick(Column(newData, size, o), updates))
               + Column(rdnc, size, o)
  {
    var a, b := Pick(oldData, updates), Pick(newData, updates);
    InterleaveBlocks(a, b, size);
    InterleaveColumn(a, b, size, o);
    assert Column(a, size, o) == Pick(Column(oldData, size, o), updates);
    assert Column(b, size, o) == Pick(Column(newData, size, o), updates);
  }

  /** Updating the redundancy from (old, new) pairs gives what encoding the new data from scratch gives. */
  lemma UpdateEqualsReencode<T(!new)>(
      F: Field<T>, coding: Matrix<T>, updates: seq<nat>, oldData: seq<Block<T>>, newData: seq<Block<T>>, size: nat)
    requires IsField(F) && coding.Valid()
    requires forall i, j :: 0 <= i < j < |updates| ==> updates[i] < updates[j]
    requires forall i :: 0 <= i < |updates| ==> updates[i] < coding.sources
    requires BlocksOf(oldData, coding.sources, size) && BlocksOf(newData, coding.sources, size)
    requires forall j :: 0 <= j < coding.sources && oldData[j] != newData[j] ==> j in updates
    ensures MatrixCreateUpdate(F, coding, updates).Ok?
    ensures var src := UpdateSource(oldData, newData, updates, Encode(F, coding, oldData, size));
            && BlocksOf(src, 2 * |updates| + |coding.rows|, size)
            && Multiply(F, MatrixCreateUpdate(F, coding, updates).value, src, size) == Encode(F, coding, newData, size)
  {
    assert DifferOnlyAt(oldData, newData, updates);
    var rdnc := Encode(F, coding, oldData, size);
    var src := UpdateSource(oldData, newData, updates, rdnc);
    InterleaveBlocks(Pick(oldData, updates), Pick(newData, updates), size);
    var m := MatrixCreateUpdate(F, coding, updates).value;
    var out, freshRdnc := Multiply(F, m, src, size), Encode(F, coding, newData, size);
    forall i | 0 <= i < |out| ensures out[i] == freshRdnc[i] {
      forall o | 0 <= o < size ensures out[i][o] == freshRdnc[i][o] {
        UpdateAt(F, coding, updates, oldData, newData, size, i, o);
      }
    }
  }

  lemma UpdateAt<T(!new)>(
      F: Field<T>, coding: Matrix<T>, updates: seq<nat>, oldData: seq<Block<T>>, newData: seq<Block<T>>, size: nat,
      i: nat, o: nat)
    requires IsField(F) && coding.Valid() && Ascending(updates, coding.sources)
    requires BlocksOf(oldData, coding.sources, size) && BlocksOf(newData, coding.sources, size)
    requires DifferOnlyAt(oldData, newData, updates) && i < |coding.rows| && o < size
    requires BlocksOf(UpdateSource(oldData, newData, updates, Encode(F, coding, oldData, size)),
                      2 * |updates| + |coding.rows|, size)
    ensures var src := UpdateSource(oldData, newData, updates, Encode(F, coding, oldData, size));
            Dot(F, UpdateRow(F, coding, updates, i), Column(src, size, o))
            == Dot(F, coding.rows[i], Column(newData, size, o))
  {
    var rdnc := Encode(F, coding, oldData, size);
    UpdateSourceColumn(oldData, newData, updates, rdnc, size, o);
    UpdateByte(F, coding, updates, i, Column(oldData, size, o), Column(newData, size, o), Column(rdnc, size, o));
  }

  lemma UpdateByte<T(!new)>(
      F: Field<T>, coding: Matrix<T>, updates: seq<nat>, i: nat, v: seq<T>, w: seq<T>, rdnc: seq<T>)
    requires IsField(F) && coding.Valid() && Ascending(updates, coding.sources) && i < |coding.rows|
    requires |v| == |w| == coding.sources && |rdnc| == |coding.rows|
    requires forall j :: 0 <= j < |v| && j !in updates ==> v[j] == w[j]
    requires rdnc[i] == Dot(F, coding.rows[i], v)
    ensures Dot(F, UpdateRow(F, coding, updates, i), Interleave(Pick(v, updates), Pick(w, updates)) + rdnc)
            == Dot(F, coding.rows[i], w)
  {
    var row := coding.rows[i];
    var c := Pick(row, updates);
    DotConcat(F, Interleave(c, c), Unit(F, |rdnc|, i), Interleave(Pick(v, updates), Pick(w, updates)), rdnc);
    DotUnit(F, i, rdnc);
    DotInterleave(F, c, Pick(v, updates), Pick(w, updates));
    var change := VAdd(F, v, w);
    forall j | 0 <= j < |v| && j !in updates ensures change[j] == F.zero {
      assert AddSelf(F, v[j]);
    }
    SparseDot(F, row, change, updates);
    assert Pick(change, updates) == VAdd(F, Pick(v, updates), Pick(w, updates));
    DotAdd(F, row, v, w);
    var x, y := Dot(F, row, v), Dot(F, row, w);
    assert AddComm(F, x, y);
    AddCancel(F, x, y);
  }

  /**
   * Successive updates compose: when redundancy is encoded once and then carried through any history
   * of updates, each made from the redundancy before it, it always is that of the latest data.
   */
  lemma {:induction false} UpdatesCompose<T(!new)>(
      F: Field<T>, coding: Matrix<T>, history: seq<seq<Block<T>>>, updates: seq<seq<nat>>,
      carried: seq<seq<Block<T>>>, size: nat, n: nat)
    requires IsField(F) && coding.Valid() && |history| == |carried| == |updates| + 1 && n < |carried|
    requires forall h :: 0 <= h < |history| ==>
               |history[h]| == coding.sources && forall j :: 0 <= j < coding.sources ==> |history[h][j]| == size
    requires forall h :: 0 <= h < |updates| ==>
               && (forall i, j :: 0 <= i < j < |updates[h]| ==> updates[h][i] < updates[h][j])
               && forall i :: 0 <= i < |updates[h]| ==> updates[h][i] < coding.sources
    requires forall h, j :: 0 <= h < |updates| && 0 <= j < coding.sources && history[h][j] != history[h + 1][j] ==>
               j in updates[h]
    requires carried[0] == Encode(F, coding, history[0], size)
    requires forall h :: 0 <= h < |updates| ==>
               var m := MatrixCreateUpdate(F, coding, updates[h]);
               var src := UpdateSource(history[h], history[h + 1], updates[h], carried[h]);
               m.Ok? && BlocksOf(src, m.value.sources, size) ==> carried[h + 1] == Multiply(F, m.value, src, size)
    ensures carried[n] == Encode(F, coding, history[n], size)
  {
    if n > 0 {
      UpdatesCompose(F, coding, history, updates, carried, size, n - 1);
      UpdateEqualsReencode(F, coding, updates[n - 1], history[n - 1], history[n], size);
    }
  }
}
