/**
 * The erasure coding tasks at work on flat buffers: the engine multiplies a coding matrix with
 * the blocks of a source buffer and writes the products, one after the other, to a destination
 * buffer. The create, update and recover tasks differ only in their matrix.
 */
module EcTasks {
  import opened GaloisField
  import opened Outcome
  import opened ErasureCoding

  const ALIGNMENT := 64

  /** Where block i starts in a flat buffer, i * size; written as a sum to stay linear. */
  function Offset(i: nat, size: nat): nat {
    if i == 0 then 0 else Offset(i - 1, size) + size
  }

  lemma {:induction false} OffsetIsProduct(i: nat, size: nat)
    ensures Offset(i, size) == i * size
  {
    if i > 0 {
      OffsetIsProduct(i - 1, size);
      assert i * size == (i - 1) * size + size;
    }
  }

  lemma {:induction false} RowInBounds(i: nat, rows: nat, size: nat)
    requires i < rows
    ensures Offset(i, size) + size <= Offset(rows, size)
    decreases rows
  {
    if i < rows - 1 { RowInBounds(i, rows - 1, size); }
  }

  /** The first n blocks of a flat buffer. */
  function Split<T>(flat: seq<T>, n: nat, size: nat): (blocks: seq<Block<T>>)
    requires |flat| >= Offset(n, size)
    ensures BlocksOf(blocks, n, size)
  {
    if n == 0 then []
    else
      RowInBounds(n - 1, n, size);
      Split(flat, n - 1, size) + [flat[Offset(n - 1, size)..Offset(n, size)]]
  }

  /** Block j of a flat buffer is its stretch of size bytes from j * size on. */
  lemma {:induction false} SplitAt<T>(flat: seq<T>, n: nat, size: nat, j: nat, o: nat)
    requires |flat| >= Offset(n, size) && j < n && o < size
    ensures Offset(j, size) + o < |flat| && Split(flat, n, size)[j][o] == flat[Offset(j, size) + o]
    decreases n
  {
    RowInBounds(n - 1, n, size);
    if j < n - 1 { SplitAt(flat, n - 1, size, j, o); }
  }

  /** An engine task; the setters of the API assign the fields between submissions. */
  class Task<T(0,==,!new)> {
    var matrix: Matrix<T>
    var src: array<T>
    var dst: array<T>
    var size: nat

    ghost predicate Valid()
      reads this
    {
      && matrix.Valid() && src != dst
      && src.Length == Offset(matrix.sources, size)
      && dst.Length >= Offset(|matrix.rows|, size)
    }

    /** Blocks are whole multiples of 64 bytes; anything else is refused as invalid. */
    static predicate Accepts(matrix: Matrix<T>, srcLength: nat, dstLength: nat, size: nat) {
      && size >= ALIGNMENT && size % ALIGNMENT == 0
      && srcLength == Offset(matrix.sources, size)
      && dstLength >= Offset(|matrix.rows|, size)
    }

    static method AllocateInit(matrix: Matrix<T>, src: array<T>, dst: array<T>, size: nat) returns (r: Result<Task<T>>)
      requires matrix.Valid() && src != dst
      ensures r.Ok? <==> size >= 64 && size % 64 == 0
                         && src.Length == matrix.sources * size && dst.Length >= |matrix.rows| * size
      ensures r.Err? ==> r.error == InvalidValue
      ensures r.Ok? ==> fresh(r.value) && r.value.Valid()
      ensures r.Ok? ==> r.value.matrix == matrix && r.value.src == src && r.value.dst == dst && r.value.size == size
    {
      OffsetIsProduct(matrix.sources, size);
      OffsetIsProduct(|matrix.rows|, size);
      if !Accepts(matrix, src.Length, dst.Length, size) { return Err(InvalidValue); }
      var task := new Task<T>(matrix, src, dst, size);
      return Ok(task);
    }

    constructor (matrix: Matrix<T>, src: array<T>, dst: array<T>, size: nat)
      ensures this.matrix == matrix && this.src == src && this.dst == dst && this.size == size
    {
      this.matrix, this.src, this.dst, this.size := matrix, src, dst, size;
    }

    /** One output byte. */
    method Byte(F: Field<T>, i: nat, o: nat) returns (sum: T)
      requires Valid() && i < |matrix.rows| && o < size
      ensures sum == Product(F)[i][o]
    {
      ghost var column := Column(Split(src[..], matrix.sources, size), size, o);
      var row := matrix.rows[i];
      sum := F.zero;
      for j := 0 to matrix.sources
        invariant sum == Dot(F, row[..j], column[..j])
      {
        SplitAt(src[..], matrix.sources, size, j, o);
        assert row[..j + 1][..j] == row[..j] && column[..j + 1][..j] == column[..j];
        sum := F.add(sum, F.mul(row[j], src[Offset(j, size) + o]));
      }
      assert row[..matrix.sources] == row && column[..matrix.sources] == column;
    }

    /** What the task has to produce from its current source. */
    ghost function Product(F: Field<T>): (p: seq<Block<T>>)
      requires Valid()
      reads this, src
      ensures BlocksOf(p, |matrix.rows|, size)
    {
      Multiply(F, matrix, Split(src[..], matrix.sources, size), size)
    }

    /** One output block, written in place behind the earlier ones. */
    method WriteBlock(F: Field<T>, i: nat)
      requires Valid() && i < |matrix.rows|
      modifies dst
      ensures Offset(i, size) + size <= dst.Length
      ensures dst[Offset(i, size)..Offset(i, size) + size] == Product(F)[i]
      ensures forall p :: 0 <= p < dst.Length && !(Offset(i, size) <= p < Offset(i, size) + size) ==>
                dst[p] == old(dst[p])
    {
      RowInBounds(i, |matrix.rows|, size);
      var from := Offset(i, size);
      ghost var p := Product(F)[i];
      for o := 0 to size
        invariant Valid() && p == Product(F)[i]
        invariant dst[from..from + o] == p[..o]
        invariant forall q :: 0 <= q < dst.Length && !(from <= q < from + o) ==> dst[q] == old(dst[q])
      {
        var sum := Byte(F, i, o);
        dst[from + o] := sum;
        assert dst[from..from + o + 1] == dst[from..from + o] + [sum];
      }
    }

    /** Writes the block after the first i, which stay as they are. */
    method WriteNext(F: Field<T>, i: nat)
      requires Valid() && i < |matrix.rows|
      modifies dst
      ensures Offset(i + 1, size) <= Offset(|matrix.rows|, size) <= dst.Length
      ensures Valid() && Product(F) == old(Product(F))
      ensures Split(dst[..], i + 1, size) == old(Split(dst[..], i, size)) + [Product(F)[i]]
      ensures dst[Offset(|matrix.rows|, size)..] == old(dst[Offset(|matrix.rows|, size)..])
    {
      RowInBounds(i, |matrix.rows|, size);
      ghost var before := dst[..];
      WriteBlock(F, i);
      assert before[..Offset(i, size)] == dst[..][..Offset(i, size)];
      SplitExtends(before, dst[..], i, size);
    }

    /** Runs the task: the destination ends up holding the product blocks, and nothing else changes. */
    method Execute(F: Field<T>)
      requires Valid()
      modifies dst
      ensures Split(dst[..], |matrix.rows|, size) == Product(F)
      ensures Split(dst[..], |matrix.rows|, size)
              == Multiply(F, matrix, Split(src[..], matrix.sources, size), size)
      ensures dst[Offset(|matrix.rows|, size)..] == old(dst[Offset(|matrix.rows|, size)..])
    {
      ghost var p := Product(F);
      for i := 0 to |matrix.rows|
        invariant Offset(i, size) <= dst.Length && Split(dst[..], i, size) == p[..i]
        invariant dst[Offset(|matrix.rows|, size)..] == old(dst[Offset(|matrix.rows|, size)..])
      {
        WriteNext(F, i);
        assert p[..i + 1] == p[..i] + [p[i]];
      }
      assert p[..|matrix.rows|] == p;
    }
  }

  /** Rewriting from block n on leaves the first n blocks, and adds the block written there. */
  lemma SplitExtends<T>(a: seq<T>, b: seq<T>, n: nat, size: nat)
    requires |a| == |b| >= Offset(n, size) + size && a[..Offset(n, size)] == b[..Offset(n, size)]
    ensures Offset(n + 1, size) <= |b|
    ensures Split(b, n + 1, size) == Split(a, n, size) + [b[Offset(n, size)..Offset(n, size) + size]]
  {
    SplitStable(a, b, n, size);
  }

  lemma {:induction false} SplitStable<T>(a: seq<T>, b: seq<T>, n: nat, size: nat)
    requires |a| == |b| >= Offset(n, size) && a[..Offset(n, size)] == b[..Offset(n, size)]
    ensures Split(a, n, size) == Split(b, n, size)
  {
    if n > 0 {
      RowInBounds(n - 1, n, size);
      assert a[..Offset(n - 1, size)] == a[..Offset(n, size)][..Offset(n - 1, size)];
      assert b[..Offset(n - 1, size)] == b[..Offset(n, size)][..Offset(n - 1, size)];
      SplitStable(a, b, n - 1, size);
      assert a[Offset(n - 1, size)..Offset(n, size)] == a[..Offset(n, size)][Offset(n - 1, size)..Offset(n, size)];
      assert b[Offset(n - 1, size)..Offset(n, size)] == b[..Offset(n, size)][Offset(n - 1, size)..Offset(n, size)];
    }
  }
}
