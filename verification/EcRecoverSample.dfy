/**
 * The decode flow of the erasure coding sample: walk over the block files, gather the first k
 * that are still readable, recover the unreadable ones met on the way, and put the data back
 * together.
 */
module EcRecoverSample {
  import opened GaloisField
  import opened Outcome
  import opened ErasureCoding
  import opened EcTasks

  function Readable<T>(files: seq<Option<Block<T>>>): (n: nat)
    ensures n <= |files|
  {
    if files == [] then 0
    else Readable(files[..|files| - 1]) + if files[|files| - 1].Some? then 1 else 0
  }

  /** It is the number of readable files. */
  lemma {:induction false} ReadableIs<T>(files: seq<Option<Block<T>>>)
    ensures Readable(files) == |set b | 0 <= b < |files| && files[b].Some?|
  {
    if files != [] {
      var n := |files| - 1;
      ReadableIs(files[..n]);
      var before := set b | 0 <= b < n && files[..n][b].Some?;
      var after := set b | 0 <= b < |files| && files[b].Some?;
      assert forall b :: b in after <==> b in before || (b == n && files[n].Some?);
      if files[n].Some? {
        assert after == before + {n};
      } else {
        assert after == before;
      }
    }
  }

  lemma {:induction false} ReadablePrefix<T>(files: seq<Option<Block<T>>>, n: nat)
    requires n <= |files|
    ensures Readable(files[..n]) <= Readable(files)
    decreases |files|
  {
    if n < |files| {
      ReadablePrefix(files[..|files| - 1], n);
      assert files[..|files| - 1][..n] == files[..n];
    } else {
      assert files[..n] == files;
    }
  }

  lemma ReadableNext<T>(files: seq<Option<Block<T>>>, i: nat)
    requires i < |files|
    ensures Readable(files[..i + 1]) == Readable(files[..i]) + if files[i].Some? then 1 else 0
  {
    assert files[..i + 1][..i] == files[..i];
  }

  /** Once k are found, or the end is reached, as many have been found as are needed and there are. */
  lemma ReadFarEnough<T>(files: seq<Option<Block<T>>>, i: nat, k: nat)
    requires i <= |files| && Readable(files[..i]) <= k && (i == |files| || Readable(files[..i]) == k)
    ensures var readable := |set b | 0 <= b < |files| && files[b].Some?|;
            Readable(files[..i]) == if readable >= k then k else readable
  {
    ReadablePrefix(files, i);
    ReadableIs(files);
    assert files[..|files|] == files;
  }

  /** The files hold the data blocks and then the redundancy blocks, some of them lost. */
  ghost predicate FilesOf<T>(
      F: Field<T>, coding: Matrix<T>, data: seq<Block<T>>, size: nat, files: seq<Option<Block<T>>>)
    requires coding.Valid() && BlocksOf(data, coding.sources, size)
  {
    && |files| == coding.sources + |coding.rows|
    && forall b :: 0 <= b < |files| && files[b].Some? ==>
         files[b].value == (data + Encode(F, coding, data, size))[b]
  }

  /** Reads files in order until k blocks are in hand, noting the numbers of those that are lost. */
  method Collect<T>(files: seq<Option<Block<T>>>, k: nat) returns (available: seq<nat>, missing: seq<nat>)
    requires k <= |files|
    ensures Ascending(available, |files|) && Ascending(missing, |files|)
    ensures var readable := |set b | 0 <= b < |files| && files[b].Some?|;
            |available| == if readable >= k then k else readable
    ensures forall b :: b in available ==> files[b].Some?
    ensures forall b :: b in missing ==> files[b].None?
    ensures |available| == k ==> forall b :: 0 <= b < k && files[b].None? ==> b in missing
    ensures missing != [] ==> missing[0] < k
  {
    available, missing := [], [];
    var i := 0;
    while i < |files| && |available| < k
      invariant i <= |files| && |available| <= k
      invariant Ascending(available, i) && Ascending(missing, i)
      invariant |available| == Readable(files[..i]) && |available| + |missing| == i
      invariant forall b :: b in available ==> files[b].Some?
      invariant forall b :: b in missing ==> files[b].None?
      invariant forall b :: 0 <= b < i && files[b].None? ==> b in missing
      invariant missing != [] ==> missing[0] < k
    {
      ReadableNext(files, i);
      if files[i].Some? {
        available := available + [i];
      } else {
        missing := missing + [i];
      }
      i := i + 1;
    }
    ReadFarEnough(files, i, k);
  }

  /** Lays blocks end to end in a fresh buffer. */
  method Concatenate<T(0)>(blocks: seq<Block<T>>, size: nat) returns (flat: array<T>)
    requires BlocksOf(blocks, |blocks|, size)
    ensures fresh(flat) && flat.Length == Offset(|blocks|, size)
    ensures Split(flat[..], |blocks|, size) == blocks
  {
    flat := new T[Offset(|blocks|, size)];
    for i := 0 to |blocks|
      invariant Offset(i, size) <= flat.Length
      invariant Split(flat[..], i, size) == blocks[..i]
    {
      RowInBounds(i, |blocks|, size);
      ghost var before := flat[..];
      var from := Offset(i, size);
      forall o | 0 <= o < size { flat[from + o] := blocks[i][o]; }
      assert before[..from] == flat[..][..from];
      assert flat[..][from..from + size] == blocks[i];
      SplitExtends(before, flat[..], i, size);
    }
    assert blocks[..|blocks|] == blocks;
  }

  /** The blocks in hand are those the recover matrix expects. */
  lemma SurvivorsAreGathered<T>(
      F: Field<T>, coding: Matrix<T>, data: seq<Block<T>>, size: nat, files: seq<Option<Block<T>>>, available: seq<nat>)
    requires coding.Valid() && BlocksOf(data, coding.sources, size) && FilesOf(F, coding, data, size, files)
    requires Ascending(available, |files|) && forall b :: b in available ==> files[b].Some?
    ensures seq(|available|, t requires 0 <= t < |available| => files[available[t]].value)
            == Gather(F, coding, data, size, available)
  {
  }

  /** Runs a task on the given blocks, through flat source and destination buffers. */
  method RunTask<T(0,==,!new)>(F: Field<T>, m: Matrix<T>, blocks: seq<Block<T>>, size: nat) returns (out: seq<Block<T>>)
    requires m.Valid() && BlocksOf(blocks, m.sources, size)
    requires size >= ALIGNMENT && size % ALIGNMENT == 0
    ensures out == Multiply(F, m, blocks, size)
  {
    var src := Concatenate(blocks, size);
    var dst := new T[Offset(|m.rows|, size)];
    OffsetIsProduct(m.sources, size);
    OffsetIsProduct(|m.rows|, size);
    var task := Task<T>.AllocateInit(m, src, dst, size);
    task.value.Execute(F);
    out := Split(dst[..], |m.rows|, size);
  }

  /** Each data block is its file if that is readable, and the recovered block otherwise. */
  method Restore<T>(files: seq<Option<Block<T>>>, missing: seq<nat>, recovered: seq<Block<T>>, k: nat,
                    ghost data: seq<Block<T>>) returns (restored: seq<Block<T>>)
    requires k <= |files| && |data| == k && |recovered| == |missing|
    requires forall b :: 0 <= b < k && files[b].Some? ==> files[b].value == data[b]
    requires forall b :: 0 <= b < k && files[b].None? ==> b in missing
    requires forall t :: 0 <= t < |missing| && missing[t] < k ==> recovered[t] == data[missing[t]]
    ensures restored == data
  {
    restored := [];
    for b := 0 to k
      invariant restored == data[..b]
    {
      if files[b].Some? {
        restored := restored + [files[b].value];
      } else {
        var t := IndexOf(missing, b);
        restored := restored + [recovered[t]];
      }
    }
  }

  /**
   * Recovers a file from what is left of its blocks. It succeeds exactly when at least k of the
   * k + r blocks are readable and there is something to decode, and then the data comes back whole.
   */
  method Decode<T(0,==,!new)>(F: Field<T>, k: nat, r: nat, files: seq<Option<Block<T>>>, size: nat,
                              ghost data: seq<Block<T>>) returns (result: Result<seq<Block<T>>>)
    requires IsField(F) && 0 < k && 0 < r && k + r <= 256
    requires size >= 64 && size % 64 == 0
    requires BlocksOf(data, k, size) && |files| == k + r
    requires forall b :: 0 <= b < k + r && files[b].Some? ==>
               files[b].value == (data + Encode(F, MatrixCreate(F, k, r).value, data, size))[b]
    ensures result.Ok? <==>
              && |set b | 0 <= b < |files| && files[b].Some?| >= k
              && exists b :: 0 <= b < k && files[b].None?
    ensures result.Ok? ==> result.value == data
    ensures result.Err? ==> result.error == InvalidValue
  {
    var available, missing := Collect(files, k);
    if |available| < k { return Err(InvalidValue); }  // not enough data for recover
    if missing == [] { return Err(InvalidValue); }    // nothing to decode

    var coding := MatrixCreate(F, k, r).value;
    CauchyRecoveryNeverFails(F, k, r, missing, available);
    var survivors := seq(|available|, t requires 0 <= t < |available| => files[available[t]].value);
    SurvivorsAreGathered(F, coding, data, size, files, available);
    var recover := MatrixCreateRecover(F, coding, missing, available).value;
    var recovered := RunTask(F, recover, survivors, size);
    RecoverReturnsTheLostBlocks(F, coding, missing, available, data, size);
    var restored := Restore(files, missing, recovered, k, data);
    assert files[missing[0]].None?;
    return Ok(restored);
  }

  method IndexOf(s: seq<nat>, x: nat) returns (t: nat)
    requires x in s
    ensures t < |s| && s[t] == x
  {
    t := 0;
    while s[t] != x
      invariant t < |s| && x in s[t..]
      decreases |s| - t
    {
      t := t + 1;
    }
  }
}
