/**
 * Buffers, the inventories they are allocated from, and the memory maps they point into.
 *
 * A buffer is a descriptor that its inventory owns for good; while allocated it belongs to exactly
 * one list, of which it may be the only element, and points into one memory map.
 */
module Buffers {
  import opened Outcome
  import opened BufLists

  const MAX_REFCOUNT: nat := 0xFFFF
  const ADDRESS_SPACE: nat := 0x1_0000_0000_0000_0000

  class Mmap {
    var started: bool
    var range: Option<(nat, nat)>   // address and length, set once
    var numBufs: nat
    ghost var pointing: set<Buf>

    constructor ()
      ensures !started && range.None? && numBufs == 0 && pointing == {}
    {
      started, range, numBufs, pointing := false, None, 0, {};
    }
  }

  class Inventory {
    const total: nat
    var started: bool
    var free: set<Buf>
    var numFree: nat
    ghost var elements: set<Buf>

    constructor (total: nat)
      ensures this.total == total && !started && free == {} && numFree == 0 && elements == {}
    {
      this.total := total;
      started, free, numFree, elements := false, {}, 0, {};
    }
  }

  class Buf {
    const inventory: Inventory
    var refcount: nat
    var next: Buf?
    var inner: bool                 // some buffer's next
    var mmap: Mmap?
    var head: nat
    var len: nat
    var data: nat
    var dataLen: nat

    constructor (inventory: Inventory)
      ensures this.inventory == inventory && refcount == 0 && next == null && !inner && mmap == null
    {
      this.inventory := inventory;
      refcount, next, inner, mmap := 0, null, false, null;
    }

    /** head <= data <= data + dataLen <= head + len, inside the memory range, which does not wrap around. */
    ghost predicate Window()
      reads this, mmap
    {
      && mmap != null && mmap.range.Some?
      && mmap.range.value.0 <= head <= data
      && data + dataLen <= head + len <= mmap.range.value.0 + mmap.range.value.1 < ADDRESS_SPACE
    }
  }

  class Heap {
    ghost var bufs: set<Buf>
    ghost var inventories: set<Inventory>
    ghost var mmaps: set<Mmap>
    ghost var lists: Family<Buf>   // the lists there are, by their heads

    /** What one descriptor has to do with its inventory and its memory map. */
    ghost predicate Owned(b: Buf)
      reads this`bufs, this`inventories, this`mmaps, b, bufs, inventories, mmaps
    {
      && b in bufs && b.inventory in inventories && b in b.inventory.elements
      && b.refcount <= MAX_REFCOUNT
      && (b in b.inventory.free <==> b.refcount == 0)
      && (b.mmap == null <==> b.refcount == 0)
      && (b.mmap != null ==> b.mmap in mmaps && b in b.mmap.pointing && b.Window())
    }

    ghost predicate Stocked(v: Inventory)
      reads this`bufs, v, bufs
    {
      && v.elements <= bufs && v.free <= v.elements
      && (forall b :: b in v.elements ==> b.inventory == v)
      && v.numFree == |v.free|
      && v.total == |v.elements|
    }

    ghost predicate Mapped(m: Mmap)
      reads this`bufs, m, bufs
    {
      && m.pointing <= bufs
      && (forall b :: b in m.pointing ==> b.mmap == m)
      && m.numBufs == |m.pointing|
      && (m.numBufs > 0 ==> m.started)
      && (m.started ==> m.range.Some?)
      && (m.range.Some? ==> m.range.value.0 + m.range.value.1 < ADDRESS_SPACE)
    }

    ghost predicate Accounts()
      reads this`bufs, this`inventories, this`mmaps, bufs, inventories, mmaps
    {
      && (forall b {:trigger Owned(b)} :: b in bufs ==> Owned(b))
      && (forall v {:trigger Stocked(v)} :: v in inventories ==> Stocked(v))
      && (forall m {:trigger Mapped(m)} :: m in mmaps ==> Mapped(m))
    }

    /** The buffer at position i of the list of h is linked as its position says. */
    ghost predicate Placed(h: Buf, i: nat)
      requires h in lists && i < |lists[h]|
      reads this, lists[h][i]
    {
      var l := lists[h];
      && l[i] in bufs && l[i].refcount > 0
      && l[i].next == (if i + 1 < |l| then l[i + 1] else null)
      && (l[i].inner <==> i > 0)
      && (l[i].inner ==> l[i].refcount == 1)
    }

    /** Allocated buffers are in a list; free ones are not linked to anything. */
    ghost predicate Listed(b: Buf)
      reads this, b
    {
      && (b.refcount > 0 <==> Member(lists, b))
      && (b.refcount == 0 ==> b.next == null && !b.inner)
    }

    ghost predicate Shape()
      reads this, bufs
    {
      && Partition(lists)
      && (forall h :: h in lists ==> forall b :: b in lists[h] ==> b in bufs)
      && (forall h, i {:trigger Placed(h, i)} :: h in lists && 0 <= i < |lists[h]| ==> Placed(h, i))
      && (forall b {:trigger Listed(b)} :: b in bufs ==> Listed(b))
    }

    ghost predicate Valid()
      reads this, bufs, inventories, mmaps
    {
      Accounts() && Shape()
    }

    ghost function Live(): set<Buf>
      reads this`bufs, bufs
    {
      set b | b in bufs && b.refcount > 0
    }

    constructor ()
      ensures Valid() && bufs == {} && inventories == {} && mmaps == {} && lists == map[]
    {
      bufs, inventories, mmaps, lists := {}, {}, {}, map[];
    }

    // -------------------------------------------------------------- what always holds

    /** The head of the list a buffer is in. */
    ghost function HeadOf(b: Buf): (h: Buf)
      requires Shape() && b in Live()
      reads this, bufs
      ensures h in lists && b in lists[h]
    {
      assert Listed(b);
      var h :| h in lists && b in lists[h];
      h
    }

    ghost function ListOf(b: Buf): (l: seq<Buf>)
      requires Shape() && b in Live()
      reads this, bufs
      ensures b in l
    {
      lists[HeadOf(b)]
    }

    ghost function PosOf(b: Buf): (i: nat)
      requires Shape() && b in Live()
      reads this, bufs
      ensures i < |ListOf(b)| && ListOf(b)[i] == b && Placed(HeadOf(b), i)
    {
      var i := IndexIn(ListOf(b), b);
      assert Placed(HeadOf(b), i);
      i
    }

    /** Every allocated buffer is in exactly one list, at exactly one place; the lists hold nothing else. */
    lemma LiveBuffersArePartitioned(b: Buf)
      requires Valid() && b in bufs
      ensures b in Live() <==> b.refcount > 0
      ensures b.refcount > 0 <==> exists h :: h in lists && b in lists[h]
      ensures forall h :: h in lists ==> lists[h] != [] && lists[h][0] == h
      ensures forall g, h, i, j ::
                (g in lists && h in lists && 0 <= i < |lists[g]| && 0 <= j < |lists[h]|
                 && lists[g][i] == b && lists[h][j] == b)
                ==> g == h && i == j
    {
      assert Listed(b);
    }

    /** The pointers and flags of the buffers spell the lists, and nothing but a head is shared. */
    lemma PointersSpellTheLists(h: Buf, i: nat)
      requires Valid() && h in lists && i < |lists[h]|
      ensures var l := lists[h];
              && l[i] in bufs && l[i].refcount > 0
              && l[i].next == (if i + 1 < |l| then l[i + 1] else null)
              && (l[i].inner <==> i > 0)
              && (i > 0 ==> l[i].refcount == 1)
    {
      assert Placed(h, i);
    }

    /** Reference counts stay within 16 bits, and only the head of a list can have one other than one. */
    lemma ReferenceCounts(b: Buf)
      requires Valid() && b in bufs
      ensures b.refcount <= 65535
      ensures b.refcount > 1 ==> b in lists
    {
      assert Owned(b);
      if b in Live() {
        assert Placed(HeadOf(b), PosOf(b));
        HeadsAreNotInner(b);
      }
    }

    /** Every element an inventory was made with is free or allocated, however the lists mix inventories. */
    lemma InventoryConserved(v: Inventory)
      requires Valid() && v in inventories
      ensures v.total == v.numFree + |set b | b in bufs && b.refcount > 0 && b.inventory == v|
    {
      assert Stocked(v);
      var out := set b | b in bufs && b.refcount > 0 && b.inventory == v;
      forall b | b in v.elements ensures b in v.free || b in out { assert Owned(b); }
      forall b | b in out ensures b in v.elements && b !in v.free { assert Owned(b); }
      assert v.elements == v.free + out;
    }

    /** A memory map's count is the number of allocated buffers that point into it. */
    lemma MmapConserved(m: Mmap)
      requires Valid() && m in mmaps
      ensures m.numBufs == |set b | b in bufs && b.refcount > 0 && b.mmap == m|
    {
      assert Mapped(m);
      var out := set b | b in bufs && b.refcount > 0 && b.mmap == m;
      forall b | b in out ensures b in m.pointing { assert Owned(b); }
      forall b | b in m.pointing ensures b in out { assert Owned(b); }
      assert out == m.pointing;
    }

    lemma WindowsAreContained(b: Buf)
      requires Valid() && b in Live()
      ensures b.mmap != null && b.mmap in mmaps && b.mmap.started && b.mmap.range.Some?
      ensures var (addr, len) := b.mmap.range.value;
              && addr <= b.head <= b.data <= b.data + b.dataLen <= b.head + b.len <= addr + len
              && addr + len < 0x1_0000_0000_0000_0000
    {
      assert Owned(b);
      assert Mapped(b.mmap);
      assert b.mmap.pointing != {};
    }

    /** Heads are told by their flag. */
    lemma HeadsAreNotInner(b: Buf)
      requires Shape() && b in Live()
      ensures b in lists <==> !b.inner
    {
      var i := PosOf(b);
      assert Placed(HeadOf(b), i);
      assert ListOf(b)[0] == HeadOf(b);
      assert b in lists ==> b in lists[b];
    }

    // -------------------------------------------------------------- what small changes keep

    /** The buffer still points where it pointed. */
    twostate predicate SameContent(b: Buf)
      reads b
    {
      && b.mmap == old(b.mmap) && b.head == old(b.head) && b.len == old(b.len)
      && b.data == old(b.data) && b.dataLen == old(b.dataLen)
    }

    /** Changes to allocated buffers only, which stay allocated and inside their memory maps. */
    twostate lemma AccountsKept()
      requires old(Accounts()) && bufs == old(bufs) && inventories == old(inventories) && mmaps == old(mmaps)
      requires unchanged(inventories) && unchanged(mmaps)
      requires forall b :: b in bufs ==>
                 && (SameContent(b) || (b.mmap == old(b.mmap) && b.Window()))
                 && (b.refcount == old(b.refcount) || (0 < old(b.refcount) && 0 < b.refcount <= MAX_REFCOUNT))
      ensures Accounts()
    {
      forall b | b in bufs ensures Owned(b) { assert old(Owned(b)); }
      forall v | v in inventories ensures Stocked(v) { assert old(Stocked(v)); }
      forall m | m in mmaps ensures Mapped(m) { assert old(Mapped(m)); }
    }

    /** Changes that leave every list as it was. */
    twostate lemma ShapeKept()
      requires old(Shape()) && bufs == old(bufs) && lists == old(lists)
      requires forall b :: b in bufs ==>
                 && b.next == old(b.next) && b.inner == old(b.inner)
                 && (b.refcount == 0 <==> old(b.refcount) == 0)
                 && (b.inner ==> b.refcount == old(b.refcount))
      ensures Shape()
    {
      forall h, i: nat | h in lists && i < |lists[h]| ensures Placed(h, i) { assert old(Placed(h, i)); }
      forall b | b in bufs ensures Listed(b) { assert old(Listed(b)); }
    }

    // -------------------------------------------------------------- queries

    method GetNextInList(b: Buf) returns (next: Buf?)
      requires Valid() && b in Live()
      ensures forall h, i :: h in lists && 0 <= i < |lists[h]| && lists[h][i] == b ==>
                next == if i + 1 < |lists[h]| then lists[h][i + 1] else null
    {
      assert Placed(HeadOf(b), PosOf(b));
      return b.next;
    }

    method GetLastInList(b: Buf) returns (last: Buf)
      requires Valid() && b in Live()
      ensures last == ListOf(b)[|ListOf(b)| - 1]
      ensures forall h :: h in lists && b in lists[h] ==> last == lists[h][|lists[h]| - 1]
    {
      last := b;
      ghost var h, l, k := HeadOf(b), ListOf(b), PosOf(b);
      while last.next != null
        invariant k < |l| && last == l[k] && Placed(h, k)
        decreases |l| - k
      {
        last := last.next;
        k := k + 1;
        assert Placed(h, k);
      }
    }

    method IsLastInList(b: Buf) returns (r: bool)
      requires Valid() && b in Live()
      ensures forall h :: h in lists && b in lists[h] ==> (r <==> b == lists[h][|lists[h]| - 1])
    {
      assert Placed(HeadOf(b), PosOf(b));
      return b.next == null;
    }

    method IsFirstInList(b: Buf) returns (r: bool)
      requires Valid() && b in Live()
      ensures r <==> b in lists
      ensures forall h :: h in lists && b in lists[h] ==> (r <==> b == lists[h][0])
    {
      HeadsAreNotInner(b);
      assert Placed(HeadOf(b), PosOf(b));
      return !b.inner;
    }

    method IsInList(b: Buf) returns (r: bool)
      requires Valid() && b in Live()
      ensures forall h :: h in lists && b in lists[h] ==> (r <==> exists c :: c in lists[h] && c != b)
    {
      ghost var l, i := ListOf(b), PosOf(b);
      assert Placed(HeadOf(b), i);
      assert |l| > 1 ==> var c := l[if i == 0 then 1 else 0]; c in l && c != b;
      return b.inner || b.next != null;
    }

    method GetListLen(b: Buf) returns (e: Error, n: nat)
      requires Valid() && b in Live()
      ensures e == if b in lists then Success else NotPermitted
      ensures e.Success? ==> n == |lists[b]|
    {
      HeadsAreNotInner(b);
      if b.inner { return NotPermitted, 0; }
      var last := b;
      n := 1;
      assert Placed(b, 0);
      while last.next != null
        invariant 1 <= n <= |lists[b]| && last == lists[b][n - 1] && Placed(b, n - 1)
        decreases |lists[b]| - n
      {
        last := last.next;
        assert Placed(b, n);
        n := n + 1;
      }
      return Success, n;
    }

    // -------------------------------------------------------------- reference counts and data windows

    method IncRefcount(b: Buf) returns (e: Error, was: nat)
      requires Valid() && b in Live()
      modifies b`refcount
      ensures Valid() && Live() == old(Live())
      ensures was == old(b.refcount)
      ensures e == if b !in lists then NotPermitted else if was == 65535 then TooBig else Success
      ensures b.refcount == if e.Success? then was + 1 else was
    {
      HeadsAreNotInner(b);
      assert Owned(b);
      was := b.refcount;
      if b.inner { return NotPermitted, was; }
      if b.refcount == MAX_REFCOUNT { return TooBig, was; }
      b.refcount := b.refcount + 1;
      AccountsKept();
      ShapeKept();
      return Success, was;
    }

    method SetData(b: Buf, data: nat, dataLen: nat)
      requires Valid() && b in Live() && b.head <= data && data + dataLen <= b.head + b.len
      modifies b`data, b`dataLen
      ensures Valid() && b.data == data && b.dataLen == dataLen
    {
      assert Owned(b);
      b.data, b.dataLen := data, dataLen;
      AccountsKept();
      ShapeKept();
    }

    method ResetDataLen(b: Buf)
      requires Valid() && b in Live()
      modifies b`dataLen
      ensures Valid() && b.dataLen == 0
    {
      assert Owned(b);
      b.dataLen := 0;
      AccountsKept();
      ShapeKept();
    }

    // -------------------------------------------------------------- chaining

    /** The last element of one list has been made to point to the head of another, and nothing else has happened. */
    twostate lemma Chained(new list1: Buf, new list2: Buf, new last: Buf)
      requires old(Shape()) && bufs == old(bufs)
      requires list1 in old(lists) && list2 in old(lists) && list1 != list2 && list2.refcount == 1
      requires old(lists)[list1] != [] && last == old(lists)[list1][|old(lists)[list1]| - 1]
      requires lists == Join(old(lists), list1, list2)
      requires forall b :: b in bufs ==> b.refcount == old(b.refcount)
      requires forall b :: b in bufs ==> b.next == if b == last then list2 else old(b.next)
      requires forall b :: b in bufs ==> (b.inner <==> b == list2 || old(b.inner))
      ensures Shape()
    {
      var before := old(lists);
      var n := |before[list1]|;
      JoinKeepsPartition(before, list1, list2);
      assert lists[list1][n] == list2 && list2 in before[list2] && last in before[list1];
      forall h, i: nat | h in lists && i < |lists[h]| ensures Placed(h, i) {
        if h == list1 && i >= n {
          assert old(Placed(list2, i - n)) && lists[h][i] in before[list2];
        } else {
          assert old(Placed(h, i)) && lists[h][i] == before[h][i] && before[h][i] in before[h];
        }
      }
      forall b | b in bufs ensures Listed(b) {
        assert old(Listed(b));
        JoinMember(before, list1, list2, b);
      }
    }

    method Link(list1: Buf, list2: Buf, last: Buf)
      requires Valid() && list1 in lists && list2 in lists && list1 != list2 && list2.refcount == 1
      requires last == lists[list1][|lists[list1]| - 1] && last in bufs && list2 in bufs
      modifies this`lists, last, list2
      ensures Valid() && Live() == old(Live()) && lists == Join(old(lists), list1, list2)
      ensures forall b :: b in bufs ==> b.refcount == old(b.refcount) && SameContent(b)
    {
      last.next := list2;
      list2.inner := true;
      lists := Join(lists, list1, list2);
      AccountsKept();
      Chained(list1, list2, last);
    }

    /** Appends one list to another, unless the appended one is shared. */
    method ChainList(list1: Buf, list2: Buf) returns (e: Error)
      requires Valid() && list1 in lists && list2 in lists && list1 != list2
      modifies this`lists, lists[list1], list2
      ensures Valid() && Live() == old(Live())
      ensures e == if old(list2.refcount) == 1 then Success else NotPermitted
      ensures lists == if e.Success? then Join(old(lists), list1, list2) else old(lists)
      ensures e.Success? ==>
                && lists.Keys == old(lists).Keys - {list2}
                && lists[list1] == old(lists)[list1] + old(lists)[list2]
                && forall h :: h in lists && h != list1 ==> lists[h] == old(lists)[h]
      ensures forall b :: b in bufs ==>
                && b.refcount == old(b.refcount)
                && b.mmap == old(b.mmap) && b.head == old(b.head) && b.len == old(b.len)
                && b.data == old(b.data) && b.dataLen == old(b.dataLen)
    {
      if list2.refcount != 1 { return NotPermitted; }
      assert Placed(list1, 0) && Placed(list2, 0);
      var last := GetLastInList(list1);
      Link(list1, list2, last);
      return Success;
    }

    /** Whether `after` comes later than `b` in the list b is in. */
    ghost predicate Later(b: Buf, after: Buf)
      requires Shape() && b in Live()
      reads this, bufs
    {
      after in ListOf(b)[PosOf(b) + 1..]
    }

    /** The last element before list2 no longer points to it, and nothing else has happened. */
    twostate predicate OnlyUnchained(new list1: Buf, new list2: Buf, new last: Buf)
      reads this, bufs
    {
      && bufs == old(bufs)
      && list1 in old(lists) && list2 in old(lists)[list1] && list1 != list2
      && (var l := old(lists)[list1]; IndexIn(l, list2) > 0 && last == l[IndexIn(l, list2) - 1])
      && lists == Split(old(lists), list1, list2)
      && (forall b :: b in bufs ==> b.refcount == old(b.refcount))
      && (forall b :: b in bufs ==> b.next == if b == last then null else old(b.next))
      && (forall b :: b in bufs ==> (b.inner <==> b != list2 && old(b.inner)))
    }

    twostate lemma UnchainedPlaced(new list1: Buf, new list2: Buf, new last: Buf, new h: Buf, new i: nat)
      requires OnlyUnchained(list1, list2, last) && old(Shape())
      requires h in lists && i < |lists[h]|
      ensures Placed(h, i)
    {
      var before := old(lists);
      var n := IndexIn(before[list1], list2);
      assert last in before[list1];
      if h == list2 {
        assert old(Placed(list1, n + i)) && lists[h][i] == before[list1][n + i];
      } else {
        assert old(Placed(h, i)) && lists[h][i] == before[h][i] && before[h][i] in before[h];
      }
    }

    twostate lemma Unchained(new list1: Buf, new list2: Buf, new last: Buf)
      requires OnlyUnchained(list1, list2, last) && old(Shape())
      ensures Shape() && list2.refcount == 1
    {
      var before := old(lists);
      SplitKeepsPartition(before, list1, list2);
      assert old(Placed(list1, IndexIn(before[list1], list2)));
      forall h, i: nat | h in lists && i < |lists[h]| ensures Placed(h, i) {
        UnchainedPlaced(list1, list2, last, h, i);
      }
      forall h, b | h in lists && b in lists[h] ensures b in bufs {
        var i :| 0 <= i < |lists[h]| && lists[h][i] == b;
        UnchainedPlaced(list1, list2, last, h, i);
      }
      forall b | b in bufs ensures Listed(b) {
        assert old(Listed(b));
        SplitMember(before, list1, list2, b);
      }
    }

    method CutBefore(list2: Buf, last: Buf, ghost h: Buf)
      requires Valid() && h in lists && list2 in lists[h] && list2 != h
      requires IndexIn(lists[h], list2) > 0 && last == lists[h][IndexIn(lists[h], list2) - 1]
      modifies this`lists, last, list2
      ensures Valid() && Live() == old(Live()) && lists == Split(old(lists), h, list2)
      ensures forall b :: b in bufs ==> b.refcount == old(b.refcount) && SameContent(b)
      ensures list2.refcount == 1
    {
      last.next := null;
      list2.inner := false;
      lists := Split(lists, h, list2);
      AccountsKept();
      Unchained(h, list2, last);
    }

    /** Finds the element before list2, from list1 on. */
    method FindPrevious(list1: Buf, list2: Buf) returns (last: Buf?)
      requires Valid() && list1 in Live() && list1 != list2
      ensures last != null <==> Later(list1, list2)
      ensures last != null ==> var l := ListOf(list1);
                               list2 in l && IndexIn(l, list2) > 0 && last == l[IndexIn(l, list2) - 1]
    {
      var cur := list1;
      ghost var h, l, k := HeadOf(list1), ListOf(list1), PosOf(list1);
      while cur.next != null && cur.next != list2
        invariant PosOf(list1) <= k < |l| && cur == l[k] && Placed(h, k)
        invariant forall i :: PosOf(list1) < i <= k ==> l[i] != list2
        decreases |l| - k
      {
        cur := cur.next;
        k := k + 1;
        assert Placed(h, k);
      }
      if cur.next == null { return null; }
      assert l[k + 1] == list2 && l[PosOf(list1) + 1..][k - PosOf(list1)] == list2;
      assert IndexIn(l, list2) == k + 1;
      return cur;
    }

    /** One buffer comes later than another when both are in a list, at places in that order. */
    lemma LaterMeans(b: Buf, after: Buf)
      requires Valid() && b in Live()
      ensures Later(b, after) <==>
                exists h, i, j :: h in lists && 0 <= i < j < |lists[h]| && lists[h][i] == b && lists[h][j] == after
    {
      var g, l, k := HeadOf(b), ListOf(b), PosOf(b);
      if Later(b, after) {
        var n :| 0 <= n < |l| - k - 1 && l[k + 1..][n] == after;
        assert lists[g][k] == b && lists[g][k + 1 + n] == after;
      }
      forall h, i, j | h in lists && 0 <= i < j < |lists[h]| && lists[h][i] == b && lists[h][j] == after
        ensures Later(b, after)
      {
        assert h == g && i == k;
        assert l[k + 1..][j - k - 1] == after;
      }
    }

    /** Ends the list list1 is in before list2, which becomes the head of a list of its own. */
    method UnchainList(list1: Buf, list2: Buf) returns (e: Error)
      requires Valid() && list1 in Live() && list2 in Live() && list1 != list2
      modifies this`lists, ListOf(list1)
      ensures Valid() && Live() == old(Live())
      ensures e == if old(Later(list1, list2)) then Success else InvalidValue
      ensures e.Success? ==> list2 in old(ListOf(list1)) && list2 != old(HeadOf(list1))
      ensures lists == if e.Success? then Split(old(lists), old(HeadOf(list1)), list2) else old(lists)
      ensures e.Success? ==> list2.refcount == 1
      ensures forall b :: b in bufs ==>
                && b.refcount == old(b.refcount)
                && b.mmap == old(b.mmap) && b.head == old(b.head) && b.len == old(b.len)
                && b.data == old(b.data) && b.dataLen == old(b.dataLen)
    {
      var last := FindPrevious(list1, list2);
      if last == null { return InvalidValue; }
      CutBefore(list2, last, HeadOf(list1));
      return Success;
    }

    lemma HeadIsFirst(h: Buf)
      requires Shape() && h in lists
      ensures h in Live() && HeadOf(h) == h
      ensures forall b :: b in lists[h] && b != h ==> b in Live() && Later(h, b)
    {
      var l := lists[h];
      assert l[0] == h && Placed(h, 0);
      assert HeadOf(h) == h && PosOf(h) == 0;
      forall b | b in l && b != h ensures b in Live() && Later(h, b) {
        var i :| 0 <= i < |l| && l[i] == b;
        assert Placed(h, i) && l[1..][i - 1] == b;
      }
    }

    /** Unchaining list2 after chaining it restores every list and every reference count. */
    method ChainThenUnchain(list1: Buf, list2: Buf) returns (e: Error)
      requires Valid() && list1 in lists && list2 in lists && list1 != list2 && list2.refcount == 1
      modifies this`lists, bufs
      ensures Valid() && e.Success? && lists == old(lists) && Live() == old(Live())
      ensures forall b :: b in bufs ==>
                && b.refcount == old(b.refcount)
                && b.mmap == old(b.mmap) && b.head == old(b.head) && b.len == old(b.len)
                && b.data == old(b.data) && b.dataLen == old(b.dataLen)
    {
      HeadIsFirst(list1);
      HeadIsFirst(list2);
      SplitAfterJoin(lists, list1, list2);
      e := ChainList(list1, list2);
      HeadIsFirst(list1);
      e := UnchainList(list1, list2);
    }

    // -------------------------------------------------------------- release

    /** Element b has been returned to its inventory, and to nothing else has anything happened. */
    twostate predicate OnlyReturned(b: Buf)
      reads this, bufs, inventories, mmaps
    {
      var v, m := b.inventory, old(b.mmap);
      && unchanged(this) && old(b in Live()) && m != null
      && (forall c :: c in bufs && c != b ==> unchanged(c))
      && (forall w :: w in inventories && w != v ==> unchanged(w))
      && (forall k :: k in mmaps && k != m ==> unchanged(k))
      && v in inventories && m in mmaps
      && b.refcount == 0 && b.mmap == null && b.next == null && !b.inner
      && v.free == old(v.free) + {b} && v.numFree == old(v.numFree) + 1 && unchanged(v`elements, v`started)
      && m.pointing == old(m.pointing) - {b} && m.numBufs == old(m.numBufs) - 1 && unchanged(m`range, m`started)
    }

    twostate lemma ReturnedAccounts(b: Buf)
      requires OnlyReturned(b) && old(Accounts())
      ensures Accounts()
    {
      assert old(Owned(b));
      forall c | c in bufs ensures Owned(c) { assert old(Owned(c)); }
      forall v | v in inventories ensures Stocked(v) { assert old(Stocked(v)); }
      forall m | m in mmaps ensures Mapped(m) { assert old(Mapped(m)); }
    }

    method Clear(b: Buf)
      requires b in Live() && b.inventory in inventories && b.mmap != null && b.mmap in mmaps && b.mmap.numBufs > 0
      modifies b, b.inventory, b.mmap
      ensures OnlyReturned(b)
    {
      var v, m := b.inventory, b.mmap;
      v.free, v.numFree := v.free + {b}, v.numFree + 1;
      m.numBufs, m.pointing := m.numBufs - 1, m.pointing - {b};
      b.refcount, b.mmap, b.next, b.inner := 0, null, null, false;
    }

    /** Returns one element to its inventory and takes it off its memory map's count. */
    method ReturnElement(b: Buf)
      requires Accounts() && b in Live()
      modifies b, b.inventory, b.mmap
      ensures Accounts() && OnlyReturned(b)
    {
      assert Owned(b) && Mapped(b.mmap);
      assert b.mmap.pointing != {};
      Clear(b);
      ReturnedAccounts(b);
    }

    /** Nothing has been started, stopped or given other elements or another memory range. */
    twostate predicate SameSettings()
      reads this, inventories, mmaps
    {
      && inventories == old(inventories) && mmaps == old(mmaps)
      && (forall v :: v in inventories ==> v.started == old(v.started) && v.elements == old(v.elements))
      && (forall m :: m in mmaps ==> m.started == old(m.started) && m.range == old(m.range))
    }

    /** All these elements have been returned, and no other buffer has changed. */
    twostate lemma Released(new b: Buf)
      requires old(Shape()) && bufs == old(bufs) && b in old(lists) && lists == old(lists) - {b}
      requires forall c :: c in old(lists)[b] ==> c.refcount == 0 && c.next == null && !c.inner
      requires forall c :: c in bufs && c !in old(lists)[b] ==>
                 c.refcount == old(c.refcount) && c.next == old(c.next) && c.inner == old(c.inner)
      ensures Shape()
      ensures Live() == old(Live()) - set c | c in old(lists)[b]
    {
      var before := old(lists);
      forall h, i: nat | h in lists && i < |lists[h]| ensures Placed(h, i) {
        assert old(Placed(h, i)) && before[h][i] in before[h];
      }
      forall c | c in bufs ensures Listed(c) {
        assert old(Listed(c));
        if c in before[b] {
          assert forall h :: h in lists ==> c !in lists[h];
        } else if Member(before, c) {
          var h :| h in before && c in before[h];
          assert h in lists;
        }
      }
    }

    /** Returns the elements of a list one by one. */
    method ReturnElements(b: Buf)
      requires Valid() && b in lists
      modifies bufs, inventories, mmaps
      ensures Accounts() && unchanged(this)
      ensures forall c :: c in lists[b] ==> c.refcount == 0 && c.next == null && !c.inner
      ensures forall c :: c in bufs && c !in lists[b] ==> unchanged(c)
      ensures SameSettings()
    {
      ghost var l := lists[b];
      assert Placed(b, 0);
      var cur: Buf? := b;
      ghost var k := 0;
      while cur != null
        invariant Accounts() && unchanged(this) && SameSettings()
        invariant k <= |l| && cur == if k < |l| then l[k] else null
        invariant forall i :: 0 <= i < k ==> l[i].refcount == 0 && l[i].next == null && !l[i].inner
        invariant forall i :: k <= i < |l| ==> unchanged(l[i])
        invariant forall c :: c in bufs && c !in l ==> unchanged(c)
        decreases |l| - k
      {
        assert old(Placed(b, k)) && Owned(cur);
        var next := cur.next;
        ReturnElement(cur);
        cur := next;
        k := k + 1;
      }
    }

    /**
     * Drops one reference. When the last one to a list's head goes, exactly the elements of that
     * list are released, each to its own inventory and from its own memory map.
     */
    method DecRefcount(b: Buf) returns (e: Error, was: nat)
      requires Valid() && b in bufs
      modifies this`lists, bufs, inventories, mmaps
      ensures Valid() && was == old(b.refcount)
      ensures e == if was == 0 then BadState else if b !in old(lists) then NotPermitted else Success
      ensures e.Success? && was == 1 ==> lists == old(lists) - {b} && Live() == old(Live()) - set c | c in old(lists)[b]
      ensures !(e.Success? && was == 1) ==> lists == old(lists) && Live() == old(Live())
      ensures !(e.Success? && was == 1) ==> unchanged(b`mmap, b`head, b`len, b`data, b`dataLen, b`next)
      ensures !(e.Success? && was == 1) ==> b.refcount == if e.Success? then was - 1 else was
      ensures forall c :: c in Live() && c != b ==> unchanged(c)
      ensures inventories == old(inventories) && mmaps == old(mmaps) && bufs == old(bufs)
      ensures forall v :: v in inventories ==> v.started == old(v.started) && v.elements == old(v.elements)
      ensures forall m :: m in mmaps ==> m.started == old(m.started) && m.range == old(m.range)
      ensures e.Success? && was == 1 ==> forall c :: c in old(lists)[b] ==> c.refcount == 0 && c in c.inventory.free
    {
      was := b.refcount;
      if b.refcount == 0 {
        assert Listed(b);
        assert forall h :: h in lists ==> h in lists[h];
        return BadState, was;
      }
      HeadsAreNotInner(b);
      assert Owned(b);
      if b.inner { return NotPermitted, was; }
      if b.refcount > 1 {
        b.refcount := b.refcount - 1;
        AccountsKept();
        ShapeKept();
      } else {
        ReturnElements(b);
        lists := lists - {b};
        Released(b);
        forall c | c in old(lists)[b] ensures c in c.inventory.free { assert Owned(c); }
      }
      return Success, was;
    }

    // -------------------------------------------------------------- allocation

    /** Element b has been taken out of its inventory to point into m, and to nothing else has anything happened. */
    twostate predicate OnlyTaken(b: Buf)
      reads this, b, bufs, inventories, mmaps
    {
      var v, m := b.inventory, b.mmap;
      && b in bufs && old(b.refcount) == 0 && m != null
      && bufs == old(bufs) && inventories == old(inventories) && mmaps == old(mmaps)
      && (forall c :: c in bufs && c != b ==> unchanged(c))
      && (forall w :: w in inventories && w != v ==> unchanged(w))
      && (forall k :: k in mmaps && k != m ==> unchanged(k))
      && v in inventories && m in mmaps && m.started && b.Window()
      && b.refcount == 1 && b.next == null && !b.inner
      && v.free == old(v.free) - {b} && v.numFree == old(v.numFree) - 1 && unchanged(v`elements, v`started)
      && m.pointing == old(m.pointing) + {b} && m.numBufs == old(m.numBufs) + 1 && unchanged(m`range, m`started)
      && lists == old(lists)[b := [b]]
    }

    twostate lemma TakenAccounts(b: Buf)
      requires OnlyTaken(b) && old(Accounts())
      ensures Accounts()
    {
      assert old(Owned(b));
      forall c | c in bufs ensures Owned(c) { assert old(Owned(c)); }
      forall v | v in inventories ensures Stocked(v) { assert old(Stocked(v)); }
      forall m | m in mmaps ensures Mapped(m) { assert old(Mapped(m)); }
    }

    twostate lemma TakenShape(b: Buf)
      requires OnlyTaken(b) && old(Shape())
      ensures Shape() && Live() == old(Live()) + {b}
    {
      var before := old(lists);
      assert old(Listed(b));
      assert forall h :: h in before ==> b !in before[h];
      forall h, i: nat | h in lists && i < |lists[h]| ensures Placed(h, i) {
        assert h != b ==> old(Placed(h, i));
        assert h != b ==> before[h][i] in before[h];
      }
      forall c | c in bufs ensures Listed(c) {
        assert old(Listed(c));
        if c == b {
          assert b in lists[b];
        } else if Member(before, c) {
          var h :| h in before && c in before[h];
          assert c in lists[h];
        }
      }
    }

    twostate lemma TakenValid(b: Buf)
      requires OnlyTaken(b) && old(Valid())
      ensures Valid() && Live() == old(Live()) + {b}
    {
      TakenAccounts(b);
      TakenShape(b);
    }

    predicate InRange(m: Mmap, addr: nat, len: nat)
      reads m
    {
      m.range.Some? && m.range.value.0 <= addr && addr + len <= m.range.value.0 + m.range.value.1
    }

    method Fill(b: Buf, m: Mmap, addr: nat, len: nat, data: nat, dataLen: nat)
      requires b in bufs && b.refcount == 0 && b.next == null && !b.inner
      requires b.inventory in inventories && b.inventory.numFree > 0 && m in mmaps && m.started
      requires InRange(m, addr, len) && m.range.value.0 + m.range.value.1 < ADDRESS_SPACE
      requires addr <= data && data + dataLen <= addr + len
      modifies this`lists, b, b.inventory, m
      ensures OnlyTaken(b)
      ensures b.mmap == m && b.head == addr && b.len == len && b.data == data && b.dataLen == dataLen
    {
      var v := b.inventory;
      v.free, v.numFree := v.free - {b}, v.numFree - 1;
      m.numBufs, m.pointing := m.numBufs + 1, m.pointing + {b};
      b.refcount, b.mmap, b.head, b.len, b.data, b.dataLen := 1, m, addr, len, data, dataLen;
      lists := lists[b := [b]];
    }

    method Take(b: Buf, m: Mmap, addr: nat, len: nat, data: nat, dataLen: nat)
      requires Valid() && b.inventory in inventories && b in b.inventory.free && m in mmaps && m.started
      requires InRange(m, addr, len) && addr <= data && data + dataLen <= addr + len
      modifies this`lists, b, b.inventory, m
      ensures b in bufs && Valid() && OnlyTaken(b) && Live() == old(Live()) + {b}
      ensures b.mmap == m && b.head == addr && b.len == len && b.data == data && b.dataLen == dataLen
    {
      assert Stocked(b.inventory) && Mapped(m);
      assert Owned(b) && Listed(b);
      assert b.inventory.free != {};
      Fill(b, m, addr, len, data, dataLen);
      TakenValid(b);
    }

    /** Allocates a buffer over [addr, addr + len) of the memory map, holding data [data, data + dataLen). */
    method GetByArgs(v: Inventory, m: Mmap, addr: nat, len: nat, data: nat, dataLen: nat) returns (r: Result<Buf>)
      requires Valid() && v in inventories && m in mmaps
      requires addr <= data && data + dataLen <= addr + len
      modifies this`lists, v, m, v.free
      ensures Valid()
      ensures r.Err? ==> unchanged(this) && unchanged(v) && unchanged(m) && unchanged(old(v.free))
      ensures match r
              case Ok(b) =>
                && old(v.started && m.started && m.range.Some?) && b in old(v.free)
                && old(m.range).value.0 <= addr && addr + len <= old(m.range).value.0 + old(m.range).value.1
                && b.refcount == 1 && lists == old(lists)[b := [b]]
                && v.free == old(v.free) - {b} && v.numFree == old(v.numFree) - 1 && m.numBufs == old(m.numBufs) + 1
                && (forall c :: c in bufs && c != b ==> unchanged(c))
                && OnlyTaken(b) && Live() == old(Live()) + {b} && b.mmap == m && b.inventory == v
                && b.head == addr && b.len == len && b.data == data && b.dataLen == dataLen
              case Err(e) =>
                e == if !v.started || !m.started then BadState
                     else if m.range.None? || addr < m.range.value.0
                             || addr + len > m.range.value.0 + m.range.value.1 then InvalidValue
                     else NoMemory
      ensures r == Err(NoMemory) ==> v.numFree == 0
    {
      if !v.started || !m.started { return Err(BadState); }
      if !InRange(m, addr, len) { return Err(InvalidValue); }
      assert Stocked(v);
      if v.numFree == 0 { return Err(NoMemory); }
      assert v.free != {};
      var b :| b in v.free;
      Take(b, m, addr, len, data, dataLen);
      return Ok(b);
    }

    /** A buffer that holds no data yet. */
    method GetByAddr(v: Inventory, m: Mmap, addr: nat, len: nat) returns (r: Result<Buf>)
      requires Valid() && v in inventories && m in mmaps
      modifies this`lists, v, m, v.free
      ensures Valid()
      ensures r.Ok? ==> r.value.refcount == 1 && r.value.inventory == v && lists == old(lists)[r.value := [r.value]]
      ensures r.Ok? ==> r.value in old(v.free) && OnlyTaken(r.value) && r.value.mmap == m
                        && r.value.head == r.value.data == addr && r.value.len == len && r.value.dataLen == 0
      ensures r.Ok? <==> old(&& v.started && m.started && v.numFree > 0
                             && m.range.Some? && m.range.value.0 <= addr
                             && addr + len <= m.range.value.0 + m.range.value.1)
    {
      assert Stocked(v);
      r := GetByArgs(v, m, addr, len, addr, 0);
    }

    /** A buffer full of data. */
    method GetByData(v: Inventory, m: Mmap, data: nat, dataLen: nat) returns (r: Result<Buf>)
      requires Valid() && v in inventories && m in mmaps
      modifies this`lists, v, m, v.free
      ensures Valid()
      ensures r.Ok? ==> r.value.refcount == 1 && r.value.inventory == v && lists == old(lists)[r.value := [r.value]]
      ensures r.Ok? ==> r.value in old(v.free) && OnlyTaken(r.value) && r.value.mmap == m
                        && r.value.head == r.value.data == data && r.value.len == r.value.dataLen == dataLen
      ensures r.Ok? <==> old(&& v.started && m.started && v.numFree > 0
                             && m.range.Some? && m.range.value.0 <= data
                             && data + dataLen <= m.range.value.0 + m.range.value.1)
    {
      assert Stocked(v);
      r := GetByArgs(v, m, data, dataLen, data, dataLen);
    }

    /** Copies a buffer into an element of the given inventory; the copy is a list of its own. */
    method Dup(v: Inventory, src: Buf) returns (r: Result<Buf>)
      requires Valid() && v in inventories && src in Live()
      modifies this`lists, v, src.mmap, v.free
      ensures Valid()
      ensures match r
              case Ok(b) =>
                && old(v.started) && src in old(lists) && b in old(v.free)
                && b.refcount == 1 && lists == old(lists)[b := [b]] && b.inventory == v
                && OnlyTaken(b) && src != b && unchanged(src)
                && b.mmap == src.mmap && b.head == src.head && b.len == src.len
                && b.data == src.data && b.dataLen == src.dataLen
              case Err(e) =>
                e == if !v.started then BadState else if src !in old(lists) then NotPermitted else NoMemory
      ensures r == Err(NoMemory) ==> v.numFree == 0
    {
      WindowsAreContained(src);
      HeadsAreNotInner(src);
      assert Owned(src) && Stocked(v);
      if !v.started { return Err(BadState); }
      if src.inner { return Err(NotPermitted); }
      forall b | b in v.free ensures b != src { assert Owned(b); }
      r := GetByArgs(v, src.mmap, src.head, src.len, src.data, src.dataLen);
    }

    // -------------------------------------------------------------- memory maps

    method MmapCreate() returns (m: Mmap)
      requires Valid()
      modifies this`mmaps
      ensures Valid() && fresh(m) && mmaps == old(mmaps) + {m}
      ensures !m.started && m.range.None? && m.numBufs == 0
    {
      m := new Mmap();
      mmaps := mmaps + {m};
      forall b | b in bufs ensures Owned(b) { assert old(Owned(b)); }
      forall v | v in inventories ensures Stocked(v) { assert old(Stocked(v)); }
      forall k | k in mmaps ensures Mapped(k) { assert k != m ==> old(Mapped(k)); }
      ShapeKept();
    }

    /** Sets the memory range, once and for all. */
    method MmapSetMemrange(m: Mmap, addr: nat, len: nat) returns (e: Error)
      requires Valid() && m in mmaps
      modifies m`range
      ensures Valid()
      ensures e == if addr + len >= 0x1_0000_0000_0000_0000 then InvalidValue
                   else if m.started then BadState
                   else if old(m.range).Some? then NotPermitted
                   else Success
      ensures m.range == if e.Success? then Some((addr, len)) else old(m.range)
    {
      assert Mapped(m);
      if addr + len >= ADDRESS_SPACE { return InvalidValue; }
      if m.started { return BadState; }
      if m.range.Some? { return NotPermitted; }
      m.range := Some((addr, len));
      MmapKept(m);
      return Success;
    }

    /** A change to one memory map that the buffers pointing into it cannot notice. */
    twostate lemma MmapKept(m: Mmap)
      requires old(Valid()) && unchanged(this) && unchanged(bufs) && unchanged(inventories)
      requires m in mmaps && forall k :: k in mmaps && k != m ==> unchanged(k)
      requires unchanged(m`numBufs, m`pointing)
      requires m.numBufs > 0 ==> m.started
      requires m.range == old(m.range) || old(m.range).None?
      requires m.started ==> m.range.Some?
      requires m.range.Some? ==> m.range.value.0 + m.range.value.1 < ADDRESS_SPACE
      ensures Valid()
    {
      forall b | b in bufs ensures Owned(b) { assert old(Owned(b)); }
      forall v | v in inventories ensures Stocked(v) { assert old(Stocked(v)); }
      forall k | k in mmaps ensures Mapped(k) { assert old(Mapped(k)); }
      ShapeKept();
    }

    /** Starts a memory map whose memory range has been set. */
    method MmapStart(m: Mmap) returns (e: Error)
      requires Valid() && m in mmaps
      modifies m`started
      ensures Valid()
      ensures e == if m.range.None? then InvalidValue else Success
      ensures m.started == (e.Success? || old(m.started))
    {
      assert Mapped(m);
      if m.range.None? { return InvalidValue; }
      m.started := true;
      MmapKept(m);
      return Success;
    }

    /** Stops a memory map; refused exactly while some allocated buffer points into it. */
    method MmapStop(m: Mmap) returns (e: Error)
      requires Valid() && m in mmaps
      modifies m`started
      ensures Valid()
      ensures e == if exists b :: b in Live() && b.mmap == m then NotPermitted else Success
      ensures m.started == (!e.Success? && old(m.started))
    {
      assert Mapped(m);
      MmapInUse(m);
      if m.numBufs > 0 { return NotPermitted; }
      m.started := false;
      MmapKept(m);
      return Success;
    }

    lemma MmapInUse(m: Mmap)
      requires Valid() && m in mmaps
      ensures m.numBufs > 0 <==> exists b :: b in Live() && b.mmap == m
    {
      MmapConserved(m);
      var out := set b | b in bufs && b.refcount > 0 && b.mmap == m;
      if m.numBufs > 0 {
        assert out != {};
        var b :| b in out;
      }
      if b :| b in Live() && b.mmap == m { assert b in out; }
    }

    /** Destroys a memory map; refused exactly while some allocated buffer points into it. */
    method MmapDestroy(m: Mmap) returns (e: Error)
      requires Valid() && m in mmaps
      modifies this`mmaps
      ensures Valid()
      ensures e == if exists b :: b in Live() && b.mmap == m then NotPermitted else Success
      ensures mmaps == if e.Success? then old(mmaps) - {m} else old(mmaps)
    {
      MmapInUse(m);
      if m.numBufs > 0 { return NotPermitted; }
      mmaps := mmaps - {m};
      forall b | b in bufs ensures Owned(b) { assert old(Owned(b)); }
      forall v | v in inventories ensures Stocked(v) { assert old(Stocked(v)); }
      forall k | k in mmaps ensures Mapped(k) { assert old(Mapped(k)); }
      ShapeKept();
      return Success;
    }

    // -------------------------------------------------------------- inventories

    method MakeElements(v: Inventory) returns (made: set<Buf>)
      ensures fresh(made) && |made| == v.total
      ensures forall b :: b in made ==>
                b.inventory == v && b.refcount == 0 && b.next == null && !b.inner && b.mmap == null
    {
      made := {};
      while |made| < v.total
        invariant |made| <= v.total && fresh(made)
        invariant forall b :: b in made ==>
                    b.inventory == v && b.refcount == 0 && b.next == null && !b.inner && b.mmap == null
      {
        var b := new Buf(v);
        made := made + {b};
      }
    }

    /** A new inventory has been added, with all its elements free, and nothing else has happened. */
    twostate predicate OnlyAdded(new v: Inventory)
      reads this, bufs, inventories, mmaps, v
    {
      && mmaps == old(mmaps) && lists == old(lists)
      && (forall b :: b in bufs && b in old(bufs) ==> unchanged(b))
      && (forall w :: w in inventories && w in old(inventories) ==> unchanged(w))
      && unchanged(mmaps)
      && v !in old(inventories) && inventories == old(inventories) + {v}
      && v.free !! old(bufs) && bufs == old(bufs) + v.free
      && v.elements == v.free && v.total == v.numFree == |v.free|
      && forall b :: b in v.free ==>
           b.inventory == v && b.refcount == 0 && b.next == null && !b.inner && b.mmap == null
    }

    twostate lemma AddedAccounts(new v: Inventory)
      requires OnlyAdded(v) && old(Valid())
      ensures Accounts()
    {
      forall b | b in bufs ensures Owned(b) {
        if b in old(bufs) { assert old(Owned(b)); }
      }
      forall w | w in inventories ensures Stocked(w) {
        if w != v { assert old(Stocked(w)); }
      }
      forall m | m in mmaps ensures Mapped(m) { assert old(Mapped(m)); }
    }

    twostate lemma AddedShape(new v: Inventory)
      requires OnlyAdded(v) && old(Valid())
      ensures Shape() && Live() == old(Live())
    {
      forall b | b in bufs ensures Listed(b) {
        if b in old(bufs) {
          assert old(Listed(b));
        } else {
          assert forall h :: h in lists ==> b !in lists[h];
        }
      }
      forall h, i: nat | h in lists && i < |lists[h]| ensures Placed(h, i) { assert old(Placed(h, i)); }
    }

    method AddInventory(total: nat) returns (v: Inventory)
      modifies this`bufs, this`inventories
      ensures fresh(v) && fresh(v.free) && OnlyAdded(v) && !v.started && v.total == total
    {
      v := new Inventory(total);
      var made := MakeElements(v);
      v.free, v.numFree, v.elements := made, total, made;
      bufs := bufs + made;
      inventories := inventories + {v};
    }

    method InventoryCreate(total: nat) returns (v: Inventory)
      requires Valid()
      modifies this`bufs, this`inventories
      ensures Valid() && fresh(v) && inventories == old(inventories) + {v}
      ensures !v.started && v.total == v.numFree == total && Live() == old(Live())
      ensures fresh(v.free) && bufs == old(bufs) + v.free && v.elements == v.free && |v.free| == total
      ensures forall b :: b in v.free ==> b.refcount == 0
    {
      v := AddInventory(total);
      AddedAccounts(v);
      AddedShape(v);
    }

    method InventoryStart(v: Inventory)
      requires Valid() && v in inventories
      modifies v`started
      ensures Valid() && v.started && Live() == old(Live())
    {
      v.started := true;
      InventoriesKept();
    }

    method InventoryStop(v: Inventory)
      requires Valid() && v in inventories
      modifies v`started
      ensures Valid() && !v.started
    {
      v.started := false;
      InventoriesKept();
    }

    twostate lemma InventoriesKept()
      requires old(Valid()) && unchanged(this) && unchanged(bufs) && unchanged(mmaps)
      requires forall v :: v in inventories ==> unchanged(v`free, v`numFree, v`elements)
      ensures Valid()
    {
      forall b | b in bufs ensures Owned(b) { assert old(Owned(b)); }
      forall v | v in inventories ensures Stocked(v) { assert old(Stocked(v)); }
      forall m | m in mmaps ensures Mapped(m) { assert old(Mapped(m)); }
      ShapeKept();
    }

    /** An inventory has been removed with all its elements, and nothing else has happened. */
    twostate predicate OnlyRemoved(v: Inventory)
      reads this, bufs, inventories, mmaps
    {
      && mmaps == old(mmaps) && lists == old(lists) && v in old(inventories)
      && bufs <= old(bufs) && inventories <= old(inventories)
      && unchanged(bufs) && unchanged(inventories) && unchanged(mmaps)
      && inventories == old(inventories) - {v} && bufs == old(bufs) - old(v.free)
      && forall b :: b in old(bufs) ==> (b in old(v.free) <==> b.inventory == v)
    }

    twostate lemma RemovedAccounts(v: Inventory)
      requires OnlyRemoved(v) && old(Accounts())
      ensures Accounts()
    {
      assert old(Stocked(v));
      forall b | b in bufs ensures Owned(b) { assert old(Owned(b)); }
      forall w | w in inventories ensures Stocked(w) { assert old(Stocked(w)); }
      forall m | m in mmaps ensures Mapped(m) {
        assert old(Mapped(m));
        forall b | b in m.pointing ensures b in bufs { assert old(Owned(b)); }
      }
    }

    twostate lemma RemovedShape(v: Inventory)
      requires OnlyRemoved(v) && old(Valid())
      ensures Shape() && Live() == old(Live())
    {
      assert old(Stocked(v));
      forall b | b in old(v.free) ensures old(b.refcount) == 0 { assert old(Owned(b)); }
      forall b | b in bufs ensures Listed(b) { assert old(Listed(b)); }
      forall h, i: nat | h in lists && i < |lists[h]| ensures Placed(h, i) { assert old(Placed(h, i)); }
      forall h, b | h in lists && b in lists[h] ensures b in bufs {
        var i :| 0 <= i < |lists[h]| && lists[h][i] == b;
        assert old(Placed(h, i));
      }
    }

    /** Destroys an inventory with its elements; refused exactly while one of them is allocated. */
    method InventoryDestroy(v: Inventory) returns (e: Error)
      requires Valid() && v in inventories
      modifies this`bufs, this`inventories
      ensures Valid() && Live() == old(Live())
      ensures e == if exists b :: b in Live() && b.inventory == v then InUse else Success
      ensures inventories == if e.Success? then old(inventories) - {v} else old(inventories)
      ensures bufs == if e.Success? then old(bufs) - v.free else old(bufs)
    {
      InventoryConserved(v);
      ghost var out := set b | b in bufs && b.refcount > 0 && b.inventory == v;
      if v.numFree < v.total {
        assert out != {};
        return InUse;
      }
      assert |out| == 0;
      assert forall b :: b in Live() && b.inventory == v ==> b in out;
      assert Stocked(v);
      forall b | b in bufs ensures b in v.free <==> b.inventory == v { assert Owned(b); }
      bufs := bufs - v.free;
      inventories := inventories - {v};
      RemovedAccounts(v);
      RemovedShape(v);
      return Success;
    }
  }
}
