/** A pool of buffers, each with a permanent, aligned place of its own in one memory range. */
module BufPool {
  import opened Outcome
  import opened Buffers

  // ---------------------------------------------------------------- alignment

  predicate IsPowerOfTwo(a: nat) {
    a == 1 || (a > 1 && a % 2 == 0 && IsPowerOfTwo(a / 2))
  }

  predicate Multiple(x: nat, a: nat)
    requires a > 0
  {
    x == 0 || (x >= a && Multiple(x - a, a))
  }

  lemma QuotientUnique(a: nat, p: nat, r: nat, q: nat, s: nat)
    requires a > 0 && r < a && s < a && a * p + r == a * q + s
    ensures p == q
  {
    if p < q { ProductStep(a, p, q); }
    if q < p { ProductStep(a, q, p); }
  }

  lemma {:induction false} ProductStep(a: nat, p: nat, q: nat)
    requires p < q
    ensures a * p + a <= a * q
    decreases q
  {
    assert a * q == a * (q - 1) + a;
    if p < q - 1 { ProductStep(a, p, q - 1); }
  }

  lemma ModStep(x: nat, a: nat)
    requires a > 0 && x >= a
    ensures (x - a) % a == x % a
  {
    var p, r := x / a, x % a;
    var q, s := (x - a) / a, (x - a) % a;
    assert x == a * p + r;
    assert x - a == a * q + s;
    assert a * (q + 1) == a * q + a;
    QuotientUnique(a, p, r, q + 1, s);
  }

  lemma RemainderIs(x: nat, a: nat, q: nat, r: nat)
    requires a > 0 && r < a && x == a * q + r
    ensures x % a == r
  {
    QuotientUnique(a, x / a, x % a, q, r);
  }

  /** Multiples are the numbers without remainder. */
  lemma {:induction false} MultipleMeans(x: nat, a: nat)
    requires a > 0
    ensures Multiple(x, a) <==> x % a == 0
    decreases x
  {
    if x >= a {
      ModStep(x, a);
      MultipleMeans(x - a, a);
    } else {
      RemainderIs(x, a, 0, x);
    }
  }

  /** An odd number divides twice b only if it divides b. */
  lemma OddDivides(b: nat, d: nat)
    requires d % 2 == 1
    ensures (2 * b) % d == 0 <==> b % d == 0
  {
    var p, r := b / d, b % d;
    assert b == d * p + r;
    assert 2 * b == d * (2 * p) + 2 * r;
    if 2 * r < d {
      RemainderIs(2 * b, d, 2 * p, 2 * r);
    } else {
      assert d * (2 * p + 1) == d * (2 * p) + d;
      RemainderIs(2 * b, d, 2 * p + 1, 2 * r - d);
    }
  }

  /** The powers of two are the numbers with no odd divisor but one. */
  lemma {:induction false} PowerOfTwoMeans(a: nat)
    ensures IsPowerOfTwo(a) <==> a > 0 && forall d: nat :: d > 1 && d % 2 == 1 ==> a % d != 0
  {
    if a > 1 && a % 2 == 0 {
      var b := a / 2;
      PowerOfTwoMeans(b);
      assert a == 2 * b;
      forall d: nat | d > 1 && d % 2 == 1 ensures a % d == 0 <==> b % d == 0 { OddDivides(b, d); }
    } else if a > 1 {
      RemainderIs(a, a, 1, 0);
    } else if a == 1 {
      forall d: nat | d > 1 ensures a % d == 1 { RemainderIs(1, d, 0, 1); }
    }
  }

  /** The first aligned address from x on. */
  function AlignUp(x: nat, a: nat): (r: nat)
    requires a > 0
    ensures x <= r < x + a && Multiple(r, a)
  {
    if x == 0 then 0 else if x <= a then a else a + AlignUp(x - a, a)
  }

  /** No aligned address is skipped. */
  lemma {:induction false} AlignUpIsLeast(x: nat, a: nat, y: nat)
    requires a > 0 && x <= y && Multiple(y, a)
    ensures AlignUp(x, a) <= y
    decreases x
  {
    if x > a { AlignUpIsLeast(x - a, a, y - a); }
  }

  lemma {:induction false} SumOfMultiples(x: nat, y: nat, a: nat)
    requires a > 0 && Multiple(x, a) && Multiple(y, a)
    ensures Multiple(x + y, a)
    decreases x
  {
    if x > 0 { SumOfMultiples(x - a, y, a); }
  }

  lemma {:induction false} DifferenceOfMultiples(x: nat, y: nat, a: nat)
    requires a > 0 && y <= x && Multiple(x, a) && Multiple(y, a)
    ensures Multiple(x - y, a)
    decreases y
  {
    if y > 0 { DifferenceOfMultiples(x - a, y - a, a); }
  }

  // ---------------------------------------------------------------- layout

  /** Where `count` elements of `size` bytes may start in a memory range, in any order. */
  ghost predicate Placement(base: nat, len: nat, size: nat, a: nat, starts: set<nat>)
    requires a > 0
  {
    && (forall x :: x in starts ==> base <= x && x + size <= base + len && x % a == 0)
    && (forall x, y :: x in starts && y in starts && x < y ==> x + size <= y)
  }

  /** Where element i goes. */
  function Place(base: nat, size: nat, a: nat, i: nat): nat
    requires a > 0
  {
    if i == 0 then AlignUp(base, a) else Place(base, size, a, i - 1) + AlignUp(size, a)
  }

  /** The end of the last element. */
  function EndOf(base: nat, count: nat, size: nat, a: nat): nat
    requires a > 0
  {
    if count == 0 then base else Place(base, size, a, count - 1) + size
  }

  lemma {:induction false} PlaceAligned(base: nat, size: nat, a: nat, i: nat)
    requires a > 0
    ensures Multiple(Place(base, size, a, i), a) && base <= Place(base, size, a, i)
  {
    if i > 0 {
      PlaceAligned(base, size, a, i - 1);
      SumOfMultiples(Place(base, size, a, i - 1), AlignUp(size, a), a);
    }
  }

  lemma {:induction false} PlacesInOrder(base: nat, size: nat, a: nat, i: nat, j: nat)
    requires a > 0 && i < j
    ensures Place(base, size, a, i) + size <= Place(base, size, a, j)
    decreases j
  {
    if i < j - 1 { PlacesInOrder(base, size, a, i, j - 1); }
  }

  /**
   * The layout never overlaps and never leaves the range: each element is aligned, apart from every
   * other, and within the first EndOf(...) - base bytes of the range.
   */
  lemma LayoutIsSound(base: nat, count: nat, size: nat, a: nat, i: nat, j: nat)
    requires a > 0 && i < count && j < count && i != j
    ensures var x, y := Place(base, size, a, i), Place(base, size, a, j);
            && x % a == 0
            && base <= x && x + size <= EndOf(base, count, size, a)
            && (x + size <= y || y + size <= x)
  {
    PlaceAligned(base, size, a, i);
    MultipleMeans(Place(base, size, a, i), a);
    if i < j { PlacesInOrder(base, size, a, i, j); } else { PlacesInOrder(base, size, a, j, i); }
    if i < count - 1 { PlacesInOrder(base, size, a, i, count - 1); }
  }

  lemma {:induction false} Greatest(s: set<nat>) returns (m: nat)
    requires s != {}
    ensures m in s && forall x :: x in s ==> x <= m
    decreases |s|
  {
    var x :| x in s;
    m := x;
    if s != {x} {
      var k := Greatest(s - {x});
      if k > x { m := k; }
      assert forall y :: y in s ==> y == x || y in s - {x};
    }
  }

  /** The layout is as tight as any: elements that can be placed somehow need at least its room. */
  lemma {:induction false} LayoutIsTight(base: nat, len: nat, size: nat, a: nat, starts: set<nat>)
    requires a > 0 && size > 0 && Placement(base, len, size, a, starts)
    ensures EndOf(base, |starts|, size, a) <= base + len
    decreases |starts|
  {
    if starts != {} {
      var m := Greatest(starts);
      var rest := starts - {m};
      assert |rest| == |starts| - 1;
      assert Placement(base, m - base, size, a, rest);
      LayoutIsTight(base, m - base, size, a, rest);
      MultipleMeans(m, a);
      var n := |rest|;
      if n == 0 {
        AlignUpIsLeast(base, a, m);
      } else {
        NextPlaceIsLeast(base, size, a, n - 1, m);
      }
    }
  }

  /** The next place is the first aligned address after an element. */
  lemma NextPlaceIsLeast(base: nat, size: nat, a: nat, i: nat, m: nat)
    requires a > 0 && Multiple(m, a) && Place(base, size, a, i) + size <= m
    ensures Place(base, size, a, i + 1) <= m
  {
    var p := Place(base, size, a, i);
    PlaceAligned(base, size, a, i);
    DifferenceOfMultiples(m, p, a);
    AlignUpIsLeast(size, a, m - p);
    assert Place(base, size, a, i + 1) == p + AlignUp(size, a);
  }

  ghost predicate CanHold(base: nat, len: nat, count: nat, size: nat, a: nat)
    requires a > 0
  {
    exists starts :: |starts| == count && Placement(base, len, size, a, starts)
  }

  lemma CanHoldMeans(base: nat, len: nat, count: nat, size: nat, a: nat)
    requires a > 0
    ensures CanHold(base, len, count, size, a) <==>
            exists starts: set<nat> ::
              && |starts| == count
              && (forall x :: x in starts ==> base <= x && x + size <= base + len && x % a == 0)
              && (forall x, y :: x in starts && y in starts && x < y ==> x + size <= y)
  {
    if CanHold(base, len, count, size, a) {
      var starts :| |starts| == count && Placement(base, len, size, a, starts);
      assert |starts| == count;
    }
    if starts: set<nat> :|
      && |starts| == count
      && (forall x :: x in starts ==> base <= x && x + size <= base + len && x % a == 0)
      && (forall x, y :: x in starts && y in starts && x < y ==> x + size <= y)
    {
      assert Placement(base, len, size, a, starts);
    }
  }

  /** The required size is exact: the layout fits exactly when some aligned placement of that many elements does. */
  lemma FitsExactlyWhenPossible(base: nat, len: nat, count: nat, size: nat, a: nat)
    requires a > 0 && size > 0
    ensures EndOf(base, count, size, a) <= base + len <==> CanHold(base, len, count, size, a)
  {
    if CanHold(base, len, count, size, a) {
      var starts :| |starts| == count && Placement(base, len, size, a, starts);
      LayoutIsTight(base, len, size, a, starts);
    }
    if EndOf(base, count, size, a) <= base + len {
      var places := PlacesOf(base, len, count, size, a);
    }
  }

  lemma {:induction false} PlacesOf(base: nat, len: nat, count: nat, size: nat, a: nat) returns (starts: set<nat>)
    requires a > 0 && size > 0 && EndOf(base, count, size, a) <= base + len
    ensures |starts| == count && Placement(base, len, size, a, starts)
    ensures forall x :: x in starts ==> x + size <= EndOf(base, count, size, a)
  {
    if count == 0 {
      starts := {};
    } else {
      if count > 1 { PlacesInOrder(base, size, a, count - 2, count - 1); }
      var before := PlacesOf(base, len, count - 1, size, a);
      var x := Place(base, size, a, count - 1);
      PlaceAligned(base, size, a, count - 1);
      MultipleMeans(x, a);
      assert forall y :: y in before ==> y + size <= x;
      starts := before + {x};
    }
  }

  // ---------------------------------------------------------------- the pool

  /**
   * The pool's descriptors are those of an inventory of its own, numbered once and for all; number
   * i has the i-th place of the layout. Allocated ones are ordinary buffers of the heap, which are
   * counted, shared, chained and released like all others.
   */
  class Pool {
    const heap: Heap
    const inventory: Inventory
    const mmap: Mmap
    const count: nat
    const size: nat
    const base: nat
    const len: nat
    const number: map<Buf, nat>
    var alignment: nat
    var started: bool

    ghost predicate Valid()
      reads this, heap, heap.bufs, heap.inventories, heap.mmaps
    {
      && heap.Valid() && inventory in heap.inventories && mmap in heap.mmaps
      && inventory.started && inventory.total == count && inventory.elements == number.Keys
      && number.Keys <= heap.bufs && mmap.range == Some((base, len))
      && count > 0 && size > 0 && IsPowerOfTwo(alignment)
      && (forall b :: b in number ==> number[b] < count)
      && (forall b, c :: b in number && c in number && b != c ==> number[b] != number[c])
      && (started ==> EndOf(base, count, size, alignment) <= base + len)
      && (forall b :: b in Allocated() ==> started && AtHome(b))
    }

    ghost function Allocated(): set<Buf>
      reads this, number.Keys
    {
      set b | b in number.Keys && b.refcount > 0
    }

    /** The buffer covers just its own place. */
    ghost predicate AtHome(b: Buf)
      requires b in number && IsPowerOfTwo(alignment)
      reads this, b
    {
      b.mmap == mmap && b.head == Place(base, size, alignment, number[b]) && b.len == size
    }

    constructor (heap: Heap, inventory: Inventory, mmap: Mmap, count: nat, size: nat, number: map<Buf, nat>)
      requires heap.Valid() && inventory in heap.inventories && mmap in heap.mmaps
      requires inventory.started && inventory.total == count && inventory.elements == number.Keys <= heap.bufs
      requires mmap.range.Some? && count > 0 && size > 0
      requires forall b :: b in number ==> number[b] < count && b.refcount == 0
      requires forall b, c :: b in number && c in number && b != c ==> number[b] != number[c]
      ensures Valid() && !started && alignment == 1 && Allocated() == {}
      ensures this.heap == heap && this.inventory == inventory && this.mmap == mmap && this.number == number
      ensures this.count == count && this.size == size && mmap.range == Some((base, len))
    {
      this.heap, this.inventory, this.mmap, this.number := heap, inventory, mmap, number;
      this.count, this.size, this.base, this.len := count, size, mmap.range.value.0, mmap.range.value.1;
      alignment, started := 1, false;
    }

    /** Every element is allocated or free. */
    lemma Conserved()
      requires Valid()
      ensures count == inventory.numFree + |set b | b in number && b.refcount > 0|
    {
      heap.InventoryConserved(inventory);
      assert heap.Stocked(inventory);
      forall b | b in heap.bufs && b.refcount > 0 && b.inventory == inventory ensures b in Allocated() {
        assert heap.Owned(b);
      }
      assert Allocated() == set b | b in heap.bufs && b.refcount > 0 && b.inventory == inventory;
      assert Allocated() == set b | b in number && b.refcount > 0;
    }

    /** Two allocated buffers never overlap, and all lie aligned inside the memory range. */
    lemma AllocatedApart(b: Buf, c: Buf)
      requires Valid() && b in number && c in number && b.refcount > 0 && c.refcount > 0 && b != c
      ensures b.head % alignment == 0
      ensures base <= b.head && b.head + b.len <= base + len
      ensures b.head + b.len <= c.head || c.head + c.len <= b.head
    {
      assert b in Allocated() && c in Allocated();
      LayoutIsSound(base, count, size, alignment, number[b], number[c]);
    }

    /** Whatever is done to the heap, the pool stays valid if its buffers that are left are still the same. */
    twostate lemma Unaffected()
      requires old(Valid()) && unchanged(this) && heap.Valid()
      requires inventory in heap.inventories && mmap in heap.mmaps
      requires inventory.started && inventory.elements == old(inventory.elements) && mmap.range == old(mmap.range)
      requires forall b :: b in Allocated() ==>
                 b in old(Allocated()) && b.mmap == old(b.mmap) && b.head == old(b.head) && b.len == old(b.len)
      ensures Valid()
    {
      assert heap.Stocked(inventory);
      forall b | b in Allocated() ensures started && AtHome(b) { assert old(AtHome(b)); }
    }

    /** The alignment of a stopped pool can be set; allocated buffers keep their places. */
    method SetElementAlignment(a: nat) returns (e: Error)
      requires Valid()
      modifies this`alignment
      ensures Valid()
      ensures e == if a == 0 || exists d: nat :: d > 1 && d % 2 == 1 && a % d == 0 then InvalidValue
                   else if started then BadState else Success
      ensures alignment == if e.Success? then a else old(alignment)
      ensures (exists b :: b in number && b.refcount > 0) ==> alignment == old(alignment)
    {
      PowerOfTwoMeans(a);
      if !IsPowerOfTwo(a) { return InvalidValue; }
      if started { return BadState; }
      assert forall b :: b in number && b.refcount > 0 ==> b in Allocated();
      alignment := a;
      assert Allocated() == old(Allocated());
      return Success;
    }

    /** Starts the pool, unless its elements cannot be placed in the memory range in any way. */
    method StartPool() returns (e: Error)
      requires Valid()
      modifies this`started
      ensures Valid()
      ensures e == if !mmap.started then BadState
                   else if exists starts: set<nat> ::
                             && |starts| == count
                             && (forall x :: x in starts ==>
                                   base <= x && x + size <= base + len && x % alignment == 0)
                             && (forall x, y :: x in starts && y in starts && x < y ==> x + size <= y)
                        then Success else Initialization
      ensures started == (e.Success? || old(started))
    {
      if !mmap.started { return BadState; }
      FitsExactlyWhenPossible(base, len, count, size, alignment);
      CanHoldMeans(base, len, count, size, alignment);
      if EndOf(base, count, size, alignment) > base + len { return Initialization; }
      started := true;
      assert Allocated() == old(Allocated());
      forall b | b in Allocated() ensures AtHome(b) { assert old(AtHome(b)); }
      return Success;
    }

    method StopPool() returns (e: Error)
      requires Valid()
      modifies this`started
      ensures Valid()
      ensures e == if exists b :: b in number && b.refcount > 0 then InUse else Success
      ensures started == (!e.Success? && old(started))
    {
      Conserved();
      ghost var out := set b | b in number && b.refcount > 0;
      if inventory.numFree < count {
        assert out != {};
        return InUse;
      }
      assert |out| == 0;
      assert forall b :: b in number && b.refcount > 0 ==> b in out;
      started := false;
      assert Allocated() == old(Allocated());
      return Success;
    }

    /** Takes a free buffer, which is empty and covers its own place. */
    method BufAlloc() returns (r: Result<Buf>)
      requires Valid()
      modifies heap`lists, inventory, mmap, inventory.free
      ensures Valid()
      ensures match r
              case Ok(b) =>
                && old(started && mmap.started) && b in number && old(b.refcount) == 0
                && Allocated() == old(Allocated()) + {b} && heap.Live() == old(heap.Live()) + {b}
                && heap.lists == old(heap.lists)[b := [b]] && b.refcount == 1
                && AtHome(b) && b.data == b.head && b.dataLen == 0
                && b.mmap == mmap && b.len == size && b.head % alignment == 0
                && base <= b.head && b.head + size <= base + len
                && mmap.numBufs == old(mmap.numBufs) + 1
              case Err(e) =>
                e == if !started || !mmap.started then BadState else Empty
      ensures r == Err(Empty) ==> forall b :: b in number ==> b.refcount > 0
      ensures r.Err? ==> unchanged(heap) && unchanged(inventory) && unchanged(mmap) && unchanged(old(inventory.free))
    {
      if !started || !mmap.started { return Err(BadState); }
      assert heap.Stocked(inventory);
      if inventory.numFree == 0 {
        forall b | b in number ensures b in Allocated() { assert heap.Owned(b); }
        return Err(Empty);
      }
      assert inventory.free != {};
      var b :| b in inventory.free;
      assert heap.Owned(b);
      var start := Place(base, size, alignment, number[b]);
      PlaceFits(base, count, size, alignment, number[b]);
      MultipleMeans(start, alignment);
      heap.Take(b, mmap, start, size, start, 0);
      return Ok(b);
    }

    /** Drops a reference to a buffer; its pool gets back what that releases. */
    method Release(b: Buf) returns (e: Error, was: nat)
      requires Valid() && b in Allocated()
      modifies heap`lists, heap.bufs, heap.inventories, heap.mmaps
      ensures Valid() && was == old(b.refcount)
      ensures e == if b !in old(heap.lists) then NotPermitted else Success
      ensures Allocated() == if e.Success? && was == 1 then old(Allocated()) - set c | c in old(heap.lists)[b]
                             else old(Allocated())
      ensures forall c :: c in Allocated() ==> c.head == old(c.head) && c.len == old(c.len)
    {
      assert Allocated() == number.Keys * heap.Live();
      e, was := heap.DecRefcount(b);
      assert Allocated() == number.Keys * heap.Live();
      Unaffected();
    }
  }

  /** Every place lies inside the layout. */
  lemma PlaceFits(base: nat, count: nat, size: nat, a: nat, i: nat)
    requires a > 0 && i < count
    ensures base <= Place(base, size, a, i) && Place(base, size, a, i) + size <= EndOf(base, count, size, a)
    ensures Multiple(Place(base, size, a, i), a)
  {
    PlaceAligned(base, size, a, i);
    if i < count - 1 { PlacesInOrder(base, size, a, i, count - 1); }
  }

  /** Numbers the descriptors of a new inventory. */
  method Number(elements: set<Buf>) returns (number: map<Buf, nat>)
    ensures number.Keys == elements
    ensures forall b :: b in number ==> number[b] < |elements|
    ensures forall b, c :: b in number && c in number && b != c ==> number[b] != number[c]
  {
    number := map[];
    var rest := elements;
    while rest != {}
      invariant rest <= elements && number.Keys == elements - rest
      invariant forall b :: b in number ==> |rest| <= number[b] < |elements|
      invariant forall b, c :: b in number && c in number && b != c ==> number[b] != number[c]
      decreases |rest|
    {
      var b :| b in rest;
      rest := rest - {b};
      number := number[b := |rest|];
    }
  }

  /** Makes a pool over a memory map whose range is set. */
  method CreatePool(heap: Heap, count: nat, size: nat, mmap: Mmap) returns (r: Result<Pool>)
    requires heap.Valid() && mmap in heap.mmaps
    modifies heap`bufs, heap`inventories
    ensures heap.Valid() && heap.Live() == old(heap.Live())
    ensures r.Ok? <==> count > 0 && size > 0 && mmap.range.Some?
    ensures r.Err? ==> r.error == InvalidValue && unchanged(heap)
    ensures r.Ok? ==> var p := r.value;
                      && fresh(p) && p.heap == heap && p.mmap == mmap && p.count == count && p.size == size
                      && p.Valid() && !p.started && p.Allocated() == {} && fresh(p.inventory)
  {
    if count == 0 || size == 0 || mmap.range.None? { return Err(InvalidValue); }
    var v, number := MakeDescriptors(heap, count);
    var p := new Pool(heap, v, mmap, count, size, number);
    return Ok(p);
  }

  method StartedInventory(heap: Heap, count: nat) returns (v: Inventory)
    requires heap.Valid()
    modifies heap`bufs, heap`inventories
    ensures heap.Valid() && heap.Live() == old(heap.Live()) && fresh(v) && v in heap.inventories
    ensures v.started && v.total == count == |v.free| && v.elements == v.free <= heap.bufs
    ensures forall b :: b in v.free ==> b.refcount == 0
  {
    v := heap.InventoryCreate(count);
    heap.InventoryStart(v);
  }

  method MakeDescriptors(heap: Heap, count: nat) returns (v: Inventory, number: map<Buf, nat>)
    requires heap.Valid()
    modifies heap`bufs, heap`inventories
    ensures heap.Valid() && heap.Live() == old(heap.Live()) && fresh(v) && v in heap.inventories
    ensures v.started && v.total == count && v.elements == number.Keys <= heap.bufs
    ensures forall b :: b in number ==> number[b] < count && b.refcount == 0
    ensures forall b, c :: b in number && c in number && b != c ==> number[b] != number[c]
  {
    v := StartedInventory(heap, count);
    number := Number(v.free);
  }
}
