/**
 The arithmetic of src/include/mem.h, and what it means for a set of objects to be laid out on the
 1024 pages of the kernel heap.
 */
module HeapLayout {
  import opened PowersOfTwo
  import opened Bitmap
  import opened LittleEndian

  const HEAP_ENTRY: nat := 1024
  const HEAP_BITMAP_ENTRY: nat := HEAP_ENTRY / BITS_LONG
  const HEAP_PAGE_SIZE: nat := 0x1000
  const MAX_HEAP_ENTRY: nat := 32
  const HEAP_HEADER_SIZE: nat := 4

  // ---------- sizes and orders ----------

  function RequestSizeRaw(size: word): nat {
    if size % HEAP_PAGE_SIZE != 0 then size / HEAP_PAGE_SIZE + 1 else size / HEAP_PAGE_SIZE
  }

  /** 0 for 0, else the 1-based index of the lowest set bit. */
  function Ffs(w: nat): nat {
    if w == 0 then 0 else if w % 2 == 1 then 1 else 1 + Ffs(w / 2)
  }

  /** 0 for 0, else the 1-based index of the highest set bit. */
  function Fls(w: nat): nat {
    if w == 0 then 0 else 1 + Fls(w / 2)
  }

  /** `alloc_request_order`: -1 for size 0. */
  function AllocRequestOrder(size: word): int {
    var raw := RequestSizeRaw(size);
    if Ffs(raw) == Fls(raw) then Fls(raw) - 1 else Fls(raw)
  }

  lemma {:induction false} FlsBrackets(w: nat)
    requires w > 0
    ensures Fls(w) > 0 && Pow2(Fls(w) - 1) <= w < Pow2(Fls(w))
  {
    if w == 1 {
      assert Fls(1) == 1;
    } else {
      FlsBrackets(w / 2);
    }
  }

  /** The two indices agree exactly on powers of two. */
  lemma {:induction false} SingleBit(w: nat)
    requires w > 0
    ensures 0 < Ffs(w) <= Fls(w)
    ensures Ffs(w) == Fls(w) <==> w == Pow2(Fls(w) - 1)
  {
    FlsBrackets(w);
    if w == 1 {
      assert Fls(1) == 1;
    } else {
      SingleBit(w / 2);
      FlsBrackets(w / 2);
    }
  }

  /** The order is that of the least power of two of pages that covers the size. */
  lemma OrderIsLeast(size: word)
    requires size > 0
    ensures AllocRequestOrder(size) >= 0
    ensures HEAP_PAGE_SIZE * Pow2(AllocRequestOrder(size)) >= size
    ensures forall k: nat :: HEAP_PAGE_SIZE * Pow2(k) >= size ==> k >= AllocRequestOrder(size)
    ensures Pow2(AllocRequestOrder(size)) < 2 * RequestSizeRaw(size)
  {
    var raw := RequestSizeRaw(size);
    FlsBrackets(raw);
    SingleBit(raw);
    var order := AllocRequestOrder(size);
    forall k: nat | HEAP_PAGE_SIZE * Pow2(k) >= size
      ensures k >= order
    {
      assert Pow2(k) >= raw;
      if k < order {
        Pow2Monotone(k, order - 1);
      }
    }
  }

  /** `size == 0 || REQ_PAGE_NUM(size) > MAX_HEAP_ENTRY` is what `__alloc` turns away. */
  predicate Accepted(size: nat) {
    size != 0 && size / HEAP_PAGE_SIZE <= MAX_HEAP_ENTRY
  }

  /** The order of the region of an object of `size` data bytes, header included. */
  function OrderOf(size: nat): (order: nat)
    requires Accepted(size)
    ensures order <= 6
    ensures HEAP_HEADER_SIZE + size <= HEAP_PAGE_SIZE * Pow2(order)
  {
    OrderIsLeast(HEAP_HEADER_SIZE + size);
    assert Pow2(6) == 64;
    AllocRequestOrder(HEAP_HEADER_SIZE + size)
  }

  // ---------- layout ----------

  /** The live objects: the data bytes of each, by the first page of its region. */
  type Objects = map<nat, seq<byte>>

  /** Object `i` is acceptable and sits in a region aligned to its own size, inside the heap. */
  ghost predicate Placed(live: Objects, i: nat) {
    i in live && Accepted(|live[i]|) && Aligned(i, OrderOf(|live[i]|), HEAP_BITMAP_ENTRY)
  }

  /** The pages of object `i`. */
  ghost function PagesOf(live: Objects, i: nat): set<nat> {
    if Placed(live, i) then Region(i, OrderOf(|live[i]|)) else {}
  }

  /** Page p lies in the region of some object. */
  ghost predicate Owned(live: Objects, p: nat) {
    exists i :: p in PagesOf(live, i)
  }

  /** Every object is placed, no page lies in two regions, and the set pages are those that lie in one. */
  ghost predicate Layout(live: Objects, bits: set<nat>) {
    && (forall i {:trigger Placed(live, i)} :: i in live ==> Placed(live, i))
    && (forall i, j, p :: p in PagesOf(live, i) && p in PagesOf(live, j) ==> i == j)
    && (forall p {:trigger Owned(live, p)} :: p in bits <==> Owned(live, p))
  }

  lemma PagesInBits(live: Objects, bits: set<nat>, i: nat)
    requires Layout(live, bits) && i in live
    ensures Placed(live, i) && PagesOf(live, i) == Region(i, OrderOf(|live[i]|)) <= bits
  {
    assert Placed(live, i);
    forall p | p in PagesOf(live, i)
      ensures p in bits
    {
      assert Owned(live, p);
    }
  }

  lemma LayoutAdd(live: Objects, bits: set<nat>, i: nat, data: seq<byte>)
    requires Layout(live, bits) && Accepted(|data|) && Aligned(i, OrderOf(|data|), HEAP_BITMAP_ENTRY)
    requires Region(i, OrderOf(|data|)) !! bits
    ensures i !in live && Layout(live[i := data], bits + Region(i, OrderOf(|data|)))
  {
    var live' := live[i := data];
    assert i in Region(i, OrderOf(|data|));
    if i in live {
      PagesInBits(live, bits, i);
    }
    assert Placed(live', i);
    forall j
      ensures PagesOf(live', j) == if j == i then Region(i, OrderOf(|data|)) else PagesOf(live, j)
    {
      assert j != i ==> (Placed(live', j) <==> Placed(live, j));
    }
    forall p
      ensures p in bits + Region(i, OrderOf(|data|)) <==> Owned(live', p)
    {
      if p in bits {
        var j :| p in PagesOf(live, j) by { assert Owned(live, p); }
        assert p in PagesOf(live', j);
      } else {
        assert !Owned(live, p);
        assert p in PagesOf(live', i) <==> p in Region(i, OrderOf(|data|));
      }
    }
    forall j | j in live'
      ensures Placed(live', j)
    {
      assert j != i ==> Placed(live, j);
    }
    forall j, k, p | p in PagesOf(live', j) && p in PagesOf(live', k)
      ensures j == k
    {
      assert j != i ==> Owned(live, p);
      assert k != i ==> Owned(live, p);
    }
  }

  lemma LayoutRemove(live: Objects, bits: set<nat>, i: nat)
    requires Layout(live, bits) && i in live
    ensures Layout(live - {i}, bits - PagesOf(live, i))
  {
    var live' := live - {i};
    forall j
      ensures PagesOf(live', j) == if j == i then {} else PagesOf(live, j)
    {
      assert Placed(live', j) <==> Placed(live, j) && j != i;
    }
    forall p
      ensures p in bits - PagesOf(live, i) <==> Owned(live', p)
    {
      if p in bits - PagesOf(live, i) {
        var j :| p in PagesOf(live, j) by { assert Owned(live, p); }
        assert p in PagesOf(live', j);
      }
      if Owned(live', p) {
        var j :| p in PagesOf(live', j);
        assert p in PagesOf(live, j);
        assert Owned(live, p);
      }
    }
    forall j | j in live'
      ensures Placed(live', j)
    {
      assert Placed(live, j);
    }
  }

  lemma {:induction false} RegionCard(pos: nat, n: nat, s: set<nat>)
    requires forall p :: p in s <==> pos <= p < pos + n
    ensures |s| == n
    decreases n
  {
    if n == 0 {
      assert s == {};
    } else {
      RegionCard(pos, n - 1, s - {pos + n - 1});
    }
  }

  lemma RegionSize(pos: nat, order: nat)
    ensures |Region(pos, order)| == Pow2(order)
  {
    RegionCard(pos, Pow2(order), Region(pos, order));
  }

  /** Of two objects, the one with the lower first page ends before the other's pages begin. */
  lemma ObjectsApart(live: Objects, bits: set<nat>, i: nat, j: nat)
    requires Layout(live, bits) && i in live && j in live && i < j
    ensures Placed(live, i) && i + Pow2(OrderOf(|live[i]|)) <= j
  {
    assert Placed(live, i) && Placed(live, j);
    assert j in PagesOf(live, j);
    assert j !in PagesOf(live, i);
  }

  /** The pages of all live objects together. */
  ghost function TotalPages(live: Objects): nat
    requires forall i :: i in live ==> Accepted(|live[i]|)
    decreases |live|
  {
    if live == map[] then 0
    else
      var i :| i in live;
      Pow2(OrderOf(|live[i]|)) + TotalPages(live - {i})
  }

  /** Conservation: the set pages are exactly as many as the live objects take. */
  lemma {:induction false} PagesAreConserved(live: Objects, bits: set<nat>)
    requires Layout(live, bits)
    ensures forall i :: i in live ==> Accepted(|live[i]|)
    ensures |bits| == TotalPages(live)
    decreases |live|
  {
    forall i | i in live
      ensures Accepted(|live[i]|)
    {
      assert Placed(live, i);
    }
    if live == map[] {
      forall p
        ensures p !in bits
      {
        assert !Owned(live, p);
      }
      assert bits == {};
    } else {
      var i :| i in live && TotalPages(live) == Pow2(OrderOf(|live[i]|)) + TotalPages(live - {i});
      PagesInBits(live, bits, i);
      LayoutRemove(live, bits, i);
      RegionSize(i, OrderOf(|live[i]|));
      PagesAreConserved(live - {i}, bits - PagesOf(live, i));
    }
  }

  /** A set page belongs to exactly one object, and every page of an object is set. */
  lemma OneOwner(live: Objects, bits: set<nat>, p: nat)
    requires Layout(live, bits)
    ensures p in bits <==>
      exists i :: i in live && p in PagesOf(live, i) && forall j :: p in PagesOf(live, j) ==> j == i
  {
    assert p in bits <==> Owned(live, p);
    if Owned(live, p) {
      var i :| p in PagesOf(live, i);
      assert i in live && forall j :: p in PagesOf(live, j) ==> j == i;
    }
  }

  /** The documented limit of 32 pages an object is kept exactly by the sizes that leave room for the header. */
  lemma PageLimit(size: nat)
    requires Accepted(size)
    ensures Pow2(OrderOf(size)) <= MAX_HEAP_ENTRY <==> HEAP_HEADER_SIZE + size <= MAX_HEAP_ENTRY * HEAP_PAGE_SIZE
    ensures Pow2(OrderOf(size)) <= 2 * MAX_HEAP_ENTRY
    ensures Pow2(OrderOf(size)) < 2 * RequestSizeRaw(HEAP_HEADER_SIZE + size)
  {
    OrderIsLeast(HEAP_HEADER_SIZE + size);
    Pow2Monotone(OrderOf(size), 6);
    assert Pow2(6) == 64 && Pow2(5) == MAX_HEAP_ENTRY;
    if HEAP_HEADER_SIZE + size <= MAX_HEAP_ENTRY * HEAP_PAGE_SIZE {
      Pow2Monotone(OrderOf(size), 5);
    } else if OrderOf(size) <= 5 {
      Pow2Monotone(OrderOf(size), 5);
    }
  }

  /** The limit is passed: 32 whole pages of data are accepted and take 64. */
  lemma PageLimitPassed()
    ensures Accepted(MAX_HEAP_ENTRY * HEAP_PAGE_SIZE) &&
      Pow2(OrderOf(MAX_HEAP_ENTRY * HEAP_PAGE_SIZE)) == 2 * MAX_HEAP_ENTRY
  {
    PageLimit(MAX_HEAP_ENTRY * HEAP_PAGE_SIZE);
    var order := OrderOf(MAX_HEAP_ENTRY * HEAP_PAGE_SIZE);
    assert Pow2(5) == MAX_HEAP_ENTRY;
    if order <= 5 {
      Pow2Monotone(order, 5);
    }
    assert order == 6;
  }
}
