/** The kernel heap allocator of src/mem.c. */
module Heap {
  import opened PowersOfTwo
  import opened Bitmap
  import opened LittleEndian
  import opened Paging
  import opened HeapLayout
  import opened Splices

  const NULL: word := 0

  function HeapVirtAddr(idx: nat): word
    requires idx < HEAP_ENTRY
  {
    HEAP_VIRT_TOP + idx * HEAP_PAGE_SIZE
  }

  function HeapPhysAddr(idx: nat): word
    requires idx < HEAP_ENTRY
  {
    HEAP_PHYS_TOP + idx * HEAP_PAGE_SIZE
  }

  /** The data pointer of an object whose region starts at page `idx`. */
  function PointerTo(idx: nat): word
    requires idx < HEAP_ENTRY
  {
    HeapVirtAddr(idx) + HEAP_HEADER_SIZE
  }

  /** `get_alloc_idx` */
  function GetAllocIdx(ptr: word): nat
    requires ptr >= HEAP_VIRT_TOP + HEAP_HEADER_SIZE
  {
    (ptr - HEAP_HEADER_SIZE - HEAP_VIRT_TOP) / HEAP_PAGE_SIZE
  }

  lemma AllocIdxOfPointer(idx: nat)
    requires idx < HEAP_ENTRY
    ensures GetAllocIdx(PointerTo(idx)) == idx && PteIndex(HeapVirtAddr(idx)) == idx
  {
  }

  /** Where the header and the data of the object at page `i` lie in the heap. */
  function HeaderAt(i: nat): nat {
    i * HEAP_PAGE_SIZE
  }

  function DataAt(i: nat): nat {
    i * HEAP_PAGE_SIZE + HEAP_HEADER_SIZE
  }

  lemma ObjectInHeap(i: nat, size: nat)
    requires Accepted(size) && Aligned(i, OrderOf(size), HEAP_BITMAP_ENTRY)
    ensures i < HEAP_ENTRY && DataAt(i) + size <= (i + Pow2(OrderOf(size))) * HEAP_PAGE_SIZE <= HEAP_SIZE
  {
  }

  /** Object `i` is in memory: its total size in the header word, its data behind it. */
  ghost predicate Stored(mem: seq<byte>, i: nat, data: seq<byte>) {
    && Accepted(|data|) && DataAt(i) + |data| <= |mem|
    && Slice(mem, HeaderAt(i), HEAP_HEADER_SIZE) == Bytes32(HEAP_HEADER_SIZE + |data|)
    && Slice(mem, DataAt(i), |data|) == data
  }

  ghost predicate AllStored(mem: seq<byte>, live: Objects) {
    forall i {:trigger Stored(mem, i, live[i])} :: i in live ==> Stored(mem, i, live[i])
  }

  /** Overwriting bytes inside the pages of one object leaves header and data of every other object alone. */
  lemma OthersUntouched(mem: seq<byte>, live: Objects, bits: set<nat>, i: nat, at: nat, b: seq<byte>, j: nat)
    requires |mem| == HEAP_SIZE && Layout(live, bits) && i in live && j in live && j != i && Stored(mem, j, live[j])
    requires Placed(live, i) && HeaderAt(i) <= at &&
      at + |b| <= (i + Pow2(OrderOf(|live[i]|))) * HEAP_PAGE_SIZE <= HEAP_SIZE
    ensures Stored(Splice(mem, at, b), j, live[j])
  {
    assert Placed(live, j);
    ObjectInHeap(j, |live[j]|);
    if i < j {
      ObjectsApart(live, bits, i, j);
      MulMonotone(i + Pow2(OrderOf(|live[i]|)), j, HEAP_PAGE_SIZE);
    } else {
      ObjectsApart(live, bits, j, i);
      MulMonotone(j + Pow2(OrderOf(|live[j]|)), i, HEAP_PAGE_SIZE);
    }
    SliceOfSplice(mem, at, b, HeaderAt(j), HEAP_HEADER_SIZE);
    SliceOfSplice(mem, at, b, DataAt(j), |live[j]|);
  }

  /** Installing a header in a free region adds an object there, with whatever bytes lie behind the header. */
  lemma AddObject(mem: seq<byte>, live: Objects, bits: set<nat>, i: nat, size: nat)
    requires |mem| == HEAP_SIZE && Layout(live, bits) && AllStored(mem, live)
    requires Accepted(size) && Aligned(i, OrderOf(size), HEAP_BITMAP_ENTRY) && Region(i, OrderOf(size)) !! bits
    ensures DataAt(i) + size <= HEAP_SIZE
    ensures var live' := live[i := Slice(mem, DataAt(i), size)];
      && i !in live && Layout(live', bits + Region(i, OrderOf(size)))
      && AllStored(Splice(mem, HeaderAt(i), Bytes32(HEAP_HEADER_SIZE + size)), live')
  {
    ObjectInHeap(i, size);
    var data, b := Slice(mem, DataAt(i), size), Bytes32(HEAP_HEADER_SIZE + size);
    LayoutAdd(live, bits, i, data);
    var live', mem' := live[i := data], Splice(mem, HeaderAt(i), b);
    assert Placed(live', i);
    forall j | j in live'
      ensures Stored(mem', j, live'[j])
    {
      if j == i {
        SliceOfSplice(mem, HeaderAt(i), b, HeaderAt(i), HEAP_HEADER_SIZE);
        SliceOfSplice(mem, HeaderAt(i), b, DataAt(i), size);
      } else {
        assert Stored(mem, j, live[j]);
        OthersUntouched(mem, live', bits + Region(i, OrderOf(size)), i, HeaderAt(i), b, j);
      }
    }
  }

  /** The layout depends on sizes only. */
  lemma LayoutBySizes(live: Objects, bits: set<nat>, i: nat, data: seq<byte>)
    requires Layout(live, bits) && i in live && |data| == |live[i]|
    ensures Layout(live[i := data], bits)
  {
    var live' := live[i := data];
    forall j
      ensures Placed(live', j) <==> Placed(live, j)
      ensures PagesOf(live', j) == PagesOf(live, j)
    {
    }
    forall p
      ensures Owned(live', p) <==> Owned(live, p)
    {
      if Owned(live, p) {
        var j :| p in PagesOf(live, j);
        assert p in PagesOf(live', j);
      }
      if Owned(live', p) {
        var j :| p in PagesOf(live', j);
        assert p in PagesOf(live, j);
      }
    }
  }

  /** Writing inside the data of one object changes that object there, and no other. */
  lemma WriteObject(mem: seq<byte>, live: Objects, bits: set<nat>, i: nat, off: nat, b: seq<byte>)
    requires |mem| == HEAP_SIZE && Layout(live, bits) && AllStored(mem, live)
    requires i in live && off + |b| <= |live[i]|
    ensures DataAt(i) + off + |b| <= HEAP_SIZE
    ensures var live' := live[i := Splice(live[i], off, b)];
      && Layout(live', bits) && AllStored(Splice(mem, DataAt(i) + off, b), live')
  {
    assert Placed(live, i);
    ObjectInHeap(i, |live[i]|);
    var live', mem' := live[i := Splice(live[i], off, b)], Splice(mem, DataAt(i) + off, b);
    LayoutBySizes(live, bits, i, live'[i]);
    forall j | j in live'
      ensures Stored(mem', j, live'[j])
    {
      assert Stored(mem, j, live[j]);
      if j == i {
        SliceOfSplice(mem, DataAt(i) + off, b, HeaderAt(i), HEAP_HEADER_SIZE);
        SpliceInSlice(mem, DataAt(i), |live[i]|, off, b);
      } else {
        OthersUntouched(mem, live, bits, i, DataAt(i) + off, b, j);
      }
    }
  }

  /** Freeing an object leaves the others stored. */
  lemma RemoveObject(mem: seq<byte>, live: Objects, bits: set<nat>, i: nat)
    requires Layout(live, bits) && AllStored(mem, live) && i in live
    ensures Layout(live - {i}, bits - PagesOf(live, i)) && AllStored(mem, live - {i})
  {
    LayoutRemove(live, bits, i);
    forall j | j in live - {i}
      ensures Stored(mem, j, (live - {i})[j])
    {
      assert Stored(mem, j, live[j]);
    }
  }

  /** `size` bytes that agree with the old data as far as both go. */
  ghost predicate Resized(data: seq<byte>, data': seq<byte>, size: nat) {
    && |data'| == size
    && var n := if |data| < size then |data| else size; data'[..n] == data[..n]
  }

  lemma ResizedBytes(data: seq<byte>, data': seq<byte>, size: nat)
    requires Resized(data, data', size)
    ensures |data'| == size && forall k :: 0 <= k < size && k < |data| ==> data'[k] == data[k]
  {
    var n := if |data| < size then |data| else size;
    forall k | 0 <= k < n
      ensures data'[k] == data[k]
    {
      assert data'[..n][k] == data[..n][k];
    }
  }

  /** The live objects along `realloc`: j is added, filled from i, and i dropped. */
  lemma MovedTo(live: Objects, i: nat, j: nat, data: seq<byte>, n: nat)
    requires i in live && j !in live && n == if |live[i]| < |data| then |live[i]| else |data|
    ensures var data' := Splice(data, 0, live[i][..n]);
      && live[j := data][j := data'] - {i} == live[j := data'] - {i}
      && Resized(live[i], data', |data|)
  {
  }

  lemma OneLess<K, V>(m: map<K, V>, k: K)
    requires k in m
    ensures |m - {k}| == |m| - 1
  {
    assert m.Keys == (m - {k}).Keys + {k};
  }

  /** Page-table entries are present exactly for the set pages, and then point to the page's own frame. */
  ghost predicate Mapped(table: seq<word>, bits: set<nat>)
    requires |table| == HEAP_ENTRY
  {
    forall p :: 0 <= p < HEAP_ENTRY ==>
      && (Present(table[p]) <==> p in bits)
      && (Present(table[p]) ==> table[p] == SmallPageEntry(HeapPhysAddr(p)))
  }

  lemma PageEntryPresent(p: nat)
    requires p < HEAP_ENTRY
    ensures Present(SmallPageEntry(HeapPhysAddr(p)))
    ensures SmallFrame(SmallPageEntry(HeapPhysAddr(p))) == 0x200_0000 + 0x1000 * p
    ensures SmallPageEntry(HeapPhysAddr(p)) == 0x200_0000 + 0x1000 * p + 7
  {
    assert HeapPhysAddr(p) % 0x1000 == 0;
    SmallPageFlags(0x2000 + p, SmallPageEntry(HeapPhysAddr(p)));
    hide SmallPageEntry, Flag;
  }

  lemma MapRegion(table: seq<word>, table': seq<word>, bits: set<nat>, idx: nat, order: nat)
    requires |table| == |table'| == HEAP_ENTRY && Mapped(table, bits)
    requires forall p :: 0 <= p < HEAP_ENTRY ==>
      table'[p] == if idx <= p < idx + Pow2(order) then SmallPageEntry(HeapPhysAddr(p)) else table[p]
    ensures Mapped(table', bits + Region(idx, order))
    ensures forall p :: 0 <= p < HEAP_ENTRY && idx <= p < idx + Pow2(order) ==> table'[p] == 0x200_0000 + 0x1000 * p + 7
  {
    forall p | 0 <= p < HEAP_ENTRY
      ensures Present(table'[p]) <==> p in bits + Region(idx, order)
      ensures Present(table'[p]) ==> table'[p] == SmallPageEntry(HeapPhysAddr(p)) == 0x200_0000 + 0x1000 * p + 7
    {
      PageEntryPresent(p);
    }
  }

  lemma UnmapRegion(table: seq<word>, table': seq<word>, bits: set<nat>, idx: nat, order: nat)
    requires |table| == |table'| == HEAP_ENTRY && Mapped(table, bits)
    requires forall p :: 0 <= p < HEAP_ENTRY ==>
      table'[p] == if idx <= p < idx + Pow2(order) then ClearPresent(table[p]) else table[p]
    ensures Mapped(table', bits - Region(idx, order))
  {
  }

  /** Marking a free region adds its size to the number of set pages; clearing it takes that many away. */
  lemma RegionCount(bits: set<nat>, idx: nat, order: nat)
    ensures Region(idx, order) !! bits ==> |bits + Region(idx, order)| == |bits| + Pow2(order)
    ensures Region(idx, order) <= bits ==> |bits - Region(idx, order)| == |bits| - Pow2(order)
  {
    RegionSize(idx, order);
  }

  /** No aligned region of this order is free. */
  ghost predicate NoFit(words: seq<word>, order: nat) {
    forall p: nat :: !FreeAt(words, p, order)
  }

  /** The lowest aligned region of free pages. */
  ghost predicate FirstFit(words: seq<word>, idx: nat, order: nat) {
    && idx + Pow2(order) <= HEAP_ENTRY
    && FreeAt(words, idx, order)
    && forall p: nat :: p < idx ==> !FreeAt(words, p, order)
  }

  lemma EmptyBitmap(words: seq<word>)
    requires forall j :: 0 <= j < |words| ==> words[j] == 0
    ensures Bits(words) == {}
  {
    forall p: nat | p < BITS_LONG * |words|
      ensures !BitAt(words, p)
    {
      ZeroBit(p % BITS_LONG);
    }
  }

  lemma HeapHoldsWholeRegions(order: nat)
    requires order <= 6
    ensures HEAP_ENTRY % Pow2(order) == 0
  {
    Pow2Add(order, 10 - order);
    assert Pow2(10) == HEAP_ENTRY;
    MultipleMod(Pow2(order), Pow2(10 - order));
  }

  /** The page of a byte between the first and the last of a region. */
  lemma PageOfByte(i: nat, at: nat, order: nat)
    requires i * HEAP_PAGE_SIZE <= at < (i + Pow2(order)) * HEAP_PAGE_SIZE
    ensures at / 0x1000 in Region(i, order)
  {
  }

  lemma ReachedByte(p: nat, at: nat, user: bool, write: bool)
    requires p < HEAP_ENTRY && p == at / 0x1000
    ensures (0x80_0000 + at) / 0x1000 % 0x400 == p
    ensures WalkTable(SmallPageEntry(HeapPhysAddr(p)), 0x80_0000 + at, user, write) == Reached(0x200_0000 + at)
  {
    SmallPageIsWalked(HeapPhysAddr(p), 0x80_0000 + at, user, write);
    hide SmallPageEntry, WalkTable;
  }

  class KernelHeap {
    const heapMap: array<word>
    const heapPageTable: array<word>
    const mem: array<byte>
    var pageAlloc: nat
    var objAlloc: nat
    /** What programs can see of the heap. */
    ghost var live: Objects

    ghost predicate Shape()
    {
      && heapMap.Length == HEAP_BITMAP_ENTRY && heapPageTable.Length == NUM_PTE && mem.Length == HEAP_SIZE
      && heapMap != heapPageTable && mem as object != heapMap && mem as object != heapPageTable
    }

    /** Bitmap, page table, headers, data, counters and the set of live objects tell one story. */
    ghost predicate Valid()
      reads this, heapMap, heapPageTable, mem
    {
      && Shape()
      && Layout(live, Bits(heapMap[..]))
      && Mapped(heapPageTable[..], Bits(heapMap[..]))
      && AllStored(mem[..], live)
      && pageAlloc == |Bits(heapMap[..])|
      && objAlloc == |live|
    }

    /** Different set pages are different frames of the 4 MB behind `HEAP_PHYS_TOP`. */
    lemma FramesDiffer(p: nat, q: nat)
      requires Valid() && p in Bits(heapMap[..]) && q in Bits(heapMap[..]) && p != q
      ensures p < HEAP_ENTRY && q < HEAP_ENTRY && SmallFrame(heapPageTable[p]) != SmallFrame(heapPageTable[q])
      ensures SmallFrame(heapPageTable[p]) % 0x1000 == 0
      ensures 0x200_0000 <= SmallFrame(heapPageTable[p]) < 0x240_0000
    {
      PageEntryPresent(p);
      PageEntryPresent(q);
      assert heapPageTable[..][p] == heapPageTable[p] && heapPageTable[..][q] == heapPageTable[q];
    }

    /** What an access to a heap address comes to: the page table is the one of the 4 MB at `HEAP_VIRT_TOP`. */
    function AccessTo(virt: word, user: bool, write: bool): Access
      requires heapPageTable.Length == NUM_PTE
      reads heapPageTable
    {
      WalkTable(heapPageTable[virt / 0x1000 % 0x400], virt, user, write)
    }

    /** A byte of an object is in memory at its place behind the pointer, and is reached there through its own page. */
    lemma ByteOfObject(i: nat, k: nat, user: bool, write: bool)
      requires Valid() && i in live && i < HEAP_ENTRY && k < |live[i]|
      ensures PointerTo(i) == 0x80_0000 + 0x1000 * i + 4 && PointerTo(i) + k < 0xC0_0000
      ensures mem[PointerTo(i) + k - 0x80_0000] == live[i][k]
      ensures AccessTo(PointerTo(i) + k, user, write) == Reached(0x200_0000 + (PointerTo(i) + k - 0x80_0000))
    {
      PagesInBits(live, Bits(heapMap[..]), i);
      ObjectInHeap(i, |live[i]|);
      assert Stored(mem[..], i, live[i]);
      assert Slice(mem[..], DataAt(i), |live[i]|)[k] == mem[DataAt(i) + k];
      var at := DataAt(i) + k;
      PageOfByte(i, at, OrderOf(|live[i]|));
      var p := at / 0x1000;
      assert heapPageTable[..][p] == heapPageTable[p] == SmallPageEntry(HeapPhysAddr(p));
      hide KernelHeap.Valid, OrderOf;
      ReachedByte(p, at, user, write);
    }

    /** Different bytes of live objects are different bytes of the machine's memory. */
    lemma BytesApart(i: nat, k: nat, j: nat, l: nat)
      requires Valid() && i in live && i < HEAP_ENTRY && k < |live[i]| && j in live && j < HEAP_ENTRY && l < |live[j]|
      requires i != j || k != l
      ensures PointerTo(i) + k < 0xC0_0000 && PointerTo(j) + l < 0xC0_0000
      ensures AccessTo(PointerTo(i) + k, true, true) != AccessTo(PointerTo(j) + l, true, true)
    {
      ByteOfObject(i, k, true, true);
      ByteOfObject(j, l, true, true);
      if i < j {
        ObjectsApart(live, Bits(heapMap[..]), i, j);
        ObjectInHeap(i, |live[i]|);
      } else if j < i {
        ObjectsApart(live, Bits(heapMap[..]), j, i);
        ObjectInHeap(j, |live[j]|);
      }
    }

    /** `heap_init` */
    constructor ()
      ensures Valid() && live == map[] && fresh(heapMap) && fresh(heapPageTable) && fresh(mem)
    {
      heapMap := new word[HEAP_BITMAP_ENTRY](_ => 0);
      heapPageTable := new word[NUM_PTE](_ => 0);
      mem := new byte[HEAP_SIZE](_ => 0);
      pageAlloc, objAlloc := 0, 0;
      live := map[];
      new;
      EmptyBitmap(heapMap[..]);
    }

    /** `create_heap_pages` */
    method CreateHeapPages(startIdx: nat, numPages: nat) returns (addr: word)
      requires Shape() && startIdx + numPages <= HEAP_ENTRY && numPages > 0
      modifies heapPageTable
      ensures addr == HeapVirtAddr(startIdx)
      ensures forall p :: 0 <= p < HEAP_ENTRY ==>
        heapPageTable[p] == if startIdx <= p < startIdx + numPages then SmallPageEntry(HeapPhysAddr(p))
            else old(heapPageTable[p])
      ensures forall p :: startIdx <= p < startIdx + numPages ==> heapPageTable[p] == 0x200_0000 + 0x1000 * p + 7
    {
      forall p | 0 <= p < HEAP_ENTRY
        ensures SmallPageEntry(HeapPhysAddr(p)) == 0x200_0000 + 0x1000 * p + 7
      {
        PageEntryPresent(p);
      }
      hide SmallPageEntry, HeapPhysAddr;
      var i, idx := 0, startIdx;
      while i < numPages
        invariant 0 <= i <= numPages && idx == startIdx + i
        invariant forall p :: 0 <= p < HEAP_ENTRY ==>
          heapPageTable[p] == if startIdx <= p < idx then SmallPageEntry(HeapPhysAddr(p)) else old(heapPageTable[p])
      {
        AllocIdxOfPointer(idx);
        SetVirtual4kbHeap(heapPageTable, HeapPhysAddr(idx), HeapVirtAddr(idx));
        i, idx := i + 1, idx + 1;
      }
      return HeapVirtAddr(startIdx);
    }

    /** `destroy_heap_pages` */
    method DestroyHeapPages(startIdx: nat, numPages: nat)
      requires Shape() && startIdx + numPages <= HEAP_ENTRY
      modifies heapPageTable
      ensures forall p :: 0 <= p < HEAP_ENTRY ==>
        heapPageTable[p] == if startIdx <= p < startIdx + numPages then ClearPresent(old(heapPageTable[p]))
            else old(heapPageTable[p])
    {
      var i, idx := 0, startIdx;
      while i < numPages
        invariant 0 <= i <= numPages && idx == startIdx + i
        invariant forall p :: 0 <= p < HEAP_ENTRY ==>
          heapPageTable[p] == if startIdx <= p < idx then ClearPresent(old(heapPageTable[p])) else old(heapPageTable[p])
      {
        AllocIdxOfPointer(idx);
        FreeVirtual4kbHeap(heapPageTable, HeapVirtAddr(idx));
        i, idx := i + 1, idx + 1;
      }
    }

    /** `alloc_request_pages`: the address of the first page, or the number ENOMEM. The ghost result is that page. */
    method AllocRequestPages(size: word) returns (addr: word, ghost idx: nat)
      requires Shape() && size > 0 && AllocRequestOrder(size) <= 6
      requires Mapped(heapPageTable[..], Bits(heapMap[..])) && pageAlloc == |Bits(heapMap[..])|
      modifies heapMap, heapPageTable, this`pageAlloc, this`objAlloc
      ensures Mapped(heapPageTable[..], Bits(heapMap[..])) && pageAlloc == |Bits(heapMap[..])|
      ensures AllocRequestOrder(size) >= 0
      ensures addr == ENOMEM ==>
        objAlloc == old(objAlloc) && heapMap[..] == old(heapMap[..]) && heapPageTable[..] == old(heapPageTable[..])
      ensures addr == ENOMEM ==> NoFit(old(heapMap[..]), AllocRequestOrder(size))
      ensures addr != ENOMEM ==>
        && FirstFit(old(heapMap[..]), idx, AllocRequestOrder(size)) && addr == HeapVirtAddr(idx)
        && Bits(heapMap[..]) == old(Bits(heapMap[..])) + Region(idx, AllocRequestOrder(size))
        && objAlloc == old(objAlloc) + 1
    {
      hide Mapped, RoundUp, Pow2;
      OrderIsLeast(size);
      var order := AllocRequestOrder(size);
      HeapHoldsWholeRegions(order);
      RoundUpMultiple(HEAP_ENTRY, Pow2(order));
      var numPages := Pow2(order);
      var startIdx := FindFreeRegion(heapMap, HEAP_ENTRY, order);
      if startIdx == -ENOMEM {
        return ENOMEM, 0;
      }
      RegionCount(old(Bits(heapMap[..])), startIdx, order);
      var startAddr := CreateHeapPages(startIdx, numPages);
      pageAlloc := pageAlloc + numPages;
      objAlloc := objAlloc + 1;
      MapRegion(old(heapPageTable[..]), heapPageTable[..], old(Bits(heapMap[..])), startIdx, order);
      return startAddr, startIdx;
    }

    /** `free_request_pages`: bitmap, page table and counters give up the region the size stands for. */
    method FreeRequestPages(startIdx: nat, size: word)
      requires Shape() && size > 0 && AllocRequestOrder(size) >= 0 &&
        Aligned(startIdx, AllocRequestOrder(size), HEAP_BITMAP_ENTRY)
      requires Region(startIdx, AllocRequestOrder(size)) <= Bits(heapMap[..]) && objAlloc > 0
      requires Mapped(heapPageTable[..], Bits(heapMap[..])) && pageAlloc == |Bits(heapMap[..])|
      modifies heapMap, heapPageTable, this`pageAlloc, this`objAlloc
      ensures Mapped(heapPageTable[..], Bits(heapMap[..])) && pageAlloc == |Bits(heapMap[..])|
      ensures Bits(heapMap[..]) == old(Bits(heapMap[..])) - Region(startIdx, AllocRequestOrder(size))
      ensures objAlloc == old(objAlloc) - 1
    {
      var order := AllocRequestOrder(size);
      var numPages := Pow2(order);
      RegionCount(Bits(heapMap[..]), startIdx, order);
      ReleaseRegion(heapMap, startIdx, order);
      DestroyHeapPages(startIdx, numPages);
      UnmapRegion(old(heapPageTable[..]), heapPageTable[..], old(Bits(heapMap[..])), startIdx, order);
      pageAlloc := pageAlloc - numPages;
      objAlloc := objAlloc - 1;
    }

    /** Nothing about the heap has changed. */
    twostate predicate Untouched()
      reads this, heapMap, heapPageTable, mem
    {
      && live == old(live) && pageAlloc == old(pageAlloc) && objAlloc == old(objAlloc)
      && heapMap[..] == old(heapMap[..]) && heapPageTable[..] == old(heapPageTable[..]) && mem[..] == old(mem[..])
    }

    /** The outcome of asking for `size` bytes: refused exactly when the size is or nothing fits, else first fit. */
    twostate predicate Requested(ptr: word, size: word, i: nat)
      reads this, heapMap
    {
      && (ptr == NULL <==> size == 0 || size / 0x1000 > 32 || NoFit(old(heapMap[..]), OrderOf(size)))
      && (ptr != NULL ==>
          i !in old(live) && i < HEAP_ENTRY && ptr == PointerTo(i) && FirstFit(old(heapMap[..]), i, OrderOf(size)))
    }

    /** `__alloc`; the data of the new object is what its pages held. The ghost result is its first page. */
    method DoAlloc(size: word) returns (ptr: word, ghost i: nat)
      requires Valid()
      modifies this, heapMap, heapPageTable, mem
      ensures Valid()
      ensures Requested(ptr, size, i)
      ensures ptr == NULL ==> Untouched()
      ensures ptr != NULL ==>
        DataAt(i) + size <= HEAP_SIZE && live == old(live)[i := Slice(old(mem[..]), DataAt(i), size)]
      ensures ptr != NULL ==> Bits(heapMap[..]) == old(Bits(heapMap[..])) + Region(i, OrderOf(size))
    {
      if size == 0 || size / HEAP_PAGE_SIZE > MAX_HEAP_ENTRY {
        return NULL, 0;
      }
      var totalSize := HEAP_HEADER_SIZE + size;
      assert AllocRequestOrder(totalSize) == OrderOf(size);
      var pagePtr;
      pagePtr, i := AllocRequestPages(totalSize);
      if pagePtr == ENOMEM {
        return NULL, 0;
      }
      AddObject(mem[..], live, old(Bits(heapMap[..])), i, size);
      live := live[i := Slice(mem[..], DataAt(i), size)];
      CopyInto(mem, pagePtr - HEAP_VIRT_TOP, Bytes32(totalSize));
      return pagePtr + HEAP_HEADER_SIZE, i;
    }

    /** `malloc` */
    method Malloc(size: word) returns (ptr: word, ghost i: nat)
      requires Valid()
      modifies this, heapMap, heapPageTable, mem
      ensures Valid()
      ensures Requested(ptr, size, i)
      ensures ptr == NULL ==> Untouched()
      ensures ptr != NULL ==> i in live && |live[i]| == size && live == old(live)[i := live[i]]
    {
      ptr, i := DoAlloc(size);
    }

    /** A program, `memset` or `memcpy` storing bytes into an object. */
    method StoreData(ptr: word, off: nat, b: seq<byte>, ghost i: nat)
      requires Valid() && i in live && i < HEAP_ENTRY && ptr == PointerTo(i) && off + |b| <= |live[i]|
      modifies mem, this`live
      ensures Valid()
      ensures live == old(live)[i := Splice(old(live[i]), off, b)]
    {
      WriteObject(mem[..], live, Bits(heapMap[..]), i, off, b);
      CopyInto(mem, ptr - HEAP_VIRT_TOP + off, b);
      live := live[i := Splice(live[i], off, b)];
    }

    /** `calloc` */
    method Calloc(size: word) returns (ptr: word, ghost i: nat)
      requires Valid()
      modifies this, heapMap, heapPageTable, mem
      ensures Valid()
      ensures Requested(ptr, size, i)
      ensures ptr == NULL ==> Untouched()
      ensures ptr != NULL ==> live == old(live)[i := Repeated<byte>(0, size)]
    {
      ptr, i := DoAlloc(size);
      if ptr == NULL {
        return;
      }
      SpliceAll(live[i], Repeated<byte>(0, size));
      StoreData(ptr, 0, Repeated<byte>(0, size), i);
    }

    /** `malloc_info`: the header word in front of the data. */
    method MallocInfo(ptr: word, ghost i: nat) returns (size: word)
      requires Valid() && i in live && i < HEAP_ENTRY && ptr == PointerTo(i)
      ensures size == HEAP_HEADER_SIZE + |live[i]|
    {
      var at := ptr - HEAP_HEADER_SIZE - HEAP_VIRT_TOP;
      assert Stored(mem[..], i, live[i]);
      assert mem[..][at..at + HEAP_HEADER_SIZE] == Slice(mem[..], HeaderAt(i), HEAP_HEADER_SIZE);
      Word32RoundTrip(HEAP_HEADER_SIZE + |live[i]|);
      size := Word32(mem[at..at + HEAP_HEADER_SIZE]);
    }

    /** `free`: the region is recovered from the pointer and the header alone. */
    method Free(ptr: word, ghost i: nat)
      requires Valid() && (ptr != NULL ==> i in live && i < HEAP_ENTRY && ptr == PointerTo(i))
      modifies this, heapMap, heapPageTable
      ensures Valid()
      ensures ptr == NULL ==> Untouched()
      ensures ptr != NULL ==>
        live == old(live) - {i} && Bits(heapMap[..]) == old(Bits(heapMap[..])) - PagesOf(old(live), i)
    {
      if ptr == NULL {
        return;
      }
      var totalSize := MallocInfo(ptr, i);
      AllocIdxOfPointer(i);
      var startIdx := GetAllocIdx(ptr);
      ghost var rest, m := live - {i}, mem[..];
      PagesInBits(live, Bits(heapMap[..]), i);
      RemoveObject(m, live, Bits(heapMap[..]), i);
      OneLess(live, i);
      assert AllocRequestOrder(totalSize) == OrderOf(|live[i]|);
      FreeRequestPages(startIdx, totalSize);
      live := rest;
      assert mem[..] == m;
    }

    /** The copy inside `realloc`. */
    method CopyObject(ptr: word, newPtr: word, size: word, ghost i: nat, ghost j: nat)
      requires Valid() && i in live && i < HEAP_ENTRY && ptr == PointerTo(i)
      requires j in live && j < HEAP_ENTRY && newPtr == PointerTo(j) && |live[j]| == size
      modifies mem, this`live
      ensures Valid()
      ensures var n := if |old(live)[i]| < size then |old(live)[i]| else size;
        live == old(live)[j := Splice(old(live[j]), 0, old(live[i])[..n])]
    {
      var info := MallocInfo(ptr, i);
      var oldDataSize := info - HEAP_HEADER_SIZE;
      var cpySize := if oldDataSize < size then oldDataSize else size;
      var from := ptr - HEAP_VIRT_TOP;
      assert Stored(mem[..], i, live[i]);
      SlicePrefix(mem[..], from, oldDataSize, cpySize);
      StoreData(newPtr, 0, mem[from..from + cpySize], j);
    }

    /**
     `realloc`: a new object with the common prefix of the old data; the old one is gone. On failure nothing changes.
     */
    method Realloc(ptr: word, size: word, ghost i: nat) returns (newPtr: word, ghost j: nat)
      requires Valid() && i in live && i < HEAP_ENTRY && ptr == PointerTo(i)
      modifies this, heapMap, heapPageTable, mem
      ensures Valid()
      ensures Requested(newPtr, size, j)
      ensures newPtr == NULL ==> Untouched()
      ensures newPtr != NULL ==>
        j in live && live == old(live)[j := live[j]] - {i} && Resized(old(live[i]), live[j], size)
      ensures newPtr != NULL ==>
        |live[j]| == size && forall k :: 0 <= k < size && k < |old(live[i])| ==> live[j][k] == old(live[i])[k]
    {
      hide KernelHeap.Valid, Bits, PagesOf, Region, NoFit, FirstFit, OrderOf, Resized, Splice, Slice;
      newPtr, j := DoAlloc(size);
      if newPtr == NULL {
        return;
      }
      ghost var data := live[j];
      CopyObject(ptr, newPtr, size, i, j);
      Free(ptr, i);
      MovedTo(old(live), i, j, data, if |old(live)[i]| < size then |old(live)[i]| else size);
      ResizedBytes(old(live[i]), live[j], size);
    }
  }

  lemma AddedAndRemoved(live: Objects, i: nat, data: seq<byte>)
    requires i !in live
    ensures live[i := data] - {i} == live
  {
  }

  lemma AddedAndFreed(bits: set<nat>, region: set<nat>)
    requires region !! bits
    ensures bits + region - region == bits
  {
  }

  /** Freeing at once restores bitmap, present bits, counters and every object. */
  method AllocThenFree(heap: KernelHeap, size: word)
    requires heap.Valid()
    modifies heap, heap.heapMap, heap.heapPageTable, heap.mem
    ensures heap.Valid() && heap.live == old(heap.live)
    ensures Bits(heap.heapMap[..]) == old(Bits(heap.heapMap[..]))
    ensures heap.pageAlloc == old(heap.pageAlloc) && heap.objAlloc == old(heap.objAlloc)
    ensures forall p :: 0 <= p < HEAP_ENTRY ==>
      (Present(heap.heapPageTable[p]) <==> old(Present(heap.heapPageTable[p])))
  {
    ghost var before, bits := heap.live, Bits(heap.heapMap[..]);
    var ptr, i := heap.DoAlloc(size);
    if ptr != NULL {
      AddedAndRemoved(before, i, heap.live[i]);
      AddedAndFreed(bits, Region(i, OrderOf(size)));
      PagesInBits(heap.live, Bits(heap.heapMap[..]), i);
    }
    hide Layout, AllStored, PagesOf, Region, Bits;
    heap.Free(ptr, i);
  }
}
