/** The page-table entries of src/paging.c and the walk the processor makes over them. */
module Paging {
  import opened PowersOfTwo
  import opened Bitmap

  const NUM_PDE: nat := 1024
  const NUM_PTE: nat := 1024
  const PAGE_4KB: nat := 0x1000
  const PAGE_4MB: nat := 0x40_0000
  const EN_P: nat := 0x1
  const EN_RW: nat := 0x2
  const EN_US: nat := 0x4
  const EN_PS: nat := 0x80

  const HEAP_PHYS_TOP: nat := 0x200_0000
  const HEAP_VIRT_TOP: nat := 0x80_0000
  const HEAP_SIZE: nat := 0x40_0000
  const USER_VIRT_TOP: nat := 0x800_0000
  const USER_VIRT_BOT: nat := 0x840_0000

  /** `virt >> 22` */
  function PdeIndex(virt: word): (i: nat)
    ensures i < NUM_PDE
  {
    virt / PAGE_4MB
  }

  /** `(virt << 10) >> 22` */
  function PteIndex(virt: word): (i: nat)
    ensures i < NUM_PTE
  {
    virt % PAGE_4MB / PAGE_4KB
  }

  /** `(phys & 0xFFFFF000 & ~EN_A) | EN_P | EN_RW | EN_US`: the low twelve bits are cleared, then three are set. */
  function SmallPageEntry(phys: word): word {
    phys - phys % PAGE_4KB + EN_P + EN_RW + EN_US
  }

  /** `(phys & 0xFFC00000 & ~EN_A) | EN_P | EN_RW | EN_US | EN_PS` */
  function LargePageEntry(phys: word): word {
    phys - phys % PAGE_4MB + EN_P + EN_RW + EN_US + EN_PS
  }

  /** The present flag, bit 0. */
  predicate Present(entry: word) {
    entry % 2 == 1
  }

  /** The same index, as the processor takes it. */
  lemma PteIndexBits(virt: word)
    ensures PteIndex(virt) == virt / 0x1000 % 0x400
  {
    var d, r := virt / PAGE_4MB, virt % PAGE_4MB;
    DivModUnique(virt, 0x1000, 0x400 * d + r / 0x1000, r % 0x1000);
    DivModUnique(0x400 * d + r / 0x1000, 0x400, d, r / 0x1000);
  }

  /** `entry & ~EN_P` */
  function ClearPresent(entry: word): word {
    entry - entry % 2
  }

  lemma OnlyPresentCleared(entry: word)
    ensures ClearPresent(entry) % 2 == 0 && ClearPresent(entry) / 2 == entry / 2
  {
    DivModUnique(ClearPresent(entry), 2, entry / 2, 0);
  }

  // ---------- the walk of the processor ----------

  /** What an access comes to: it faults, the walk goes on at a page table, or it reaches a physical address. */
  datatype Access = PageFault | TableAt(base: nat) | Reached(phys: nat)

  /** The flag with this weight: 1 for present, 2 for writable, 4 for users, 0x80 for a large page. */
  predicate Flag(entry: word, mask: nat)
    requires mask > 0
  {
    entry / mask % 2 == 1
  }

  /** Both levels of the walk check alike: users need the user flag, and the write flag to write. */
  predicate Permits(entry: word, user: bool, write: bool) {
    Flag(entry, 1) && (user ==> Flag(entry, 4) && (write ==> Flag(entry, 2)))
  }

  /**
   A directory entry, as section 4.3 of volume 3A of the Intel manual has it: without the page-size flag it is that of a
   page table, with it that of a page of 4 MB, whose entry has zeros between the flags and the frame.
   */
  function WalkDirectory(entry: word, virt: word, user: bool, write: bool): Access {
    if !Permits(entry, user, write) then PageFault
    else if !Flag(entry, 0x80) then TableAt(entry / 0x1000 * 0x1000)
    else if entry / 0x1000 % 0x400 != 0 then PageFault
    else Reached(entry / 0x40_0000 * 0x40_0000 + virt % 0x40_0000)
  }

  /** An entry of a page table. */
  function WalkTable(entry: word, virt: word, user: bool, write: bool): Access {
    if !Permits(entry, user, write) then PageFault else Reached(entry / 0x1000 * 0x1000 + virt % 0x1000)
  }

  lemma FlagSet(entry: word, mask: nat, q: nat, r: nat)
    requires mask > 0 && entry == mask * (2 * q + 1) + r && r < mask
    ensures Flag(entry, mask)
  {
    DivModUnique(entry, mask, 2 * q + 1, r);
  }

  lemma LargePageFlags(k: nat, entry: word)
    requires entry == 0x40_0000 * k + 0x87
    ensures Flag(entry, 1) && Flag(entry, 2) && Flag(entry, 4) && Flag(entry, 0x80)
    ensures entry / 0x1000 % 0x400 == 0 && entry / 0x40_0000 == k
  {
    hide Flag;
    FlagSet(entry, 1, 0x20_0000 * k + 0x43, 0);
    FlagSet(entry, 2, 0x10_0000 * k + 0x21, 1);
    FlagSet(entry, 4, 0x8_0000 * k + 0x10, 3);
    FlagSet(entry, 0x80, 0x4000 * k, 7);
    DivModUnique(entry, 0x1000, 0x400 * k, 0x87);
    DivModUnique(0x400 * k, 0x400, k, 0);
    DivModUnique(entry, 0x40_0000, k, 0x87);
  }

  /** A large page entry: the processor goes to the page, for users and kernel, to read and to write. */
  lemma LargePageIsWalked(phys: word, virt: word, user: bool, write: bool)
    ensures WalkDirectory(LargePageEntry(phys), virt, user, write) ==
      Reached(phys / 0x40_0000 * 0x40_0000 + virt % 0x40_0000)
  {
    LargePageFlags(phys / 0x40_0000, LargePageEntry(phys));
    hide LargePageEntry, Flag;
  }

  lemma SmallPageFlags(k: nat, entry: word)
    requires entry == 0x1000 * k + 7
    ensures Flag(entry, 1) && Flag(entry, 2) && Flag(entry, 4)
    ensures entry / 0x1000 == k && entry % 0x1000 == 7 && entry % 2 == 1
  {
    hide Flag;
    FlagSet(entry, 1, 0x800 * k + 3, 0);
    FlagSet(entry, 2, 0x400 * k + 1, 1);
    FlagSet(entry, 4, 0x200 * k, 3);
    DivModUnique(entry, 0x1000, k, 7);
    DivModUnique(entry, 2, 0x800 * k + 3, 1);
  }

  lemma SmallPageIsWalked(phys: word, virt: word, user: bool, write: bool)
    ensures WalkTable(SmallPageEntry(phys), virt, user, write) == Reached(phys / 0x1000 * 0x1000 + virt % 0x1000)
  {
    SmallPageFlags(phys / 0x1000, SmallPageEntry(phys));
    hide SmallPageEntry, Flag;
  }

  /** Without the present flag nothing is reached. */
  lemma ClearedFaults(entry: word, virt: word, user: bool, write: bool)
    ensures WalkTable(ClearPresent(entry), virt, user, write) == PageFault
  {
  }

  /** The frame a 4 KB entry points to. */
  function SmallFrame(entry: word): word {
    entry - entry % PAGE_4KB
  }

  /** `set_virtual_4kb_heap` */
  method SetVirtual4kbHeap(heapPageTable: array<word>, phys: word, virt: word)
    requires heapPageTable.Length == NUM_PTE
    modifies heapPageTable
    ensures heapPageTable[..] == old(heapPageTable[..])[PteIndex(virt) := SmallPageEntry(phys)]
    ensures heapPageTable[virt / 0x1000 % 0x400] == phys / 0x1000 * 0x1000 + 7
  {
    PteIndexBits(virt);
    assert SmallPageEntry(phys) == phys / 0x1000 * 0x1000 + 7;
    hide PteIndex, SmallPageEntry;
    heapPageTable[PteIndex(virt)] := SmallPageEntry(phys);
  }

  /** `free_virtual_4kb_heap`: only the present bit goes. */
  method FreeVirtual4kbHeap(heapPageTable: array<word>, virt: word)
    requires heapPageTable.Length == NUM_PTE
    modifies heapPageTable
    ensures heapPageTable[..] == old(heapPageTable[..])[PteIndex(virt) :=
      ClearPresent(old(heapPageTable[PteIndex(virt)]))]
    ensures var i := virt / 0x1000 % 0x400;
      heapPageTable[i] % 2 == 0 && heapPageTable[i] / 2 == old(heapPageTable[i]) / 2
  {
    PteIndexBits(virt);
    OnlyPresentCleared(heapPageTable[PteIndex(virt)]);
    hide PteIndex, ClearPresent;
    heapPageTable[PteIndex(virt)] := ClearPresent(heapPageTable[PteIndex(virt)]);
  }
}
