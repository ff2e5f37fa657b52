/** The bitmap library of src/bitmap.c: an array of 32-bit words that stands for a set of positions. */
module Bitmap {
  import opened PowersOfTwo

  const BITS_LONG: nat := 32
  const WORD_LIMIT: nat := 0x1_0000_0000
  const ENOMEM: int := 12
  const EBUSY: int := 16

  // ---------- one word ----------

  /** A `uint32_t`. C's operators on it are spelled digit by digit below. */
  type word = w: nat | w < WORD_LIMIT

  /** Bit k of a word. */
  predicate Bit(w: nat, k: nat) {
    if k == 0 then w % 2 == 1 else Bit(w / 2, k - 1)
  }

  /** C's `a | b`. */
  function Or(a: nat, b: nat): nat
    decreases a + b
  {
    if a == 0 && b == 0 then 0
    else (if a % 2 == 1 || b % 2 == 1 then 1 else 0) + 2 * Or(a / 2, b / 2)
  }

  /** C's `a & b`. */
  function And(a: nat, b: nat): (r: nat)
    ensures r <= a
  {
    if a == 0 then 0
    else (if a % 2 == 1 && b % 2 == 1 then 1 else 0) + 2 * And(a / 2, b / 2)
  }

  /** C's `a & ~b`. */
  function AndNot(a: nat, b: nat): (r: nat)
    ensures r <= a
  {
    if a == 0 then 0
    else (if a % 2 == 1 && b % 2 == 0 then 1 else 0) + 2 * AndNot(a / 2, b / 2)
  }

  lemma {:induction false} ZeroBit(k: nat)
    ensures !Bit(0, k)
  {
    if k == 0 {
    } else {
      ZeroBit(k - 1);
    }
  }

  lemma {:induction false} OperatorBits(a: nat, b: nat, k: nat)
    ensures Bit(Or(a, b), k) <==> Bit(a, k) || Bit(b, k)
    ensures Bit(And(a, b), k) <==> Bit(a, k) && Bit(b, k)
    ensures Bit(AndNot(a, b), k) <==> Bit(a, k) && !Bit(b, k)
  {
    if k == 0 {
    } else {
      OperatorBits(a / 2, b / 2, k - 1);
      if a == 0 {
        ZeroBit(k);
        if b == 0 { ZeroBit(k - 1); }
      }
    }
  }

  lemma {:induction false} OrFits(a: nat, b: nat, n: nat)
    requires a < Pow2(n) && b < Pow2(n)
    ensures Or(a, b) < Pow2(n)
  {
    if n == 0 {
    } else {
      OrFits(a / 2, b / 2, n - 1);
    }
  }

  /** A word is zero exactly when none of its bits is set. */
  lemma {:induction false} SomeBit(w: nat, n: nat) returns (k: nat)
    requires 0 < w < Pow2(n)
    ensures k < n && Bit(w, k)
  {
    if w % 2 == 1 {
      k := 0;
    } else {
      k := SomeBit(w / 2, n - 1);
      k := k + 1;
    }
  }

  lemma WordLimit()
    ensures Pow2(BITS_LONG) == WORD_LIMIT
  {
    assert Pow2(8) == 0x100;
    Pow2Add(8, 8);
    Pow2Add(16, 16);
  }

  lemma MaskFits(n: nat, offset: nat)
    requires offset + n <= BITS_LONG
    ensures (Pow2(n) - 1) * Pow2(offset) < WORD_LIMIT
  {
    hide Pow2;
    Pow2Add(n, offset);
    Pow2Monotone(n + offset, BITS_LONG);
    WordLimit();
    OneLessTimes(Pow2(n), Pow2(offset));
  }

  /** The mask that `_reg_op` builds: a run of `n` ones, shifted to bit `offset`. */
  function RegionMask(n: nat, offset: nat): (m: word)
    requires 1 <= n && offset + n <= BITS_LONG
  {
    var high := Pow2(n - 1);
    var run := high + (high - 1);
    MaskFits(n, offset);
    run * Pow2(offset)
  }

  lemma {:induction false} ShiftedBit(run: nat, offset: nat, k: nat)
    ensures Bit(run * Pow2(offset), k) <==> k >= offset && Bit(run, k - offset)
  {
    if offset == 0 {
    } else {
      var half := run * Pow2(offset - 1);
      assert run * Pow2(offset) == 2 * half;
      if k > 0 {
        ShiftedBit(run, offset - 1, k - 1);
      }
    }
  }

  lemma {:induction false} OnesBit(n: nat, k: nat)
    ensures Bit(Pow2(n) - 1, k) <==> k < n
  {
    if n == 0 {
      ZeroBit(k);
    } else if k > 0 {
      OnesBit(n - 1, k - 1);
      assert (Pow2(n) - 1) / 2 == Pow2(n - 1) - 1;
    }
  }

  /** Bit k of the mask is one exactly inside `[offset, offset + n)`. */
  lemma MaskBit(n: nat, offset: nat, k: nat)
    requires 1 <= n && offset + n <= BITS_LONG
    ensures Bit(RegionMask(n, offset), k) <==> offset <= k < offset + n
  {
    ShiftedBit(Pow2(n) - 1, offset, k);
    if k >= offset {
      OnesBit(n, k - offset);
    }
  }

  // ---------- the bitmap ----------

  /** Position p of a bitmap is bit `p % 32` of word `p / 32`. */
  predicate BitAt(words: seq<word>, p: nat)
    requires p < BITS_LONG * |words|
  {
    Bit(words[p / BITS_LONG], p % BITS_LONG)
  }

  /** The set of positions a bitmap stands for. */
  ghost function Bits(words: seq<word>): set<nat> {
    set p: nat | p < BITS_LONG * |words| && BitAt(words, p)
  }

  predicate InRegion(p: nat, pos: nat, order: nat) {
    pos <= p < pos + Pow2(order)
  }

  /** The positions of the region of `2^order` bits that starts at `pos`. */
  ghost function Region(pos: nat, order: nat): set<nat> {
    set p: nat | pos <= p < pos + Pow2(order) && InRegion(p, pos, order)
  }

  /** What `_reg_op` is asked to work on: a region aligned to its own size, inside the bitmap. */
  ghost predicate Aligned(pos: nat, order: nat, length: nat) {
    order < BITS_LONG && pos % Pow2(order) == 0 && pos + Pow2(order) <= BITS_LONG * length
  }

  /** A region of less than a word lies inside one word. */
  lemma SmallRegion(pos: nat, order: nat)
    requires order < 5 && pos % Pow2(order) == 0
    ensures Pow2(order) < BITS_LONG && pos % BITS_LONG + Pow2(order) <= BITS_LONG
  {
    var n, m := Pow2(order), Pow2(5 - order);
    Pow2Add(order, 5 - order);
    assert Pow2(5) == BITS_LONG;
    Pow2Monotone(order, 4);
    assert Pow2(4) == 16;
    RemainderOfMultiple(pos, n, m);
    MultipleMod(n, m);
    MultipleIsBelow(pos % BITS_LONG, BITS_LONG, n);
  }

  /** A larger region consists of whole words. */
  lemma LargeRegion(pos: nat, order: nat) returns (entries: nat)
    requires order >= 5 && pos % Pow2(order) == 0
    ensures entries >= 1 && Pow2(order) == BITS_LONG * entries && pos % BITS_LONG == 0
  {
    entries := Pow2(order - 5);
    assert Pow2(5) == BITS_LONG;
    Pow2Add(5, order - 5);
    MultipleOfFactor(pos, BITS_LONG, entries);
  }

  /** A region seen the way the code sees it: a first word, a number of words, one mask for all of them. */
  ghost predicate IsShape(pos: nat, order: nat, index: nat, entries: nat, mask: word) {
    forall p: nat :: p in Region(pos, order) <==> index <= p / BITS_LONG < index + entries && Bit(mask, p % BITS_LONG)
  }

  lemma InOneWord(pos: nat, n: nat, p: nat)
    requires pos % BITS_LONG + n <= BITS_LONG
    ensures pos <= p < pos + n <==>
      p / BITS_LONG == pos / BITS_LONG && pos % BITS_LONG <= p % BITS_LONG < pos % BITS_LONG + n
  {
  }

  lemma InWholeWords(pos: nat, entries: nat, p: nat)
    requires pos % BITS_LONG == 0
    ensures pos <= p < pos + BITS_LONG * entries <==> pos / BITS_LONG <= p / BITS_LONG < pos / BITS_LONG + entries
  {
  }

  /** The number of words and the mask width `_reg_op` computes from an order. */
  function RegionEntries(order: nat): nat {
    (Pow2(order) + BITS_LONG - 1) / BITS_LONG
  }

  function BitsPerEntry(order: nat): nat {
    if Pow2(order) < BITS_LONG then Pow2(order) else BITS_LONG
  }

  lemma PartOfWord(pos: nat, n: nat, length: nat)
    requires 1 <= n < BITS_LONG && pos + n <= BITS_LONG * length
    ensures (n + BITS_LONG - 1) / BITS_LONG == 1 && pos / BITS_LONG + 1 <= length
  {
  }

  lemma WholeWords(pos: nat, entries: nat, length: nat)
    requires entries >= 1 && pos % BITS_LONG == 0 && pos + BITS_LONG * entries <= BITS_LONG * length
    ensures (BITS_LONG * entries + BITS_LONG - 1) / BITS_LONG == entries && pos / BITS_LONG + entries <= length
  {
  }

  lemma RegionFits(pos: nat, order: nat, length: nat)
    requires Aligned(pos, order, length)
    ensures order < 5 ==> RegionEntries(order) == 1 && BitsPerEntry(order) == Pow2(order)
    ensures order >= 5 ==>
      BITS_LONG * RegionEntries(order) == Pow2(order) && BitsPerEntry(order) == BITS_LONG && pos % BITS_LONG == 0
    ensures pos % BITS_LONG + BitsPerEntry(order) <= BITS_LONG && pos / BITS_LONG + RegionEntries(order) <= length
  {
    if order < 5 {
      SmallRegion(pos, order);
      PartOfWord(pos, Pow2(order), length);
    } else {
      var entries := LargeRegion(pos, order);
      WholeWords(pos, entries, length);
    }
  }

  /** The words and the mask `_reg_op` uses cover the region and nothing else. */
  lemma MaskCoversRegion(pos: nat, order: nat, length: nat)
    requires Aligned(pos, order, length)
    ensures pos % BITS_LONG + BitsPerEntry(order) <= BITS_LONG && pos / BITS_LONG + RegionEntries(order) <= length
    ensures IsShape(pos, order, pos / BITS_LONG, RegionEntries(order), RegionMask(BitsPerEntry(order), pos % BITS_LONG))
  {
    RegionFits(pos, order, length);
    forall p: nat
      ensures p in Region(pos, order) <==>
        && pos / BITS_LONG <= p / BITS_LONG < pos / BITS_LONG + RegionEntries(order)
        && Bit(RegionMask(BitsPerEntry(order), pos % BITS_LONG), p % BITS_LONG)
    {
      MaskBit(BitsPerEntry(order), pos % BITS_LONG, p % BITS_LONG);
      if order < 5 {
        InOneWord(pos, Pow2(order), p);
      } else {
        InWholeWords(pos, RegionEntries(order), p);
      }
    }
  }

  datatype RegOp = IsFree | Alloc | Release

  function WordAfter(w: word, covered: bool, mask: word, op: RegOp): nat {
    if !covered || op.IsFree? then w else if op.Alloc? then Or(w, mask) else AndNot(w, mask)
  }

  /** What each operation does to every word is what it does to the set. */
  lemma WordsToBits(before: seq<word>, after: seq<word>, pos: nat, order: nat, index: nat, entries: nat, mask: word,
      op: RegOp)
    requires Aligned(pos, order, |before|) && IsShape(pos, order, index, entries, mask)
    requires !op.IsFree? && |after| == |before|
    requires forall j :: 0 <= j < |after| ==> after[j] == WordAfter(before[j], index <= j < index + entries, mask, op)
    ensures Bits(after) == if op.Alloc? then Bits(before) + Region(pos, order) else Bits(before) - Region(pos, order)
  {
    forall p: nat | p < BITS_LONG * |before|
      ensures BitAt(after, p) <==>
        if op.Alloc? then BitAt(before, p) || p in Region(pos, order) else BitAt(before, p) && p !in Region(pos, order)
    {
      OperatorBits(before[p / BITS_LONG], mask, p % BITS_LONG);
    }
  }

  /** No word meets the mask exactly when no position of the region is set. */
  lemma TestWords(words: seq<word>, pos: nat, order: nat, index: nat, entries: nat, mask: word)
    requires Aligned(pos, order, |words|) && IsShape(pos, order, index, entries, mask) && index + entries <= |words|
    ensures Region(pos, order) !! Bits(words) <==> forall j :: index <= j < index + entries ==> And(words[j], mask) == 0
  {
    if j :| index <= j < index + entries && And(words[j], mask) != 0 {
      WordLimit();
      var k := SomeBit(And(words[j], mask), BITS_LONG);
      OperatorBits(words[j], mask, k);
      var p := BITS_LONG * j + k;
      assert p / BITS_LONG == j && p % BITS_LONG == k;
      assert BitAt(words, p) && p in Region(pos, order);
    } else {
      forall p | p in Region(pos, order)
        ensures p !in Bits(words)
      {
        OperatorBits(words[p / BITS_LONG], mask, p % BITS_LONG);
        ZeroBit(p % BITS_LONG);
      }
    }
  }

  /** The REG_OP_ISFREE loop of `_reg_op`. */
  method TestLoop(bitmap: array<word>, index: nat, entries: nat, bitmask: word) returns (ret: int)
    requires index + entries <= bitmap.Length
    ensures ret == if forall j :: index <= j < index + entries ==> And(bitmap[j], bitmask) == 0 then 1 else 0
  {
    var i := 0;
    while i < entries
      invariant 0 <= i <= entries
      invariant forall j :: index <= j < index + i ==> And(bitmap[j], bitmask) == 0
    {
      if And(bitmap[index + i], bitmask) != 0 {
        return 0;
      }
      i := i + 1;
    }
    return 1;
  }

  lemma WordFits(w: word, mask: word)
    ensures Or(w, mask) < WORD_LIMIT
  {
    WordLimit();
    OrFits(w, mask, BITS_LONG);
  }

  /** The REG_OP_ALLOC and REG_OP_RELEASE loops of `_reg_op`. */
  method UpdateLoop(bitmap: array<word>, index: nat, entries: nat, bitmask: word, op: RegOp)
    requires index + entries <= bitmap.Length
    modifies bitmap
    ensures forall j :: 0 <= j < bitmap.Length ==>
      bitmap[j] == WordAfter(old(bitmap[j]), index <= j < index + entries, bitmask, op)
  {
    var i := 0;
    while i < entries
      invariant 0 <= i <= entries
      invariant forall j :: 0 <= j < bitmap.Length ==>
        bitmap[j] == WordAfter(old(bitmap[j]), index <= j < index + i, bitmask, op)
    {
      WordFits(bitmap[index + i], bitmask);
      bitmap[index + i] := WordAfter(bitmap[index + i], true, bitmask, op);
      i := i + 1;
    }
  }

  /** `_reg_op` */
  method DoRegOp(bitmap: array<word>, pos: nat, order: nat, op: RegOp) returns (ret: int)
    requires Aligned(pos, order, bitmap.Length)
    modifies bitmap
    ensures op.IsFree? ==>
      bitmap[..] == old(bitmap[..]) && ret == if Region(pos, order) !! Bits(bitmap[..]) then 1 else 0
    ensures op.Alloc? ==> ret == 0 && Bits(bitmap[..]) == old(Bits(bitmap[..])) + Region(pos, order)
    ensures op.Release? ==> ret == 0 && Bits(bitmap[..]) == old(Bits(bitmap[..])) - Region(pos, order)
  {
    MaskCoversRegion(pos, order, bitmap.Length);
    var index, entries := pos / BITS_LONG, RegionEntries(order);
    var bitmask := RegionMask(BitsPerEntry(order), pos % BITS_LONG);
    ret := 0;
    match op
    case IsFree =>
      TestWords(bitmap[..], pos, order, index, entries, bitmask);
      ret := TestLoop(bitmap, index, entries, bitmask);
    case Alloc =>
      UpdateLoop(bitmap, index, entries, bitmask, op);
      WordsToBits(old(bitmap[..]), bitmap[..], pos, order, index, entries, bitmask, op);
    case Release =>
      UpdateLoop(bitmap, index, entries, bitmask, op);
      WordsToBits(old(bitmap[..]), bitmap[..], pos, order, index, entries, bitmask, op);
  }

  /** A position `find_free_region` may return: aligned, inside, and free. */
  ghost predicate FreeAt(words: seq<word>, pos: nat, order: nat) {
    Aligned(pos, order, |words|) && Region(pos, order) !! Bits(words)
  }

  /** No region that begins among the bits to search is free. */
  ghost predicate NoneBelow(words: seq<word>, bound: nat, order: nat) {
    forall p: nat :: p < bound ==> !FreeAt(words, p, order)
  }

  /**
   `find_free_region`: first fit, `-ENOMEM` when nothing fits. The code notices that nothing fits only when the search
   ends exactly at the number of bits: otherwise it gives out the region behind them, whoever has it.
   */
  method FindFreeRegion(bitmap: array<word>, numBits: nat, order: nat) returns (r: int)
    requires order < BITS_LONG && RoundUp(numBits, Pow2(order)) <= BITS_LONG * bitmap.Length
    requires numBits % Pow2(order) != 0 ==> RoundUp(numBits, Pow2(order)) + Pow2(order) <= BITS_LONG * bitmap.Length
    modifies bitmap
    ensures 0 <= r < numBits ==> r + Pow2(order) <= RoundUp(numBits, Pow2(order))
    ensures 0 <= r < numBits ==> old(FreeAt(bitmap[..], r, order)) && old(NoneBelow(bitmap[..], r, order))
    ensures r < 0 || numBits <= r ==> old(NoneBelow(bitmap[..], numBits, order))
    ensures r < 0 ==> r == -ENOMEM && bitmap[..] == old(bitmap[..])
    ensures r < 0 ==> numBits % Pow2(order) == 0
    ensures numBits <= r ==> r == RoundUp(numBits, Pow2(order)) && numBits % Pow2(order) != 0
    ensures r >= 0 ==> Bits(bitmap[..]) == old(Bits(bitmap[..])) + Region(r, order)
  {
    var pos := 0;
    ghost var end := RoundUp(numBits, Pow2(order));
    while pos < numBits
      invariant pos <= end && pos % Pow2(order) == 0
      invariant bitmap[..] == old(bitmap[..])
      invariant NoneBelow(bitmap[..], pos, order)
    {
      MultipleIsBelow(pos, end, Pow2(order));
      var free := DoRegOp(bitmap, pos, order, IsFree);
      if free == 1 {
        break;
      }
      NextMultiple(pos, Pow2(order));
      pos := pos + Pow2(order);
    }
    if numBits <= pos < end {
      MultipleIsBelow(pos, end, Pow2(order));
      assert false;
    }
    if pos == numBits {
      return -ENOMEM;
    }
    if numBits < pos && numBits % Pow2(order) == 0 {
      MultipleIsBelow(numBits, pos, Pow2(order));
      assert false;
    }
    var _ := DoRegOp(bitmap, pos, order, Alloc);
    return pos;
  }

  lemma SixBits()
    ensures forall k: nat :: k < 6 ==> k in Bits([0x3F])
    ensures NoneBelow([0x3F], 3, 1)
  {
    assert Pow2(1) == 2 && Pow2(6) == 64;
    forall k: nat | k < 6
      ensures k in Bits([0x3F])
    {
      OnesBit(6, k);
    }
    assert 0 in Region(0, 1) && 2 in Region(2, 1);
  }

  /** Six bits taken, three bits to search for two: the region found is one that is taken already. */
  method TakenTwice(bitmap: array<word>) returns (r: int)
    requires bitmap[..] == [0x3F]
    modifies bitmap
    ensures r == 4 && Region(4, 1) <= old(Bits(bitmap[..]))
  {
    SixBits();
    assert Pow2(1) == 2;
    r := FindFreeRegion(bitmap, 3, 1);
  }

  /** `release_region` */
  method ReleaseRegion(bitmap: array<word>, pos: nat, order: nat)
    requires Aligned(pos, order, bitmap.Length)
    modifies bitmap
    ensures Bits(bitmap[..]) == old(Bits(bitmap[..])) - Region(pos, order)
  {
    var _ := DoRegOp(bitmap, pos, order, Release);
  }

  /** `allocate_region` */
  method AllocateRegion(bitmap: array<word>, pos: nat, order: nat) returns (r: int)
    requires Aligned(pos, order, bitmap.Length)
    modifies bitmap
    ensures r == if old(FreeAt(bitmap[..], pos, order)) then 0 else -EBUSY
    ensures Bits(bitmap[..]) == if r == 0 then old(Bits(bitmap[..])) + Region(pos, order) else old(Bits(bitmap[..]))
  {
    var free := DoRegOp(bitmap, pos, order, IsFree);
    if free == 0 {
      return -EBUSY;
    }
    var _ := DoRegOp(bitmap, pos, order, Alloc);
    return 0;
  }

  lemma RegionOfOne(pos: nat)
    ensures Region(pos, 0) == {pos}
  {
    assert Pow2(0) == 1;
  }

  /** `bitmap_set_bit` */
  method SetBit(bitmap: array<word>, bit: nat)
    requires bit < BITS_LONG * bitmap.Length
    modifies bitmap
    ensures Bits(bitmap[..]) == old(Bits(bitmap[..])) + {bit}
  {
    var e := bit / BITS_LONG;
    var mask := RegionMask(1, bit % BITS_LONG);
    WordFits(bitmap[e], mask);
    bitmap[e] := Or(bitmap[e], mask);
    RegionOfOne(bit);
    MaskCoversRegion(bit, 0, bitmap.Length);
    WordsToBits(old(bitmap[..]), bitmap[..], bit, 0, e, 1, mask, Alloc);
  }

  /** `bitmap_clear_bit` */
  method ClearBit(bitmap: array<word>, bit: nat)
    requires bit < BITS_LONG * bitmap.Length
    modifies bitmap
    ensures Bits(bitmap[..]) == old(Bits(bitmap[..])) - {bit}
  {
    var e := bit / BITS_LONG;
    var mask := RegionMask(1, bit % BITS_LONG);
    bitmap[e] := AndNot(bitmap[e], mask);
    RegionOfOne(bit);
    MaskCoversRegion(bit, 0, bitmap.Length);
    WordsToBits(old(bitmap[..]), bitmap[..], bit, 0, e, 1, mask, Release);
  }

  /** `bitmap_query_bit` */
  method QueryBit(bitmap: array<word>, bit: nat) returns (r: nat)
    requires bit < BITS_LONG * bitmap.Length
    ensures r == if bit in Bits(bitmap[..]) then 1 else 0
  {
    var e := bit / BITS_LONG;
    var mask := RegionMask(1, bit % BITS_LONG);
    RegionOfOne(bit);
    MaskCoversRegion(bit, 0, bitmap.Length);
    TestWords(bitmap[..], bit, 0, e, 1, mask);
    r := if And(bitmap[e], mask) != 0 then 1 else 0;
  }
}
