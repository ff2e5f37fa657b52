/**
 The regular-file operations of src/ext2.c. A block of the disk is a sequence of 1024 bytes, read and written as
 a whole; the two bitmap blocks and the inode table are arrays beside it.
 */
module Ext2 {
  import opened PowersOfTwo
  import opened Bitmap
  import opened Splices
  import opened Ext2Files

  /** How many bits of a bitmap block are searched: `s_blocksize * 4`. */
  const BITMAP_BITS: nat := 4096
  /** The words of a bitmap block. */
  const BITMAP_WORDS: nat := 256

  // ---------- one block ----------

  /** `ext2_read_block_bytes` */
  method ReadBlockBytes(disk: array<Bytes>, blkno: nat, off: nat, n: nat) returns (r: Bytes)
    requires blkno < disk.Length && |disk[blkno]| == BLOCK_SIZE && off + n <= BLOCK_SIZE
    ensures r == Slice(disk[blkno], off, n)
  {
    var blkBuf := disk[blkno];
    r := blkBuf[off..off + n];
  }

  /**
   `ext2_write_block_bytes`: read the block, change the bytes, write the block. The device refuses a number off the
   disk.
   */
  method WriteBlockBytes(disk: array<Bytes>, blkno: nat, off: nat, buf: Bytes)
    requires AllBlocks(disk[..]) && off + |buf| <= BLOCK_SIZE
    modifies disk
    ensures AllBlocks(disk[..])
    ensures forall b: nat :: b < disk.Length && b != blkno ==> disk[b] == old(disk[b])
    ensures blkno < disk.Length ==> disk[blkno] == Splice(old(disk[blkno]), off, buf)
  {
    if blkno < disk.Length {
      assert |disk[..][blkno]| == BLOCK_SIZE;
      var blkBuf := disk[blkno];
      disk[blkno] := Splice(blkBuf, off, buf);
    }
  }

  // ---------- reading a range ----------

  lemma SizeOfData(disk: seq<Bytes>, n: Inode, bits: set<nat>, data: Bytes)
    requires FileOk(disk, n, bits, data)
    ensures |data| == n.size <= MAX_DIRECT
  {
    BlocksCover(n.size, 0);
  }

  /** `ext2_read_direct` */
  method ReadDirect(disk: array<Bytes>, inode: Inode, offset: nat, nbytes: nat, ghost bits: set<nat>, ghost data: Bytes)
    returns (r: Bytes)
    requires FileOk(disk[..], inode, bits, data) && offset < inode.size
    ensures |data| == inode.size
    ensures r == Slice(data, offset, Min(nbytes, inode.size - offset))
  {
    SizeOfData(disk[..], inode, bits, data);
    hide FileOk;
    var n: nat, rmnSize: nat := nbytes, inode.size - offset;
    var iblkno: nat, bufOff: nat := offset / BLOCK_SIZE, offset % BLOCK_SIZE;
    r := [];
    while true
      invariant |r| + rmnSize == inode.size - offset && |r| + n == nbytes && rmnSize > 0
      invariant iblkno * BLOCK_SIZE + bufOff == offset + |r| && bufOff < BLOCK_SIZE
      invariant r == Slice(data, offset, |r|)
      decreases rmnSize
    {
      var cpyLen: nat := Min(Min(n, BLOCK_SIZE - bufOff), rmnSize);
      BlockHolds(disk[..], inode, bits, data, iblkno, bufOff, cpyLen);
      var part := ReadBlockBytes(disk, inode.block[iblkno], bufOff, cpyLen);
      SliceAppend(data, offset, |r|, cpyLen);
      r := r + part;
      if cpyLen == rmnSize || cpyLen == n {
        return;
      }
      iblkno, bufOff := iblkno + 1, 0;
      rmnSize, n := rmnSize - cpyLen, n - cpyLen;
    }
  }

  /** What reading a range returns: the part of it the file has. */
  function ReadRange(data: Bytes, offset: nat, n: nat): (r: Bytes)
    ensures |r| == if offset >= |data| then 0 else Min(n, |data| - offset)
  {
    if offset >= |data| then [] else Slice(data, offset, Min(n, |data| - offset))
  }

  /** `ext2_read_data` of a file in direct blocks, with the 32-bit sum the code computes. */
  method ReadData(disk: array<Bytes>, inode: Inode, offset: word, nbytes: word, ghost bits: set<nat>, ghost data: Bytes)
    returns (r: Bytes)
    requires FileOk(disk[..], inode, bits, data)
    ensures r == ReadRange(data, offset, nbytes)
    ensures |r| == if offset >= |data| then 0 else Min(nbytes, |data| - offset)
    ensures forall k :: 0 <= k < |r| ==> r[k] == data[offset + k]
  {
    SizeOfData(disk[..], inode, bits, data);
    hide FileOk;
    if offset >= inode.size {
      return [];
    }
    var n: nat := nbytes;
    if (offset + nbytes) % WORD_LIMIT > inode.size {
      n := inode.size - offset;
    }
    r := ReadDirect(disk, inode, offset, n, bits, data);
  }

  // ---------- writing a range ----------

  /** A block none of the file's entries name. */
  ghost predicate Kept(disk: seq<Bytes>, after: seq<Bytes>, n: Inode) {
    |after| == |disk| && forall b: nat :: b < |disk| && !Owns(n, b) ==> after[b] == disk[b]
  }

  /**
   What `ext2_write_direct` does to the bytes of the file: those from `offset` on are the buffer's, those before are
   kept.
   */
  ghost predicate Written(disk: seq<Bytes>, after: seq<Bytes>, n: Inode, offset: nat, buf: Bytes) {
    forall p: nat :: p < offset + |buf| ==>
        ByteAt(after, n, p) == if p < offset then ByteAt(disk, n, p) else buf[p - offset]
  }

  /** Overwriting one stretch of the k-th block: the bytes of the file it changes. */
  lemma WriteStretch(disk: seq<Bytes>, after: seq<Bytes>, n: Inode, bits: set<nat>, k: nat, off: nat, part: Bytes,
      p: nat)
    requires AllBlocks(disk) && InodeOk(n, |disk|, bits) && |after| == |disk| && AllBlocks(after)
    requires k < n.blocks && k < |n.block| && n.block[k] < |disk| && off + |part| <= BLOCK_SIZE
    requires |disk[n.block[k]]| == BLOCK_SIZE && after[n.block[k]] == Splice(disk[n.block[k]], off, part)
    requires forall b: nat :: b < |disk| && b != n.block[k] ==> after[b] == disk[b]
    requires p < n.size
    ensures ByteAt(after, n, p) ==
            if k * BLOCK_SIZE + off <= p < k * BLOCK_SIZE + off + |part| then part[p - (k * BLOCK_SIZE + off)]
                else ByteAt(disk, n, p)
  {
    var l, at := p / BLOCK_SIZE, p % BLOCK_SIZE;
    assert p == l * BLOCK_SIZE + at;
    BlockOfByte(disk, n, bits, l, at);
    BlockOfByte(after, n, bits, l, at);
    assert Uses(n, k, n.block[k]);
  }

  /** One more stretch written, in the block the next byte of the buffer falls in. */
  lemma WrittenFurther(disk: seq<Bytes>, now: seq<Bytes>, after: seq<Bytes>, n: Inode, bits: set<nat>, offset: nat,
      buf: Bytes,
                       t: nat, k: nat, off: nat, m: nat)
    requires AllBlocks(now) && InodeOk(n, |now|, bits) && |after| == |now| && AllBlocks(after)
    requires t + m <= |buf| && offset + |buf| == n.size && k * BLOCK_SIZE + off == offset + t &&
      off + m <= BLOCK_SIZE && off < BLOCK_SIZE
    requires Written(disk, now, n, offset, buf[..t]) && Kept(disk, now, n)
    requires k < |n.block| && forall b: nat :: b < |now| && b != n.block[k] ==> after[b] == now[b]
    requires n.block[k] < |now| ==> after[n.block[k]] == Splice(now[n.block[k]], off, buf[t..t + m])
    ensures Written(disk, after, n, offset, buf[..t + m]) && Kept(disk, after, n)
  {
    if m == 0 {
      forall b: nat | b < |now|
        ensures after[b] == now[b]
      {
        SpliceNothing(now[b], off, buf[t..t + m]);
      }
      assert after == now && buf[..t + m] == buf[..t];
    } else {
      BlockOfByte(now, n, bits, k, off);
      forall p: nat | p < offset + t + m
        ensures ByteAt(after, n, p) == if p < offset then ByteAt(disk, n, p) else buf[..t + m][p - offset]
      {
        WriteStretch(now, after, n, bits, k, off, buf[t..t + m], p);
      }
    }
  }

  /** `ext2_write_direct`, under the relation its declaration asks for: the write ends where the file does. */
  method WriteDirect(disk: array<Bytes>, inode: Inode, offset: nat, buf: Bytes, ghost bits: set<nat>)
    requires AllBlocks(disk[..]) && InodeOk(inode, disk.Length, bits) && offset + |buf| == inode.size
    modifies disk
    ensures AllBlocks(disk[..])
    ensures Written(old(disk[..]), disk[..], inode, offset, buf)
    ensures Kept(old(disk[..]), disk[..], inode)
  {
    BlocksCover(inode.size, 0);
    ghost var was := disk[..];
    assert Written(was, was, inode, offset, buf[..0]) && Kept(was, was, inode);
    hide InodeOk, Written, Kept, AllBlocks;
    var n: nat, rmnSize: nat := |buf|, inode.size - offset;
    var iblkno: nat, bufOff: nat := offset / BLOCK_SIZE, offset % BLOCK_SIZE;
    var total: nat := 0;
    while true
      invariant rmnSize == n && total + n == |buf|
      invariant iblkno * BLOCK_SIZE + bufOff == offset + total && bufOff < BLOCK_SIZE
      invariant AllBlocks(disk[..]) && Written(was, disk[..], inode, offset, buf[..total]) && Kept(was, disk[..], inode)
      decreases n
    {
      var cpyLen: nat := Min(Min(n, BLOCK_SIZE - bufOff), rmnSize);
      ghost var now := disk[..];
      WriteBlockBytes(disk, inode.block[iblkno], bufOff, buf[total..total + cpyLen]);
      WrittenFurther(was, now, disk[..], inode, bits, offset, buf, total, iblkno, bufOff, cpyLen);
      total := total + cpyLen;
      if cpyLen == rmnSize || cpyLen == n {
        assert buf[..total] == buf;
        return;
      }
      iblkno, bufOff := iblkno + 1, 0;
      rmnSize, n := rmnSize - cpyLen, n - cpyLen;
    }
  }

  // ---------- taking blocks ----------

  predicate Clear(b: nat, bits: set<nat>) {
    b !in bits
  }

  /** The bits that `find_free_region` may still hand out. */
  ghost function Unmarked(bits: set<nat>): set<nat> {
    set b: nat | b < BITMAP_BITS && Clear(b, bits)
  }

  lemma FreeAtOne(words: seq<word>, p: nat)
    requires |words| == BITMAP_WORDS && p < BITMAP_BITS
    ensures FreeAt(words, p, 0) <==> p !in Bits(words)
  {
    RegionOfOne(p);
  }

  /** `next_free_blkno` and `next_free_ino`, while there is a free bit. */
  method NextFree(bitmap: array<word>) returns (no: nat)
    requires bitmap.Length == BITMAP_WORDS && Unmarked(Bits(bitmap[..])) != {}
    modifies bitmap
    ensures no >= 1 && no - 1 in Unmarked(old(Bits(bitmap[..])))
    ensures forall b: nat :: b < no - 1 ==> b in old(Bits(bitmap[..]))
    ensures Bits(bitmap[..]) == old(Bits(bitmap[..])) + {no - 1}
  {
    ghost var was := bitmap[..];
    assert Pow2(0) == 1;
    var bit := FindFreeRegion(bitmap, BITMAP_BITS, 0);
    if bit < 0 {
      ghost var b: nat :| b in Unmarked(Bits(was));
      FreeAtOne(was, b);
      assert false;
    }
    FreeAtOne(was, bit);
    RegionOfOne(bit);
    forall b: nat | b < bit
      ensures b in Bits(was)
    {
      FreeAtOne(was, b);
    }
    SetBit(bitmap, bit);
    return bit + 1;
  }

  /** `ino_try_set` */
  method InoTrySet(bitmap: array<word>, ino: nat) returns (r: nat)
    requires bitmap.Length == BITMAP_WORDS && 1 <= ino <= BITMAP_BITS
    modifies bitmap
    ensures r == if ino - 1 in old(Bits(bitmap[..])) then 1 else 0
    ensures Bits(bitmap[..]) == old(Bits(bitmap[..])) + {ino - 1}
  {
    r := QueryBit(bitmap, ino - 1);
    if r != 0 {
      return 1;
    }
    SetBit(bitmap, ino - 1);
    return 0;
  }

  /** The entries of a block array up to i: those an inode had, then blocks that were free. */
  ghost predicate Grown(n: Inode, bits: set<nat>, block: seq<nat>, now: set<nat>, i: nat, blocks: nat) {
    && |block| == |n.block| == INODE_ENTRIES && i <= INODE_ENTRIES
    && (forall k: nat :: k < i ==> if k < n.blocks then block[k] == n.block[k]
        else BlockOk(block[k], blocks, now) && !Marked(block[k], bits))
    && (forall k: nat, l: nat :: k < i && l < i && k != l ==> block[k] != block[l])
  }

  lemma GrownStart(n: Inode, bits: set<nat>, blocks: nat)
    requires InodeOk(n, blocks, bits)
    ensures Grown(n, bits, n.block, bits, n.blocks, blocks)
  {
    forall k: nat, l: nat | k < n.blocks && l < n.blocks && k != l
      ensures n.block[k] != n.block[l]
    {
      assert Uses(n, k, n.block[k]) && Uses(n, l, n.block[l]);
    }
  }

  /** One more block taken. */
  lemma GrownFurther(n: Inode, bits: set<nat>, block: seq<nat>, now: set<nat>, i: nat, blocks: nat, b: nat)
    requires InodeOk(n, blocks, bits) && Grown(n, bits, block, now, i, blocks) && bits <= now
    requires n.blocks <= i < INODE_ENTRIES && 1 <= b < blocks && b - 1 !in now
    ensures Grown(n, bits, block[i := b], now + {b - 1}, i + 1, blocks)
  {
    forall k: nat | k < i
      ensures block[k] != b
    {
      if k < n.blocks {
        assert Uses(n, k, n.block[k]);
      }
    }
  }

  /** The inode with these entries is well formed and keeps to its own and to free blocks. */
  lemma GrownIsOk(n: Inode, bits: set<nat>, now: set<nat>, i: nat, m: Inode, blocks: nat)
    requires InodeOk(n, blocks, bits) && Grown(n, bits, m.block, now, i, blocks) && bits <= now
    requires m.blocks == BlocksFor(m.size) <= DIRECT_BLOCKS && m.blocks <= i
    ensures InodeOk(m, blocks, now) && GrowsFrom(n, bits, m)
  {
    forall k: nat, b: nat | Uses(m, k, b)
      ensures BlockOk(b, blocks, now) && !Foreign(n, bits, b)
    {
      if k < n.blocks {
        assert Uses(n, k, b);
      }
    }
    forall k: nat, l: nat, b: nat | Uses(m, k, b) && Uses(m, l, b)
      ensures k == l
    {
    }
  }

  /** How many blocks growing a file of `have` blocks to `need` takes. */
  function BlocksTaken(have: nat, need: nat): nat {
    if need > have then need - have else 0
  }

  lemma OneFewer(bits: set<nat>, b: nat)
    requires b in Unmarked(bits)
    ensures |Unmarked(bits + {b})| == |Unmarked(bits)| - 1
  {
    assert Unmarked(bits + {b}) == Unmarked(bits) - {b};
  }

  /** The bytes the disk holds for an inode. */
  ghost function DataOf(disk: seq<Bytes>, n: Inode): Bytes {
    seq(n.size, p requires 0 <= p < n.size => ByteAt(disk, n, p))
  }

  /** `old` up to the position, as far as it goes, and then the buffer. */
  ghost predicate Overwritten(was: Bytes, pos: nat, buf: Bytes, now: Bytes) {
    && |now| == pos + |buf|
    && now[pos..] == buf
    && now[..Min(pos, |was|)] == was[..Min(pos, |was|)]
  }

  /** A write that begins inside the file leaves it at what was before the position and the buffer. */
  lemma OverwrittenInside(was: Bytes, pos: nat, buf: Bytes, now: Bytes)
    requires Overwritten(was, pos, buf, now) && pos <= |was|
    ensures now == was[..pos] + buf
  {
    assert now == now[..pos] + now[pos..];
  }

  /**
   The blocks a file keeps when its inode grows or shrinks keep its bytes, and the write puts the buffer behind them.
   */
  lemma WriteOverwrites(disk: seq<Bytes>, after: seq<Bytes>, n: Inode, bits: set<nat>, was: Bytes, m: Inode,
      now: set<nat>, pos: nat, buf: Bytes)
    requires FileOk(disk, n, bits, was) && InodeOk(m, |disk|, now) && AllBlocks(after) && m.size == pos + |buf|
    requires forall k: nat :: k < n.blocks && k < m.blocks ==> m.block[k] == n.block[k]
    requires Written(disk, after, m, pos, buf) && Kept(disk, after, m)
    ensures FileOk(after, m, now, DataOf(after, m)) && Overwritten(was, pos, buf, DataOf(after, m))
  {
    var data := DataOf(after, m);
    forall p: nat | p < pos && p < |was|
      ensures data[p] == was[p]
    {
      var k := p / BLOCK_SIZE;
      assert p == k * BLOCK_SIZE + p % BLOCK_SIZE;
      BlockOfByte(disk, n, bits, k, p % BLOCK_SIZE);
      BlockOfByte(after, m, now, k, p % BLOCK_SIZE);
    }
    forall j: nat | j < |buf|
      ensures data[pos..][j] == buf[j]
    {
      assert data[pos + j] == ByteAt(after, m, pos + j);
    }
  }

  lemma KeptIsForeignKept(disk: seq<Bytes>, after: seq<Bytes>, n: Inode, bits: set<nat>, m: Inode)
    requires Kept(disk, after, m) && GrowsFrom(n, bits, m)
    ensures ForeignKept(disk, after, n, bits)
  {
  }

  lemma SameBlocks(disk: seq<Bytes>, n: Inode, bits: set<nat>, data: Bytes, m: Inode)
    requires FileOk(disk, n, bits, data) && m == n.(key := m.key)
    ensures FileOk(disk, m, bits, data) && GrowsFrom(n, bits, m)
  {
    forall k: nat, b: nat | Uses(m, k, b)
      ensures Uses(n, k, b)
    {
    }
    forall p: nat
      ensures ByteAt(disk, m, p) == ByteAt(disk, n, p)
    {
    }
  }

  /** The fields of `file_t` and of its cached inode that the file operations use. */
  class OpenFile {
    const ino: nat
    /** `f_dentry.d_inode.i_size`, as it was when the file was opened. */
    const size: nat
    var pos: nat

    constructor (ino: nat, size: nat)
      ensures this.ino == ino && this.size == size && pos == 0
    {
      this.ino, this.size, pos := ino, size, 0;
    }
  }

  class FileSystem {
    const disk: array<Bytes>
    const inodes: array<Inode>
    const blockBitmap: array<word>
    const inodeBitmap: array<word>
    /** The data of the live regular files, by bit number: one less than the inode number. */
    ghost var files: map<nat, Bytes>

    /** The bitmaps do not promise what the disk and the inode table do not have. */
    ghost predicate Shape()
      reads blockBitmap, inodeBitmap
    {
      && blockBitmap != inodeBitmap && blockBitmap.Length == inodeBitmap.Length == BITMAP_WORDS
      && (forall b: nat :: b < BITMAP_BITS ==> b in Bits(blockBitmap[..]) || b + 1 < disk.Length)
      && (forall b: nat :: b < BITMAP_BITS ==> b in Bits(inodeBitmap[..]) || b < inodes.Length)
      && inodes.Length <= BITMAP_BITS
    }

    ghost predicate Valid()
      reads this, disk, inodes, blockBitmap, inodeBitmap
    {
      && Shape()
      && FilesStored(disk[..], inodes[..], Bits(blockBitmap[..]), files)
      && forall i: nat :: i in files ==> i in Bits(inodeBitmap[..])
    }

    /** How many blocks are free. */
    ghost function Room(): nat
      reads blockBitmap
    {
      |Unmarked(Bits(blockBitmap[..]))|
    }

    /** `ext2_alloc_inode`: blocks for a new size. */
    method AllocInode(ino: nat, inode: Inode, fsize: nat, ghost base: Inode) returns (m: Inode)
      requires Shape() && 1 <= ino <= inodes.Length && fsize <= MAX_DIRECT
      requires base == if ino - 1 in Bits(inodeBitmap[..]) then inode else inode.(size := 0, blocks := 0)
      requires |inode.block| == INODE_ENTRIES
      requires ino - 1 in Bits(inodeBitmap[..]) ==> InodeOk(inode, disk.Length, Bits(blockBitmap[..]))
      requires Room() >= BlocksTaken(base.blocks, BlocksFor(fsize))
      modifies inodes, blockBitmap, inodeBitmap
      ensures Shape() && Bits(inodeBitmap[..]) == old(Bits(inodeBitmap[..])) + {ino - 1}
      ensures m.size == fsize && m.key == inode.key && inodes[..] == old(inodes[..])[ino - 1 := m]
      ensures InodeOk(m, disk.Length, Bits(blockBitmap[..]))
      ensures old(Bits(blockBitmap[..])) <= Bits(blockBitmap[..]) && GrowsFrom(base, old(Bits(blockBitmap[..])), m)
      ensures forall k: nat :: k < base.blocks && k < m.blocks ==> m.block[k] == base.block[k]
      ensures Room() == old(Room()) - BlocksTaken(base.blocks, m.blocks)
    {
      ghost var bits := Bits(blockBitmap[..]);
      var blocks: nat := fsize / BLOCK_SIZE;
      if fsize % BLOCK_SIZE != 0 {
        blocks := blocks + 1;
      }
      BlocksCover(fsize, 0);
      var known := InoTrySet(inodeBitmap, ino);
      var i: nat := if known == 0 then 0 else inode.blocks;
      m := inode.(size := fsize, blocks := blocks);
      ghost var start := i;
      assert InodeOk(base, disk.Length, bits);
      GrownStart(base, bits, disk.Length);
      assert bits <= Bits(blockBitmap[..]);
      hide Grown, GrowsFrom, InodeOk, Bits;
      while i < blocks
        modifies blockBitmap
        invariant start <= i && (i <= blocks || i == start)
        invariant m == inode.(size := fsize, blocks := blocks, block := m.block)
        invariant Shape() && |m.block| == INODE_ENTRIES && bits <= Bits(blockBitmap[..])
        invariant Grown(base, bits, m.block, Bits(blockBitmap[..]), i, disk.Length)
        invariant Room() == old(Room()) - (i - start)
      {
        ghost var now := Bits(blockBitmap[..]);
        var blkno := NextFree(blockBitmap);
        OneFewer(now, blkno - 1);
        GrownFurther(base, bits, m.block, now, i, disk.Length, blkno);
        m := m.(block := m.block[i := blkno]);
        i := i + 1;
      }
      GrownIsOk(base, bits, Bits(blockBitmap[..]), i, m, disk.Length);
      inodes[ino - 1] := m;
    }

    /** `ext2_init`, with the regular files in direct blocks that are on the disk already. */
    constructor (disk: array<Bytes>, inodes: array<Inode>, blockBitmap: array<word>, inodeBitmap: array<word>,
        ghost files: map<nat, Bytes>)
      requires blockBitmap != inodeBitmap && blockBitmap.Length == inodeBitmap.Length == BITMAP_WORDS
      requires inodes.Length <= BITMAP_BITS
      requires forall b: nat :: b < BITMAP_BITS ==> b in Bits(blockBitmap[..]) || b + 1 < disk.Length
      requires forall b: nat :: b < BITMAP_BITS ==> b in Bits(inodeBitmap[..]) || b < inodes.Length
      requires FilesStored(disk[..], inodes[..], Bits(blockBitmap[..]), files)
      requires forall i: nat :: i in files ==> i in Bits(inodeBitmap[..])
      ensures Valid() && this.files == files && this.disk == disk && this.inodes == inodes
      ensures this.blockBitmap == blockBitmap && this.inodeBitmap == inodeBitmap
    {
      this.disk, this.inodes, this.blockBitmap, this.inodeBitmap := disk, inodes, blockBitmap, inodeBitmap;
      this.files := files;
    }

    /** A handle on a live file. */
    ghost predicate Opened(file: OpenFile)
      reads this
    {
      file.ino >= 1 && file.ino - 1 in files && file.ino - 1 < inodes.Length
    }

    /** `file_fread` of a regular file */
    method FileRead(file: OpenFile, nbytes: word) returns (r: Bytes)
      requires Valid() && Opened(file) && file.pos < WORD_LIMIT
      modifies file`pos
      ensures r == ReadRange(files[file.ino - 1], old(file.pos), nbytes)
      ensures |r| == if old(file.pos) >= |files[file.ino - 1]| then 0
                     else Min(nbytes, |files[file.ino - 1]| - old(file.pos))
      ensures forall k :: 0 <= k < |r| ==> r[k] == files[file.ino - 1][old(file.pos) + k]
      ensures file.pos == old(file.pos) + |r|
    {
      assert Live(disk[..], inodes[..], Bits(blockBitmap[..]), files, file.ino - 1);
      var inode := inodes[file.ino - 1];
      r := ReadData(disk, inode, file.pos, nbytes, Bits(blockBitmap[..]), files[file.ino - 1]);
      file.pos := file.pos + |r|;
    }

    /** `file_fwrite` within the direct blocks, while there are blocks to take */
    method FileWrite(file: OpenFile, buf: Bytes)
      requires Valid() && Opened(file) && file.pos + |buf| <= MAX_DIRECT
      requires Room() >= BlocksTaken(BlocksFor(|files[file.ino - 1]|), BlocksFor(file.pos + |buf|))
      modifies this`files, file`pos, disk, inodes, blockBitmap, inodeBitmap
      ensures Valid() && Opened(file) && file.pos == old(file.pos) + |buf|
      ensures files == old(files)[file.ino - 1 := files[file.ino - 1]]
      ensures Overwritten(old(files[file.ino - 1]), old(file.pos), buf, files[file.ino - 1])
      ensures |files[file.ino - 1]| == old(file.pos) + |buf| && files[file.ino - 1][old(file.pos)..] == buf
      ensures var n := Min(old(file.pos), |old(files[file.ino - 1])|);
        files[file.ino - 1][..n] == old(files[file.ino - 1])[..n]
      ensures ForeignKept(old(disk[..]), disk[..], old(inodes[file.ino - 1]), old(Bits(blockBitmap[..])))
      ensures inodes[..] == old(inodes[..])[file.ino - 1 := inodes[file.ino - 1]] &&
        inodes[file.ino - 1].key == old(inodes[file.ino - 1].key)
      ensures Bits(inodeBitmap[..]) == old(Bits(inodeBitmap[..]))
      ensures Room() == old(Room()) - BlocksTaken(BlocksFor(|old(files[file.ino - 1])|),
        BlocksFor(old(file.pos) + |buf|))
    {
      ghost var i, was, d, table, bits :=
          file.ino - 1, files[file.ino - 1], disk[..], inodes[..], Bits(blockBitmap[..]);
      assert Live(d, table, bits, files, i);
      var ino := file.ino;
      var inode := inodes[ino - 1];
      inode := AllocInode(ino, inode, file.pos + |buf|, inode);
      WriteDirect(disk, inode, file.pos, buf, Bits(blockBitmap[..]));
      ghost var data := DataOf(disk[..], inode);
      WriteOverwrites(d, disk[..], table[i], bits, was, inode, Bits(blockBitmap[..]), file.pos, buf);
      KeptIsForeignKept(d, disk[..], table[i], bits, inode);
      StoreOne(d, disk[..], table, bits, Bits(blockBitmap[..]), files, i, inode, data);
      files := files[i := data];
      file.pos := file.pos + |buf|;
    }

    /** `file_getkey` */
    method GetKey(file: OpenFile) returns (key: Bytes)
      requires Valid() && Opened(file)
      ensures key == inodes[file.ino - 1].key
    {
      assert Live(disk[..], inodes[..], Bits(blockBitmap[..]), files, file.ino - 1);
      key := inodes[file.ino - 1].key;
    }

    /** `file_setkey` */
    method SetKey(file: OpenFile, key: Bytes)
      requires Valid() && Opened(file)
      modifies inodes
      ensures Valid()
      ensures inodes[..] == old(inodes[..])[file.ino - 1 := old(inodes[file.ino - 1]).(key := key)]
    {
      ghost var i, table, bits := file.ino - 1, inodes[..], Bits(blockBitmap[..]);
      assert Live(disk[..], table, bits, files, i);
      var inode := inodes[file.ino - 1];
      inode := inode.(key := key);
      inodes[file.ino - 1] := inode;
      SameBlocks(disk[..], table[i], bits, files[i], inode);
      StoreOne(disk[..], disk[..], table, bits, bits, files, i, inode, files[i]);
      assert files[i := files[i]] == files;
    }

    /**
     `icreate` as far as the inode goes, and the inode `ext2_insert_dentry` writes; what it leaves unset is arbitrary.
     */
    method Create(unset: Inode) returns (ino: nat)
      requires Valid() && Unmarked(Bits(inodeBitmap[..])) != {} && |unset.block| == INODE_ENTRIES
      modifies this`files, inodes, blockBitmap, inodeBitmap
      ensures Valid() && ino >= 1 && ino - 1 !in old(files) && ino - 1 !in old(Bits(inodeBitmap[..]))
      ensures files == old(files)[ino - 1 := []] && Room() == old(Room())
      ensures forall j: nat :: j < inodes.Length && j != ino - 1 ==> inodes[j] == old(inodes[j])
    {
      ino := NextFree(inodeBitmap);
      var inode := unset.(size := 0, blocks := 0);
      ghost var bits := Bits(blockBitmap[..]);
      inode := AllocInode(ino, inode, 0, inode);
      StoreEmpty(disk[..], old(inodes[..]), bits, files, ino - 1, inode);
      files := files[ino - 1 := []];
      MarkMore(disk[..], inodes[..], bits, Bits(blockBitmap[..]), files);
    }
  }

  /** What was written at a position is what is read there: the two calls, with the position set back between them. */
  method WriteThenRead(fs: FileSystem, file: OpenFile, buf: Bytes) returns (r: Bytes)
    requires fs.Valid() && fs.Opened(file) && file.pos + |buf| <= MAX_DIRECT
    requires fs.Room() >= BlocksTaken(BlocksFor(|fs.files[file.ino - 1]|), BlocksFor(file.pos + |buf|))
    modifies fs`files, file`pos, fs.disk, fs.inodes, fs.blockBitmap, fs.inodeBitmap
    ensures fs.Valid() && r == buf && file.pos == old(file.pos) + |buf|
  {
    hide FileSystem.Valid, Overwritten, ReadRange;
    var at := file.pos;
    fs.FileWrite(file, buf);
    file.pos := at;
    r := fs.FileRead(file, |buf|);
    assert |r| == |buf| && forall k :: 0 <= k < |r| ==> r[k] == fs.files[file.ino - 1][at..][k];
  }
}
