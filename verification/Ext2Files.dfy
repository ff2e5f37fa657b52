/**
 Regular files of src/ext2.c on the values they live in: where an inode says each byte of a file is, and what
 a change of one inode and its blocks leaves alone.
 */
module Ext2Files {
  import opened Splices

  const BLOCK_SIZE: nat := 1024
  const DIRECT_BLOCKS: nat := 12
  const MAX_DIRECT: nat := DIRECT_BLOCKS * BLOCK_SIZE
  /** `i_block`: twelve direct entries and three indirect ones. */
  const INODE_ENTRIES: nat := 15

  type Bytes = seq<bv8>

  /** The fields of `ext2_inode_t` that file data goes by. */
  datatype Inode = Inode(size: nat, blocks: nat, block: seq<nat>, key: Bytes)

  function Min(a: nat, b: nat): nat {
    if a < b then a else b
  }

  /** `fsize / blocksize`, one more if there is a remainder. */
  function BlocksFor(size: nat): nat {
    if size % BLOCK_SIZE != 0 then size / BLOCK_SIZE + 1 else size / BLOCK_SIZE
  }

  lemma BlocksCover(size: nat, p: nat)
    ensures p / BLOCK_SIZE < BlocksFor(size) <==> p < BLOCK_SIZE * BlocksFor(size)
    ensures size <= BLOCK_SIZE * BlocksFor(size) < size + BLOCK_SIZE
    ensures size <= MAX_DIRECT <==> BlocksFor(size) <= DIRECT_BLOCKS
  {
  }

  /** The k-th data block of an inode is b. */
  ghost predicate Uses(n: Inode, k: nat, b: nat) {
    k < n.blocks && k < |n.block| && n.block[k] == b
  }

  ghost predicate Owns(n: Inode, b: nat) {
    exists k: nat :: Uses(n, k, b)
  }

  /** Block b is marked in the bitmap: block numbers are one above bit numbers. */
  predicate Marked(b: nat, bits: set<nat>) {
    b >= 1 && b - 1 in bits
  }

  /** A block of a file is on the disk and marked. */
  predicate BlockOk(b: nat, blocks: nat, bits: set<nat>) {
    b < blocks && Marked(b, bits)
  }

  /** An inode with as many blocks as its size needs, all of them marked in the bitmap and no two the same. */
  ghost predicate InodeOk(n: Inode, blocks: nat, bits: set<nat>) {
    && |n.block| == INODE_ENTRIES && n.blocks == BlocksFor(n.size) <= DIRECT_BLOCKS
    && (forall k: nat, b: nat :: Uses(n, k, b) ==> BlockOk(b, blocks, bits))
    && (forall k: nat, l: nat, b: nat :: Uses(n, k, b) && Uses(n, l, b) ==> k == l)
  }

  ghost predicate AllBlocks(disk: seq<Bytes>) {
    forall b :: 0 <= b < |disk| ==> |disk[b]| == BLOCK_SIZE
  }

  /** Byte `at` of block b. */
  ghost function DiskByte(disk: seq<Bytes>, b: nat, at: nat): bv8 {
    if b < |disk| && at < |disk[b]| then disk[b][at] else 0
  }

  /** Byte p of a file, where its inode says it is. */
  ghost function ByteAt(disk: seq<Bytes>, n: Inode, p: nat): bv8 {
    var k := p / BLOCK_SIZE;
    if k < |n.block| then DiskByte(disk, n.block[k], p % BLOCK_SIZE) else 0
  }

  /** The disk holds this data for this inode. */
  ghost predicate Holds(disk: seq<Bytes>, n: Inode, data: Bytes) {
    |data| == n.size && forall p :: 0 <= p < |data| ==> data[p] == ByteAt(disk, n, p)
  }

  ghost predicate FileOk(disk: seq<Bytes>, n: Inode, bits: set<nat>, data: Bytes) {
    AllBlocks(disk) && InodeOk(n, |disk|, bits) && Holds(disk, n, data)
  }

  /** The byte at offset `off` of the k-th block of a file is on the disk. */
  lemma BlockOfByte(disk: seq<Bytes>, n: Inode, bits: set<nat>, k: nat, off: nat)
    requires AllBlocks(disk) && InodeOk(n, |disk|, bits) && off < BLOCK_SIZE && k * BLOCK_SIZE + off < n.size
    ensures k < n.blocks && k < |n.block| && Uses(n, k, n.block[k])
    ensures n.block[k] < |disk| && |disk[n.block[k]]| == BLOCK_SIZE
    ensures ByteAt(disk, n, k * BLOCK_SIZE + off) == disk[n.block[k]][off]
  {
    var p := k * BLOCK_SIZE + off;
    assert p / BLOCK_SIZE == k && p % BLOCK_SIZE == off;
    BlocksCover(n.size, p);
    assert Uses(n, k, n.block[k]);
  }

  /** Part of one block of a file is that stretch of its data. */
  lemma BlockHolds(disk: seq<Bytes>, n: Inode, bits: set<nat>, data: Bytes, k: nat, off: nat, m: nat)
    requires FileOk(disk, n, bits, data) && off < BLOCK_SIZE && off + m <= BLOCK_SIZE && k * BLOCK_SIZE + off < n.size
    requires k * BLOCK_SIZE + off + m <= n.size
    ensures k < |n.block| && n.block[k] < |disk| && |disk[n.block[k]]| == BLOCK_SIZE && n.size == |data|
    ensures Slice(disk[n.block[k]], off, m) == Slice(data, k * BLOCK_SIZE + off, m)
  {
    BlockOfByte(disk, n, bits, k, off);
    var part := Slice(disk[n.block[k]], off, m);
    var want := Slice(data, k * BLOCK_SIZE + off, m);
    forall j: nat | j < |part|
      ensures part[j] == want[j]
    {
      BlockOfByte(disk, n, bits, k, off + j);
    }
  }

  lemma SliceAppend<T>(s: seq<T>, from: nat, n: nat, m: nat)
    requires from + n + m <= |s|
    ensures Slice(s, from, n) + Slice(s, from + n, m) == Slice(s, from, n + m)
  {
  }

  // ---------- all files ----------

  /** One live file: its inode is in the table, and holds its data. */
  ghost predicate Live(disk: seq<Bytes>, inodes: seq<Inode>, bits: set<nat>, files: map<nat, Bytes>, i: nat) {
    i in files && i < |inodes| && FileOk(disk, inodes[i], bits, files[i])
  }

  /** Two live files, and a block of each. */
  ghost predicate Shares(inodes: seq<Inode>, files: map<nat, Bytes>, i: nat, j: nat, b: nat) {
    i in files && j in files && i < |inodes| && j < |inodes| && Owns(inodes[i], b) && Owns(inodes[j], b)
  }

  /** Every live file is stored, and no block belongs to two of them. */
  ghost predicate FilesStored(disk: seq<Bytes>, inodes: seq<Inode>, bits: set<nat>, files: map<nat, Bytes>) {
    && AllBlocks(disk)
    && (forall i: nat {:trigger Live(disk, inodes, bits, files, i)} :: i in files ==>
        Live(disk, inodes, bits, files, i))
    && (forall i: nat, j: nat, b: nat :: Shares(inodes, files, i, j, b) ==> i == j)
  }

  /** The blocks that were marked and are not the file's own. */
  ghost predicate Foreign(n: Inode, bits: set<nat>, b: nat) {
    Marked(b, bits) && !Owns(n, b)
  }

  ghost predicate ForeignKept(disk: seq<Bytes>, after: seq<Bytes>, n: Inode, bits: set<nat>) {
    |after| == |disk| && forall b: nat {:trigger Foreign(n, bits, b)} :: b < |disk| && Foreign(n, bits, b) ==>
        after[b] == disk[b]
  }

  /** A grown inode keeps to the blocks it had and to blocks that were free. */
  ghost predicate GrowsFrom(n: Inode, bits: set<nat>, m: Inode) {
    forall b: nat {:trigger Owns(m, b)} :: Owns(m, b) ==> !Foreign(n, bits, b)
  }

  /** A file all of whose blocks keep their bytes still holds its data. */
  lemma FileOkKept(disk: seq<Bytes>, after: seq<Bytes>, n: Inode, bits: set<nat>, more: set<nat>, data: Bytes)
    requires FileOk(disk, n, bits, data) && AllBlocks(after) && |after| == |disk| && bits <= more
    requires forall b: nat :: b < |disk| && Owns(n, b) ==> after[b] == disk[b]
    ensures FileOk(after, n, more, data)
  {
    forall p: nat | p < |data|
      ensures data[p] == ByteAt(after, n, p)
    {
      var k := p / BLOCK_SIZE;
      assert p == k * BLOCK_SIZE + p % BLOCK_SIZE;
      BlockOfByte(disk, n, bits, k, p % BLOCK_SIZE);
      assert Owns(n, n.block[k]);
    }
  }

  /** A block of one live file is foreign to every other. */
  lemma OthersAreForeign(disk: seq<Bytes>, inodes: seq<Inode>, bits: set<nat>, files: map<nat, Bytes>, i: nat, j: nat,
      b: nat)
    requires FilesStored(disk, inodes, bits, files) && i in files && j in files && i != j && j < |inodes| &&
      Owns(inodes[j], b)
    ensures i < |inodes| && Foreign(inodes[i], bits, b) && b < |disk|
  {
    assert Live(disk, inodes, bits, files, i) && Live(disk, inodes, bits, files, j);
    var k: nat :| Uses(inodes[j], k, b);
    assert BlockOk(b, |disk|, bits);
    assert Shares(inodes, files, i, j, b) <==> Owns(inodes[i], b);
  }

  /**
   Storing one file anew, in its own blocks and in blocks that were free, changes that file alone.
   */
  lemma StoreOne(disk: seq<Bytes>, after: seq<Bytes>, inodes: seq<Inode>, bits: set<nat>, more: set<nat>,
                 files: map<nat, Bytes>, i: nat, n: Inode, data: Bytes)
    requires FilesStored(disk, inodes, bits, files) && i in files && i < |inodes| && bits <= more
    requires ForeignKept(disk, after, inodes[i], bits) && GrowsFrom(inodes[i], bits, n) && FileOk(after, n, more, data)
    ensures FilesStored(after, inodes[i := n], more, files[i := data])
  {
    var table, now := inodes[i := n], files[i := data];
    forall j: nat | j in now
      ensures Live(after, table, more, now, j)
    {
      if j != i {
        assert Live(disk, inodes, bits, files, j);
        forall b: nat | b < |disk| && Owns(inodes[j], b)
          ensures after[b] == disk[b]
        {
          OthersAreForeign(disk, inodes, bits, files, i, j, b);
        }
        FileOkKept(disk, after, inodes[j], bits, more, files[j]);
      }
    }
    forall j: nat, l: nat, b: nat | Shares(table, now, j, l, b)
      ensures j == l
    {
      if j != i && l != i {
        assert Shares(inodes, files, j, l, b);
      } else if j != l {
        OthersAreForeign(disk, inodes, bits, files, i, if j == i then l else j, b);
      }
    }
  }

  /** Marking more blocks changes no file. */
  lemma MarkMore(disk: seq<Bytes>, inodes: seq<Inode>, bits: set<nat>, more: set<nat>, files: map<nat, Bytes>)
    requires FilesStored(disk, inodes, bits, files) && bits <= more
    ensures FilesStored(disk, inodes, more, files)
  {
    forall i: nat | i in files
      ensures Live(disk, inodes, more, files, i)
    {
      assert Live(disk, inodes, bits, files, i);
      FileOkKept(disk, disk, inodes[i], bits, more, files[i]);
    }
  }

  /** A new, empty file. */
  lemma StoreEmpty(disk: seq<Bytes>, inodes: seq<Inode>, bits: set<nat>, files: map<nat, Bytes>, i: nat, n: Inode)
    requires FilesStored(disk, inodes, bits, files) && i !in files && i < |inodes|
    requires n.size == 0 && n.blocks == 0 && |n.block| == INODE_ENTRIES
    ensures FilesStored(disk, inodes[i := n], bits, files[i := []])
  {
    var table, now := inodes[i := n], files[i := []];
    forall j: nat | j in now
      ensures Live(disk, table, bits, now, j)
    {
      if j != i {
        assert Live(disk, inodes, bits, files, j);
      }
    }
    forall j: nat, l: nat, b: nat | Shares(table, now, j, l, b)
      ensures j == l
    {
      if j != i && l != i {
        assert Shares(inodes, files, j, l, b);
      }
    }
  }
}
