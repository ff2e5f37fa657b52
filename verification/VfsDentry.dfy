/**
 `dentry_t` of src/include/vfs.h as the 88 bytes it takes: a name of 48 bytes, the inode, three pointers. What
 src/ext2.c writes into it, and what a reader of the name gets back.
 */
module VfsDentry {
  import opened Bitmap
  import opened LittleEndian
  import opened Splices
  import opened DirectoryBlock

  const DENTRY_SIZE: nat := 88
  /** `i_blocks`, `i_size`, `i_ino` and `i_mode` follow the name; `i_op` comes after one more pointer. */
  const INODE_AT: nat := FNAME_LEN
  const INO_AT: nat := INODE_AT + 8
  const OP_AT: nat := INODE_AT + 20

  /** What `ext2_read_inode` finds for an inode number. */
  datatype InodeInfo = InodeInfo(blocks: word, size: word, mode: word)

  // ---------- copying strings ----------

  /** What `strncpy` writes: the bytes up to the first zero, and zeros from there on. */
  function Strncpy(src: seq<byte>, n: nat): (r: seq<byte>)
    requires n <= |src|
    ensures |r| == n
    decreases n
  {
    if n == 0 then [] else if src[0] == 0 then Repeated<byte>(0, n) else [src[0]] + Strncpy(src[1..], n - 1)
  }

  lemma {:induction false} StrncpyAt(src: seq<byte>, n: nat, k: nat)
    requires k < n <= |src| && forall j :: 0 <= j < k ==> src[j] != 0
    ensures Strncpy(src, n)[k] == src[k]
    decreases n
  {
    if k > 0 {
      assert src[1..][k - 1] == src[k];
      assert forall j :: 0 <= j < k - 1 ==> src[1..][j] == src[j + 1];
      StrncpyAt(src[1..], n - 1, k - 1);
    }
  }

  /** Without a zero all bytes are copied. */
  lemma StrncpyWhole(src: seq<byte>, n: nat)
    requires n <= |src| && 0 !in src[..n]
    ensures Strncpy(src, n) == src[..n]
  {
    forall k: nat | k < n
      ensures Strncpy(src, n)[k] == src[k]
    {
      assert forall j :: 0 <= j < k ==> src[j] == src[..n][j];
      StrncpyAt(src, n, k);
    }
  }

  // ---------- filling a dentry ----------

  /** The four fields of the inode, as they stand in memory. */
  function InodeBytes(info: InodeInfo, ino: word): (b: seq<byte>)
    ensures |b| == 16
  {
    Bytes32(info.blocks) + Bytes32(info.size) + Bytes32(ino) + Bytes32(info.mode)
  }

  /** What `ext2_fill_vfs_dentry` leaves: the name and its zero first, then the inode over whatever is there. */
  function Filled(was: seq<byte>, e: Entry, info: InodeInfo, op: word): (dent: seq<byte>)
    requires |was| == DENTRY_SIZE && |e.name| < DENTRY_SIZE
    ensures |dent| == DENTRY_SIZE
  {
    var named := Splice(Splice(was, 0, Strncpy(e.name, |e.name|)), |e.name|, [0]);
    Splice(Splice(named, OP_AT, Bytes32(op)), INODE_AT, InodeBytes(info, e.ino))
  }

  /** `ext2_fill_vfs_dentry`. It does not look at the length of the name, which may leave the dentry. */
  method FillVfsDentry(dent: array<byte>, e: Entry, info: InodeInfo, op: word) returns (overrun: bool)
    requires dent.Length == DENTRY_SIZE
    modifies dent
    ensures overrun <==> |e.name| >= DENTRY_SIZE
    ensures !overrun ==> dent[..] == Filled(old(dent[..]), e, info, op)
  {
    if |e.name| >= DENTRY_SIZE {
      return true;
    }
    ghost var was := dent[..];
    hide Bytes32, Splice, Strncpy;
    CopyInto(dent, 0, Strncpy(e.name, |e.name|));
    CopyInto(dent, |e.name|, [0]);
    CopyInto(dent, OP_AT, Bytes32(op));
    CopyInto(dent, INODE_AT, InodeBytes(info, e.ino));
    return false;
  }

  /** The inode of the dentry is that of the record, however long the name is. */
  lemma InodeFilled(was: seq<byte>, e: Entry, info: InodeInfo, op: word)
    requires |was| == DENTRY_SIZE && |e.name| < DENTRY_SIZE
    ensures Word32(Filled(was, e, info, op)[INO_AT..INO_AT + 4]) == e.ino
  {
    hide Bytes32, Word32, Strncpy;
    var dent := Filled(was, e, info, op);
    assert dent[INODE_AT..INODE_AT + 16] == InodeBytes(info, e.ino);
    assert dent[INO_AT..INO_AT + 4] == dent[INODE_AT..INODE_AT + 16][8..12] == Bytes32(e.ino);
    Word32RoundTrip(e.ino);
  }

  lemma InodeWords(info: InodeInfo, ino: word)
    ensures var b := InodeBytes(info, ino);
      && b[..4] == Bytes32(info.blocks) && b[4..8] == Bytes32(info.size)
      && b[8..12] == Bytes32(ino) && b[12..] == Bytes32(info.mode)
  {
    hide Bytes32;
  }

  lemma RestFilled(was: seq<byte>, e: Entry, info: InodeInfo, op: word, k: nat)
    requires |was| == DENTRY_SIZE && |e.name| < DENTRY_SIZE && (k < 48 || 64 <= k < 68 || 72 <= k < 88)
    ensures Filled(was, e, info, op)[k] ==
      if k < |e.name| then Strncpy(e.name, |e.name|)[k] else if k == |e.name| then 0 else was[k]
  {
    hide Strncpy, Bytes32;
  }

  /** The dentry field by field: every field the code sets, and what is left of the name in those it does not. */
  lemma FieldsFilled(was: seq<byte>, e: Entry, info: InodeInfo, op: word)
    requires |was| == DENTRY_SIZE && |e.name| < DENTRY_SIZE
    ensures var dent := Filled(was, e, info, op);
      && Word32(dent[48..52]) == info.blocks && Word32(dent[52..56]) == info.size
      && Word32(dent[56..60]) == e.ino && Word32(dent[60..64]) == info.mode && Word32(dent[68..72]) == op
      && forall k: nat :: k < 48 || 64 <= k < 68 || 72 <= k < 88 ==>
           dent[k] == if k < |e.name| then Strncpy(e.name, |e.name|)[k] else if k == |e.name| then 0 else was[k]
  {
    hide Bytes32, Word32, Strncpy;
    var named := Splice(Splice(was, 0, Strncpy(e.name, |e.name|)), |e.name|, [0]);
    var inner, dent := Splice(named, OP_AT, Bytes32(op)), Filled(was, e, info, op);
    InodeWords(info, e.ino);
    SliceOfSplice(named, OP_AT, Bytes32(op), 68, 4);
    SliceOfSplice(inner, INODE_AT, InodeBytes(info, e.ino), 68, 4);
    SliceOfSplice(inner, INODE_AT, InodeBytes(info, e.ino), 48, 16);
    forall k: nat | k < 48 || 64 <= k < 68 || 72 <= k < 88
      ensures dent[k] == if k < |e.name| then Strncpy(e.name, |e.name|)[k] else if k == |e.name| then 0 else was[k]
    {
      RestFilled(was, e, info, op, k);
    }
    hide Splice, Filled, InodeBytes;
    assert dent[48..52] == dent[48..64][..4] && dent[52..56] == dent[48..64][4..8];
    assert dent[56..60] == dent[48..64][8..12] && dent[60..64] == dent[48..64][12..];
    Word32RoundTrip(info.blocks);
    Word32RoundTrip(info.size);
    Word32RoundTrip(e.ino);
    Word32RoundTrip(info.mode);
    Word32RoundTrip(op);
  }

  /** What stands where the name is looked for: the name as far as there is room, then the block count. */
  lemma NameFilled(was: seq<byte>, e: Entry, info: InodeInfo, op: word, k: nat)
    requires |was| == DENTRY_SIZE && |e.name| < DENTRY_SIZE && 0 !in e.name && k < |e.name|
    ensures k < FNAME_LEN ==> Filled(was, e, info, op)[k] == e.name[k]
    ensures k == FNAME_LEN ==> Filled(was, e, info, op)[k] == info.blocks % 0x100
  {
    StrncpyWhole(e.name, |e.name|);
    assert e.name[..|e.name|] == e.name;
    hide Strncpy;
  }

  /** What a reader gets who copies n bytes of the name out of the dentry. */
  function NameOf(was: seq<byte>, e: Entry, info: InodeInfo, op: word, n: nat): (name: seq<byte>)
    requires |was| == DENTRY_SIZE && |e.name| < DENTRY_SIZE && n <= |e.name|
    ensures |name| == n
  {
    Strncpy(Filled(was, e, info, op), n)
  }

  /** As far as the field goes the name is right; the byte behind it is the lowest of the block count. */
  lemma NameRead(was: seq<byte>, e: Entry, info: InodeInfo, op: word, n: nat)
    requires |was| == DENTRY_SIZE && |e.name| < DENTRY_SIZE && 0 !in e.name && n <= |e.name|
    ensures n <= FNAME_LEN ==> NameOf(was, e, info, op, n) == e.name[..n]
    ensures n > FNAME_LEN ==> NameOf(was, e, info, op, n)[..FNAME_LEN] == e.name[..FNAME_LEN]
    ensures n > FNAME_LEN ==> NameOf(was, e, info, op, n)[FNAME_LEN] == info.blocks % 0x100
  {
    var dent := Filled(was, e, info, op);
    forall k: nat | k < |e.name|
      ensures k < FNAME_LEN ==> dent[k] == e.name[k]
      ensures k == FNAME_LEN ==> dent[k] == info.blocks % 0x100
    {
      NameFilled(was, e, info, op, k);
    }
    hide Filled;
    forall k: nat | k < n && k <= FNAME_LEN
      ensures NameOf(was, e, info, op, n)[k] == dent[k]
    {
      assert forall j :: 0 <= j < k ==> dent[j] == e.name[j];
      StrncpyAt(dent, n, k);
    }
  }

  /** Whatever inode a record has, n bytes of its name come back right if and only if they fit in the field. */
  lemma NameWholeWhen(was: seq<byte>, e: Entry, op: word, n: nat)
    requires |was| == DENTRY_SIZE && |e.name| < DENTRY_SIZE && 0 !in e.name && n <= |e.name|
    ensures (forall info :: NameOf(was, e, info, op, n) == e.name[..n]) <==> n <= FNAME_LEN
  {
    hide NameOf;
    if n <= FNAME_LEN {
      forall info
        ensures NameOf(was, e, info, op, n) == e.name[..n]
      {
        NameRead(was, e, info, op, n);
      }
    } else {
      NameRead(was, e, InodeInfo(0, 0, 0), op, n);
      assert e.name[..n][FNAME_LEN] == e.name[FNAME_LEN] != 0;
    }
  }
}
