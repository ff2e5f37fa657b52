/** The directory operations of src/ext2.c, over the blocks of one directory in the order of its inode. */
module Ext2Dir {
  import opened Bitmap
  import opened LittleEndian
  import opened Splices
  import opened DirectoryBlock
  import opened VfsDentry
  import Files = Ext2Files

  const DIRECT_BLOCKS: nat := Files.DIRECT_BLOCKS

  type Name = seq<byte>

  datatype Lookup = NotFound | Found(e: Entry)

  // ---------- the names of a directory ----------

  /** Record j of block b has this name. */
  ghost predicate Named(all: seq<seq<Entry>>, b: nat, j: nat, n: Name) {
    b < |all| && j < |all[b]| && all[b][j].name == n
  }

  ghost predicate Listed(all: seq<seq<Entry>>, n: Name) {
    exists b: nat, j: nat :: Named(all, b, j, n)
  }

  /** The records are the names of the map, each once, with its inode number. */
  ghost predicate Represents(all: seq<seq<Entry>>, names: map<Name, word>) {
    && (forall b: nat, j: nat, n: Name :: Named(all, b, j, n) ==> n in names && names[n] == all[b][j].ino)
    && (forall n: Name :: n in names ==> Listed(all, n))
    && (forall b: nat, j: nat, c: nat, k: nat, n: Name :: Named(all, b, j, n) && Named(all, c, k, n) ==>
        b == c && j == k)
  }

  /** Two records that say the same but for their place and length. */
  predicate SameFile(d: Entry, e: Entry) {
    d.name == e.name && d.ino == e.ino && d.kind == e.kind
  }

  /** One record more, at position `at`. */
  ghost predicate OneMore(es: seq<Entry>, at: nat, now: seq<Entry>) {
    && |now| == |es| + 1 && at <= |es|
    && (forall k: nat :: k < at ==> SameFile(now[k], es[k]))
    && (forall k: nat :: at <= k < |es| ==> SameFile(now[k + 1], es[k]))
  }

  lemma NamesAfterInsert(all: seq<seq<Entry>>, names: map<Name, word>, b: nat, at: nat, now: seq<Entry>)
    requires Represents(all, names) && b < |all| && OneMore(all[b], at, now) && now[at].name !in names
    ensures Represents(all[b := now], names[now[at].name := now[at].ino])
  {
    var after, added := all[b := now], now[at].name;
    forall c: nat, k: nat, n: Name | Named(after, c, k, n) && !(c == b && k == at)
      ensures Named(all, c, if c == b && k > at then k - 1 else k, n)
    {
      if c == b && k > at {
        assert SameFile(now[k - 1 + 1], all[b][k - 1]);
      }
    }
    forall n: Name | n in names || n == added
      ensures Listed(after, n)
    {
      if n == added {
        assert Named(after, b, at, n);
      } else {
        var c: nat, k: nat :| Named(all, c, k, n);
        if c == b && k >= at {
          assert SameFile(now[k + 1], all[b][k]) && Named(after, b, k + 1, n);
        } else {
          assert Named(after, c, k, n);
        }
      }
    }
  }

  lemma NamesAfterRemove(all: seq<seq<Entry>>, names: map<Name, word>, b: nat, at: nat, now: seq<Entry>)
    requires Represents(all, names) && b < |all| && OneMore(now, at, all[b])
    ensures Represents(all[b := now], names - {all[b][at].name})
  {
    var after, gone := all[b := now], all[b][at].name;
    assert Named(all, b, at, gone);
    forall c: nat, k: nat, n: Name | Named(after, c, k, n)
      ensures Named(all, c, if c == b && k >= at then k + 1 else k, n)
    {
    }
    forall n: Name | n in names && n != gone
      ensures Listed(after, n)
    {
      var c: nat, k: nat :| Named(all, c, k, n);
      if c == b && k > at {
        assert SameFile(all[b][k - 1 + 1], now[k - 1]) && Named(after, b, k - 1, n);
      } else {
        assert Named(after, c, k, n);
      }
    }
  }

  lemma SplitIsOneMore(es: seq<Entry>, i: nat, ino: word, kind: byte, name: Name)
    requires i < |es| && EntryOk(es[i])
    ensures OneMore(es, i + 1, SplitAfter(es, i, ino, kind, name))
    ensures SplitAfter(es, i, ino, kind, name)[i + 1] == InSlack(es[i], ino, kind, name)
  {
  }

  lemma RemoveIsOneFewer(es: seq<Entry>, i: nat)
    requires i < |es| && |es| > 1
    ensures OneMore(RemoveAt(es, i), i, es)
  {
    var less := RemoveAt(es, i);
    assert i > 0 ==> SameFile(less[i - 1], es[i - 1]);
    assert forall k: nat :: i < k <= |less| ==> less[k - 1] == es[k] || SameFile(less[k - 1], es[k]);
  }

  // ---------- scanning ----------

  /** Where record i begins, or the chain ends. */
  function Offset(es: seq<Entry>, i: nat): nat
    requires i <= |es|
  {
    if i < |es| then es[i].off else EndOf(es)
  }

  /** `cur_dir->rec_len` of the record at an offset. */
  function RecLen(buf: seq<byte>, off: nat): nat
    requires off + HEADER <= |buf|
  {
    Word16(buf[off + 4..off + 6])
  }

  /** What the scans read at a position of a chain. */
  lemma ScanStep(buf: seq<byte>, es: seq<Entry>, i: nat)
    requires BlockIs(buf, es) && i <= |es|
    ensures Offset(es, i) <= DIR_BLOCK
    ensures i == |es| && !OpenEnd(buf, es) ==> Offset(es, i) == DIR_BLOCK
    ensures i == |es| && OpenEnd(buf, es) ==>
      Offset(es, i) + HEADER + FNAME_LEN <= DIR_BLOCK && buf[Offset(es, i) + 7] == FT_UNKNOWN
    ensures i < |es| ==> Member(buf, es, i) && Offset(es, i) + HEADER + |es[i].name| <= DIR_BLOCK
    ensures i < |es| ==> buf[Offset(es, i) + 7] == es[i].kind != FT_UNKNOWN && buf[Offset(es, i) + 6] == |es[i].name|
    ensures i < |es| ==> Word32(buf[Offset(es, i)..Offset(es, i) + 4]) == es[i].ino
    ensures i < |es| ==> buf[Offset(es, i) + HEADER..Offset(es, i) + HEADER + |es[i].name|] == es[i].name
    ensures i < |es| ==> Offset(es, i) + RecLen(buf, Offset(es, i)) == Offset(es, i + 1)
    ensures i < |es| ==> RecLen(buf, Offset(es, i)) == es[i].len
  {
    if i < |es| {
      assert Member(buf, es, i);
      FieldsOf(buf, es[i]);
      if i + 1 < |es| {
        assert Follows(es, i + 1);
      }
    }
  }

  /** A record the scan has passed at position i of block b. */
  predicate Before(c: nat, k: nat, b: nat, i: nat) {
    c < b || (c == b && k < i)
  }

  /** `imode_to_ft` */
  function ImodeToFt(mode: nat): byte {
    match mode / 0x1000
    case 0xC => 6
    case 0xA => 7
    case 0x8 => 1
    case 0x6 => 3
    case 0x4 => 2
    case 0x2 => 4
    case 0x1 => 5
    case _ => FT_UNKNOWN
  }

  /** A name as far as n bytes hold it. */
  /** Sockets, links, files, block devices, directories, character devices and pipes, as the directory names them. */
  lemma FileTypes(mode: nat)
    ensures 0xC000 <= mode < 0xD000 <==> ImodeToFt(mode) == 6
    ensures 0xA000 <= mode < 0xB000 <==> ImodeToFt(mode) == 7
    ensures 0x8000 <= mode < 0x9000 <==> ImodeToFt(mode) == 1
    ensures 0x6000 <= mode < 0x7000 <==> ImodeToFt(mode) == 3
    ensures 0x4000 <= mode < 0x5000 <==> ImodeToFt(mode) == 2
    ensures 0x2000 <= mode < 0x3000 <==> ImodeToFt(mode) == 4
    ensures 0x1000 <= mode < 0x2000 <==> ImodeToFt(mode) == 5
  {
  }

  function Cut(name: Name, n: nat): Name {
    if |name| > n then name[..n] else name
  }

  /** All records of a directory, block after block. */
  ghost function All(all: seq<seq<Entry>>): seq<Entry> {
    if all == [] then [] else All(all[..|all| - 1]) + all[|all| - 1]
  }

  /** How many records stand in the first b blocks. */
  ghost function RecordsBefore(all: seq<seq<Entry>>, b: nat): nat
    requires b <= |all|
  {
    |All(all[..b])|
  }

  lemma {:induction false} AllAt(all: seq<seq<Entry>>, b: nat, j: nat)
    requires b < |all| && j < |all[b]|
    ensures RecordsBefore(all, b) + j < |All(all)| && All(all)[RecordsBefore(all, b) + j] == all[b][j]
    decreases |all|
  {
    var init := all[..|all| - 1];
    if b < |all| - 1 {
      AllAt(init, b, j);
      assert init[..b] == all[..b];
    }
  }

  lemma RecordsNext(all: seq<seq<Entry>>, b: nat)
    requires b < |all|
    ensures RecordsBefore(all, b + 1) == RecordsBefore(all, b) + |all[b]|
    ensures b + 1 == |all| ==> RecordsBefore(all, b + 1) == |All(all)|
  {
    assert all[..b + 1][..b] == all[..b];
    assert b + 1 == |all| ==> all[..b + 1] == all;
  }

  /** No block has an open end: so it is after the first insertion. */
  predicate AllClosed(all: seq<seq<Entry>>) {
    forall b: nat :: b < |all| ==> Closed(all[b])
  }

  lemma ClosedAfter(all: seq<seq<Entry>>, b: nat, now: seq<Entry>)
    requires b < |all|
    ensures AllClosed(all) && Closed(now) ==> AllClosed(all[b := now])
  {
  }

  lemma SoleRecord(es: seq<Entry>)
    requires |es| == 1
    ensures RemoveAt(es, 0) == es
  {
  }

  /** Where an insertion may go: nowhere, over a record of unknown type, or into the slack of a record. */
  datatype Place = Nowhere | Unknown | Slack(cur: Entry)

  ghost predicate HasName(es: seq<Entry>, k: nat, n: Name) {
    k < |es| && es[k].name == n
  }

  /** The block and position behind an index. */
  lemma {:induction false} AllFrom(all: seq<seq<Entry>>, k: nat) returns (b: nat, j: nat)
    requires k < |All(all)|
    ensures b < |all| && j < |all[b]| && k == RecordsBefore(all, b) + j && All(all)[k] == all[b][j]
    decreases |all|
  {
    var init := all[..|all| - 1];
    if k < |All(init)| {
      b, j := AllFrom(init, k);
      assert init[..b] == all[..b];
    } else {
      b, j := |all| - 1, k - |All(init)|;
    }
  }

  lemma AppendIsOneMore(es: seq<Entry>, ino: word, kind: byte, name: Name)
    requires EndOf(es) <= DIR_BLOCK
    ensures OneMore(es, |es|, AtOpenEnd(es, ino, kind, name))
  {
  }

  lemma RoomFits(e: Entry, ino: word, kind: byte, name: Name)
    requires EntryOk(e) && HasRoom(e, |name|) && 1 <= |name| <= FNAME_LEN && kind != FT_UNKNOWN
    ensures EntryOk(InSlack(e, ino, kind, name)) && TrueLen(e.name) < e.len < 0x1_0000 && e.off + 6 <= DIR_BLOCK
  {
  }

  class Directory {
    /** The directory's data blocks. */
    const blocks: array<seq<byte>>
    /** The chain in each block, and the names they amount to. */
    ghost var entries: seq<seq<Entry>>
    ghost var names: map<Name, word>

    ghost predicate BlockValid(b: nat)
      reads this, blocks
    {
      && b < blocks.Length && b < |entries| && BlockIs(blocks[b], entries[b])
      && (b + 1 < blocks.Length ==> Closed(entries[b]))
    }

    ghost predicate Valid()
      reads this, blocks
    {
      && 1 <= blocks.Length <= DIRECT_BLOCKS && |entries| == blocks.Length
      && (forall b: nat {:trigger BlockValid(b)} :: b < blocks.Length ==> BlockValid(b))
      && Represents(entries, names)
    }

    constructor (blocks: array<seq<byte>>, ghost entries: seq<seq<Entry>>, ghost names: map<Name, word>)
      requires 1 <= blocks.Length <= DIRECT_BLOCKS && |entries| == blocks.Length && Represents(entries, names)
      requires forall b: nat :: b < blocks.Length ==>
        BlockIs(blocks[b], entries[b]) && (b + 1 < blocks.Length ==> Closed(entries[b]))
      ensures Valid() && this.blocks == blocks && this.entries == entries && this.names == names
    {
      this.blocks, this.entries, this.names := blocks, entries, names;
    }

    /** A scan is at record k of a block it has read. */
    ghost predicate Scanning(buf: seq<byte>, b: nat, off: nat, k: nat)
      reads this, blocks
    {
      b < |entries| && BlockValid(b) && buf == blocks[b] && k <= |entries[b]| && off == Offset(entries[b], k)
    }

    lemma AtStart(b: nat)
      requires Valid() && b < blocks.Length
      ensures Scanning(blocks[b], b, 0, 0)
    {
      assert BlockValid(b);
      if |entries[b]| > 0 {
        assert Follows(entries[b], 0);
      }
    }

    /** At a record: what the scan reads, and where it goes on. */
    lemma AtRecord(buf: seq<byte>, b: nat, off: nat, k: nat)
      requires Valid() && Scanning(buf, b, off, k) && k < |entries[b]|
      ensures |buf| == DIR_BLOCK && off + HEADER + |entries[b][k].name| <= DIR_BLOCK && EntryAt(buf, entries[b][k]) &&
        entries[b][k].off == off
      ensures buf[off + 7] == entries[b][k].kind != FT_UNKNOWN && buf[off + 6] == |entries[b][k].name|
      ensures Word32(buf[off..off + 4]) == entries[b][k].ino
      ensures buf[off + HEADER..off + HEADER + |entries[b][k].name|] == entries[b][k].name
      ensures RecLen(buf, off) == entries[b][k].len && Scanning(buf, b, off + RecLen(buf, off), k + 1)
    {
      ScanStep(buf, entries[b], k);
    }

    /** Behind the last record of a block. */
    lemma AtEnd(buf: seq<byte>, b: nat, off: nat)
      requires Valid() && b < |entries| && Scanning(buf, b, off, |entries[b]|)
      ensures |buf| == DIR_BLOCK && off == EndOf(entries[b])
      ensures off == DIR_BLOCK || (off + HEADER + FNAME_LEN <= DIR_BLOCK && OpenEnd(buf, entries[b]) &&
        buf[off + 7] == FT_UNKNOWN && b + 1 == blocks.Length)
      ensures AllClosed(entries) ==> off == DIR_BLOCK
    {
      ScanStep(buf, entries[b], |entries[b]|);
    }

    /** Whether a scan is at a record or behind the last one. */
    lemma Here(buf: seq<byte>, b: nat, off: nat, k: nat)
      requires Valid() && Scanning(buf, b, off, k)
      ensures b < |entries| == blocks.Length && |buf| == DIR_BLOCK && off <= DIR_BLOCK && k <= |entries[b]|
      ensures off == DIR_BLOCK ==> k == |entries[b]|
      ensures off < DIR_BLOCK ==> off + HEADER <= DIR_BLOCK && (buf[off + 7] == FT_UNKNOWN <==> k == |entries[b]|)
      ensures off < DIR_BLOCK && k == |entries[b]| ==>
        b + 1 == blocks.Length && !AllClosed(entries) && EndOf(entries[b]) == off && OpenEnd(buf, entries[b])
    {
      if k < |entries[b]| {
        AtRecord(buf, b, off, k);
      } else {
        AtEnd(buf, b, off);
      }
    }

    /** No record the scan has passed has this name. */
    ghost predicate NotPassed(fname: Name, b: nat, i: nat)
      reads this
    {
      forall c: nat, k: nat :: Named(entries, c, k, fname) ==> !Before(c, k, b, i)
    }

    lemma NameHere(fname: Name, b: nat, i: nat)
      requires Valid() && Named(entries, b, i, fname)
      ensures fname in names && names[fname] == entries[b][i].ino
    {
    }

    lemma NameNowhere(fname: Name, b: nat)
      requires Valid() && b < |entries| && b + 1 == blocks.Length && NotPassed(fname, b, |entries[b]|)
      ensures fname !in names
    {
    }

    lemma PassBlock(fname: Name, b: nat)
      requires b < |entries| && NotPassed(fname, b, |entries[b]|)
      ensures NotPassed(fname, b + 1, 0)
    {
    }

    lemma PassRecord(fname: Name, b: nat, i: nat)
      requires NotPassed(fname, b, i) && !Named(entries, b, i, fname)
      ensures NotPassed(fname, b, i + 1)
    {
    }

    /** The fields behind `cur_dir`. */
    method ReadEntry(buf: seq<byte>, off: nat, ghost b: nat, ghost k: nat) returns (e: Entry)
      requires Valid() && Scanning(buf, b, off, k) && k < |entries[b]|
      ensures e == entries[b][k] && EntryAt(buf, e) && e.off == off && e.len > 0
      ensures Scanning(buf, b, off + e.len, k + 1)
    {
      AtRecord(buf, b, off, k);
      var nameLen: nat := buf[off + 6];
      e := Entry(off, RecLen(buf, off), Word32(buf[off..off + 4]), buf[off + 7],
          buf[off + HEADER..off + HEADER + nameLen]);
    }

    /**
     The search of `ext2_read_dentry_by_name`; comparing up to the name's length and then the lengths is comparing the
     names.
     */
    method FindByName(fname: Name) returns (r: Lookup)
      requires Valid()
      ensures r.Found? <==> fname in names
      ensures r.Found? ==> r.e.name == fname && r.e.ino == names[fname]
    {
      var dirOff: nat, blkIdx: nat := 0, 0;
      assert blocks.Length > 0;
      var blkBuf := blocks[0];
      ghost var i: nat := 0;
      AtStart(0);
      Here(blkBuf, 0, 0, 0);
      assert NotPassed(fname, 0, 0);
      hide *;
      while blkIdx < DIRECT_BLOCKS && blkIdx < blocks.Length
        invariant Scanning(blkBuf, blkIdx, dirOff, i) && blkIdx < blocks.Length == |entries| <= DIRECT_BLOCKS &&
          i <= |entries[blkIdx]|
        invariant NotPassed(fname, blkIdx, i)
        decreases blocks.Length - blkIdx, |entries[blkIdx]| - i
      {
        Here(blkBuf, blkIdx, dirOff, i);
        if dirOff >= DIR_BLOCK {
          if blkIdx + 1 >= blocks.Length {
            NameNowhere(fname, blkIdx);
            return NotFound;
          }
          PassBlock(fname, blkIdx);
          blkIdx := blkIdx + 1;
          blkBuf := blocks[blkIdx];
          dirOff, i := 0, 0;
          AtStart(blkIdx);
          Here(blkBuf, blkIdx, dirOff, i);
        }
        if blkBuf[dirOff + 7] == FT_UNKNOWN {
          NameNowhere(fname, blkIdx);
          return NotFound;
        }
        var cur := ReadEntry(blkBuf, dirOff, blkIdx, i);
        dirOff := dirOff + cur.len;
        if cur.name == fname {
          NameHere(fname, blkIdx, i);
          return Found(cur);
        }
        PassRecord(fname, blkIdx, i);
        i := i + 1;
      }
      return NotFound;
    }

    /**
     `ext2_read_dentry_by_name`: the length of the name, or 0. The inode in the dentry is right for any name the dentry
     can hold.
     */
    method ReadByName(fname: Name, dent: array<byte>, table: word -> InodeInfo, op: word)
        returns (length: nat, overrun: bool)
      requires Valid() && dent.Length == DENTRY_SIZE
      modifies dent
      ensures fname !in names ==> length == 0 && !overrun && dent[..] == old(dent[..])
      ensures fname in names ==> length == |fname| && (overrun <==> |fname| >= DENTRY_SIZE)
      ensures fname in names && !overrun ==> Word32(dent[INO_AT..INO_AT + 4]) == names[fname]
    {
      length, overrun := 0, false;
      var found := FindByName(fname);
      if found.Found? {
        length := |fname|;
        overrun := FillVfsDentry(dent, found.e, table(found.e.ino), op);
        if !overrun {
          InodeFilled(old(dent[..]), found.e, table(found.e.ino), op);
        }
      }
    }

    /** The search of `ext2_read_dentry_by_index`. */
    method FindByIndex(idx: nat) returns (r: Lookup)
      requires Valid() && AllClosed(entries)
      ensures r == if idx < |All(entries)| then Found(All(entries)[idx]) else NotFound
    {
      var dirOff: nat, blkIdx: nat := 0, 0;
      var blkBuf := blocks[0];
      var cur := Entry(0, 0, 0, 0, []);
      ghost var k: nat := 0;
      AtStart(0);
      Here(blkBuf, 0, 0, 0);
      assert RecordsBefore(entries, 0) == 0;
      hide *;
      var i: nat := 0;
      while i <= idx
        invariant i <= idx + 1 && Scanning(blkBuf, blkIdx, dirOff, k) && blkIdx < blocks.Length == |entries| &&
          k <= |entries[blkIdx]|
        invariant i == RecordsBefore(entries, blkIdx) + k
        invariant i > 0 ==> k > 0 && cur == entries[blkIdx][k - 1]
        decreases idx + 1 - i
      {
        Here(blkBuf, blkIdx, dirOff, k);
        if dirOff >= DIR_BLOCK {
          RecordsNext(entries, blkIdx);
          if blkIdx + 1 >= blocks.Length {
            return NotFound;
          }
          blkIdx := blkIdx + 1;
          blkBuf := blocks[blkIdx];
          dirOff, k := 0, 0;
          AtStart(blkIdx);
          Here(blkBuf, blkIdx, dirOff, k);
        }
        cur := ReadEntry(blkBuf, dirOff, blkIdx, k);
        dirOff := dirOff + cur.len;
        k := k + 1;
        i := i + 1;
      }
      AllAt(entries, blkIdx, k - 1);
      return Found(cur);
    }

    /** `ext2_read_dentry_by_index`: the length of the name, or 0, and the dentry filled if it can hold the name. */
    method ReadByIndex(idx: nat, dent: array<byte>, table: word -> InodeInfo, op: word)
        returns (length: nat, overrun: bool)
      requires Valid() && AllClosed(entries) && dent.Length == DENTRY_SIZE
      modifies dent
      ensures idx >= |All(entries)| ==> length == 0 && !overrun && dent[..] == old(dent[..])
      ensures idx < |All(entries)| ==> var e := All(entries)[idx];
                length == |e.name| && (overrun <==> |e.name| >= DENTRY_SIZE) &&
                (!overrun ==> dent[..] == Filled(old(dent[..]), e, table(e.ino), op))
    {
      length, overrun := 0, false;
      var found := FindByIndex(idx);
      if found.Found? {
        length := |found.e.name|;
        overrun := FillVfsDentry(dent, found.e, table(found.e.ino), op);
      }
    }

    /** `ext2_write_block` of an edited block, and what it means for the chain and the names. */
    method WriteBlock(b: nat, blkBuf: array<byte>, ghost now: seq<Entry>, ghost newNames: map<Name, word>)
      requires Valid() && b < blocks.Length && BlockIs(blkBuf[..], now) && (Closed(now) || b + 1 == blocks.Length)
      requires Represents(entries[b := now], newNames)
      modifies this`entries, this`names, blocks
      ensures Valid() && entries == old(entries)[b := now] && names == newNames
      ensures blocks[..] == old(blocks[..])[b := blkBuf[..]]
    {
      ghost var was, all := blocks[..], entries;
      forall c: nat | c < blocks.Length
        ensures BlockIs(was[c], all[c]) && (c + 1 < blocks.Length ==> Closed(all[c]))
      {
        assert BlockValid(c);
      }
      blocks[b] := blkBuf[..];
      entries, names := entries[b := now], newNames;
      hide BlockIs, Represents, Closed;
      forall c: nat | c < blocks.Length
        ensures BlockValid(c)
      {
        assert c != b ==> blocks[c] == was[c] && entries[c] == all[c];
      }
    }

    /** What the insertion into the slack of a record makes of the block, the chain and the names. */
    lemma SlackFacts(buf: seq<byte>, b: nat, cur: Entry, k: nat, ino: word, kind: byte, name: Name)
      requires Valid() && Scanning(buf, b, cur.off, k) && k < |entries[b]| && cur == entries[b][k] && EntryAt(buf, cur)
      requires HasRoom(cur, |name|) && 1 <= |name| <= FNAME_LEN && name !in names && kind != FT_UNKNOWN
      ensures |buf| == DIR_BLOCK && b < blocks.Length && cur.off + 6 <= DIR_BLOCK &&
        TrueLen(cur.name) <= cur.len < 0x1_0000
      ensures EntryOk(InSlack(cur, ino, kind, name))
      ensures BlockIs(SplitBytes(buf, cur, ino, kind, name), SplitAfter(entries[b], k, ino, kind, name))
      ensures Closed(SplitAfter(entries[b], k, ino, kind, name)) <==> Closed(entries[b])
      ensures Closed(entries[b]) || b + 1 == blocks.Length
      ensures Represents(entries[b := SplitAfter(entries[b], k, ino, kind, name)], names[name := ino])
    {
      assert BlockValid(b);
      var es := entries[b];
      RoomFits(cur, ino, kind, name);
      SplitIsOneMore(es, k, ino, kind, name);
      hide BlockIs, Represents, EntryOk, Splice, SplitAfter, SplitBytes;
      SplitKeeps(buf, es, k, ino, kind, name);
      SplitTiles(es, k, ino, kind, name);
      NamesAfterInsert(entries, names, b, k + 1, SplitAfter(es, k, ino, kind, name));
    }

    /** The part of `ext2_insert_dentry` behind its search, for a record with slack. */
    method InsertInSlack(buf: seq<byte>, b: nat, cur: Entry, ghost k: nat, ino: word, kind: byte, name: Name)
      requires Valid() && Scanning(buf, b, cur.off, k) && k < |entries[b]| && cur == entries[b][k] && EntryAt(buf, cur)
      requires HasRoom(cur, |name|) && 1 <= |name| <= FNAME_LEN && name !in names && kind != FT_UNKNOWN
      modifies this`entries, this`names, blocks
      ensures Valid() && names == old(names)[name := ino]
      ensures entries == old(entries)[b := SplitAfter(old(entries)[b], k, ino, kind, name)]
      ensures AllClosed(old(entries)) ==> AllClosed(entries)
    {
      ghost var es := entries[b];
      ghost var now := SplitAfter(es, k, ino, kind, name);
      SlackFacts(buf, b, cur, k, ino, kind, name);
      hide *;
      var blkBuf := new byte[DIR_BLOCK](i requires 0 <= i < DIR_BLOCK => buf[i]);
      assert blkBuf[..] == buf;
      WriteSplit(blkBuf, cur, ino, kind, name);
      WriteBlock(b, blkBuf, now, names[name := ino]);
      ClosedAfter(old(entries), b, now);
    }

    /** What the insertion at an open end makes of the block, the chain and the names. */
    lemma OpenEndFacts(buf: seq<byte>, b: nat, off: nat, ino: word, kind: byte, name: Name)
      requires Valid() && b < |entries| && Scanning(buf, b, off, |entries[b]|) && off < DIR_BLOCK
      requires 1 <= |name| <= FNAME_LEN && name !in names && kind != FT_UNKNOWN
      ensures EndOf(entries[b]) == off && b + 1 == |entries| == blocks.Length && |buf| == DIR_BLOCK
      ensures off + HEADER + FNAME_LEN <= DIR_BLOCK && EntryOk(Entry(off, DIR_BLOCK - off, ino, kind, name))
      ensures var now := AtOpenEnd(entries[b], ino, kind, name);
        && BlockIs(OpenEndBytes(buf, Entry(off, DIR_BLOCK - off, ino, kind, name)), now) && Closed(now)
        && AllClosed(entries[b := now]) && Represents(entries[b := now], names[name := ino])
    {
      var es, now := entries[b], AtOpenEnd(entries[b], ino, kind, name);
      var e := Entry(off, DIR_BLOCK - off, ino, kind, name);
      AtEnd(buf, b, off);
      assert BlockValid(b);
      forall c: nat | c < b
        ensures Closed(entries[c])
      {
        assert BlockValid(c);
      }
      AppendIsOneMore(es, ino, kind, name);
      OpenEndWrites(buf, e);
      assert now[|es|] == e;
      hide BlockIs, Represents, Splice, OpenEndBytes, AtOpenEnd, EntryAt;
      OpenEndTaken(buf, OpenEndBytes(buf, e), es, ino, kind, name);
      NamesAfterInsert(entries, names, b, |es|, now);
    }

    /** The part of `ext2_insert_dentry` behind its search, for a record of unknown type. */
    method InsertAtOpenEnd(buf: seq<byte>, b: nat, dirOff: nat, ino: word, kind: byte, name: Name)
      requires Valid() && b < |entries| && Scanning(buf, b, dirOff, |entries[b]|) && dirOff < DIR_BLOCK
      requires 1 <= |name| <= FNAME_LEN && name !in names && kind != FT_UNKNOWN
      modifies this`entries, this`names, blocks
      ensures Valid() && AllClosed(entries) && names == old(names)[name := ino]
      ensures EndOf(old(entries)[b]) <= DIR_BLOCK &&
        entries == old(entries)[b := AtOpenEnd(old(entries)[b], ino, kind, name)]
    {
      ghost var es := entries[b];
      ghost var now := AtOpenEnd(es, ino, kind, name);
      OpenEndFacts(buf, b, dirOff, ino, kind, name);
      hide *;
      var blkBuf := new byte[DIR_BLOCK](i requires 0 <= i < DIR_BLOCK => buf[i]);
      assert blkBuf[..] == buf;
      WriteAtOpenEnd(blkBuf, Entry(dirOff, DIR_BLOCK - dirOff, ino, kind, name));
      WriteBlock(b, blkBuf, now, names[name := ino]);
    }

    /** No record the scan has passed has slack for a name of n bytes. */
    ghost predicate NoRoomBefore(n: nat, b: nat, i: nat)
      reads this
    {
      forall c: nat, k: nat {:trigger entries[c][k]} :: c < |entries| && k < |entries[c]| && Before(c, k, b, i) ==>
          !HasRoom(entries[c][k], n)
    }

    lemma NoRoomInBlock(n: nat, b: nat)
      requires b < |entries| && NoRoomBefore(n, b, |entries[b]|)
      ensures NoRoomBefore(n, b + 1, 0)
    {
    }

    lemma NoRoomHere(n: nat, b: nat, i: nat)
      requires b < |entries| && i < |entries[b]| && NoRoomBefore(n, b, i) && !HasRoom(entries[b][i], n)
      ensures NoRoomBefore(n, b, i + 1)
    {
    }

    lemma RoomAt(n: nat, b: nat, i: nat)
      requires b < |entries| && i < |entries[b]| && HasRoom(entries[b][i], n)
      ensures !NoRoomBefore(n, |entries|, 0)
    {
    }

    lemma EndIsClosed(buf: seq<byte>, b: nat, off: nat, k: nat)
      requires Valid() && Scanning(buf, b, off, k) && off >= DIR_BLOCK && b + 1 == |entries|
      ensures AllClosed(entries)
    {
      ScanStep(buf, entries[b], k);
      forall c: nat | c < |entries|
        ensures Closed(entries[c])
      {
        assert BlockValid(c);
      }
    }

    /** The search of `ext2_insert_dentry`: the first record with slack, or an open end. */
    method FindRoom(n: nat) returns (place: Place, blkIdx: nat, dirOff: nat, blkBuf: seq<byte>, ghost i: nat)
      requires Valid()
      ensures blkIdx < blocks.Length == |entries| && Scanning(blkBuf, blkIdx, dirOff, i) && i <= |entries[blkIdx]| &&
        NoRoomBefore(n, blkIdx, i)
      ensures place.Slack? ==> i < |entries[blkIdx]| && place.cur == entries[blkIdx][i] && HasRoom(place.cur, n)
      ensures place.Slack? ==> EntryAt(blkBuf, place.cur) && place.cur.off == dirOff
      ensures place.Unknown? ==> i == |entries[blkIdx]| && dirOff < DIR_BLOCK && !AllClosed(entries)
      ensures place.Nowhere? ==> AllClosed(entries) && NoRoomBefore(n, |entries|, 0)
    {
      dirOff, blkIdx := 0, 0;
      assert blocks.Length > 0;
      blkBuf := blocks[0];
      i := 0;
      AtStart(0);
      Here(blkBuf, 0, 0, 0);
      assert NoRoomBefore(n, 0, 0);
      hide *;
      while blkIdx < DIRECT_BLOCKS
        invariant Scanning(blkBuf, blkIdx, dirOff, i) && blkIdx < blocks.Length == |entries| <= DIRECT_BLOCKS &&
          i <= |entries[blkIdx]|
        invariant NoRoomBefore(n, blkIdx, i)
        decreases blocks.Length - blkIdx, |entries[blkIdx]| - i
      {
        Here(blkBuf, blkIdx, dirOff, i);
        if dirOff >= DIR_BLOCK {
          NoRoomInBlock(n, blkIdx);
          if blkIdx + 1 >= blocks.Length {
            EndIsClosed(blkBuf, blkIdx, dirOff, i);
            place := Nowhere;
            return;
          }
          blkIdx := blkIdx + 1;
          blkBuf := blocks[blkIdx];
          dirOff, i := 0, 0;
          AtStart(blkIdx);
          Here(blkBuf, blkIdx, dirOff, i);
        }
        if blkBuf[dirOff + 7] == FT_UNKNOWN {
          place := Unknown;
          return;
        }
        var cur := ReadEntry(blkBuf, dirOff, blkIdx, i);
        if HasRoom(cur, n) {
          place := Slack(cur);
          return;
        }
        NoRoomHere(n, blkIdx, i);
        dirOff := dirOff + cur.len;
        i := i + 1;
      }
      place := Nowhere;
    }

    /**
     `ext2_insert_dentry`: the name goes into the first record with slack, or over an open end. When there is neither,
     the code writes it into a new block, but the inode of the directory on the disk, which does not name that block, is
     not written: the call reports success and the directory is as it was.
     */
    method Insert(fname: Name, ino: word, mode: nat) returns (r: int, ghost placed: bool, ghost b: nat, ghost j: nat)
      requires Valid() && |fname| >= 1 && Cut(fname, FNAME_LEN) !in names && ImodeToFt(mode) != FT_UNKNOWN
      modifies this`entries, this`names, blocks
      ensures Valid() && (AllClosed(old(entries)) ==> AllClosed(entries)) && r == 0
      ensures placed <==> !(AllClosed(old(entries)) && old(NoRoomBefore(|Cut(fname, FNAME_LEN)|, |entries|, 0)))
      ensures names == if placed then old(names)[Cut(fname, FNAME_LEN) := ino] else old(names)
      ensures placed ==>
        b < |old(entries)| && j <= |old(entries)[b]| && old(NoRoomBefore(|Cut(fname, FNAME_LEN)|, b, j))
      ensures placed && j < |old(entries)[b]| ==>
        HasRoom(old(entries)[b][j], |Cut(fname, FNAME_LEN)|) && EntryOk(old(entries)[b][j])
      ensures placed && j < |old(entries)[b]| ==>
                entries == old(entries)[b :=
                    SplitAfter(old(entries)[b], j, ino, ImodeToFt(mode), Cut(fname, FNAME_LEN))]
      ensures placed && j == |old(entries)[b]| ==>
        !AllClosed(old(entries)) && AllClosed(entries) && EndOf(old(entries)[b]) <= DIR_BLOCK
      ensures placed && j == |old(entries)[b]| ==>
                entries == old(entries)[b := AtOpenEnd(old(entries)[b], ino, ImodeToFt(mode), Cut(fname, FNAME_LEN))]
      ensures !placed ==> entries == old(entries) && blocks[..] == old(blocks[..])
      ensures placed ==> var at := if j < |old(entries)[b]| then j + 1 else j;
                && b < |entries| && at < |entries[b]|
                && entries[b][at].name == (if |fname| < 48 then fname else fname[..48])
                && entries[b][at].ino == ino && (0x8000 <= mode < 0x9000 ==> entries[b][at].kind == 1)
    {
      FileTypes(mode);
      var name, kind := Cut(fname, FNAME_LEN), ImodeToFt(mode);
      assert 1 <= |name| <= FNAME_LEN;
      hide Directory.Valid, Directory.Scanning, Directory.NoRoomBefore, EntryOk, Cut, ImodeToFt, SplitAfter, AtOpenEnd;
      var place, blkIdx, dirOff, blkBuf, i := FindRoom(|name|);
      b, j, r := blkIdx, i, 0;
      match place
      case Nowhere =>
        placed := false;
      case Unknown =>
        InsertAtOpenEnd(blkBuf, blkIdx, dirOff, ino, kind, name);
        placed := true;
      case Slack(cur) =>
        assert !old(NoRoomBefore(|name|, |entries|, 0)) by {
          RoomAt(|name|, blkIdx, i);
        }
        SplitIsOneMore(entries[b], j, ino, kind, name);
        InsertInSlack(blkBuf, blkIdx, cur, i, ino, kind, name);
        placed := true;
    }

    /** The search of `ext2_remove_dentry`: the record with the name, and the one the scan was at before it. */
    method FindName(fname: Name) returns (found: bool, blkIdx: nat, cur: Entry, prev: Entry, blkBuf: seq<byte>,
        ghost i: nat)
      requires Valid()
      ensures !found ==> fname !in names
      ensures found ==>
        blkIdx < blocks.Length == |entries| && i < |entries[blkIdx]| && cur == entries[blkIdx][i] && cur.name == fname
      ensures found ==> Scanning(blkBuf, blkIdx, cur.off, i)
      ensures found && i > 0 ==> prev == entries[blkIdx][i - 1]
    {
      found, cur, prev := false, Entry(0, 0, 0, 0, []), Entry(0, 0, 0, 0, []);
      var dirOff: nat := 0;
      blkIdx := 0;
      assert blocks.Length > 0;
      blkBuf := blocks[0];
      i := 0;
      AtStart(0);
      Here(blkBuf, 0, 0, 0);
      assert NotPassed(fname, 0, 0);
      assert |entries| == blocks.Length <= DIRECT_BLOCKS;
      hide *;
      while blkIdx < DIRECT_BLOCKS && blkIdx < blocks.Length
        invariant Scanning(blkBuf, blkIdx, dirOff, i) && blkIdx < blocks.Length == |entries| <= DIRECT_BLOCKS &&
          i <= |entries[blkIdx]|
        invariant NotPassed(fname, blkIdx, i) && !found
        invariant i > 0 ==> prev == entries[blkIdx][i - 1]
        decreases blocks.Length - blkIdx, |entries[blkIdx]| - i
      {
        Here(blkBuf, blkIdx, dirOff, i);
        if dirOff >= DIR_BLOCK {
          if blkIdx + 1 >= blocks.Length {
            NameNowhere(fname, blkIdx);
            return;
          }
          PassBlock(fname, blkIdx);
          blkIdx := blkIdx + 1;
          blkBuf := blocks[blkIdx];
          dirOff, i := 0, 0;
          AtStart(blkIdx);
          Here(blkBuf, blkIdx, dirOff, i);
        }
        if blkBuf[dirOff + 7] == FT_UNKNOWN {
          NameNowhere(fname, blkIdx);
          return;
        }
        cur := ReadEntry(blkBuf, dirOff, blkIdx, i);
        if cur.name == fname {
          found := true;
          return;
        }
        PassRecord(fname, blkIdx, i);
        prev := cur;
        dirOff := dirOff + cur.len;
        i := i + 1;
      }
    }

    /** What the three cases of `ext2_remove_dentry` are told apart by. */
    lemma RemoveCases(buf: seq<byte>, b: nat, off: nat, i: nat)
      requires Valid() && AllClosed(entries) && Scanning(buf, b, off, i) && b < |entries| && i < |entries[b]|
      ensures BlockIs(buf, entries[b]) && Closed(entries[b]) && Member(buf, entries[b], i) && |buf| == DIR_BLOCK &&
        Represents(entries, names)
      ensures off == entries[b][i].off && (off == 0 <==> i == 0) && Named(entries, b, i, entries[b][i].name)
      ensures i > 0 ==> Member(buf, entries[b], i - 1) && entries[b][i - 1].off + 6 <= DIR_BLOCK
      ensures entries[b][0].off == 0 && entries[b][0].len <= DIR_BLOCK &&
        (|entries[b]| > 1 <==> entries[b][0].len != DIR_BLOCK)
    {
      var es := entries[b];
      assert BlockValid(b) && Member(buf, es, i) && Member(buf, es, 0) && Follows(es, 0);
      if i > 0 {
        InOrder(es, 0, i);
        assert Member(buf, es, i - 1);
      }
      if |es| > 1 {
        InOrder(es, 0, |es| - 1);
        assert Member(buf, es, |es| - 1);
      }
    }

    /** Case 1: the next record is copied over the first, which annexes it. */
    method TakeOver(buf: seq<byte>, b: nat, cur: Entry)
      requires Valid() && AllClosed(entries) && Scanning(buf, b, 0, 0) && b < |entries| && |entries[b]| > 1 &&
        cur == entries[b][0]
      modifies this`entries, this`names, blocks
      ensures Valid() && entries == old(entries)[b := RemoveAt(old(entries)[b], 0)] && names == old(names) - {cur.name}
      ensures AllClosed(entries)
    {
      RemoveCases(buf, b, 0, 0);
      AtRecord(buf, b, 0, 0);
      ghost var es := entries[b];
      var swp := ReadEntry(buf, cur.len, b, 1);
      var blkBuf := new byte[DIR_BLOCK](i requires 0 <= i < DIR_BLOCK => buf[i]);
      assert blkBuf[..] == buf;
      TakeOverFits(buf, es);
      TakeOverKeeps(buf, es);
      RemoveIsOneFewer(es, 0);
      RemoveTiles(es, 0);
      assert TakenOver(es) == Entry(0, cur.len + swp.len, swp.ino, swp.kind, swp.name);
      ClosedAfter(entries, b, RemoveAt(es, 0));
      hide *;
      NamesAfterRemove(entries, names, b, 0, RemoveAt(es, 0));
      PutEntry(blkBuf, Entry(0, cur.len + swp.len, swp.ino, swp.kind, swp.name));
      WriteBlock(b, blkBuf, RemoveAt(es, 0), names - {cur.name});
    }

    /** Case 3: the record before it annexes the record. */
    method Annex(buf: seq<byte>, b: nat, cur: Entry, prev: Entry, ghost i: nat)
      requires Valid() && AllClosed(entries) && b < |entries| && 1 <= i < |entries[b]| && Scanning(buf, b, cur.off, i)
      requires cur == entries[b][i] && prev == entries[b][i - 1]
      modifies this`entries, this`names, blocks
      ensures Valid() && entries == old(entries)[b := RemoveAt(old(entries)[b], i)] && names == old(names) - {cur.name}
      ensures AllClosed(entries)
    {
      RemoveCases(buf, b, cur.off, i);
      ghost var es := entries[b];
      var blkBuf := new byte[DIR_BLOCK](k requires 0 <= k < DIR_BLOCK => buf[k]);
      assert blkBuf[..] == buf;
      MergeKeeps(buf, es, i);
      RemoveIsOneFewer(es, i);
      RemoveTiles(es, i);
      assert Merged(es, i).len == prev.len + cur.len < 0x1_0000;
      ClosedAfter(entries, b, RemoveAt(es, i));
      hide *;
      NamesAfterRemove(entries, names, b, i, RemoveAt(es, i));
      PutLength(blkBuf, prev.off, cur.len + prev.len);
      WriteBlock(b, blkBuf, RemoveAt(es, i), names - {cur.name});
    }

    /** The name is that of a record which is alone in its block. */
    ghost predicate Alone(fname: Name)
      reads this
    {
      exists b: nat :: Named(entries, b, 0, fname) && |entries[b]| == 1
    }

    lemma NoSuchName(fname: Name)
      requires Valid() && fname !in names
      ensures names - {fname} == names && !Alone(fname)
      ensures forall b: nat, j: nat :: !Named(entries, b, j, fname)
    {
    }

    lemma OnlyThere(fname: Name, b: nat, i: nat)
      requires Valid() && Named(entries, b, i, fname)
      ensures fname in names && (Alone(fname) <==> i == 0 && |entries[b]| == 1)
      ensures forall c: nat, j: nat :: Named(entries, c, j, fname) ==> c == b && j == i
    {
    }

    /**
     `ext2_remove_dentry` of a name that is not a directory's, as far as the directory's blocks go. A record that is
     alone in its block stays where it is, although the call reports success: the name is gone otherwise.
     */
    method Remove(fname: Name) returns (r: int)
      requires Valid() && AllClosed(entries)
      requires forall b: nat, j: nat :: Named(entries, b, j, fname) ==> entries[b][j].kind != FT_DIR
      modifies this`entries, this`names, blocks
      ensures Valid() && AllClosed(entries)
      ensures r == if fname in old(names) then 0 else -1
      ensures names == if old(Alone(fname)) then old(names) else old(names) - {fname}
      ensures fname !in old(names) ==> entries == old(entries) && blocks[..] == old(blocks[..])
      ensures forall b: nat, j: nat :: old(Named(entries, b, j, fname)) ==>
        entries == old(entries)[b := RemoveAt(old(entries)[b], j)]
    {
      hide Directory.Valid, Directory.Scanning, EntryAt, RemoveAt, Represents, BlockIs;
      var found, blkIdx, cur, prev, blkBuf, i := FindName(fname);
      if !found {
        NoSuchName(fname);
        return -1;
      }
      RemoveCases(blkBuf, blkIdx, cur.off, i);
      OnlyThere(fname, blkIdx, i);
      if cur.off == 0 && cur.len != DIR_BLOCK {
        TakeOver(blkBuf, blkIdx, cur);
      } else if cur.off == 0 {
        var same := new byte[DIR_BLOCK](k requires 0 <= k < DIR_BLOCK => blkBuf[k]);
        assert same[..] == blkBuf;
        assert entries[blkIdx := entries[blkIdx]] == entries;
        SoleRecord(entries[blkIdx]);
        WriteBlock(blkIdx, same, entries[blkIdx], names);
      } else {
        Annex(blkBuf, blkIdx, cur, prev, i);
      }
      return 0;
    }

    /** Every index names a record, every record has an index, and no two indices have the same name. */
    lemma IndicesAreNames(n: Name)
      requires Valid()
      ensures n in names <==> exists k: nat :: HasName(All(entries), k, n)
      ensures forall k: nat, l: nat :: HasName(All(entries), k, n) && HasName(All(entries), l, n) ==> k == l
    {
      if n in names {
        var b: nat, j: nat :| Named(entries, b, j, n);
        AllAt(entries, b, j);
        assert HasName(All(entries), RecordsBefore(entries, b) + j, n);
      }
      forall k: nat, l: nat | HasName(All(entries), k, n) && HasName(All(entries), l, n)
        ensures k == l && n in names
      {
        var b, j := AllFrom(entries, k);
        var c, i := AllFrom(entries, l);
        assert Named(entries, b, j, n) && Named(entries, c, i, n);
      }
    }

    /** No record has an empty name. */
    lemma NamesAreNotEmpty(k: nat)
      requires Valid() && k < |All(entries)|
      ensures 1 <= |All(entries)[k].name| <= 255
    {
      var b, j := AllFrom(entries, k);
      assert BlockValid(b) && Member(blocks[b], entries[b], j);
    }
  }

  /** An open directory: `f_pos` counts records. The inode table is as it was when the directory was opened. */
  class OpenDirectory {
    const dir: Directory
    const table: word -> InodeInfo
    var pos: nat

    constructor (dir: Directory, table: word -> InodeInfo)
      ensures this.dir == dir && this.table == table && pos == 0
    {
      this.dir, this.table, pos := dir, table, 0;
    }

    /**
     `dir_fread`: the name of the next record, cut to the buffer, and nothing behind the last. The name comes back out
     of the dentry, whose content before is arbitrary.
     */
    method Read(nbytes: nat, dent: array<byte>, op: word) returns (name: Name, overrun: bool)
      requires dir.Valid() && AllClosed(dir.entries) && dent.Length == DENTRY_SIZE
      modifies this`pos, dent
      ensures !overrun ==> pos == old(pos) + 1
      ensures old(pos) >= |All(dir.entries)| ==> name == [] && !overrun
      ensures old(pos) < |All(dir.entries)| ==>
        1 <= |All(dir.entries)[old(pos)].name| <= 255 &&
        (overrun <==> |All(dir.entries)[old(pos)].name| >= DENTRY_SIZE)
      ensures old(pos) < |All(dir.entries)| && !overrun ==> var e := All(dir.entries)[old(pos)];
                name == NameOf(old(dent[..]), e, table(e.ino), op, |Cut(e.name, nbytes)|)
      ensures old(pos) < |All(dir.entries)| && !overrun && 0 !in All(dir.entries)[old(pos)].name ==>
                var whole := Cut(All(dir.entries)[old(pos)].name, nbytes);
                (|whole| <= FNAME_LEN ==> name == whole) &&
                (|whole| > FNAME_LEN ==>
                   && |name| == |whole| && name[..FNAME_LEN] == whole[..FNAME_LEN]
                   && name[FNAME_LEN] == table(All(dir.entries)[old(pos)].ino).blocks % 0x100)
    {
      hide Filled, Directory.Valid;
      ghost var was := dent[..];
      var length;
      length, overrun := dir.ReadByIndex(pos, dent, table, op);
      if pos < |All(dir.entries)| {
        dir.NamesAreNotEmpty(pos);
      }
      if overrun {
        return [], true;
      }
      if nbytes < length {
        length := nbytes;
      }
      if pos < |All(dir.entries)| && 0 !in All(dir.entries)[pos].name {
        var e := All(dir.entries)[pos];
        NameRead(was, e, table(e.ino), op, length);
      }
      name := Strncpy(dent[..], length);
      pos := pos + 1;
    }
  }

  /** The names of some records, in order. */
  function NamesOf(es: seq<Entry>): seq<Name> {
    seq(|es|, i requires 0 <= i < |es| => es[i].name)
  }

  /** Names that pass through a dentry as they are. */
  predicate Fitting(es: seq<Entry>) {
    forall k: nat :: k < |es| ==> |es[k].name| <= FNAME_LEN && 0 !in es[k].name
  }

  /** What is shown of a name: all of its bytes that the field has room for, and as many more as it has. */
  predicate Shown(e: Entry, name: Name) {
    |name| == |e.name| && (0 !in e.name ==> Cut(name, FNAME_LEN) == Cut(e.name, FNAME_LEN))
  }

  predicate AllShown(es: seq<Entry>, listing: seq<Name>) {
    |listing| <= |es| && forall k: nat :: k < |listing| ==> Shown(es[k], listing[k]) && |listing[k]| < DENTRY_SIZE
  }

  lemma FittingShown(es: seq<Entry>, listing: seq<Name>)
    requires AllShown(es, listing) && |listing| == |es| && Fitting(es)
    ensures listing == NamesOf(es)
  {
    forall k: nat | k < |es|
      ensures listing[k] == NamesOf(es)[k]
    {
      assert Shown(es[k], listing[k]);
    }
  }

  lemma ShownFit(es: seq<Entry>, listing: seq<Name>)
    requires AllShown(es, listing)
    ensures forall k: nat :: k < |listing| ==> |es[k].name| < DENTRY_SIZE
  {
    assert forall k: nat :: k < |listing| ==> Shown(es[k], listing[k]);
  }

  /** One call with a buffer for any name, as a program that lists directories makes it. */
  method NextName(file: OpenDirectory, dent: array<byte>, op: word) returns (name: Name, overrun: bool)
    requires file.dir.Valid() && AllClosed(file.dir.entries) && dent.Length == DENTRY_SIZE
    modifies file`pos, dent
    ensures !overrun ==> file.pos == old(file.pos) + 1
    ensures old(file.pos) >= |All(file.dir.entries)| ==> name == [] && !overrun
    ensures old(file.pos) < |All(file.dir.entries)| ==>
      (overrun <==> |All(file.dir.entries)[old(file.pos)].name| >= DENTRY_SIZE)
    ensures old(file.pos) < |All(file.dir.entries)| && !overrun ==>
      Shown(All(file.dir.entries)[old(file.pos)], name) && 1 <= |name| < DENTRY_SIZE
  {
    hide Directory.Valid, AllClosed, NameOf;
    name, overrun := file.Read(255, dent, op);
  }

  /**
   Reading an open directory from the start until nothing comes shows every record once, in order, unless a name does
   not fit in a dentry; names that fit in its field are shown as they are.
   */
  method List(file: OpenDirectory, dent: array<byte>, op: word) returns (listing: seq<Name>, overrun: bool)
    requires file.dir.Valid() && AllClosed(file.dir.entries) && file.pos == 0 && dent.Length == DENTRY_SIZE
    modifies file`pos, dent
    ensures overrun <==> exists k: nat :: k < |All(file.dir.entries)| && |All(file.dir.entries)[k].name| >= DENTRY_SIZE
    ensures AllShown(All(file.dir.entries), listing)
    ensures !overrun ==> |listing| == |All(file.dir.entries)|
    ensures Fitting(All(file.dir.entries)) ==> !overrun && listing == NamesOf(All(file.dir.entries))
  {
    listing := [];
    ghost var all := All(file.dir.entries);
    assert AllShown(all, []);
    var name;
    hide Directory.Valid, AllClosed, All, Shown, NamesOf;
    name, overrun := NextName(file, dent, op);
    while name != [] && !overrun
      invariant !overrun ==> 1 <= file.pos <= |all| + 1 && |listing| == file.pos - 1
      invariant overrun ==> |listing| < |all| && |all[|listing|].name| >= DENTRY_SIZE
      invariant AllShown(all, listing)
      invariant !overrun && |listing| < |all| ==> Shown(all[|listing|], name) && 1 <= |name| < DENTRY_SIZE
      invariant !overrun && |listing| == |all| ==> name == []
      decreases |all| - |listing|, !overrun
    {
      listing := listing + [name];
      name, overrun := NextName(file, dent, op);
    }
    ShownFit(all, listing);
    if !overrun && Fitting(all) {
      FittingShown(all, listing);
    }
  }

  /** On the chains and the names, what the removal takes away is what the insertion added. */
  lemma Undone(all: seq<seq<Entry>>, names: map<Name, word>, b: nat, j: nat, ino: word, kind: byte, fname: Name)
    requires b < |all| && j < |all[b]| && EntryOk(all[b][j]) && fname !in names
    ensures var now := all[b := SplitAfter(all[b], j, ino, kind, fname)];
            && Named(now, b, j + 1, fname) && now[b][j + 1].kind == kind
            && now[b := RemoveAt(now[b], j + 1)] == all
    ensures names[fname := ino] - {fname} == names
  {
    SplitIsOneMore(all[b], j, ino, kind, fname);
    RemoveAfterSplit(all[b], j, ino, kind, fname);
    assert all[b := all[b]] == all;
  }

  /**
   Inserting a name where a record has slack and removing it leaves every record where it was and as long as it was.
   */
  method InsertThenRemove(dir: Directory, fname: Name, ino: word, mode: nat) returns (r: int, q: int)
    requires dir.Valid() && AllClosed(dir.entries) && 1 <= |fname| <= FNAME_LEN && fname !in dir.names
    requires ImodeToFt(mode) != FT_UNKNOWN && ImodeToFt(mode) != FT_DIR
    modifies dir`entries, dir`names, dir.blocks
    ensures dir.Valid() && AllClosed(dir.entries) && dir.entries == old(dir.entries) && dir.names == old(dir.names)
    ensures r == 0 && q == if old(dir.NoRoomBefore(|fname|, |dir.entries|, 0)) then -1 else 0
  {
    ghost var all, names := dir.entries, dir.names;
    ghost var placed, b, j;
    assert Cut(fname, FNAME_LEN) == fname;
    r, placed, b, j := dir.Insert(fname, ino, mode);
    if placed {
      assert j < |all[b]|;
      Undone(all, names, b, j, ino, ImodeToFt(mode), fname);
      hide *;
      dir.OnlyThere(fname, b, j + 1);
    } else {
      assert forall c: nat, k: nat :: !Named(dir.entries, c, k, fname);
      dir.NoSuchName(fname);
    }
    hide *;
    q := dir.Remove(fname);
  }

  /** The one record of `SoleRecordStays`: the file `a`, in a record as long as the block. */
  const SOLE: Entry := Entry(0, DIR_BLOCK, 12, 1, [97])

  lemma SoleBlock(buf: seq<byte>)
    requires |buf| == DIR_BLOCK
    ensures EntryOk(SOLE) && BlockIs(Splice(buf, 0, Encoded(SOLE)), [SOLE])
    ensures AllClosed([[SOLE]]) && Represents([[SOLE]], map[SOLE.name := SOLE.ino])
  {
    assert EntryOk(SOLE) && Tiles([SOLE]) && Closed([SOLE]);
    EntryPut(buf, SOLE);
    assert Named([[SOLE]], 0, 0, SOLE.name);
  }

  /** A directory of one block with one regular file: removing the file reports success, and the file is still found. */
  method SoleRecordStays(table: word -> InodeInfo, op: word) returns (r: int, before: nat, after: nat)
    ensures r == 0 && before == after == |SOLE.name|
  {
    ghost var empty: seq<byte> := Repeated<byte>(0, DIR_BLOCK);
    SoleBlock(empty);
    var block := Splice(Repeated<byte>(0, DIR_BLOCK), 0, Encoded(SOLE));
    var blocks := new seq<byte>[1](_ => block);
    var dir := new Directory(blocks, [[SOLE]], map[SOLE.name := SOLE.ino]);
    var dent := new byte[DENTRY_SIZE](_ => 0);
    var overrun;
    before, overrun := dir.ReadByName(SOLE.name, dent, table, op);
    assert Named(dir.entries, 0, 0, SOLE.name) && dir.Alone(SOLE.name);
    r := dir.Remove(SOLE.name);
    after, overrun := dir.ReadByName(SOLE.name, dent, table, op);
  }

  /** The one record of `LongNameDamaged`: a name of 49 letters. */
  const LONG: Entry := Entry(0, DIR_BLOCK, 12, 1, Repeated<byte>(97, FNAME_LEN + 1))

  lemma LongBlock(buf: seq<byte>)
    requires |buf| == DIR_BLOCK
    ensures EntryOk(LONG) && BlockIs(Splice(buf, 0, Encoded(LONG)), [LONG])
    ensures AllClosed([[LONG]]) && Represents([[LONG]], map[LONG.name := LONG.ino])
  {
    assert EntryOk(LONG) && Tiles([LONG]) && Closed([LONG]);
    EntryPut(buf, LONG);
    assert Named([[LONG]], 0, 0, LONG.name);
  }

  lemma OnlyRecord(e: Entry)
    ensures All([[e]]) == [e]
  {
    assert [[e]][..0] == [] && All([[e]][..0]) == [];
  }

  /** A file with a name of 49 letters and no blocks: reading the directory gives another name. */
  method LongNameDamaged(op: word) returns (name: Name)
    ensures |name| == |LONG.name| && name != LONG.name
  {
    ghost var empty: seq<byte> := Repeated<byte>(0, DIR_BLOCK);
    LongBlock(empty);
    OnlyRecord(LONG);
    var block := Splice(Repeated<byte>(0, DIR_BLOCK), 0, Encoded(LONG));
    var blocks := new seq<byte>[1](_ => block);
    var dir := new Directory(blocks, [[LONG]], map[LONG.name := LONG.ino]);
    var file := new OpenDirectory(dir, _ => InodeInfo(0, 0, 0x8000));
    var dent := new byte[DENTRY_SIZE](_ => 0);
    var overrun;
    name, overrun := file.Read(255, dent, op);
    assert LONG.name[FNAME_LEN] == 97;
  }

  /** Record k of `FullDirectory`: a name of 248 letters, in a record that has no byte to spare. */
  function Full(k: nat): (e: Entry)
    requires k < 4
    ensures EntryOk(e) && |Encoded(e)| == e.len == 256 && e.off == 256 * k && !HasRoom(e, 1)
    ensures e.ino == 12 + k && |e.name| == 248 && e.name[0] == 97 + k
  {
    Entry(256 * k, 256, 12 + k, 1, seq(248, _ => (97 + k) as byte))
  }

  ghost function FullRecords(): seq<Entry> {
    [Full(0), Full(1), Full(2), Full(3)]
  }

  ghost function FullNames(): map<Name, word> {
    map[Full(0).name := 12, Full(1).name := 13, Full(2).name := 14, Full(3).name := 15]
  }

  /** Four such records fill a block. */
  lemma FullBlock(block: seq<byte>)
    requires block == Encoded(Full(0)) + Encoded(Full(1)) + Encoded(Full(2)) + Encoded(Full(3))
    ensures BlockIs(block, FullRecords()) && AllClosed([FullRecords()])
  {
    hide Encoded, Full;
    assert block[..256] == Encoded(Full(0)) && block[256..512] == Encoded(Full(1));
    assert block[512..768] == Encoded(Full(2)) && block[768..] == Encoded(Full(3));
  }

  lemma FullListed()
    ensures Represents([FullRecords()], FullNames()) && [98] !in FullNames()
  {
    hide Full, Encoded, EntryOk;
    var all := [FullRecords()];
    assert Named(all, 0, 0, Full(0).name) && Named(all, 0, 1, Full(1).name);
    assert Named(all, 0, 2, Full(2).name) && Named(all, 0, 3, Full(3).name);
  }

  /** A directory of one block without slack: creating the file `b` there reports success, and it is not found. */
  method FullDirectory(table: word -> InodeInfo, op: word) returns (r: int, after: nat)
    ensures r == 0 && after == 0
  {
    var block := Encoded(Full(0)) + Encoded(Full(1)) + Encoded(Full(2)) + Encoded(Full(3));
    FullBlock(block);
    FullListed();
    hide Encoded, BlockIs, Represents, FullNames, AllClosed, Full;
    var blocks := new seq<byte>[1](_ => block);
    var dir := new Directory(blocks, [FullRecords()], FullNames());
    ghost var placed, b, j;
    r, placed, b, j := dir.Insert([98], 20, 0x8000);
    var dent := new byte[DENTRY_SIZE](_ => 0);
    var overrun;
    after, overrun := dir.ReadByName([98], dent, table, op);
  }
}
