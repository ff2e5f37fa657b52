/**
 One block of an ext2 directory: a chain of records of variable length, each linked to the next by its length,
 that covers the block. The format is the linked directory structure of the second extended file system.
 */
module DirectoryBlock {
  import opened Bitmap
  import opened LittleEndian
  import opened Splices

  const DIR_BLOCK: nat := 1024
  /** Inode number, record length, name length and file type stand before the name. */
  const HEADER: nat := 8
  const FNAME_LEN: nat := 48
  const FT_UNKNOWN: byte := 0
  const FT_DIR: byte := 2

  /** A record, and where in its block it is. */
  datatype Entry = Entry(off: nat, len: nat, ino: word, kind: byte, name: seq<byte>)

  function Pad(n: nat): (r: nat)
    ensures r % 4 == 0 && n <= r < n + 4
  {
    if n % 4 != 0 then n + (4 - n % 4) else n
  }

  /** What a record needs for its header and padded name. */
  function TrueLen(name: seq<byte>): nat {
    Pad(|name|) + HEADER
  }

  /** A record inside the block, aligned, with room for its padded name. */
  predicate EntryOk(e: Entry) {
    && 1 <= |e.name| <= 255 && e.kind != FT_UNKNOWN
    && e.off % 4 == 0 && e.len % 4 == 0 && TrueLen(e.name) <= e.len && e.off + e.len <= DIR_BLOCK
  }

  /** `ext2_dentry_t` as bytes, as far as the name goes. */
  function Encoded(e: Entry): (b: seq<byte>)
    requires EntryOk(e)
    ensures |b| == HEADER + |e.name|
  {
    Bytes32(e.ino) + Bytes16(e.len) + [|e.name| as byte, e.kind] + e.name
  }

  predicate EntryAt(buf: seq<byte>, e: Entry) {
    |buf| == DIR_BLOCK && EntryOk(e) && Slice(buf, e.off, HEADER + |e.name|) == Encoded(e)
  }

  function EndOf(es: seq<Entry>): nat {
    if es == [] then 0 else es[|es| - 1].off + es[|es| - 1].len
  }

  /** Each record begins where the one before it ends. */
  predicate Follows(es: seq<Entry>, i: nat)
    requires i < |es|
  {
    es[i].off == if i == 0 then 0 else es[i - 1].off + es[i - 1].len
  }

  predicate Tiles(es: seq<Entry>) {
    forall i: nat {:trigger Follows(es, i)} :: i < |es| ==> Follows(es, i)
  }

  predicate Closed(es: seq<Entry>) {
    EndOf(es) == DIR_BLOCK
  }

  /** The chain ends at a record of unknown type that leaves room for one more name. */
  predicate OpenEnd(buf: seq<byte>, es: seq<Entry>) {
    |buf| == DIR_BLOCK && EndOf(es) % 4 == 0 && EndOf(es) + HEADER + FNAME_LEN <= DIR_BLOCK &&
        buf[EndOf(es) + 7] == FT_UNKNOWN
  }

  predicate Member(buf: seq<byte>, es: seq<Entry>, i: nat) {
    i < |es| && EntryAt(buf, es[i])
  }

  /** The block holds this chain of records. */
  predicate BlockIs(buf: seq<byte>, es: seq<Entry>) {
    && |buf| == DIR_BLOCK && Tiles(es) && (Closed(es) || OpenEnd(buf, es))
    && forall i: nat {:trigger Member(buf, es, i)} :: i < |es| ==> Member(buf, es, i)
  }

  // ---------- reading a record ----------

  lemma EncodedParts(e: Entry)
    requires EntryOk(e)
    ensures Encoded(e)[0..4] == Bytes32(e.ino) && Encoded(e)[4..6] == Bytes16(e.len)
    ensures Encoded(e)[6] == |e.name| && Encoded(e)[7] == e.kind && Encoded(e)[HEADER..|Encoded(e)|] == e.name
  {
  }

  lemma FieldsOf(buf: seq<byte>, e: Entry)
    requires EntryAt(buf, e)
    ensures Word32(buf[e.off..e.off + 4]) == e.ino && Word16(buf[e.off + 4..e.off + 6]) == e.len
    ensures buf[e.off + 6] == |e.name| && buf[e.off + 7] == e.kind &&
      buf[e.off + HEADER..e.off + HEADER + |e.name|] == e.name
  {
    var s := Slice(buf, e.off, HEADER + |e.name|);
    EncodedParts(e);
    PartOfSlice(buf, e.off, |s|, 0, 4);
    PartOfSlice(buf, e.off, |s|, 4, 6);
    PartOfSlice(buf, e.off, |s|, HEADER, |s|);
    assert buf[e.off + 6] == s[6] && buf[e.off + 7] == s[7];
    Word32RoundTrip(e.ino);
    Word16RoundTrip(e.len);
  }

  /** A record ends before any later one begins. */
  lemma {:induction false} InOrder(es: seq<Entry>, i: nat, j: nat)
    requires Tiles(es) && i < j < |es|
    ensures es[i].off + es[i].len <= es[j].off
    decreases j
  {
    assert Follows(es, j);
    if i < j - 1 {
      InOrder(es, i, j - 1);
    }
  }

  // ---------- changing bytes ----------

  lemma EntryKept(buf: seq<byte>, at: nat, b: seq<byte>, e: Entry)
    requires EntryAt(buf, e) && at + |b| <= |buf|
    requires at + |b| <= e.off || e.off + HEADER + |e.name| <= at
    ensures EntryAt(Splice(buf, at, b), e)
  {
    SliceOfSplice(buf, at, b, e.off, HEADER + |e.name|);
  }

  lemma EncodedWith(e: Entry, len: nat)
    requires EntryOk(e) && EntryOk(e.(len := len))
    ensures Splice(Encoded(e), 4, Bytes16(len)) == Encoded(e.(len := len))
  {
  }

  lemma LengthChanged(buf: seq<byte>, e: Entry, len: nat)
    requires EntryAt(buf, e) && EntryOk(e.(len := len))
    ensures EntryAt(Splice(buf, e.off + 4, Bytes16(len)), e.(len := len))
  {
    SpliceInSlice(buf, e.off, HEADER + |e.name|, 4, Bytes16(len));
    EncodedWith(e, len);
  }

  lemma EntryPut(buf: seq<byte>, e: Entry)
    requires |buf| == DIR_BLOCK && EntryOk(e)
    ensures EntryAt(Splice(buf, e.off, Encoded(e)), e)
  {
    SliceOfSplice(buf, e.off, Encoded(e), e.off, HEADER + |e.name|);
  }

  lemma SpliceTwice<T>(s: seq<T>, at: nat, b: seq<T>, c: seq<T>)
    requires at + |b| + |c| <= |s|
    ensures Splice(Splice(s, at, b), at + |b|, c) == Splice(s, at, b + c)
  {
  }

  /** Two blocks that agree but for a stretch. */
  predicate SameOutside(buf: seq<byte>, after: seq<byte>, lo: nat, hi: nat) {
    lo <= hi <= |buf| && |after| == |buf| && after[..lo] == buf[..lo] && after[hi..] == buf[hi..]
  }

  lemma SpliceOutside(buf: seq<byte>, at: nat, b: seq<byte>, lo: nat, hi: nat)
    requires lo <= at && at + |b| <= hi <= |buf|
    ensures SameOutside(buf, Splice(buf, at, b), lo, hi)
  {
  }

  lemma OutsideTwice(buf: seq<byte>, mid: seq<byte>, after: seq<byte>, lo: nat, hi: nat)
    requires SameOutside(buf, mid, lo, hi) && SameOutside(mid, after, lo, hi)
    ensures SameOutside(buf, after, lo, hi)
  {
  }

  lemma EntryOutside(buf: seq<byte>, after: seq<byte>, lo: nat, hi: nat, e: Entry)
    requires EntryAt(buf, e) && SameOutside(buf, after, lo, hi) && (e.off + e.len <= lo || hi <= e.off)
    ensures EntryAt(after, e)
  {
    var n := HEADER + |e.name|;
    if hi <= e.off {
      assert Slice(buf, e.off, n) == buf[hi..][e.off - hi..e.off - hi + n];
      assert Slice(after, e.off, n) == after[hi..][e.off - hi..e.off - hi + n];
    } else {
      assert Slice(buf, e.off, n) == buf[..lo][e.off..e.off + n];
      assert Slice(after, e.off, n) == after[..lo][e.off..e.off + n];
    }
  }

  /** Changing the bytes of records a to c leaves the other records, and an open end behind them. */
  lemma OthersKept(buf: seq<byte>, after: seq<byte>, es: seq<Entry>, a: nat, c: nat)
    requires BlockIs(buf, es) && a <= c < |es| && SameOutside(buf, after, es[a].off, es[c].off + es[c].len)
    ensures forall k: nat {:trigger Member(after, es, k)} :: k < a || c < k < |es| ==> Member(after, es, k)
    ensures OpenEnd(buf, es) ==> OpenEnd(after, es)
  {
    var hi := es[c].off + es[c].len;
    forall k: nat | k < a || c < k < |es|
      ensures Member(after, es, k)
    {
      assert Member(buf, es, k);
      if k < a {
        InOrder(es, k, a);
      } else {
        InOrder(es, c, k);
      }
      EntryOutside(buf, after, es[a].off, hi, es[k]);
    }
    if OpenEnd(buf, es) {
      if c < |es| - 1 {
        InOrder(es, c, |es| - 1);
      }
      assert buf[hi..][EndOf(es) + 7 - hi] == after[hi..][EndOf(es) + 7 - hi];
    }
  }

  /** Records a to c replaced by others that cover the same bytes. */
  lemma Replaced(buf: seq<byte>, after: seq<byte>, es: seq<Entry>, a: nat, c: nat, mid: seq<Entry>)
    requires BlockIs(buf, es) && a <= c < |es| && SameOutside(buf, after, es[a].off, es[c].off + es[c].len)
    requires Tiles(es[..a] + mid + es[c + 1..]) && EndOf(es[..a] + mid + es[c + 1..]) == EndOf(es)
    requires forall j: nat :: j < |mid| ==> Member(after, mid, j)
    ensures BlockIs(after, es[..a] + mid + es[c + 1..])
  {
    var now := es[..a] + mid + es[c + 1..];
    OthersKept(buf, after, es, a, c);
    hide EntryAt, Tiles, SameOutside;
    forall j: nat | j < |now|
      ensures Member(after, now, j)
    {
      if j < a {
        assert Member(after, es, j);
      } else if j < a + |mid| {
        assert Member(after, mid, j - a);
      } else {
        assert Member(after, es, j - a - |mid| + c + 1);
      }
    }
  }

  /** `cur_dir->rec_len = len` */
  method PutLength(buf: array<byte>, off: nat, len: nat)
    requires buf.Length == DIR_BLOCK && off + 6 <= DIR_BLOCK && len < 0x1_0000
    modifies buf
    ensures buf[..] == Splice(old(buf[..]), off + 4, Bytes16(len))
  {
    CopyInto(buf, off + 4, Bytes16(len));
  }

  /** The fields of a record, one after the other. */
  method PutEntry(buf: array<byte>, e: Entry)
    requires buf.Length == DIR_BLOCK && EntryOk(e)
    modifies buf
    ensures buf[..] == Splice(old(buf[..]), e.off, Encoded(e))
  {
    ghost var was := buf[..];
    CopyInto(buf, e.off, Bytes32(e.ino));
    CopyInto(buf, e.off + 4, Bytes16(e.len));
    SpliceTwice(was, e.off, Bytes32(e.ino), Bytes16(e.len));
    CopyInto(buf, e.off + 6, [|e.name| as byte, e.kind]);
    SpliceTwice(was, e.off, Bytes32(e.ino) + Bytes16(e.len), [|e.name| as byte, e.kind]);
    CopyInto(buf, e.off + HEADER, e.name);
    SpliceTwice(was, e.off, Bytes32(e.ino) + Bytes16(e.len) + [|e.name| as byte, e.kind], e.name);
  }

  // ---------- inserting ----------

  /** The slack behind a record takes another record with a name of n bytes. */
  predicate HasRoom(e: Entry, n: nat) {
    e.len > Pad(|e.name|) + HEADER + Pad(n) + HEADER
  }

  /** In arithmetic: names count rounded up to fours, and each record has eight bytes before its name. */
  lemma RoomInBytes(e: Entry, n: nat)
    ensures HasRoom(e, n) <==> e.len > 4 * ((|e.name| + 3) / 4) + 4 * ((n + 3) / 4) + 16
  {
  }

  /** The record that goes into the slack. */
  function InSlack(e: Entry, ino: word, kind: byte, name: seq<byte>): Entry
    requires EntryOk(e)
  {
    Entry(e.off + TrueLen(e.name), e.len - TrueLen(e.name), ino, kind, name)
  }

  /** Record i cut down to what it needs, and the new record in its slack. */
  function SplitAfter(es: seq<Entry>, i: nat, ino: word, kind: byte, name: seq<byte>): seq<Entry>
    requires i < |es| && EntryOk(es[i])
  {
    es[..i] + [es[i].(len := TrueLen(es[i].name)), InSlack(es[i], ino, kind, name)] + es[i + 1..]
  }

  /** The new record takes all that is left of a block with an open end. */
  function AtOpenEnd(es: seq<Entry>, ino: word, kind: byte, name: seq<byte>): seq<Entry>
    requires EndOf(es) <= DIR_BLOCK
  {
    es + [Entry(EndOf(es), DIR_BLOCK - EndOf(es), ino, kind, name)]
  }

  lemma SplitTiles(es: seq<Entry>, i: nat, ino: word, kind: byte, name: seq<byte>)
    requires Tiles(es) && i < |es| && EntryOk(es[i])
    ensures Tiles(SplitAfter(es, i, ino, kind, name)) && EndOf(SplitAfter(es, i, ino, kind, name)) == EndOf(es)
  {
    var after := SplitAfter(es, i, ino, kind, name);
    forall j: nat | j < |after|
      ensures Follows(after, j)
    {
      if j <= i {
        assert Follows(es, j);
      } else if j >= i + 2 {
        assert Follows(es, j - 1);
      }
    }
  }

  /** The bytes the insertion changes: the length of record i, and the new record. */
  function SplitBytes(buf: seq<byte>, e: Entry, ino: word, kind: byte, name: seq<byte>): seq<byte>
    requires EntryAt(buf, e) && EntryOk(InSlack(e, ino, kind, name))
  {
    Splice(Splice(buf, e.off + 4, Bytes16(TrueLen(e.name))), e.off + TrueLen(e.name),
        Encoded(InSlack(e, ino, kind, name)))
  }

  function Shortened(e: Entry): Entry {
    e.(len := TrueLen(e.name))
  }

  /** Both the shortened record and the new one stay inside the old one. */
  lemma SplitFits(e: Entry, n: Entry)
    requires EntryOk(e) && EntryOk(n) && n.off == e.off + TrueLen(e.name) && n.off + n.len == e.off + e.len
    ensures e.off + HEADER + |e.name| <= n.off && n.off + |Encoded(n)| <= e.off + e.len <= DIR_BLOCK &&
      e.off + 6 <= n.off
    ensures EntryOk(Shortened(e)) && TrueLen(e.name) < 0x1_0000
  {
  }

  /** The two writes, and the two records they leave. */
  lemma SplitWrites(buf: seq<byte>, e: Entry, n: Entry, after: seq<byte>)
    requires EntryAt(buf, e) && EntryOk(n) && n.off == e.off + TrueLen(e.name) && n.off + n.len == e.off + e.len
    requires after == Splice(Splice(buf, e.off + 4, Bytes16(TrueLen(e.name))), n.off, Encoded(n))
    ensures EntryAt(after, Shortened(e)) && EntryAt(after, n) && SameOutside(buf, after, e.off, e.off + e.len)
  {
    SplitFits(e, n);
    var cut := Splice(buf, e.off + 4, Bytes16(TrueLen(e.name)));
    hide Encoded, Bytes16, Slice, Splice, SameOutside, EntryOk, TrueLen;
    LengthChanged(buf, e, TrueLen(e.name));
    EntryKept(cut, n.off, Encoded(n), Shortened(e));
    EntryPut(cut, n);
    SpliceOutside(buf, e.off + 4, Bytes16(TrueLen(e.name)), e.off, e.off + e.len);
    SpliceOutside(cut, n.off, Encoded(n), e.off, e.off + e.len);
    OutsideTwice(buf, cut, after, e.off, e.off + e.len);
  }

  /** The edits of an insertion behind a record. */
  method WriteSplit(blkBuf: array<byte>, cur: Entry, ino: word, kind: byte, name: seq<byte>)
    requires EntryAt(blkBuf[..], cur) && EntryOk(InSlack(cur, ino, kind, name))
    modifies blkBuf
    ensures blkBuf[..] == SplitBytes(old(blkBuf[..]), cur, ino, kind, name)
  {
    SplitFits(cur, InSlack(cur, ino, kind, name));
    hide Encoded, Bytes16, Splice, EntryAt;
    var prevTrue: nat := Pad(|cur.name|) + HEADER;
    PutLength(blkBuf, cur.off, prevTrue);
    PutEntry(blkBuf, Entry(cur.off + prevTrue, cur.len - prevTrue, ino, kind, name));
  }

  lemma SplitKeeps(buf: seq<byte>, es: seq<Entry>, i: nat, ino: word, kind: byte, name: seq<byte>)
    requires BlockIs(buf, es) && i < |es| && Member(buf, es, i) && EntryOk(InSlack(es[i], ino, kind, name))
    ensures BlockIs(SplitBytes(buf, es[i], ino, kind, name), SplitAfter(es, i, ino, kind, name))
  {
    var e, n := es[i], InSlack(es[i], ino, kind, name);
    var mid := [Shortened(e), n];
    SplitTiles(es, i, ino, kind, name);
    assert SplitAfter(es, i, ino, kind, name) == es[..i] + mid + es[i + 1..];
    hide EntryAt, EntryOk, BlockIs, Tiles, SameOutside, SplitAfter;
    var done := SplitBytes(buf, e, ino, kind, name);
    SplitWrites(buf, e, n, done);
    assert Member(done, mid, 0) && Member(done, mid, 1);
    Replaced(buf, done, es, i, i, mid);
  }

  /** The bytes the insertion at an open end changes: the length there, twice, and the new record. */
  function OpenEndBytes(buf: seq<byte>, e: Entry): seq<byte>
    requires |buf| == DIR_BLOCK && EntryOk(e)
  {
    Splice(Splice(Splice(buf, e.off + 4, Bytes16(e.len)), e.off + 4, Bytes16(0)), e.off, Encoded(e))
  }

  /** The edits of an insertion over a record of unknown type. */
  method WriteAtOpenEnd(blkBuf: array<byte>, e: Entry)
    requires blkBuf.Length == DIR_BLOCK && EntryOk(e)
    modifies blkBuf
    ensures blkBuf[..] == OpenEndBytes(old(blkBuf[..]), e)
  {
    PutLength(blkBuf, e.off, e.len);
    PutLength(blkBuf, e.off, 0);
    PutEntry(blkBuf, e);
  }

  /** The writes of an insertion at an open end stay behind the chain, and leave the record. */
  lemma OpenEndWrites(buf: seq<byte>, e: Entry)
    requires |buf| == DIR_BLOCK && e.off % 4 == 0 && e.off + HEADER + FNAME_LEN <= DIR_BLOCK &&
      e.off + e.len == DIR_BLOCK
    requires 1 <= |e.name| <= FNAME_LEN && e.kind != FT_UNKNOWN
    ensures EntryOk(e) && EntryAt(OpenEndBytes(buf, e), e) && SameOutside(buf, OpenEndBytes(buf, e), e.off, DIR_BLOCK)
  {
    var once := Splice(buf, e.off + 4, Bytes16(e.len));
    var twice := Splice(once, e.off + 4, Bytes16(0));
    EntryPut(twice, e);
    SpliceOutside(buf, e.off + 4, Bytes16(e.len), e.off, DIR_BLOCK);
    SpliceOutside(once, e.off + 4, Bytes16(0), e.off, DIR_BLOCK);
    SpliceOutside(twice, e.off, Encoded(e), e.off, DIR_BLOCK);
  }

  /** A record put over the open end closes the block. */
  lemma OpenEndTaken(buf: seq<byte>, after: seq<byte>, es: seq<Entry>, ino: word, kind: byte, name: seq<byte>)
    requires BlockIs(buf, es) && OpenEnd(buf, es) && 1 <= |name| <= FNAME_LEN && kind != FT_UNKNOWN
    requires SameOutside(buf, after, EndOf(es), DIR_BLOCK) && EntryAt(after, AtOpenEnd(es, ino, kind, name)[|es|])
    ensures BlockIs(after, AtOpenEnd(es, ino, kind, name)) && Closed(AtOpenEnd(es, ino, kind, name))
  {
    var now := AtOpenEnd(es, ino, kind, name);
    hide EntryAt, OpenEnd;
    forall j: nat | j < |now|
      ensures Follows(now, j) && Member(after, now, j)
    {
      if j < |es| {
        assert Follows(es, j) && Member(buf, es, j);
        if j < |es| - 1 {
          InOrder(es, j, |es| - 1);
          assert Member(buf, es, |es| - 1);
        }
        EntryOutside(buf, after, EndOf(es), DIR_BLOCK, es[j]);
      }
    }
  }

  // ---------- removing ----------

  /** A record merged into the one before it; the first takes over the record behind it; a sole record stays. */
  function RemoveAt(es: seq<Entry>, i: nat): seq<Entry>
    requires i < |es|
  {
    if i > 0 then
      es[..i - 1] + [es[i - 1].(len := es[i - 1].len + es[i].len)] + es[i + 1..]
    else if |es| > 1 then
      [es[1].(off := es[0].off, len := es[0].len + es[1].len)] + es[2..]
    else
      es
  }

  lemma RemoveTiles(es: seq<Entry>, i: nat)
    requires Tiles(es) && i < |es|
    ensures Tiles(RemoveAt(es, i)) && EndOf(RemoveAt(es, i)) == EndOf(es)
  {
    var after := RemoveAt(es, i);
    forall j: nat | j < |after|
      ensures Follows(after, j)
    {
      assert Follows(es, j);
      if j + 1 < |es| {
        assert Follows(es, j + 1);
      }
    }
    assert Follows(es, i) && Follows(es, |es| - 1);
    assert |es| > 1 ==> Follows(es, 1);
  }

  /** The record that stands for two neighbours after one of them was removed. */
  function Merged(es: seq<Entry>, i: nat): Entry
    requires 1 <= i < |es|
  {
    es[i - 1].(len := es[i - 1].len + es[i].len)
  }

  lemma MergedFits(buf: seq<byte>, es: seq<Entry>, i: nat)
    requires BlockIs(buf, es) && 1 <= i < |es| && Member(buf, es, i - 1) && Member(buf, es, i)
    ensures EntryOk(Merged(es, i)) && EntryAt(buf, es[i - 1]) && |buf| == DIR_BLOCK
    ensures es[i].off + es[i].len <= DIR_BLOCK && es[i - 1].off + 6 <= es[i].off
    ensures RemoveAt(es, i) == es[..i - 1] + [Merged(es, i)] + es[i + 1..] && Tiles(es)
  {
    hide Encoded, Slice;
    assert Follows(es, i) && Follows(es, i - 1);
  }

  lemma MergeKeeps(buf: seq<byte>, es: seq<Entry>, i: nat)
    requires BlockIs(buf, es) && 1 <= i < |es| && Member(buf, es, i - 1) && Member(buf, es, i)
    ensures EntryOk(Merged(es, i))
    ensures BlockIs(Splice(buf, es[i - 1].off + 4, Bytes16(Merged(es, i).len)), RemoveAt(es, i))
  {
    hide Encoded, Slice, Splice, SameOutside, Tiles, RemoveAt, BlockIs, EntryAt, Bytes16;
    MergedFits(buf, es, i);
    var e := es[i - 1];
    var after := Splice(buf, e.off + 4, Bytes16(Merged(es, i).len));
    RemoveTiles(es, i);
    SpliceOutside(buf, e.off + 4, Bytes16(Merged(es, i).len), e.off, es[i].off + es[i].len);
    LengthChanged(buf, e, Merged(es, i).len);
    assert Member(after, [Merged(es, i)], 0);
    Replaced(buf, after, es, i - 1, i, [Merged(es, i)]);
  }

  /** The first record of a block overwritten by the second, and made as long as both. */
  function TakenOver(es: seq<Entry>): Entry
    requires |es| > 1
  {
    es[1].(off := es[0].off, len := es[0].len + es[1].len)
  }

  lemma TakeOverFits(buf: seq<byte>, es: seq<Entry>)
    requires BlockIs(buf, es) && |es| > 1
    ensures EntryOk(TakenOver(es))
  {
    assert Member(buf, es, 0) && Member(buf, es, 1) && Follows(es, 1);
  }

  lemma TakeOverKeeps(buf: seq<byte>, es: seq<Entry>)
    requires BlockIs(buf, es) && |es| > 1 && EntryOk(TakenOver(es))
    ensures BlockIs(Splice(buf, es[0].off, Encoded(TakenOver(es))), RemoveAt(es, 0))
  {
    var e := TakenOver(es);
    assert Member(buf, es, 0) && Member(buf, es, 1) && Follows(es, 1);
    var after := Splice(buf, e.off, Encoded(e));
    RemoveTiles(es, 0);
    SpliceOutside(buf, e.off, Encoded(e), es[0].off, es[1].off + es[1].len);
    hide Encoded, Splice, SameOutside, Tiles;
    EntryPut(buf, e);
    assert Member(after, [e], 0);
    assert RemoveAt(es, 0) == es[..0] + [e] + es[2..];
    Replaced(buf, after, es, 0, 1, [e]);
  }

  /**
   Inserting a name into the slack of a record and removing it again gives back the same chain, offsets and lengths
   included.
   */
  lemma RemoveAfterSplit(es: seq<Entry>, i: nat, ino: word, kind: byte, name: seq<byte>)
    requires i < |es| && EntryOk(es[i])
    ensures RemoveAt(SplitAfter(es, i, ino, kind, name), i + 1) == es
  {
    var after := SplitAfter(es, i, ino, kind, name);
    assert after[..i] == es[..i] && after[i + 2..] == es[i + 1..];
    assert es == es[..i] + [es[i]] + es[i + 1..];
  }
}
