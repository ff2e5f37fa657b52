/**
 `sys_encrypt` and `sys_decrypt` of src/syscall.c: a file is padded with zeros to whole blocks and encrypted in
 place, and decryption drops the zeros at the end of the last block.
 */
module FileCrypt {
  import opened Splices
  import opened Ext2Files
  import opened Ext2
  import C = Cipher
  import K = KeySchedule
  import Aes

  const BLOCK: nat := 16

  // ---------- the two transformations on whole files ----------

  /** How many blocks are encrypted: one more than the whole blocks of the file. */
  function BlocksIn(size: nat): nat {
    size / BLOCK + 1
  }

  /** The file with zeros up to a block boundary, a whole block of them if it ends on one. */
  function Padded(data: Bytes): (r: Bytes)
    ensures |r| == BLOCK * BlocksIn(|data|)
  {
    data + Repeated(0, BLOCK * BlocksIn(|data|) - |data|)
  }

  function BlockAt(s: Bytes, i: nat): C.Block
    requires BLOCK * (i + 1) <= |s|
  {
    Slice(s, BLOCK * i, BLOCK)
  }

  /** The first n blocks encrypted. */
  function EncryptBlocks(w: C.Schedule, s: Bytes, n: nat): (r: Bytes)
    requires BLOCK * n <= |s|
    ensures |r| == BLOCK * n
  {
    if n == 0 then [] else EncryptBlocks(w, s, n - 1) + C.Encrypt(w, BlockAt(s, n - 1))
  }

  /** The first n blocks decrypted. */
  function DecryptBlocks(w: C.Schedule, s: Bytes, n: nat): (r: Bytes)
    requires BLOCK * n <= |s|
    ensures |r| == BLOCK * n
  {
    if n == 0 then [] else DecryptBlocks(w, s, n - 1) + C.Decrypt(w, BlockAt(s, n - 1))
  }

  /** Without the zeros at its end. */
  function Trim(s: Bytes): (r: Bytes)
    ensures |r| <= |s| && r == s[..|r|]
  {
    if |s| > 0 && s[|s| - 1] == 0 then Trim(s[..|s| - 1]) else s
  }

  /** What `sys_encrypt` leaves in the file. */
  function CipherText(key: C.Block, data: Bytes): (r: Bytes)
    ensures |r| == BLOCK * BlocksIn(|data|)
  {
    EncryptBlocks(K.KeyExpansion(key), Padded(data), BlocksIn(|data|))
  }

  /** What `sys_decrypt` leaves in the file: the last whole block is trimmed, a part of a block behind it dropped. */
  function PlainText(key: C.Block, data: Bytes): Bytes
    requires |data| >= BLOCK
  {
    var n := |data| / BLOCK;
    var plain := DecryptBlocks(K.KeyExpansion(key), data, n);
    plain[..BLOCK * (n - 1)] + Trim(plain[BLOCK * (n - 1)..])
  }

  // ---------- the two transformations, block by block ----------

  /** Block i of a file, with zeros where the file has no byte. */
  function ZeroFilled(data: Bytes, i: nat): C.Block {
    seq(16, k requires 0 <= k < 16 => if 16 * i + k < |data| then data[16 * i + k] else 0)
  }

  predicate BlockEnciphered(w: C.Schedule, data: Bytes, out: Bytes, i: nat) {
    16 * i + 16 <= |out| && out[16 * i..16 * i + 16] == C.Encrypt(w, ZeroFilled(data, i))
  }

  /** One block more than there are whole ones, each the encryption of a block of the file. */
  ghost predicate Enciphered(key: C.Block, data: Bytes, out: Bytes) {
    && |out| == 16 * (|data| / 16 + 1)
    && forall i: nat :: i <= |data| / 16 ==> BlockEnciphered(K.KeyExpansion(key), data, out, i)
  }

  /** Block i of a file decrypted. */
  function DecipheredBlock(w: C.Schedule, data: Bytes, i: nat): C.Block
    requires 16 * i + 16 <= |data|
  {
    C.Decrypt(w, data[16 * i..16 * i + 16])
  }

  /** The first n blocks decrypted, up to the last byte of the last one that is not zero. */
  predicate BlocksDeciphered(w: C.Schedule, data: Bytes, n: nat, out: Bytes)
    requires 1 <= n && 16 * n <= |data|
  {
    && 16 * n - 16 <= |out| <= 16 * n
    && (forall i: nat :: i < n - 1 ==> out[16 * i..16 * i + 16] == DecipheredBlock(w, data, i))
    && var m, p := |out| - (16 * n - 16), DecipheredBlock(w, data, n - 1);
    out[16 * n - 16..] == p[..m] && (m > 0 ==> p[m - 1] != 0) && forall k: nat :: m <= k < 16 ==> p[k] == 0
  }

  /** The whole blocks decrypted. */
  predicate Deciphered(key: C.Block, data: Bytes, out: Bytes)
    requires |data| >= 16
  {
    BlocksDeciphered(K.KeyExpansion(key), data, |data| / 16, out)
  }

  lemma FilledBlock(data: Bytes, i: nat)
    requires i < BlocksIn(|data|)
    ensures BlockAt(Padded(data), i) == ZeroFilled(data, i)
  {
  }

  lemma EncryptedBlock(w: C.Schedule, s: Bytes, n: nat, i: nat)
    requires BLOCK * n <= |s| && i < n
    ensures BlockAt(EncryptBlocks(w, s, n), i) == C.Encrypt(w, BlockAt(s, i))
    decreases n
  {
    hide C.Encrypt;
    var before, last := EncryptBlocks(w, s, n - 1), C.Encrypt(w, BlockAt(s, n - 1));
    assert EncryptBlocks(w, s, n) == before + last;
    if i < n - 1 {
      EncryptedBlock(w, s, n - 1, i);
      assert BlockAt(before + last, i) == BlockAt(before, i);
    } else {
      assert BlockAt(before + last, i) == last;
    }
  }

  lemma CipherTextIsEnciphered(key: C.Block, data: Bytes)
    ensures Enciphered(key, data, CipherText(key, data))
  {
    var w, out := K.KeyExpansion(key), CipherText(key, data);
    hide C.Encrypt, K.KeyExpansion, EncryptBlocks, Padded, ZeroFilled;
    forall i: nat | i <= |data| / 16
      ensures BlockEnciphered(w, data, out, i)
    {
      EncryptedBlock(w, Padded(data), BlocksIn(|data|), i);
      FilledBlock(data, i);
      assert out[16 * i..16 * i + 16] == BlockAt(out, i);
    }
  }

  lemma DecryptedBlock(w: C.Schedule, s: Bytes, n: nat, i: nat)
    requires BLOCK * n <= |s| && i < n
    ensures BlockAt(DecryptBlocks(w, s, n), i) == C.Decrypt(w, BlockAt(s, i))
    decreases n
  {
    hide C.Decrypt;
    var before, last := DecryptBlocks(w, s, n - 1), C.Decrypt(w, BlockAt(s, n - 1));
    assert DecryptBlocks(w, s, n) == before + last;
    if i < n - 1 {
      DecryptedBlock(w, s, n - 1, i);
      assert BlockAt(before + last, i) == BlockAt(before, i);
    } else {
      assert BlockAt(before + last, i) == last;
    }
  }

  lemma {:induction false} TrimmedAt(s: Bytes)
    ensures |Trim(s)| > 0 ==> s[|Trim(s)| - 1] != 0
    ensures forall k: nat :: |Trim(s)| <= k < |s| ==> s[k] == 0
  {
    if |s| > 0 && s[|s| - 1] == 0 {
      TrimmedAt(s[..|s| - 1]);
    }
  }

  lemma PlainBlocks(w: C.Schedule, data: Bytes, n: nat, i: nat)
    requires 16 * n <= |data| && i < n
    ensures DecryptBlocks(w, data, n)[16 * i..16 * i + 16] == DecipheredBlock(w, data, i)
  {
    hide C.Decrypt, DecryptBlocks;
    DecryptedBlock(w, data, n, i);
    var plain := DecryptBlocks(w, data, n);
    assert BlockAt(plain, i) == plain[16 * i..16 * i + 16] && BlockAt(data, i) == data[16 * i..16 * i + 16];
  }

  lemma Pieces(plain: Bytes, last: nat, t: Bytes, i: nat)
    requires |plain| == 16 * last + 16
    ensures i < last ==> (plain[..16 * last] + t)[16 * i..16 * i + 16] == plain[16 * i..16 * i + 16]
    ensures (plain[..16 * last] + t)[16 * last..] == t && plain[16 * last..] == plain[16 * last..16 * last + 16]
  {
  }

  lemma TrimmedIsDeciphered(w: C.Schedule, data: Bytes, n: nat, plain: Bytes)
    requires 1 <= n && 16 * n <= |data| && plain == DecryptBlocks(w, data, n)
    ensures BlocksDeciphered(w, data, n, plain[..16 * n - 16] + Trim(plain[16 * n - 16..]))
  {
    hide C.Decrypt, DecryptBlocks, Trim, DecipheredBlock;
    var t := Trim(plain[16 * n - 16..]);
    TrimmedAt(plain[16 * n - 16..]);
    PlainBlocks(w, data, n, n - 1);
    Pieces(plain, n - 1, t, n - 1);
    forall i: nat | i < n - 1
      ensures (plain[..16 * n - 16] + t)[16 * i..16 * i + 16] == DecipheredBlock(w, data, i)
    {
      PlainBlocks(w, data, n, i);
      Pieces(plain, n - 1, t, i);
    }
  }

  lemma PlainTextIsDeciphered(key: C.Block, data: Bytes)
    requires |data| >= 16
    ensures Deciphered(key, data, PlainText(key, data))
  {
    hide C.Decrypt, K.KeyExpansion, DecryptBlocks, Trim, BlocksDeciphered;
    var n := |data| / 16;
    TrimmedIsDeciphered(K.KeyExpansion(key), data, n, DecryptBlocks(K.KeyExpansion(key), data, n));
  }

  // ---------- decrypting what was encrypted ----------

  lemma NothingDone(w: C.Schedule, s: Bytes)
    ensures EncryptBlocks(w, s, 0) == [] == DecryptBlocks(w, s, 0)
  {
  }

  lemma NextEncrypted(w: C.Schedule, s: Bytes, i: nat)
    requires BLOCK * (i + 1) <= |s|
    ensures EncryptBlocks(w, s, i + 1) == EncryptBlocks(w, s, i) + C.Encrypt(w, BlockAt(s, i))
  {
  }

  lemma {:induction false} DecryptEncrypted(w: C.Schedule, s: Bytes, n: nat, m: nat)
    requires BLOCK * n <= |s| && m <= n
    ensures DecryptBlocks(w, EncryptBlocks(w, s, n), m) == s[..BLOCK * m]
    decreases m
  {
    hide C.Encrypt, C.Decrypt;
    if m > 0 {
      DecryptEncrypted(w, s, n, m - 1);
      EncryptedBlock(w, s, n, m - 1);
      C.DecryptAfterEncrypt(w, BlockAt(s, m - 1));
      assert s[..BLOCK * m] == s[..BLOCK * (m - 1)] + BlockAt(s, m - 1);
    }
  }

  lemma {:induction false} TrimZeros(s: Bytes, n: nat)
    ensures Trim(s + Repeated(0, n)) == Trim(s)
    decreases n
  {
    if n == 0 {
      assert s + Repeated(0, 0) == s;
    } else {
      var t := s + Repeated(0, n);
      assert t[..|t| - 1] == s + Repeated(0, n - 1);
      TrimZeros(s, n - 1);
    }
  }

  lemma TrimKeeps(s: Bytes)
    ensures Trim(s) == s <==> s == [] || s[|s| - 1] != 0
  {
  }

  lemma TrimPadded(data: Bytes, whole: nat)
    requires whole == BLOCK * (|data| / BLOCK)
    ensures Padded(data)[..whole] + Trim(Padded(data)[whole..]) == data[..whole] + Trim(data[whole..])
  {
    var n := |Padded(data)| - |data|;
    assert Padded(data)[whole..] == data[whole..] + Repeated(0, n);
    TrimZeros(data[whole..], n);
    assert Padded(data)[..whole] == data[..whole];
  }

  lemma WholeBlocks(size: nat, n: nat)
    ensures BLOCK * n / BLOCK == n
    ensures n == BlocksIn(size) ==> BLOCK * (n - 1) == BLOCK * (size / BLOCK)
  {
  }

  /** Decryption gives back the file, less the zeros at the end of its last, unfilled block. */
  lemma PlainTextOfCipherText(key: C.Block, data: Bytes)
    ensures PlainText(key, CipherText(key, data)) ==
      data[..BLOCK * (|data| / BLOCK)] + Trim(data[BLOCK * (|data| / BLOCK)..])
  {
    var w, n, s := K.KeyExpansion(key), BlocksIn(|data|), Padded(data);
    hide C.Encrypt, C.Decrypt, K.KeyExpansion, EncryptBlocks, DecryptBlocks, Trim, Padded;
    WholeBlocks(|data|, n);
    DecryptEncrypted(w, s, n, n);
    assert s[..BLOCK * n] == s;
    TrimPadded(data, BLOCK * (|data| / BLOCK));
  }

  /**
   Encrypting and then decrypting restores a file exactly when it fills its last block or does not end with a zero byte.
   */
  lemma RestoredWhen(key: C.Block, data: Bytes)
    ensures PlainText(key, CipherText(key, data)) == data <==> |data| % BLOCK == 0 || data[|data| - 1] != 0
  {
    hide PlainText, CipherText;
    PlainTextOfCipherText(key, data);
    var whole := BLOCK * (|data| / BLOCK);
    var rest := data[whole..];
    TrimKeeps(rest);
    assert data == data[..whole] + rest;
    if data[..whole] + Trim(rest) == data {
      assert (data[..whole] + Trim(rest))[whole..] == Trim(rest);
    }
  }

  // ---------- the system calls ----------

  /** A file being read, and its data. */
  ghost predicate Reading(fs: FileSystem, file: OpenFile, data: Bytes)
    reads fs, fs.disk, fs.inodes, fs.blockBitmap, fs.inodeBitmap
  {
    fs.Valid() && fs.Opened(file) && data == fs.files[file.ino - 1] && |data| <= MAX_DIRECT
  }

  lemma PaddedBlock(data: Bytes, i: nat, r: Bytes)
    requires i < BlocksIn(|data|) && r == ReadRange(data, BLOCK * i, BLOCK)
    ensures |r| <= BLOCK && r + Repeated(0, BLOCK - |r|) == BlockAt(Padded(data), i)
  {
  }

  /** Reading one block of a file and filling it up with zeros. */
  method ReadPadded(fs: FileSystem, file: OpenFile, input: array<bv8>, ghost data: Bytes, ghost i: nat)
    requires Reading(fs, file, data)
    requires input.Length == BLOCK && i < BlocksIn(|data|) && file.pos == BLOCK * i
    modifies file`pos, input
    ensures input[..] == BlockAt(Padded(data), i)
    ensures i + 1 < BlocksIn(|data|) ==> file.pos == BLOCK * (i + 1)
  {
    var r := fs.FileRead(file, BLOCK);
    CopyInto(input, 0, r);
    var length := |r|;
    while length < BLOCK
      modifies input
      invariant |r| <= length <= BLOCK && input[..length] == r + Repeated(0, length - |r|)
    {
      input[length] := 0;
      assert input[..length + 1] == input[..length] + [0];
      length := length + 1;
    }
    assert input[..] == input[..BLOCK];
    PaddedBlock(data, i, r);
  }

  lemma SplicedPrefix(s: Bytes, at: nat, b: Bytes)
    requires at + |b| <= |s|
    ensures Splice(s, at, b)[..at + |b|] == s[..at] + b
  {
  }

  /** One turn of the reading loop of `sys_encrypt`. */
  method EncryptOne(fs: FileSystem, file: OpenFile, roundKey: array<bv8>, content: array<bv8>, i: nat,
      ghost data: Bytes, ghost w: C.Schedule)
    requires Reading(fs, file, data) && i < BlocksIn(|data|) && file.pos == BLOCK * i
    requires roundKey[..] == w && roundKey != content && content.Length == BLOCK * BlocksIn(|data|)
    requires content[..BLOCK * i] == EncryptBlocks(w, Padded(data), i)
    modifies file`pos, content
    ensures content[..BLOCK * (i + 1)] == EncryptBlocks(w, Padded(data), i + 1)
    ensures i + 1 < BlocksIn(|data|) ==> file.pos == BLOCK * (i + 1)
  {
    hide C.Encrypt, Padded, Reading, EncryptBlocks;
    NextEncrypted(w, Padded(data), i);
    var input, output := new bv8[BLOCK], new bv8[BLOCK];
    ReadPadded(fs, file, input, data, i);
    Aes.BlockEncryption(roundKey, input, output);
    ghost var before := content[..];
    CopyInto(content, BLOCK * i, output[..]);
    SplicedPrefix(before, BLOCK * i, output[..]);
  }

  /** The reading loop of `sys_encrypt`. */
  method EncryptedContent(fs: FileSystem, file: OpenFile, roundKey: array<bv8>, blocks: nat, ghost data: Bytes,
      ghost w: C.Schedule)
    returns (content: array<bv8>)
    requires Reading(fs, file, data)
    requires file.pos == 0 && roundKey[..] == w && blocks == BlocksIn(|data|)
    modifies file`pos
    ensures fresh(content) && content[..] == EncryptBlocks(w, Padded(data), blocks)
  {
    hide *;
    content := new bv8[BLOCK * blocks];
    var i: nat := 0;
    NothingDone(w, Padded(data));
    while i < blocks
      modifies file`pos, content
      invariant i <= blocks && (i < blocks ==> file.pos == BLOCK * i)
      invariant Reading(fs, file, data) && roundKey[..] == w &&
        content[..BLOCK * i] == EncryptBlocks(w, Padded(data), i)
    {
      EncryptOne(fs, file, roundKey, content, i, data, w);
      i := i + 1;
    }
    assert content[..] == content[..BLOCK * blocks];
  }

  lemma RoomForOneMore(n: nat, m: nat)
    requires n <= m
    ensures BlocksFor(BLOCK * n) <= BlocksFor(BLOCK * m)
  {
  }

  /** The writing loop: the file becomes the blocks of the buffer, unless there are none. */
  method WriteBlocks(fs: FileSystem, file: OpenFile, content: Bytes, blocks: nat)
    requires fs.Valid() && fs.Opened(file) && file.pos == 0
    requires BLOCK * blocks == |content| <= MAX_DIRECT && fs.Room() >= BlocksFor(|content|)
    modifies fs`files, file`pos, fs.disk, fs.inodes, fs.blockBitmap, fs.inodeBitmap
    ensures fs.Valid() && fs.Opened(file) && file.pos == |content|
    ensures fs.files == if blocks == 0 then old(fs.files) else old(fs.files)[file.ino - 1 := content]
    ensures fs.inodes[file.ino - 1].key == old(fs.inodes[..][file.ino - 1].key)
    ensures fs.Room() + BlocksFor(|content|) >= old(fs.Room())
  {
    hide FileSystem.Valid;
    ghost var i, all, before, room := file.ino - 1, fs.files, fs.inodes[..], fs.Room();
    var n: nat := 0;
    while n < blocks
      invariant n <= blocks && file.pos == BLOCK * n
      invariant fs.Valid() && fs.Opened(file) && |before| == fs.inodes.Length
      invariant fs.files == if n == 0 then all else all[i := content[..BLOCK * n]]
      invariant fs.Room() + BlocksFor(BLOCK * n) >= room
      invariant fs.inodes[i].key == before[i].key
    {
      var part := content[BLOCK * n..BLOCK * (n + 1)];
      ghost var was := fs.files[i];
      RoomForOneMore(n, n + 1);
      RoomForOneMore(n + 1, blocks);
      fs.FileWrite(file, part);
      OverwrittenInside(was, BLOCK * n, part, fs.files[i]);
      assert content[..BLOCK * (n + 1)] == content[..BLOCK * n] + part;
      if n > 0 {
        assert was[..BLOCK * n] == was;
      }
      n := n + 1;
    }
    assert content[..BLOCK * n] == content;
  }

  /** `sys_encrypt`, with the random key as a parameter and a buffer that has room for the padding. */
  method SysEncrypt(fs: FileSystem, file: OpenFile, random: C.Block)
    requires fs.Valid() && fs.Opened(file) && file.pos == 0 && file.size == |fs.files[file.ino - 1]|
    requires BLOCK * BlocksIn(file.size) <= MAX_DIRECT && fs.Room() >= BlocksFor(BLOCK * BlocksIn(file.size))
    modifies fs`files, file`pos, fs.disk, fs.inodes, fs.blockBitmap, fs.inodeBitmap
    ensures fs.Valid() && fs.Opened(file)
    ensures fs.files == old(fs.files)[file.ino - 1 := CipherText(random, old(fs.files[file.ino - 1]))]
    ensures Enciphered(random, old(fs.files[file.ino - 1]), fs.files[file.ino - 1])
    ensures fs.inodes[file.ino - 1].key == random
    ensures fs.Room() + BlocksFor(BLOCK * BlocksIn(file.size)) >= old(fs.Room())
  {
    hide K.KeyExpansion, EncryptBlocks, Padded, FileSystem.Valid, Enciphered;
    ghost var data := fs.files[file.ino - 1];
    CipherTextIsEnciphered(random, data);
    var key, roundKey := new bv8[BLOCK](i requires 0 <= i < BLOCK => random[i]), new bv8[C.SCHED_SIZE];
    assert key[..] == random;
    Aes.DoKeyExpansion(roundKey, key);
    fs.SetKey(file, random);
    var blocks: nat := file.size / BLOCK + 1;
    var content := EncryptedContent(fs, file, roundKey, blocks, data, roundKey[..]);
    file.pos := 0;
    WriteBlocks(fs, file, content[..], blocks);
  }

  // ---------- decryption ----------

  lemma NextDecrypted(w: C.Schedule, s: Bytes, i: nat)
    requires BLOCK * (i + 1) <= |s|
    ensures DecryptBlocks(w, s, i + 1) == DecryptBlocks(w, s, i) + C.Decrypt(w, BlockAt(s, i))
  {
  }

  /** One turn of the reading loop of `sys_decrypt`. */
  method DecryptOne(fs: FileSystem, file: OpenFile, roundKey: array<bv8>, content: array<bv8>, i: nat,
      ghost data: Bytes, ghost w: C.Schedule)
    requires Reading(fs, file, data) && BLOCK * (i + 1) <= |data| && file.pos == BLOCK * i
    requires roundKey[..] == w && roundKey != content && content.Length >= BLOCK * (i + 1)
    requires content[..BLOCK * i] == DecryptBlocks(w, data, i)
    modifies file`pos, content
    ensures content[..BLOCK * (i + 1)] == DecryptBlocks(w, data, i + 1)
    ensures file.pos == BLOCK * (i + 1)
  {
    hide C.Decrypt, DecryptBlocks;
    NextDecrypted(w, data, i);
    var r := fs.FileRead(file, BLOCK);
    assert r == BlockAt(data, i);
    var input, output := new bv8[BLOCK](k requires 0 <= k < BLOCK => r[k]), new bv8[BLOCK];
    assert input[..] == r;
    Aes.BlockDecryption(roundKey, input, output);
    ghost var before := content[..];
    CopyInto(content, BLOCK * i, output[..]);
    SplicedPrefix(before, BLOCK * i, output[..]);
  }

  /** The reading loop of `sys_decrypt`. */
  method DecryptedContent(fs: FileSystem, file: OpenFile, roundKey: array<bv8>, blocks: nat, ghost data: Bytes,
      ghost w: C.Schedule)
    returns (content: array<bv8>)
    requires Reading(fs, file, data)
    requires file.pos == 0 && roundKey[..] == w && BLOCK * blocks <= |data|
    modifies file`pos
    ensures fresh(content) && content[..] == DecryptBlocks(w, data, blocks)
  {
    hide *;
    content := new bv8[BLOCK * blocks];
    var i: nat := 0;
    NothingDone(w, data);
    while i < blocks
      modifies file`pos, content
      invariant i <= blocks && file.pos == BLOCK * i
      invariant Reading(fs, file, data) && roundKey[..] == w && content[..BLOCK * i] == DecryptBlocks(w, data, i)
    {
      DecryptOne(fs, file, roundKey, content, i, data, w);
      i := i + 1;
    }
    assert content[..] == content[..content.Length];
  }

  /** The loop that counts the zeros at the end of the last block off. */
  method TrimmedLength(last: Bytes) returns (length: nat)
    requires |last| == BLOCK
    ensures length <= BLOCK && last[..length] == Trim(last)
  {
    length := BLOCK;
    assert last[..length] == last;
    while length > 0
      invariant length <= BLOCK && Trim(last[..length]) == Trim(last)
    {
      if last[length - 1] != 0 {
        break;
      }
      assert last[..length][..length - 1] == last[..length - 1];
      length := length - 1;
    }
  }

  /** The blocks the last write takes, after the writes before it. */
  lemma RoomToFinish(n: nat, size: nat, length: nat)
    requires length <= BLOCK && (n > 0 || size >= BLOCK)
    ensures BlocksFor(BLOCK * n) <= BlocksFor(BLOCK * (n + 1))
    ensures BlocksFor(BLOCK * n + length) <= BlocksFor(BLOCK * (n + 1))
    ensures n == 0 ==> BlocksTaken(BlocksFor(size), BlocksFor(length)) == 0
  {
  }

  /** The writing part of `sys_decrypt`: all blocks but the last, and what is left of that one. */
  method WritePlain(fs: FileSystem, file: OpenFile, plain: Bytes, blocks: nat)
    requires fs.Valid() && fs.Opened(file) && file.pos == 0 && blocks >= 1 && |plain| == BLOCK * blocks <= MAX_DIRECT
    requires |fs.files[file.ino - 1]| >= |plain| && fs.Room() >= BlocksFor(|plain|)
    modifies fs`files, file`pos, fs.disk, fs.inodes, fs.blockBitmap, fs.inodeBitmap
    ensures fs.Valid() && fs.Opened(file)
    ensures fs.files == old(fs.files)[file.ino - 1 :=
      plain[..BLOCK * (blocks - 1)] + Trim(plain[BLOCK * (blocks - 1)..])]
  {
    hide FileSystem.Valid, Trim;
    ghost var i := file.ino - 1;
    var at: nat := BLOCK * (blocks - 1);
    RoomToFinish(blocks - 1, |fs.files[i]|, 0);
    WriteBlocks(fs, file, plain[..at], blocks - 1);
    var last := plain[at..];
    var length := TrimmedLength(last);
    ghost var was := fs.files[i];
    RoomToFinish(blocks - 1, |was|, length);
    fs.FileWrite(file, last[..length]);
    OverwrittenInside(was, at, last[..length], fs.files[i]);
    assert at > 0 ==> was[..at] == was;
  }

  /** `sys_decrypt` of a file that has a block to decrypt. */
  method SysDecrypt(fs: FileSystem, file: OpenFile)
    requires fs.Valid() && fs.Opened(file) && file.pos == 0 && file.size == |fs.files[file.ino - 1]| >= BLOCK
    requires |fs.inodes[file.ino - 1].key| == BLOCK && file.size <= MAX_DIRECT && fs.Room() >= BlocksFor(file.size)
    modifies fs`files, file`pos, fs.disk, fs.inodes, fs.blockBitmap, fs.inodeBitmap
    ensures fs.Valid() && fs.Opened(file)
    ensures fs.files == old(fs.files)[file.ino - 1 :=
      PlainText(old(fs.inodes[file.ino - 1].key), old(fs.files[file.ino - 1]))]
    ensures Deciphered(old(fs.inodes[file.ino - 1].key), old(fs.files[file.ino - 1]), fs.files[file.ino - 1])
  {
    hide K.KeyExpansion, DecryptBlocks, FileSystem.Valid, Trim, Deciphered;
    ghost var i, data := file.ino - 1, fs.files[file.ino - 1];
    PlainTextIsDeciphered(fs.inodes[i].key, data);
    var stored := fs.GetKey(file);
    var key, roundKey := new bv8[BLOCK](k requires 0 <= k < BLOCK => stored[k]), new bv8[C.SCHED_SIZE];
    assert key[..] == stored;
    Aes.DoKeyExpansion(roundKey, key);
    var blocks: nat := file.size / BLOCK;
    var content := DecryptedContent(fs, file, roundKey, blocks, data, roundKey[..]);
    file.pos := 0;
    WritePlain(fs, file, content[..], blocks);
  }

  /** Both system calls, one after the other on freshly opened files: when they leave every file as it was. */
  method EncryptThenDecrypt(fs: FileSystem, ino: nat, size: nat, random: C.Block)
    requires fs.Valid() && 1 <= ino <= fs.inodes.Length && ino - 1 in fs.files && size == |fs.files[ino - 1]|
    requires BLOCK * BlocksIn(size) <= MAX_DIRECT && fs.Room() >= 2 * BlocksFor(BLOCK * BlocksIn(size))
    modifies fs`files, fs.disk, fs.inodes, fs.blockBitmap, fs.inodeBitmap
    ensures fs.Valid() && fs.files.Keys == old(fs.files.Keys)
    ensures forall i: nat :: i in fs.files && i != ino - 1 ==> fs.files[i] == old(fs.files)[i]
    ensures fs.files[ino - 1] == old(fs.files[ino - 1]) <==> size % BLOCK == 0 || old(fs.files[ino - 1])[size - 1] != 0
  {
    hide FileSystem.Valid, CipherText, PlainText, Enciphered, Deciphered;
    var file := new OpenFile(ino, size);
    SysEncrypt(fs, file, random);
    file := new OpenFile(ino, BLOCK * (size / BLOCK + 1));
    SysDecrypt(fs, file);
    RestoredWhen(random, old(fs.files[ino - 1]));
  }
}
