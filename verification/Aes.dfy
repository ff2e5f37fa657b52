/** The routines of src/aes.c and src/include/aes.h, working in place, against the cipher on values. */
module Aes {
  import opened GaloisField
  import opened MixMatrix
  import opened SubstitutionTables
  import opened ColumnCode
  import opened Cipher
  import opened KeySchedule

  /** `sub_bytes` */
  method DoSubBytes(state: array<bv8>)
    requires state.Length == BLOCK
    modifies state
    ensures state[..] == SubBytes(old(state[..]))
  {
    hide Sbox;
    var i := 0;
    while i < BLOCK
      invariant 0 <= i <= BLOCK
      invariant forall k :: 0 <= k < BLOCK ==> state[k] == if k < i then Sbox(old(state[k])) else old(state[k])
    {
      state[i] := Sbox(state[i]);
      i := i + 1;
    }
  }

  /** `inv_sub_bytes` */
  method DoInvSubBytes(state: array<bv8>)
    requires state.Length == BLOCK
    modifies state
    ensures state[..] == InvSubBytes(old(state[..]))
  {
    hide InvSbox;
    var i := 0;
    while i < BLOCK
      invariant 0 <= i <= BLOCK
      invariant forall k :: 0 <= k < BLOCK ==> state[k] == if k < i then InvSbox(old(state[k])) else old(state[k])
    {
      state[i] := InvSbox(state[i]);
      i := i + 1;
    }
  }

  /** `add_round_key` */
  method DoAddRoundKey(state: array<bv8>, key: array<bv8>)
    requires state.Length == BLOCK && key.Length == BLOCK && state != key
    modifies state
    ensures state[..] == AddRoundKey(old(state[..]), key[..])
  {
    hide Add;
    var i := 0;
    while i < 4
      invariant 0 <= i <= 4
      invariant forall k :: 0 <= k < BLOCK ==>
        state[k] == if k % 4 < i then Add(old(state[k]), key[k]) else old(state[k])
    {
      state[i] := Add(state[i], key[i]);
      state[i + 4] := Add(state[i + 4], key[i + 4]);
      state[i + 8] := Add(state[i + 8], key[i + 8]);
      state[i + 12] := Add(state[i + 12], key[i + 12]);
      i := i + 1;
    }
  }

  function Rotated<T>(s: seq<T>, a: nat, b: nat, c: nat, d: nat): (r: seq<T>)
    requires a < |s| && b < |s| && c < |s| && d < |s|
    ensures |r| == |s|
  {
    s[a := s[b]][b := s[c]][c := s[d]][d := s[a]]
  }

  /** Four places moved round through one temporary: a gets b, b gets c, c gets d, d gets what a had. */
  method Rotate<T>(state: array<T>, a: nat, b: nat, c: nat, d: nat)
    requires a < state.Length && b < state.Length && c < state.Length && d < state.Length
    requires a != b && a != c && a != d && b != c && b != d && c != d
    modifies state
    ensures state[..] == Rotated(old(state[..]), a, b, c, d)
  {
    var temp := state[a];
    state[a] := state[b];
    state[b] := state[c];
    state[c] := state[d];
    state[d] := temp;
  }

  function Exchanged<T>(s: seq<T>, a: nat, b: nat): (r: seq<T>)
    requires a < |s| && b < |s|
    ensures |r| == |s|
  {
    s[a := s[b]][b := s[a]]
  }

  /** Two places exchanged. */
  method Exchange<T>(state: array<T>, a: nat, b: nat)
    requires a < state.Length && b < state.Length && a != b
    modifies state
    ensures state[..] == Exchanged(old(state[..]), a, b)
  {
    var temp := state[a];
    state[a] := state[b];
    state[b] := temp;
  }

  /** What the moves of `shift_rows` amount to. */
  lemma LeftMoves(s: Block)
    ensures Rotated(Exchanged(Exchanged(Rotated(s, 1, 5, 9, 13), 2, 10), 6, 14), 3, 15, 11, 7) ==
            [s[0], s[5], s[10], s[15], s[4], s[9], s[14], s[3], s[8], s[13], s[2], s[7], s[12], s[1], s[6], s[11]]
  {
  }

  /** What the moves of `inv_shift_rows` amount to. */
  lemma RightMoves(s: Block)
    ensures Rotated(Exchanged(Exchanged(Rotated(s, 13, 9, 5, 1), 14, 6), 10, 2), 7, 11, 15, 3) ==
            [s[0], s[13], s[10], s[7], s[4], s[1], s[14], s[11], s[8], s[5], s[2], s[15], s[12], s[9], s[6], s[3]]
  {
  }

  lemma LeftTable()
    ensures LeftFrom(0) == 0 && LeftFrom(1) == 5 && LeftFrom(2) == 10 && LeftFrom(3) == 15
    ensures LeftFrom(4) == 4 && LeftFrom(5) == 9 && LeftFrom(6) == 14 && LeftFrom(7) == 3
    ensures LeftFrom(8) == 8 && LeftFrom(9) == 13 && LeftFrom(10) == 2 && LeftFrom(11) == 7
    ensures LeftFrom(12) == 12 && LeftFrom(13) == 1 && LeftFrom(14) == 6 && LeftFrom(15) == 11
  {
  }

  lemma RightTable()
    ensures RightFrom(0) == 0 && RightFrom(1) == 13 && RightFrom(2) == 10 && RightFrom(3) == 7
    ensures RightFrom(4) == 4 && RightFrom(5) == 1 && RightFrom(6) == 14 && RightFrom(7) == 11
    ensures RightFrom(8) == 8 && RightFrom(9) == 5 && RightFrom(10) == 2 && RightFrom(11) == 15
    ensures RightFrom(12) == 12 && RightFrom(13) == 9 && RightFrom(14) == 6 && RightFrom(15) == 3
  {
  }

  /** The moves of the two routines, byte by byte. */
  lemma ShiftTable(s: Block, t: Block)
    ensures t == [s[0], s[5], s[10], s[15], s[4], s[9], s[14], s[3], s[8], s[13], s[2], s[7], s[12], s[1], s[6], s[11]]
      ==> t == ShiftRows(s)
    ensures t == [s[0], s[13], s[10], s[7], s[4], s[1], s[14], s[11], s[8], s[5], s[2], s[15], s[12], s[9], s[6], s[3]]
      ==> t == InvShiftRows(s)
  {
    hide LeftFrom, RightFrom;
    LeftTable();
    RightTable();
  }

  /** `shift_rows`, row by row */
  method DoShiftRows(state: array<bv8>)
    requires state.Length == BLOCK
    modifies state
    ensures state[..] == ShiftRows(old(state[..]))
  {
    hide LeftFrom, ShiftRows, InvShiftRows;
    ghost var s := state[..];
    Rotate(state, 1, 5, 9, 13);
    Exchange(state, 2, 10);
    Exchange(state, 6, 14);
    Rotate(state, 3, 15, 11, 7);
    LeftMoves(s);
    ShiftTable(s, state[..]);
  }

  /** `inv_shift_rows` */
  method DoInvShiftRows(state: array<bv8>)
    requires state.Length == BLOCK
    modifies state
    ensures state[..] == InvShiftRows(old(state[..]))
  {
    hide RightFrom, ShiftRows, InvShiftRows;
    ghost var s := state[..];
    Rotate(state, 13, 9, 5, 1);
    Exchange(state, 14, 6);
    Exchange(state, 10, 2);
    Rotate(state, 7, 11, 15, 3);
    RightMoves(s);
    ShiftTable(s, state[..]);
  }

  /** Storing a column of the state. */
  method StoreColumn(state: array<bv8>, c: nat, column: Column)
    requires state.Length == BLOCK && c < 4
    modifies state
    ensures forall k :: 0 <= k < BLOCK ==> state[k] == if k / 4 == c then ByteOf(column, k % 4) else old(state[k])
  {
    state[4 * c] := column.s0;
    state[4 * c + 1] := column.s1;
    state[4 * c + 2] := column.s2;
    state[4 * c + 3] := column.s3;
  }

  /** `mix_columns` as built with AES_FAST_CALC. */
  method DoMixColumns(state: array<bv8>)
    requires state.Length == BLOCK
    modifies state
    ensures state[..] == MixColumns(old(state[..]))
  {
    hide FastMix, MixColumn;
    var temp := state[..];
    var i := 0;
    while i < 4
      invariant 0 <= i <= 4
      invariant forall k :: 0 <= k < BLOCK ==>
        state[k] == if k / 4 < i then ByteOf(MixColumn(ColumnAt(temp, k / 4)), k % 4) else temp[k]
    {
      MixIsMatrix(ColumnAt(temp, i));
      StoreColumn(state, i, FastMix(ColumnAt(temp, i)));
      i := i + 1;
    }
  }

  /** `inv_mix_columns` as built with AES_FAST_CALC. */
  method DoInvMixColumns(state: array<bv8>)
    requires state.Length == BLOCK
    modifies state
    ensures state[..] == InvMixColumns(old(state[..]))
  {
    hide FastInvMix, InvMixColumn;
    var temp := state[..];
    var i := 0;
    while i < 4
      invariant 0 <= i <= 4
      invariant forall k :: 0 <= k < BLOCK ==>
        state[k] == if k / 4 < i then ByteOf(InvMixColumn(ColumnAt(temp, k / 4)), k % 4) else temp[k]
    {
      FastInvIsMatrix(ColumnAt(temp, i));
      StoreColumn(state, i, FastInvMix(ColumnAt(temp, i)));
      i := i + 1;
    }
  }

  /** `mix_columns` as built without AES_FAST_CALC. */
  method DoMixColumnsTableFree(state: array<bv8>)
    requires state.Length == BLOCK
    modifies state
    ensures state[..] == MixColumns(old(state[..]))
  {
    hide TableFreeMix, MixColumn;
    var temp := state[..];
    var i := 0;
    while i < 4
      invariant 0 <= i <= 4
      invariant forall k :: 0 <= k < BLOCK ==>
        state[k] == if k / 4 < i then ByteOf(MixColumn(ColumnAt(temp, k / 4)), k % 4) else temp[k]
    {
      MixIsMatrix(ColumnAt(temp, i));
      StoreColumn(state, i, TableFreeMix(ColumnAt(temp, i)));
      i := i + 1;
    }
  }

  /** `inv_mix_columns` as built without AES_FAST_CALC. */
  method DoInvMixColumnsTableFree(state: array<bv8>)
    requires state.Length == BLOCK
    modifies state
    ensures state[..] == InvMixColumns(old(state[..]))
  {
    hide TableFreeInvMix, InvMixColumn;
    var temp := state[..];
    var i := 0;
    while i < 4
      invariant 0 <= i <= 4
      invariant forall k :: 0 <= k < BLOCK ==>
        state[k] == if k / 4 < i then ByteOf(InvMixColumn(ColumnAt(temp, k / 4)), k % 4) else temp[k]
    {
      TableFreeInvIsMatrix(ColumnAt(temp, i));
      StoreColumn(state, i, TableFreeInvMix(ColumnAt(temp, i)));
      i := i + 1;
    }
  }

  /** The loops that fetch a round key, and that fetch and hand over a block. */
  method CopyBlock(src: array<bv8>, from: nat, dst: array<bv8>)
    requires from + BLOCK <= src.Length && dst.Length == BLOCK && src != dst
    modifies dst
    ensures dst[..] == src[from..from + BLOCK]
  {
    var i := 0;
    while i < BLOCK
      invariant 0 <= i <= BLOCK && forall k :: 0 <= k < i ==> dst[k] == src[from + k]
    {
      dst[i] := src[from + i];
      i := i + 1;
    }
  }

  /** Fetching the key of a round and adding it. */
  method AddKeyOfRound(state: array<bv8>, schedKey: array<bv8>, roundKey: array<bv8>, round: nat)
    requires state.Length == BLOCK && schedKey.Length == BLOCK && roundKey.Length == SCHED_SIZE && round <= ROUNDS
    requires state != schedKey && schedKey != roundKey && state != roundKey
    modifies state, schedKey
    ensures state[..] == AddRoundKey(old(state[..]), RoundKey(roundKey[..], round))
  {
    hide AddRoundKey;
    CopyBlock(roundKey, round * BLOCK, schedKey);
    assert schedKey[..] == RoundKey(roundKey[..], round);
    DoAddRoundKey(state, schedKey);
  }

  /** `aes_block_encryption` */
  method BlockEncryption(roundKey: array<bv8>, input: array<bv8>, output: array<bv8>)
    requires roundKey.Length == SCHED_SIZE && input.Length == BLOCK && output.Length == BLOCK && output != roundKey
    modifies output
    ensures output[..] == Encrypt(roundKey[..], old(input[..]))
    ensures exists states :: Encrypted(roundKey[..], old(input[..]), states, output[..])
  {
    hide SubBytes, ShiftRows, MixColumns, AddRoundKey, RoundKey, Encrypted;
    ghost var states := EncryptIsFips(roundKey[..], input[..]);
    var state := new bv8[BLOCK](_ => 0);
    var schedKey := new bv8[BLOCK](_ => 0);
    ghost var w := roundKey[..];
    CopyBlock(input, 0, state);
    assert state[..] == input[..];
    ghost var keyed := AddRoundKey(input[..], RoundKey(w, 0));
    AddKeyOfRound(state, schedKey, roundKey, 0);
    var i := 1;
    while i < ROUNDS
      invariant 1 <= i <= ROUNDS && roundKey[..] == w
      invariant state[..] == Forward(w, keyed, i - 1)
    {
      DoSubBytes(state);
      DoShiftRows(state);
      DoMixColumns(state);
      AddKeyOfRound(state, schedKey, roundKey, i);
      i := i + 1;
    }
    DoSubBytes(state);
    DoShiftRows(state);
    AddKeyOfRound(state, schedKey, roundKey, ROUNDS);
    CopyBlock(state, 0, output);
    assert output[..] == state[..];
  }

  /** `aes_block_decryption` */
  method BlockDecryption(roundKey: array<bv8>, input: array<bv8>, output: array<bv8>)
    requires roundKey.Length == SCHED_SIZE && input.Length == BLOCK && output.Length == BLOCK && output != roundKey
    modifies output
    ensures output[..] == Decrypt(roundKey[..], old(input[..]))
  {
    hide InvSubBytes, InvShiftRows, InvMixColumns, AddRoundKey, RoundKey;
    var state := new bv8[BLOCK](_ => 0);
    var schedKey := new bv8[BLOCK](_ => 0);
    ghost var w := roundKey[..];
    CopyBlock(input, 0, state);
    assert state[..] == input[..];
    AddKeyOfRound(state, schedKey, roundKey, ROUNDS);
    DoInvShiftRows(state);
    DoInvSubBytes(state);
    ghost var s := state[..];
    var i := ROUNDS - 1;
    while i > 0
      invariant 0 <= i < ROUNDS && roundKey[..] == w
      invariant Backward(w, state[..], i) == Backward(w, s, ROUNDS - 1)
    {
      AddKeyOfRound(state, schedKey, roundKey, i);
      DoInvMixColumns(state);
      DoInvShiftRows(state);
      DoInvSubBytes(state);
      i := i - 1;
    }
    AddKeyOfRound(state, schedKey, roundKey, 0);
    CopyBlock(state, 0, output);
    assert output[..] == state[..];
  }

  /** `Rcon`, as far as the key schedule of a 128-bit key looks. */
  function Rcon(i: nat): bv8
    requires 1 <= i <= ROUNDS
  {
    [0x01, 0x02, 0x04, 0x08, 0x10, 0x20, 0x40, 0x80, 0x1b, 0x36][i - 1]
  }

  /** The table holds the powers of x the standard asks for. */
  lemma RconIsPower(i: nat)
    requires 1 <= i <= ROUNDS
    ensures Rcon(i) == Power(1, i - 1)
  {
    assert Power(1, 0) == 0x01 && Power(1, 1) == 0x02 && Power(1, 2) == 0x04 && Power(1, 3) == 0x08;
    assert Power(1, 4) == 0x10 && Power(1, 5) == 0x20 && Power(1, 6) == 0x40 && Power(1, 7) == 0x80;
    assert Power(1, 8) == 0x1b && Power(1, 9) == 0x36;
  }

  /** Word i of a key schedule in memory. */
  function WordAt(roundKey: seq<bv8>, i: nat): Column
    requires 4 * i + 4 <= |roundKey|
  {
    Column(roundKey[4 * i], roundKey[4 * i + 1], roundKey[4 * i + 2], roundKey[4 * i + 3])
  }

  /** The update of `word` before it is added: what word i - 1 contributes to word i. */
  method NextContribution(previous: Column, i: nat) returns (word: Column)
    requires 4 <= i < WORDS
    ensures word == Contribution(previous, i)
    ensures i % 4 != 0 ==> word == previous
    ensures i % 4 == 0 ==> word.s0 == Add(Sbox(previous.s1), Power(1, i / 4 - 1)) && word.s1 == Sbox(previous.s2)
    ensures i % 4 == 0 ==> word.s2 == Sbox(previous.s3) && word.s3 == Sbox(previous.s0)
  {
    hide Add, Power, Rcon, Sbox;
    word := previous;
    if i % 4 == 0 {
      word := RotWord(word);
      word := SubWord(word);
      word := word.(s0 := Add(word.s0, Rcon(i / 4)));
      RconIsPower(i / 4);
      AddZero(word.s1);
      AddZero(word.s2);
      AddZero(word.s3);
    }
  }

  /** Writing one word of the schedule. */
  method StoreWord(roundKey: array<bv8>, i: nat, word: Column)
    requires 4 * i + 4 <= roundKey.Length
    modifies roundKey
    ensures WordAt(roundKey[..], i) == word
    ensures forall j :: 0 <= j && 4 * j + 4 <= roundKey.Length && j != i ==>
      WordAt(roundKey[..], j) == old(WordAt(roundKey[..], j))
  {
    roundKey[4 * i] := word.s0;
    roundKey[4 * i + 1] := word.s1;
    roundKey[4 * i + 2] := word.s2;
    roundKey[4 * i + 3] := word.s3;
  }

  lemma ScheduleOfWords(roundKey: Schedule, key: Block)
    requires forall j :: 0 <= j < WORDS ==> WordAt(roundKey, j) == Word(key, j)
    ensures roundKey == KeyExpansion(key)
  {
    hide Word;
    forall k | 0 <= k < SCHED_SIZE
      ensures roundKey[k] == ScheduleByte(key, k)
    {
      assert WordAt(roundKey, k / 4) == Word(key, k / 4);
    }
  }

  /** `key_expansion` */
  method DoKeyExpansion(roundKey: array<bv8>, key: array<bv8>)
    requires roundKey.Length == SCHED_SIZE && key.Length == BLOCK && roundKey != key
    modifies roundKey
    ensures roundKey[..] == KeyExpansion(key[..]) && Expanded(roundKey[..], key[..])
  {
    hide Add, Contribution, Expanded;
    ghost var k := key[..];
    var i := 0;
    while i < 4
      invariant 0 <= i <= 4 && key[..] == k
      invariant forall j :: 0 <= j < i ==> WordAt(roundKey[..], j) == Word(k, j)
    {
      StoreWord(roundKey, i, ColumnAt(key[..], i));
      i := i + 1;
    }
    while i < WORDS
      invariant 4 <= i <= WORDS && key[..] == k
      invariant forall j :: 0 <= j < i ==> WordAt(roundKey[..], j) == Word(k, j)
    {
      assert WordAt(roundKey[..], i - 1) == Word(k, i - 1) && WordAt(roundKey[..], i - 4) == Word(k, i - 4);
      var word := NextContribution(WordAt(roundKey[..], i - 1), i);
      StoreWord(roundKey, i, XorWord(WordAt(roundKey[..], i - 4), word));
      i := i + 1;
    }
    ScheduleOfWords(roundKey[..], k);
    KeyExpansionIsFips(k);
  }
}
