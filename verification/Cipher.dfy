/** The cipher, the inverse cipher and the key schedule of FIPS 197 for a 128-bit key, on values. */
module Cipher {
  import opened GaloisField
  import opened MixMatrix
  import opened SubstitutionTables

  const BLOCK: nat := 16
  const ROUNDS: nat := 10
  const SCHED_SIZE: nat := 176

  /** Sixteen bytes, column by column. */
  type Block = s: seq<bv8> | |s| == 16 witness seq(16, _ => 0)

  // ---------- the transformations of a state ----------

  function SubBytes(s: Block): Block {
    seq(BLOCK, i requires 0 <= i < BLOCK => Sbox(s[i]))
  }

  function InvSubBytes(s: Block): Block {
    seq(BLOCK, i requires 0 <= i < BLOCK => InvSbox(s[i]))
  }

  /** Byte r + 4c of the state is in row r and column c. Row r moves r columns to the left. */
  function LeftFrom(i: nat): (j: nat)
    requires i < BLOCK
    ensures j < BLOCK
  {
    i % 4 + 4 * ((i / 4 + i % 4) % 4)
  }

  function RightFrom(i: nat): (j: nat)
    requires i < BLOCK
    ensures j < BLOCK
  {
    i % 4 + 4 * ((i / 4 + 4 - i % 4) % 4)
  }

  function ShiftRows(s: Block): Block {
    seq(BLOCK, i requires 0 <= i < BLOCK => s[LeftFrom(i)])
  }

  function InvShiftRows(s: Block): Block {
    seq(BLOCK, i requires 0 <= i < BLOCK => s[RightFrom(i)])
  }

  function ColumnAt(s: Block, c: nat): Column
    requires c < 4
  {
    Column(s[4 * c], s[4 * c + 1], s[4 * c + 2], s[4 * c + 3])
  }

  function ByteOf(c: Column, r: nat): bv8
    requires r < 4
  {
    if r == 0 then c.s0 else if r == 1 then c.s1 else if r == 2 then c.s2 else c.s3
  }

  function MixColumns(s: Block): Block {
    seq(BLOCK, i requires 0 <= i < BLOCK => ByteOf(MixColumn(ColumnAt(s, i / 4)), i % 4))
  }

  function InvMixColumns(s: Block): Block {
    seq(BLOCK, i requires 0 <= i < BLOCK => ByteOf(InvMixColumn(ColumnAt(s, i / 4)), i % 4))
  }

  function AddRoundKey(s: Block, k: Block): Block {
    seq(BLOCK, i requires 0 <= i < BLOCK => Add(s[i], k[i]))
  }

  // ---------- cipher and inverse cipher ----------

  type Schedule = k: seq<bv8> | |k| == 176 witness seq(176, _ => 0)

  function RoundKey(w: Schedule, round: nat): Block
    requires round <= ROUNDS
  {
    w[round * BLOCK..(round + 1) * BLOCK]
  }

  /** Rounds 1 to n of the cipher (section 5.1). */
  function Forward(w: Schedule, s: Block, n: nat): Block
    requires n < ROUNDS
  {
    if n == 0 then s
    else AddRoundKey(MixColumns(ShiftRows(SubBytes(Forward(w, s, n - 1)))), RoundKey(w, n))
  }

  function Encrypt(w: Schedule, block: Block): Block {
    AddRoundKey(ShiftRows(SubBytes(Forward(w, AddRoundKey(block, RoundKey(w, 0)), ROUNDS - 1))), RoundKey(w, ROUNDS))
  }

  /** Rounds n down to 1 of the inverse cipher (section 5.3). */
  function Backward(w: Schedule, s: Block, n: nat): Block
    requires n < ROUNDS
    decreases n
  {
    if n == 0 then s
    else Backward(w, InvSubBytes(InvShiftRows(InvMixColumns(AddRoundKey(s, RoundKey(w, n))))), n - 1)
  }

  function Decrypt(w: Schedule, block: Block): Block {
    AddRoundKey(Backward(w, InvSubBytes(InvShiftRows(AddRoundKey(block, RoundKey(w, ROUNDS)))), ROUNDS - 1),
        RoundKey(w, 0))
  }

  // ---------- each transformation is undone by its inverse ----------

  lemma SubBytesInverse(s: Block)
    ensures InvSubBytes(SubBytes(s)) == s && SubBytes(InvSubBytes(s)) == s
  {
    hide Sbox, InvSbox;
    forall i | 0 <= i < BLOCK
      ensures InvSbox(Sbox(s[i])) == s[i] && Sbox(InvSbox(s[i])) == s[i]
    {
      InvSboxAfter(s[i]);
      InvSboxBefore(s[i]);
    }
  }

  /** Where the byte in row r and column c comes from. */
  lemma ShiftsAt(r: nat, c: nat)
    requires r < 4 && c < 4
    ensures LeftFrom(r + 4 * c) == r + 4 * ((c + r) % 4) && RightFrom(r + 4 * c) == r + 4 * ((c + 4 - r) % 4)
  {
    assert (r + 4 * c) % 4 == r && (r + 4 * c) / 4 == c;
  }

  lemma ThereAndBack(r: nat, c: nat)
    requires r < 4 && c < 4
    ensures ((c + r) % 4 + 4 - r) % 4 == c && ((c + 4 - r) % 4 + r) % 4 == c
  {
  }

  lemma ShiftsInverse(i: nat)
    requires i < BLOCK
    ensures LeftFrom(RightFrom(i)) == i && RightFrom(LeftFrom(i)) == i
  {
    hide LeftFrom, RightFrom;
    var r, c := i % 4, i / 4;
    ShiftsAt(r, c);
    ShiftsAt(r, (c + r) % 4);
    ShiftsAt(r, (c + 4 - r) % 4);
    ThereAndBack(r, c);
  }

  lemma ShiftRowsInverse(s: Block)
    ensures InvShiftRows(ShiftRows(s)) == s && ShiftRows(InvShiftRows(s)) == s
  {
    hide LeftFrom, RightFrom;
    forall i | 0 <= i < BLOCK
      ensures InvShiftRows(ShiftRows(s))[i] == s[i] && ShiftRows(InvShiftRows(s))[i] == s[i]
    {
      ShiftsInverse(i);
    }
  }

  lemma ColumnsOfMix(s: Block, c: nat)
    requires c < 4
    ensures ColumnAt(MixColumns(s), c) == MixColumn(ColumnAt(s, c))
    ensures ColumnAt(InvMixColumns(s), c) == InvMixColumn(ColumnAt(s, c))
  {
    hide MixColumn, InvMixColumn;
    assert 4 * c / 4 == (4 * c + 1) / 4 == (4 * c + 2) / 4 == (4 * c + 3) / 4 == c;
    assert 4 * c % 4 == 0 && (4 * c + 1) % 4 == 1 && (4 * c + 2) % 4 == 2 && (4 * c + 3) % 4 == 3;
  }

  lemma SameColumns(s: Block, t: Block)
    requires forall c :: 0 <= c < 4 ==> ColumnAt(s, c) == ColumnAt(t, c)
    ensures s == t
  {
    forall i | 0 <= i < BLOCK
      ensures s[i] == t[i]
    {
      assert ColumnAt(s, i / 4) == ColumnAt(t, i / 4);
    }
  }

  lemma MixColumnsInverse(s: Block)
    ensures InvMixColumns(MixColumns(s)) == s && MixColumns(InvMixColumns(s)) == s
  {
    hide MixColumn, InvMixColumn, MixColumns, InvMixColumns, ColumnAt;
    forall c | 0 <= c < 4
      ensures ColumnAt(InvMixColumns(MixColumns(s)), c) == ColumnAt(s, c)
      ensures ColumnAt(MixColumns(InvMixColumns(s)), c) == ColumnAt(s, c)
    {
      ColumnsOfMix(s, c);
      ColumnsOfMix(MixColumns(s), c);
      ColumnsOfMix(InvMixColumns(s), c);
      InverseAfter(ColumnAt(s, c));
      InverseBefore(ColumnAt(s, c));
    }
    SameColumns(InvMixColumns(MixColumns(s)), s);
    SameColumns(MixColumns(InvMixColumns(s)), s);
  }

  lemma AddRoundKeyInverse(s: Block, k: Block)
    ensures AddRoundKey(AddRoundKey(s, k), k) == s
  {
    hide Add;
    forall i | 0 <= i < BLOCK
      ensures Add(Add(s[i], k[i]), k[i]) == s[i]
    {
      AddTwice(s[i], k[i]);
    }
  }

  // ---------- decryption and encryption are inverse ----------

  lemma {:induction false} BackwardAfterForward(w: Schedule, s: Block, n: nat)
    requires n < ROUNDS
    ensures Backward(w, Forward(w, s, n), n) == s
    decreases n
  {
    hide SubBytes, InvSubBytes, ShiftRows, InvShiftRows, MixColumns, InvMixColumns, AddRoundKey, RoundKey;
    if n == 0 {
    } else {
      var before := Forward(w, s, n - 1);
      AddRoundKeyInverse(MixColumns(ShiftRows(SubBytes(before))), RoundKey(w, n));
      MixColumnsInverse(ShiftRows(SubBytes(before)));
      ShiftRowsInverse(SubBytes(before));
      SubBytesInverse(before);
      BackwardAfterForward(w, s, n - 1);
    }
  }

  lemma {:induction false} ForwardAfterBackward(w: Schedule, s: Block, n: nat)
    requires n < ROUNDS
    ensures Forward(w, Backward(w, s, n), n) == s
    decreases n
  {
    hide SubBytes, InvSubBytes, ShiftRows, InvShiftRows, MixColumns, InvMixColumns, AddRoundKey, RoundKey;
    if n == 0 {
    } else {
      var k := RoundKey(w, n);
      var unkeyed := AddRoundKey(s, k);
      var before := InvSubBytes(InvShiftRows(InvMixColumns(unkeyed)));
      ForwardAfterBackward(w, before, n - 1);
      SubBytesInverse(InvShiftRows(InvMixColumns(unkeyed)));
      ShiftRowsInverse(InvMixColumns(unkeyed));
      MixColumnsInverse(unkeyed);
      AddRoundKeyInverse(s, k);
    }
  }

  /** Decryption undoes encryption, for every schedule and every block. */
  lemma DecryptAfterEncrypt(w: Schedule, block: Block)
    ensures Decrypt(w, Encrypt(w, block)) == block
  {
    hide SubBytes, InvSubBytes, ShiftRows, InvShiftRows, AddRoundKey, RoundKey, Forward, Backward;
    var keyed := AddRoundKey(block, RoundKey(w, 0));
    var last := Forward(w, keyed, ROUNDS - 1);
    AddRoundKeyInverse(ShiftRows(SubBytes(last)), RoundKey(w, ROUNDS));
    ShiftRowsInverse(SubBytes(last));
    SubBytesInverse(last);
    BackwardAfterForward(w, keyed, ROUNDS - 1);
    AddRoundKeyInverse(block, RoundKey(w, 0));
  }

  /** Encryption undoes decryption: every block is the encryption of exactly one. */
  lemma EncryptAfterDecrypt(w: Schedule, block: Block)
    ensures Encrypt(w, Decrypt(w, block)) == block
  {
    hide SubBytes, InvSubBytes, ShiftRows, InvShiftRows, AddRoundKey, RoundKey, Forward, Backward;
    var unkeyed := AddRoundKey(block, RoundKey(w, ROUNDS));
    var s := InvSubBytes(InvShiftRows(unkeyed));
    AddRoundKeyInverse(Backward(w, s, ROUNDS - 1), RoundKey(w, 0));
    ForwardAfterBackward(w, s, ROUNDS - 1);
    SubBytesInverse(InvShiftRows(unkeyed));
    ShiftRowsInverse(unkeyed);
    AddRoundKeyInverse(block, RoundKey(w, ROUNDS));
  }

  // ---------- the cipher, byte by byte ----------

  /** Byte (r, c) of a state after substitution and row shift: row r comes from r columns further on. */
  function Substituted(s: seq<bv8>, r: nat, c: nat): bv8
    requires |s| == 16 && r < 4 && c < 4
  {
    Sbox(s[r + 4 * ((c + r) % 4)])
  }

  /** Column c of a round: equation 5.6 of section 5.1.3 on the substituted and shifted bytes, and the round key. */
  predicate ColumnEncrypted(s: seq<bv8>, after: seq<bv8>, key: seq<bv8>, c: nat)
    requires |s| == |after| == |key| == 16 && c < 4
  {
    var t0, t1 := Substituted(s, 0, c), Substituted(s, 1, c);
    var t2, t3 := Substituted(s, 2, c), Substituted(s, 3, c);
    && after[4 * c] == Add(Add4(Mul(t0, 2), Mul(t1, 3), t2, t3), key[4 * c])
    && after[4 * c + 1] == Add(Add4(t0, Mul(t1, 2), Mul(t2, 3), t3), key[4 * c + 1])
    && after[4 * c + 2] == Add(Add4(t0, t1, Mul(t2, 2), Mul(t3, 3)), key[4 * c + 2])
    && after[4 * c + 3] == Add(Add4(Mul(t0, 3), t1, t2, Mul(t3, 2)), key[4 * c + 3])
  }

  predicate RoundEncrypted(s: seq<bv8>, after: seq<bv8>, key: seq<bv8>) {
    |s| == |after| == |key| == 16 && forall c: nat :: c < 4 ==> ColumnEncrypted(s, after, key, c)
  }

  /** The cipher of section 5.1: key, nine rounds, and a last one without the mixing of columns. */
  predicate Encrypted(w: seq<bv8>, block: seq<bv8>, states: seq<seq<bv8>>, out: seq<bv8>) {
    && |w| == 176 && |block| == |out| == 16 && |states| == 10
    && (forall n: nat :: n < 10 ==> |states[n]| == 16)
    && (forall k: nat :: k < 16 ==> states[0][k] == Add(block[k], w[k]))
    && (forall n: nat :: 1 <= n < 10 ==> RoundEncrypted(states[n - 1], states[n], w[16 * n..16 * n + 16]))
    && (forall r: nat, c: nat {:trigger Substituted(states[9], r, c)} :: r < 4 && c < 4 ==>
        out[r + 4 * c] == Add(Substituted(states[9], r, c), w[160 + (r + 4 * c)]))
  }

  lemma SubstitutedByte(s: Block, r: nat, c: nat)
    requires r < 4 && c < 4
    ensures ShiftRows(SubBytes(s))[r + 4 * c] == Substituted(s, r, c)
  {
    hide Sbox, LeftFrom;
    ShiftsAt(r, c);
  }

  lemma MulOne(a: bv8)
    ensures Mul(a, 1) == a
  {
    Multipliers(a);
  }

  /** Equation 5.6 on a column of a state. */
  lemma MixedColumn(t: Block, c: nat)
    requires c < 4
    ensures var t0, t1, t2, t3 := t[4 * c], t[4 * c + 1], t[4 * c + 2], t[4 * c + 3];
      && MixColumns(t)[4 * c] == Add4(Mul(t0, 2), Mul(t1, 3), t2, t3)
      && MixColumns(t)[4 * c + 1] == Add4(t0, Mul(t1, 2), Mul(t2, 3), t3)
      && MixColumns(t)[4 * c + 2] == Add4(t0, t1, Mul(t2, 2), Mul(t3, 3))
      && MixColumns(t)[4 * c + 3] == Add4(Mul(t0, 3), t1, t2, Mul(t3, 2))
  {
    hide Add4, Mul, MixColumns;
    ColumnsOfMix(t, c);
    MulOne(t[4 * c]);
    MulOne(t[4 * c + 1]);
    MulOne(t[4 * c + 2]);
    MulOne(t[4 * c + 3]);
  }

  lemma SubstitutedColumn(s: Block, t: Block, c: nat)
    requires c < 4 && t == ShiftRows(SubBytes(s))
    ensures t[4 * c] == Substituted(s, 0, c) && t[4 * c + 1] == Substituted(s, 1, c)
    ensures t[4 * c + 2] == Substituted(s, 2, c) && t[4 * c + 3] == Substituted(s, 3, c)
  {
    hide SubBytes, ShiftRows, Substituted;
    SubstitutedByte(s, 0, c);
    SubstitutedByte(s, 1, c);
    SubstitutedByte(s, 2, c);
    SubstitutedByte(s, 3, c);
  }

  lemma KeyedByte(s: Block, key: Block, i: nat)
    requires i < BLOCK
    ensures AddRoundKey(s, key)[i] == Add(s[i], key[i])
  {
    hide Add;
  }

  lemma ColumnIsEncrypted(s: Block, t: Block, after: Block, key: Block, c: nat)
    requires c < 4 && t == ShiftRows(SubBytes(s)) && after == AddRoundKey(MixColumns(t), key)
    ensures ColumnEncrypted(s, after, key, c)
  {
    hide SubBytes, ShiftRows, Substituted, Add, Add4, Mul, MixColumns, AddRoundKey;
    SubstitutedColumn(s, t, c);
    MixedColumn(t, c);
    KeyedByte(MixColumns(t), key, 4 * c);
    KeyedByte(MixColumns(t), key, 4 * c + 1);
    KeyedByte(MixColumns(t), key, 4 * c + 2);
    KeyedByte(MixColumns(t), key, 4 * c + 3);
  }

  lemma RoundIsEncrypted(s: Block, key: Block)
    ensures RoundEncrypted(s, AddRoundKey(MixColumns(ShiftRows(SubBytes(s))), key), key)
  {
    var t := ShiftRows(SubBytes(s));
    var after := AddRoundKey(MixColumns(t), key);
    hide AddRoundKey, MixColumns, ShiftRows, SubBytes, ColumnEncrypted;
    forall c: nat | c < 4
      ensures ColumnEncrypted(s, after, key, c)
    {
      ColumnIsEncrypted(s, t, after, key, c);
    }
  }

  lemma LastRound(w: Schedule, s: Block)
    ensures forall r: nat, c: nat {:trigger Substituted(s, r, c)} :: r < 4 && c < 4 ==>
      AddRoundKey(ShiftRows(SubBytes(s)), RoundKey(w, ROUNDS))[r + 4 * c]
      == Add(Substituted(s, r, c), w[160 + (r + 4 * c)])
  {
    hide SubBytes, ShiftRows, Substituted, Add;
    forall r: nat, c: nat | r < 4 && c < 4
      ensures AddRoundKey(ShiftRows(SubBytes(s)), RoundKey(w, ROUNDS))[r + 4 * c]
        == Add(Substituted(s, r, c), w[160 + (r + 4 * c)])
    {
      SubstitutedByte(s, r, c);
    }
  }

  /** The states a block goes through. */
  lemma EncryptIsFips(w: Schedule, block: Block) returns (states: seq<Block>)
    ensures Encrypted(w, block, states, Encrypt(w, block))
  {
    var keyed := AddRoundKey(block, RoundKey(w, 0));
    states := seq(10, n requires 0 <= n < 10 => Forward(w, keyed, n));
    forall n: nat | 1 <= n < 10
      ensures RoundEncrypted(states[n - 1], states[n], w[16 * n..16 * n + 16])
    {
      assert w[16 * n..16 * n + 16] == RoundKey(w, n);
      RoundIsEncrypted(states[n - 1], RoundKey(w, n));
    }
    LastRound(w, states[9]);
  }
}
