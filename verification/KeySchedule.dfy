/** The key schedule of section 5.2 of FIPS 197 for a 128-bit key, and what it says about the key. */
module KeySchedule {
  import opened GaloisField
  import opened MixMatrix
  import opened SubstitutionTables
  import opened Cipher

  const WORDS: nat := 44

  // Four bytes that are a word here are a column of the state elsewhere.

  function RotWord(w: Column): Column {
    Column(w.s1, w.s2, w.s3, w.s0)
  }

  function SubWord(w: Column): Column {
    Column(Sbox(w.s0), Sbox(w.s1), Sbox(w.s2), Sbox(w.s3))
  }

  function XorWord(v: Column, w: Column): Column {
    Column(Add(v.s0, w.s0), Add(v.s1, w.s1), Add(v.s2, w.s2), Add(v.s3, w.s3))
  }

  /** The round constant: a power of x in the first byte. */
  function RoundConstant(round: nat): Column
    requires round >= 1
  {
    Column(Power(1, round - 1), 0, 0, 0)
  }

  /** What word i - 1 contributes to word i. */
  function Contribution(previous: Column, i: nat): Column
    requires i >= 4
  {
    if i % 4 == 0 then XorWord(SubWord(RotWord(previous)), RoundConstant(i / 4)) else previous
  }

  /** Word i of the expanded key. */
  function Word(key: Block, i: nat): Column {
    if i < 4 then ColumnAt(key, i) else XorWord(Word(key, i - 4), Contribution(Word(key, i - 1), i))
  }

  /** Byte k of the expanded key. */
  function ScheduleByte(key: Block, k: nat): bv8 {
    ByteOf(Word(key, k / 4), k % 4)
  }

  function KeyExpansion(key: Block): Schedule {
    seq(SCHED_SIZE, k requires 0 <= k < SCHED_SIZE => ScheduleByte(key, k))
  }

  lemma XorWordCancels(a: Column, b: Column)
    ensures XorWord(XorWord(a, b), b) == a
  {
    hide Add;
    AddTwice(a.s0, b.s0);
    AddTwice(a.s1, b.s1);
    AddTwice(a.s2, b.s2);
    AddTwice(a.s3, b.s3);
  }

  /** Four consecutive words determine every word before them. */
  lemma {:induction false} DeterminedBackwards(key: Block, key': Block, n: nat)
    requires forall i :: n <= i < n + 4 ==> Word(key, i) == Word(key', i)
    ensures forall i :: 0 <= i < n + 4 ==> Word(key, i) == Word(key', i)
    decreases n
  {
    hide XorWord, Contribution;
    if n == 0 {
    } else {
      var j := n + 3;
      XorWordCancels(Word(key, j - 4), Contribution(Word(key, j - 1), j));
      XorWordCancels(Word(key', j - 4), Contribution(Word(key', j - 1), j));
      assert Word(key, j) == XorWord(Word(key, j - 4), Contribution(Word(key, j - 1), j));
      assert Word(key', j) == XorWord(Word(key', j - 4), Contribution(Word(key', j - 1), j));
      assert Word(key, n - 1) == Word(key', n - 1);
      DeterminedBackwards(key, key', n - 1);
    }
  }

  lemma FirstWord(key: Block, i: nat)
    requires i < 4
    ensures Word(key, i) == ColumnAt(key, i)
  {
  }

  lemma LastWord(key: Block, i: nat)
    requires 40 <= i < WORDS
    ensures Word(key, i) == ColumnAt(RoundKey(KeyExpansion(key), ROUNDS), i - 40)
  {
    hide Word;
    var k := 4 * i;
    assert k / 4 == (k + 1) / 4 == (k + 2) / 4 == (k + 3) / 4 == i;
    assert k % 4 == 0 && (k + 1) % 4 == 1 && (k + 2) % 4 == 2 && (k + 3) % 4 == 3;
    var last := RoundKey(KeyExpansion(key), ROUNDS);
    forall b | 0 <= b < BLOCK
      ensures last[b] == ScheduleByte(key, 160 + b)
    {
    }
  }

  /** The last round key determines the key. */
  lemma LastRoundKeyDeterminesKey(key: Block, key': Block)
    requires RoundKey(KeyExpansion(key), ROUNDS) == RoundKey(KeyExpansion(key'), ROUNDS)
    ensures key == key'
  {
    hide Word;
    forall i | 40 <= i < 44
      ensures Word(key, i) == Word(key', i)
    {
      LastWord(key, i);
      LastWord(key', i);
    }
    DeterminedBackwards(key, key', 40);
    forall c | 0 <= c < 4
      ensures ColumnAt(key, c) == ColumnAt(key', c)
    {
      FirstWord(key, c);
      FirstWord(key', c);
    }
    SameColumns(key, key');
  }

  /** The first round key is the key itself. */
  lemma FirstRoundKeyIsKey(key: Block)
    ensures RoundKey(KeyExpansion(key), 0) == key
  {
    hide Word;
    var first := RoundKey(KeyExpansion(key), 0);
    forall c | 0 <= c < 4
      ensures ColumnAt(first, c) == ColumnAt(key, c)
    {
      FirstWord(key, c);
      var k := 4 * c;
      assert k / 4 == (k + 1) / 4 == (k + 2) / 4 == (k + 3) / 4 == c;
      assert k % 4 == 0 && (k + 1) % 4 == 1 && (k + 2) % 4 == 2 && (k + 3) % 4 == 3;
      assert forall b :: 0 <= b < BLOCK ==> first[b] == ScheduleByte(key, b);
    }
    SameColumns(first, key);
  }

  // ---------- the expanded key, byte by byte ----------

  /**
   Byte r of word i is that of word i - 4 added to that of word i - 1, or for every fourth word to the substitute of the
   next byte of word i - 1, with a power of x added to the first.
   */
  predicate ByteExpanded(w: seq<bv8>, i: nat, r: nat)
    requires |w| == 176 && 4 <= i < 44 && r < 4
  {
    w[4 * i + r] == Add(w[4 * (i - 4) + r],
      if i % 4 != 0 then w[4 * (i - 1) + r]
      else Add(Sbox(w[4 * (i - 1) + (r + 1) % 4]), if r == 0 then Power(1, i / 4 - 1) else 0))
  }

  /** An expanded key: the key itself and the words behind it. */
  ghost predicate Expanded(w: seq<bv8>, key: seq<bv8>) {
    && |w| == 176 && |key| == 16 && w[..16] == key
    && forall i: nat, r: nat :: 4 <= i < 44 && r < 4 ==> ByteExpanded(w, i, r)
  }

  lemma ScheduleBytes(key: Block, w: Schedule, i: nat, r: nat)
    requires w == KeyExpansion(key) && i < WORDS && r < 4
    ensures w[4 * i + r] == ByteOf(Word(key, i), r)
  {
    hide Word;
    assert (4 * i + r) / 4 == i && (4 * i + r) % 4 == r;
  }

  lemma XorByte(v: Column, w: Column, r: nat)
    requires r < 4
    ensures ByteOf(XorWord(v, w), r) == Add(ByteOf(v, r), ByteOf(w, r))
  {
    hide Add;
  }

  lemma ContributedByte(previous: Column, i: nat, r: nat)
    requires i >= 4 && r < 4
    ensures ByteOf(Contribution(previous, i), r) ==
      if i % 4 != 0 then ByteOf(previous, r)
      else Add(Sbox(ByteOf(previous, (r + 1) % 4)), if r == 0 then Power(1, i / 4 - 1) else 0)
  {
    hide Sbox, Power, XorWord, Add;
    if i % 4 == 0 {
      XorByte(SubWord(RotWord(previous)), RoundConstant(i / 4), r);
    }
  }

  lemma WordByte(key: Block, i: nat, r: nat)
    requires i >= 4 && r < 4
    ensures ByteOf(Word(key, i), r) == Add(ByteOf(Word(key, i - 4), r), ByteOf(Contribution(Word(key, i - 1), i), r))
  {
    hide Contribution, XorWord, Add;
    XorByte(Word(key, i - 4), Contribution(Word(key, i - 1), i), r);
  }

  /** A schedule has these words around byte r of word i. */
  predicate WordsAre(w: Schedule, i: nat, r: nat, before: bv8, previous: Column)
    requires 4 <= i < 44 && r < 4
  {
    && w[4 * i + r] == Add(before, ByteOf(Contribution(previous, i), r)) && w[4 * (i - 4) + r] == before
    && w[4 * (i - 1) + r] == ByteOf(previous, r)
    && w[4 * (i - 1) + (r + 1) % 4] == ByteOf(previous, (r + 1) % 4)
  }

  lemma ByteFromWords(w: Schedule, i: nat, r: nat, before: bv8, previous: Column)
    requires 4 <= i < WORDS && r < 4 && WordsAre(w, i, r, before, previous)
    ensures ByteExpanded(w, i, r)
  {
    hide Contribution, Sbox, Power, ByteOf, Add;
    ContributedByte(previous, i, r);
  }

  lemma ScheduleWords(key: Block, w: Schedule, i: nat, r: nat)
    requires w == KeyExpansion(key) && 4 <= i < WORDS && r < 4
    ensures WordsAre(w, i, r, ByteOf(Word(key, i - 4), r), Word(key, i - 1))
  {
    hide Word, KeyExpansion, Contribution, ByteOf, Add;
    ScheduleBytes(key, w, i, r);
    ScheduleBytes(key, w, i - 4, r);
    ScheduleBytes(key, w, i - 1, r);
    ScheduleBytes(key, w, i - 1, (r + 1) % 4);
    WordByte(key, i, r);
  }

  lemma KeyExpansionIsFips(key: Block)
    ensures Expanded(KeyExpansion(key), key)
  {
    var w := KeyExpansion(key);
    FirstRoundKeyIsKey(key);
    assert w[..16] == RoundKey(w, 0);
    hide KeyExpansion, ByteExpanded, RoundKey, WordsAre, Word, ByteOf;
    forall i: nat, r: nat | 4 <= i < 44 && r < 4
      ensures ByteExpanded(w, i, r)
    {
      ScheduleWords(key, w, i, r);
      ByteFromWords(w, i, r, ByteOf(Word(key, i - 4), r), Word(key, i - 1));
    }
  }

  /** The key of appendix A.1 of FIPS 197. */
  const A1_KEY: Block :=
    [0x2B, 0x7E, 0x15, 0x16, 0x28, 0xAE, 0xD2, 0xA6, 0xAB, 0xF7, 0x15, 0x88, 0x09, 0xCF, 0x4F, 0x3C]

  /** And the first words it expands to. */
  lemma AppendixA1()
    ensures Word(A1_KEY, 3) == Column(0x09, 0xCF, 0x4F, 0x3C) && Word(A1_KEY, 4) == Column(0xA0, 0xFA, 0xFE, 0x17)
    ensures Word(A1_KEY, 5) == Column(0x88, 0x54, 0x2C, 0xB1) && Word(A1_KEY, 6) == Column(0x23, 0xA3, 0x39, 0x39)
    ensures Word(A1_KEY, 7) == Column(0x2A, 0x6C, 0x76, 0x05)
  {
    FirstWord(A1_KEY, 0);
    FirstWord(A1_KEY, 1);
    FirstWord(A1_KEY, 2);
    FirstWord(A1_KEY, 3);
    assert Sbox(0xCF) == 0x8A && Sbox(0x4F) == 0x84 && Sbox(0x3C) == 0xEB && Sbox(0x09) == 0x01;
    assert Power(1, 0) == 1;
    hide Sbox, Power;
  }
}
