/** The two substitution tables of src/aes.c, row by row as they stand there. */
module SubstitutionTables {
  import opened GaloisField

  /** Entry i of a row of four, by the two low bits of i. */
  function PickFour(i: bv8, v0: bv8, v1: bv8, v2: bv8, v3: bv8): bv8 {
    if i & 2 == 0 then (if i & 1 == 0 then v0 else v1) else (if i & 1 == 0 then v2 else v3)
  }

  /** Entry i of a row of sixteen. */
  function Pick(i: bv8, v0: bv8, v1: bv8, v2: bv8, v3: bv8, v4: bv8, v5: bv8, v6: bv8, v7: bv8, v8: bv8, v9: bv8,
      v10: bv8, v11: bv8, v12: bv8, v13: bv8, v14: bv8, v15: bv8): bv8 {
    if i & 8 == 0 then
      if i & 4 == 0 then PickFour(i, v0, v1, v2, v3) else PickFour(i, v4, v5, v6, v7)
    else
      if i & 4 == 0 then PickFour(i, v8, v9, v10, v11) else PickFour(i, v12, v13, v14, v15)
  }

  /** `aes_sbox[x]` */
  function Sbox(x: bv8): bv8 {
    var hi, lo := x >> 4, x & 0xF;
    Pick(hi,
      Pick(lo, 0x63, 0x7C, 0x77, 0x7B, 0xF2, 0x6B, 0x6F, 0xC5, 0x30, 0x01, 0x67, 0x2B, 0xFE, 0xD7, 0xAB, 0x76),
      Pick(lo, 0xCA, 0x82, 0xC9, 0x7D, 0xFA, 0x59, 0x47, 0xF0, 0xAD, 0xD4, 0xA2, 0xAF, 0x9C, 0xA4, 0x72, 0xC0),
      Pick(lo, 0xB7, 0xFD, 0x93, 0x26, 0x36, 0x3F, 0xF7, 0xCC, 0x34, 0xA5, 0xE5, 0xF1, 0x71, 0xD8, 0x31, 0x15),
      Pick(lo, 0x04, 0xC7, 0x23, 0xC3, 0x18, 0x96, 0x05, 0x9A, 0x07, 0x12, 0x80, 0xE2, 0xEB, 0x27, 0xB2, 0x75),
      Pick(lo, 0x09, 0x83, 0x2C, 0x1A, 0x1B, 0x6E, 0x5A, 0xA0, 0x52, 0x3B, 0xD6, 0xB3, 0x29, 0xE3, 0x2F, 0x84),
      Pick(lo, 0x53, 0xD1, 0x00, 0xED, 0x20, 0xFC, 0xB1, 0x5B, 0x6A, 0xCB, 0xBE, 0x39, 0x4A, 0x4C, 0x58, 0xCF),
      Pick(lo, 0xD0, 0xEF, 0xAA, 0xFB, 0x43, 0x4D, 0x33, 0x85, 0x45, 0xF9, 0x02, 0x7F, 0x50, 0x3C, 0x9F, 0xA8),
      Pick(lo, 0x51, 0xA3, 0x40, 0x8F, 0x92, 0x9D, 0x38, 0xF5, 0xBC, 0xB6, 0xDA, 0x21, 0x10, 0xFF, 0xF3, 0xD2),
      Pick(lo, 0xCD, 0x0C, 0x13, 0xEC, 0x5F, 0x97, 0x44, 0x17, 0xC4, 0xA7, 0x7E, 0x3D, 0x64, 0x5D, 0x19, 0x73),
      Pick(lo, 0x60, 0x81, 0x4F, 0xDC, 0x22, 0x2A, 0x90, 0x88, 0x46, 0xEE, 0xB8, 0x14, 0xDE, 0x5E, 0x0B, 0xDB),
      Pick(lo, 0xE0, 0x32, 0x3A, 0x0A, 0x49, 0x06, 0x24, 0x5C, 0xC2, 0xD3, 0xAC, 0x62, 0x91, 0x95, 0xE4, 0x79),
      Pick(lo, 0xE7, 0xC8, 0x37, 0x6D, 0x8D, 0xD5, 0x4E, 0xA9, 0x6C, 0x56, 0xF4, 0xEA, 0x65, 0x7A, 0xAE, 0x08),
      Pick(lo, 0xBA, 0x78, 0x25, 0x2E, 0x1C, 0xA6, 0xB4, 0xC6, 0xE8, 0xDD, 0x74, 0x1F, 0x4B, 0xBD, 0x8B, 0x8A),
      Pick(lo, 0x70, 0x3E, 0xB5, 0x66, 0x48, 0x03, 0xF6, 0x0E, 0x61, 0x35, 0x57, 0xB9, 0x86, 0xC1, 0x1D, 0x9E),
      Pick(lo, 0xE1, 0xF8, 0x98, 0x11, 0x69, 0xD9, 0x8E, 0x94, 0x9B, 0x1E, 0x87, 0xE9, 0xCE, 0x55, 0x28, 0xDF),
      Pick(lo, 0x8C, 0xA1, 0x89, 0x0D, 0xBF, 0xE6, 0x42, 0x68, 0x41, 0x99, 0x2D, 0x0F, 0xB0, 0x54, 0xBB, 0x16))
  }

  /** `aes_invsbox[x]` */
  function InvSbox(x: bv8): bv8 {
    var hi, lo := x >> 4, x & 0xF;
    Pick(hi,
      Pick(lo, 0x52, 0x09, 0x6A, 0xD5, 0x30, 0x36, 0xA5, 0x38, 0xBF, 0x40, 0xA3, 0x9E, 0x81, 0xF3, 0xD7, 0xFB),
      Pick(lo, 0x7C, 0xE3, 0x39, 0x82, 0x9B, 0x2F, 0xFF, 0x87, 0x34, 0x8E, 0x43, 0x44, 0xC4, 0xDE, 0xE9, 0xCB),
      Pick(lo, 0x54, 0x7B, 0x94, 0x32, 0xA6, 0xC2, 0x23, 0x3D, 0xEE, 0x4C, 0x95, 0x0B, 0x42, 0xFA, 0xC3, 0x4E),
      Pick(lo, 0x08, 0x2E, 0xA1, 0x66, 0x28, 0xD9, 0x24, 0xB2, 0x76, 0x5B, 0xA2, 0x49, 0x6D, 0x8B, 0xD1, 0x25),
      Pick(lo, 0x72, 0xF8, 0xF6, 0x64, 0x86, 0x68, 0x98, 0x16, 0xD4, 0xA4, 0x5C, 0xCC, 0x5D, 0x65, 0xB6, 0x92),
      Pick(lo, 0x6C, 0x70, 0x48, 0x50, 0xFD, 0xED, 0xB9, 0xDA, 0x5E, 0x15, 0x46, 0x57, 0xA7, 0x8D, 0x9D, 0x84),
      Pick(lo, 0x90, 0xD8, 0xAB, 0x00, 0x8C, 0xBC, 0xD3, 0x0A, 0xF7, 0xE4, 0x58, 0x05, 0xB8, 0xB3, 0x45, 0x06),
      Pick(lo, 0xD0, 0x2C, 0x1E, 0x8F, 0xCA, 0x3F, 0x0F, 0x02, 0xC1, 0xAF, 0xBD, 0x03, 0x01, 0x13, 0x8A, 0x6B),
      Pick(lo, 0x3A, 0x91, 0x11, 0x41, 0x4F, 0x67, 0xDC, 0xEA, 0x97, 0xF2, 0xCF, 0xCE, 0xF0, 0xB4, 0xE6, 0x73),
      Pick(lo, 0x96, 0xAC, 0x74, 0x22, 0xE7, 0xAD, 0x35, 0x85, 0xE2, 0xF9, 0x37, 0xE8, 0x1C, 0x75, 0xDF, 0x6E),
      Pick(lo, 0x47, 0xF1, 0x1A, 0x71, 0x1D, 0x29, 0xC5, 0x89, 0x6F, 0xB7, 0x62, 0x0E, 0xAA, 0x18, 0xBE, 0x1B),
      Pick(lo, 0xFC, 0x56, 0x3E, 0x4B, 0xC6, 0xD2, 0x79, 0x20, 0x9A, 0xDB, 0xC0, 0xFE, 0x78, 0xCD, 0x5A, 0xF4),
      Pick(lo, 0x1F, 0xDD, 0xA8, 0x33, 0x88, 0x07, 0xC7, 0x31, 0xB1, 0x12, 0x10, 0x59, 0x27, 0x80, 0xEC, 0x5F),
      Pick(lo, 0x60, 0x51, 0x7F, 0xA9, 0x19, 0xB5, 0x4A, 0x0D, 0x2D, 0xE5, 0x7A, 0x9F, 0x93, 0xC9, 0x9C, 0xEF),
      Pick(lo, 0xA0, 0xE0, 0x3B, 0x4D, 0xAE, 0x2A, 0xF5, 0xB0, 0xC8, 0xEB, 0xBB, 0x3C, 0x83, 0x53, 0x99, 0x61),
      Pick(lo, 0x17, 0x2B, 0x04, 0x7E, 0xBA, 0x77, 0xD6, 0x26, 0xE1, 0x69, 0x14, 0x63, 0x55, 0x21, 0x0C, 0x7D))
  }

  lemma InvSboxAfterFirst(x: bv8)
    requires x & 0xC0 == 0x00
    ensures InvSbox(Sbox(x)) == x
  {
  }

  lemma InvSboxAfterSecond(x: bv8)
    requires x & 0xC0 == 0x40
    ensures InvSbox(Sbox(x)) == x
  {
  }

  lemma InvSboxAfterThird(x: bv8)
    requires x & 0xC0 == 0x80
    ensures InvSbox(Sbox(x)) == x
  {
  }

  lemma InvSboxAfterFourth(x: bv8)
    requires x & 0xC0 == 0xC0
    ensures InvSbox(Sbox(x)) == x
  {
  }

  /** The tables are inverse to each other. */
  lemma InvSboxAfter(x: bv8)
    ensures InvSbox(Sbox(x)) == x
  {
    hide Sbox, InvSbox;
    if x & 0xC0 == 0x00 {
      InvSboxAfterFirst(x);
    } else if x & 0xC0 == 0x40 {
      InvSboxAfterSecond(x);
    } else if x & 0xC0 == 0x80 {
      InvSboxAfterThird(x);
    } else {
      InvSboxAfterFourth(x);
    }
  }

  lemma InvSboxBeforeFirst(x: bv8)
    requires x & 0xC0 == 0x00
    ensures Sbox(InvSbox(x)) == x
  {
  }

  lemma InvSboxBeforeSecond(x: bv8)
    requires x & 0xC0 == 0x40
    ensures Sbox(InvSbox(x)) == x
  {
  }

  lemma InvSboxBeforeThird(x: bv8)
    requires x & 0xC0 == 0x80
    ensures Sbox(InvSbox(x)) == x
  {
  }

  lemma InvSboxBeforeFourth(x: bv8)
    requires x & 0xC0 == 0xC0
    ensures Sbox(InvSbox(x)) == x
  {
  }

  lemma InvSboxBefore(x: bv8)
    ensures Sbox(InvSbox(x)) == x
  {
    hide Sbox, InvSbox;
    if x & 0xC0 == 0x00 {
      InvSboxBeforeFirst(x);
    } else if x & 0xC0 == 0x40 {
      InvSboxBeforeSecond(x);
    } else if x & 0xC0 == 0x80 {
      InvSboxBeforeThird(x);
    } else {
      InvSboxBeforeFourth(x);
    }
  }

  // ---------- the definition of section 5.1.1 of FIPS 197 ----------

  /**
   b rotated left by one, three and six places and added up, and 5: the inverse of the affine map of section 5.1.1.
   */
  function UndoAffine(b: bv8): bv8 {
    ((b << 1) | (b >> 7)) ^ ((b << 3) | (b >> 5)) ^ ((b << 6) | (b >> 2)) ^ 0x05
  }

  /** The affine map: b added to itself rotated left by one to four places, and 0x63. */
  function Affine(b: bv8): bv8 {
    b ^ ((b << 1) | (b >> 7)) ^ ((b << 2) | (b >> 6)) ^ ((b << 3) | (b >> 5)) ^ ((b << 4) | (b >> 4)) ^ 0x63
  }

  lemma AffineInvertible(b: bv8)
    ensures Affine(UndoAffine(b)) == b && UndoAffine(Affine(b)) == b
  {
  }

  // Each quarter of the table is checked by itself.

  lemma FirstQuarter(x: bv8)
    requires x & 0xC0 == 0x00 && x != 0
    ensures LongMul(UndoAffine(Sbox(x)), x) == 1
  {
  }

  lemma SecondQuarter(x: bv8)
    requires x & 0xC0 == 0x40
    ensures LongMul(UndoAffine(Sbox(x)), x) == 1
  {
  }

  lemma ThirdQuarter(x: bv8)
    requires x & 0xC0 == 0x80
    ensures LongMul(UndoAffine(Sbox(x)), x) == 1
  {
  }

  lemma FourthQuarter(x: bv8)
    requires x & 0xC0 == 0xC0
    ensures LongMul(UndoAffine(Sbox(x)), x) == 1
  {
  }

  lemma SboxOfZero()
    ensures UndoAffine(Sbox(0)) == 0
  {
  }

  lemma Quarters(x: bv8)
    requires x != 0
    ensures LongMul(UndoAffine(Sbox(x)), x) == 1
  {
    hide LongMul, UndoAffine, Sbox;
    if x & 0xC0 == 0x00 {
      FirstQuarter(x);
    } else if x & 0xC0 == 0x40 {
      SecondQuarter(x);
    } else if x & 0xC0 == 0x80 {
      ThirdQuarter(x);
    } else {
      FourthQuarter(x);
    }
  }

  /**
   `aes_sbox` is the table the standard defines: the affine map after the inverse in the field, 0 being left as it is.
   */
  lemma SboxIsFips(x: bv8)
    ensures exists y :: Sbox(x) == Affine(y) && (if x == 0 then y == 0 else Mul(y, x) == 1)
  {
    hide LongMul, Mul, Affine, UndoAffine, Sbox;
    var y := UndoAffine(Sbox(x));
    AffineInvertible(Sbox(x));
    LongMulIsMul(y, x);
    if x == 0 {
      SboxOfZero();
    } else {
      Quarters(x);
    }
  }
}
