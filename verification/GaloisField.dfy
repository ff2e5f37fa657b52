/** Arithmetic in GF(2^8) as section 4 of FIPS 197 defines it, and as the macros of src/include/aes.h compute it. */
module GaloisField {

  // ---------- the field ----------

  /** Addition (section 4.1). */
  function Add(a: bv8, b: bv8): bv8 {
    a ^ b
  }

  /** Multiplication by x (section 4.2.1). */
  function Xtime(b: bv8): bv8 {
    (b << 1) ^ (if b & 0x80 != 0 then 0x1B else 0)
  }

  /** Multiplication by the n-th power of x. */
  function Power(a: bv8, n: nat): bv8
    decreases n
  {
    if n == 0 then a else Xtime(Power(a, n - 1))
  }

  /** Is x^n one of the terms of `b`? */
  predicate HasTerm(b: bv8, n: nat)
    requires n < 8
  {
    match n
    case 0 => b & 0x01 != 0
    case 1 => b & 0x02 != 0
    case 2 => b & 0x04 != 0
    case 3 => b & 0x08 != 0
    case 4 => b & 0x10 != 0
    case 5 => b & 0x20 != 0
    case 6 => b & 0x40 != 0
    case 7 => b & 0x80 != 0
  }

  /** The product of `a` with the n low terms of `b`. */
  function MulLow(a: bv8, b: bv8, n: nat): bv8
    requires n <= 8
    decreases n
  {
    if n == 0 then 0
    else if HasTerm(b, n - 1) then Add(MulLow(a, b, n - 1), Power(a, n - 1))
    else MulLow(a, b, n - 1)
  }

  /** Multiplication (section 4.2). */
  function Mul(a: bv8, b: bv8): bv8 {
    MulLow(a, b, 8)
  }

  // Laws of addition.

  lemma AddCommutes(a: bv8, b: bv8)
    ensures Add(a, b) == Add(b, a)
  {
  }

  lemma AddAssociates(a: bv8, b: bv8, c: bv8)
    ensures Add(Add(a, b), c) == Add(a, Add(b, c))
  {
  }

  lemma AddRegroup(a: bv8, b: bv8, c: bv8, d: bv8)
    ensures Add(Add(a, b), Add(c, d)) == Add(Add(a, c), Add(b, d))
  {
    hide Add;
    AddAssociates(a, b, Add(c, d));
    AddAssociates(b, c, d);
    AddCommutes(b, c);
    AddAssociates(c, b, d);
    AddAssociates(a, c, Add(b, d));
  }

  lemma AddZero(a: bv8)
    ensures Add(a, 0) == a && Add(0, a) == a && Add(a, a) == 0
  {
  }

  /** Adding twice is adding nothing. */
  lemma AddTwice(a: bv8, k: bv8)
    ensures Add(Add(a, k), k) == a
  {
  }

  // Linearity. The definitions of the operations are out of the way here.

  lemma XtimeLinear(a: bv8, b: bv8)
    ensures Xtime(Add(a, b)) == Add(Xtime(a), Xtime(b))
  {
    if a & 0x80 != 0 {
      if b & 0x80 != 0 {
      } else {
      }
    } else {
      if b & 0x80 != 0 {
      } else {
      }
    }
  }

  lemma {:induction false} PowerLinear(a: bv8, b: bv8, n: nat)
    ensures Power(Add(a, b), n) == Add(Power(a, n), Power(b, n))
    decreases n
  {
    hide Xtime, Add;
    if n == 0 {
    } else {
      PowerLinear(a, b, n - 1);
      XtimeLinear(Power(a, n - 1), Power(b, n - 1));
    }
  }

  lemma {:induction false} MulLowLinear(a: bv8, b: bv8, k: bv8, n: nat)
    requires n <= 8
    ensures MulLow(Add(a, b), k, n) == Add(MulLow(a, k, n), MulLow(b, k, n))
    decreases n
  {
    hide Power, Add, HasTerm;
    if n == 0 {
      AddZero(0);
    } else {
      MulLowLinear(a, b, k, n - 1);
      PowerLinear(a, b, n - 1);
      AddRegroup(MulLow(a, k, n - 1), MulLow(b, k, n - 1), Power(a, n - 1), Power(b, n - 1));
    }
  }

  /** Multiplication distributes over addition. */
  lemma MulLinear(a: bv8, b: bv8, k: bv8)
    ensures Mul(Add(a, b), k) == Add(Mul(a, k), Mul(b, k))
  {
    hide MulLow, Add;
    MulLowLinear(a, b, k, 8);
  }

  /** The multipliers of the two MixColumns matrices, as sums of powers of x. */
  lemma Multipliers(a: bv8)
    ensures Mul(a, 1) == a && Mul(a, 2) == Power(a, 1) && Mul(a, 3) == Add(a, Power(a, 1))
    ensures Mul(a, 0x9) == Add(a, Power(a, 3))
    ensures Mul(a, 0xB) == Add(Add(a, Power(a, 1)), Power(a, 3))
    ensures Mul(a, 0xD) == Add(Add(a, Power(a, 2)), Power(a, 3))
    ensures Mul(a, 0xE) == Add(Add(Power(a, 1), Power(a, 2)), Power(a, 3))
  {
    hide Xtime, Add;
    AddZero(a);
    AddZero(Power(a, 1));
  }

  // ---------- the code, in C's 32-bit ints ----------

  /** `GF_HELPER`: one shift too wide for a byte until the result is stored. */
  function GfHelper(num: bv32): bv32 {
    if num & 0x80 != 0 then (num << 1) ^ 0x1B else num << 1
  }

  /** `XTIME` */
  function XtimeMacro(num: bv32): bv32 {
    (num << 1) ^ (((num >> 7) & 1) * 0x1B)
  }

  /** Storing an int in a `uint8_t`. */
  function Store(v: bv32): bv8 {
    (v & 0xFF) as bv8
  }

  /** Whatever high bits the macros leave, the stored byte is the product by x. */
  lemma MacrosAreXtime(w: bv32)
    ensures Store(GfHelper(w)) == Xtime(Store(w))
    ensures Store(XtimeMacro(w)) == Xtime(Store(w))
  {
  }

  /** C's `^` on ints. */
  function IntXor(v: bv32, w: bv32): bv32 {
    v ^ w
  }

  /** `y >> n & 1` */
  function BitOf(y: bv8, n: nat): bv32
    requires n < 5
  {
    var v := y as bv32;
    match n
    case 0 => v & 1
    case 1 => (v >> 1) & 1
    case 2 => (v >> 2) & 1
    case 3 => (v >> 3) & 1
    case 4 => (v >> 4) & 1
  }

  lemma BitOfTerm(y: bv8, n: nat)
    requires n < 5
    ensures BitOf(y, n) == if HasTerm(y, n) then 1 else 0
  {
  }

  function IntMul(v: bv32, w: bv32): bv32 {
    v * w
  }

  lemma MulByBit(w: bv32)
    ensures IntMul(0, w) == 0 && IntMul(1, w) == w
  {
  }

  /** `(y >> n & 1) * w` */
  function Scaled(y: bv8, n: nat, w: bv32): bv32
    requires n < 5
  {
    IntMul(BitOf(y, n), w)
  }

  /** `gf_mul` */
  function GfMul(x: bv8, y: bv8): bv8 {
    var w0 := x as bv32;
    var w1 := XtimeMacro(w0);
    var w2 := XtimeMacro(w1);
    var w3 := XtimeMacro(w2);
    var w4 := XtimeMacro(w3);
    Store(IntXor(IntXor(IntXor(IntXor(Scaled(y, 0, w0), Scaled(y, 1, w1)), Scaled(y, 2, w2)), Scaled(y, 3, w3)),
        Scaled(y, 4, w4)))
  }

  // Storing commutes with exclusive or and with scaling by a bit, and gives a promoted byte back.

  lemma StoreXor(v: bv32, w: bv32)
    ensures Store(IntXor(v, w)) == Add(Store(v), Store(w))
  {
  }

  lemma StoreWide(b: bv8)
    ensures Store(b as bv32) == b
  {
  }

  lemma StoreScaled(y: bv8, n: nat, w: bv32)
    requires n < 5
    ensures Store(Scaled(y, n, w)) == if HasTerm(y, n) then Store(w) else 0
  {
    hide BitOf, IntMul, HasTerm;
    BitOfTerm(y, n);
    MulByBit(w);
  }

  lemma PowersStored(x: bv8)
    ensures var w0 := x as bv32;
      var w1 := XtimeMacro(w0);
      var w2 := XtimeMacro(w1);
      var w3 := XtimeMacro(w2);
      && Store(w0) == Power(x, 0) && Store(w1) == Power(x, 1) && Store(w2) == Power(x, 2)
      && Store(w3) == Power(x, 3) && Store(XtimeMacro(w3)) == Power(x, 4)
  {
    hide Store, XtimeMacro, Xtime;
    var w0 := x as bv32;
    var w1 := XtimeMacro(w0);
    var w2 := XtimeMacro(w1);
    StoreWide(x);
    MacrosAreXtime(w0);
    MacrosAreXtime(w1);
    MacrosAreXtime(w2);
    MacrosAreXtime(XtimeMacro(w2));
  }

  lemma StoreFive(a: bv32, b: bv32, c: bv32, d: bv32, e: bv32)
    ensures Store(IntXor(IntXor(IntXor(IntXor(a, b), c), d), e)) ==
      Add(Add(Add(Add(Store(a), Store(b)), Store(c)), Store(d)), Store(e))
  {
    hide Add, Store, IntXor;
    var ab := IntXor(a, b);
    var abc := IntXor(ab, c);
    StoreXor(a, b);
    StoreXor(ab, c);
    StoreXor(abc, d);
    StoreXor(IntXor(abc, d), e);
  }

  function Term(x: bv8, y: bv8, n: nat): bv8
    requires n < 8
  {
    if HasTerm(y, n) then Power(x, n) else 0
  }

  lemma TermStep(x: bv8, y: bv8, n: nat)
    requires n < 8
    ensures MulLow(x, y, n + 1) == Add(MulLow(x, y, n), Term(x, y, n))
  {
    hide Add, Power, HasTerm;
    AddZero(MulLow(x, y, n));
  }

  lemma MulLowZero(x: bv8, y: bv8)
    ensures MulLow(x, y, 0) == 0
  {
  }

  lemma FiveTerms(x: bv8, y: bv8)
    ensures MulLow(x, y, 5) == Add(Add(Add(Add(Term(x, y, 0), Term(x, y, 1)), Term(x, y, 2)), Term(x, y, 3)),
      Term(x, y, 4))
  {
    hide Add, Power, HasTerm, MulLow, Term;
    MulLowZero(x, y);
    TermStep(x, y, 0);
    TermStep(x, y, 1);
    TermStep(x, y, 2);
    TermStep(x, y, 3);
    TermStep(x, y, 4);
    AddZero(Term(x, y, 0));
  }

  /** `gf_mul` multiplies by the five low terms of `y`, which is all of `y` for the multipliers it is called with. */
  lemma GfMulIsMul(x: bv8, y: bv8)
    ensures GfMul(x, y) == MulLow(x, y, 5)
    ensures !HasTerm(y, 5) && !HasTerm(y, 6) && !HasTerm(y, 7) ==> GfMul(x, y) == Mul(x, y)
  {
    hide Store, XtimeMacro, IntXor, Scaled, Add, Xtime, HasTerm;
    var w0 := x as bv32;
    var w1 := XtimeMacro(w0);
    var w2 := XtimeMacro(w1);
    var w3 := XtimeMacro(w2);
    var w4 := XtimeMacro(w3);
    PowersStored(x);
    StoreFive(Scaled(y, 0, w0), Scaled(y, 1, w1), Scaled(y, 2, w2), Scaled(y, 3, w3), Scaled(y, 4, w4));
    StoreScaled(y, 0, w0);
    StoreScaled(y, 1, w1);
    StoreScaled(y, 2, w2);
    StoreScaled(y, 3, w3);
    StoreScaled(y, 4, w4);
    FiveTerms(x, y);
  }

  /** Multiplication written out. */
  function LongMul(a: bv8, b: bv8): bv8 {
    var a1 := Xtime(a);
    var a2 := Xtime(a1);
    var a3 := Xtime(a2);
    var a4 := Xtime(a3);
    var a5 := Xtime(a4);
    var a6 := Xtime(a5);
    var a7 := Xtime(a6);
    Add(Add(Add(Add(Add(Add(Add(
      if b & 0x01 != 0 then a else 0, if b & 0x02 != 0 then a1 else 0), if b & 0x04 != 0 then a2 else 0),
          if b & 0x08 != 0 then a3 else 0),
      if b & 0x10 != 0 then a4 else 0), if b & 0x20 != 0 then a5 else 0), if b & 0x40 != 0 then a6 else 0),
          if b & 0x80 != 0 then a7 else 0)
  }

  lemma TermsAreBits(b: bv8)
    ensures (HasTerm(b, 0) <==> b & 0x01 != 0) && (HasTerm(b, 1) <==> b & 0x02 != 0)
    ensures (HasTerm(b, 2) <==> b & 0x04 != 0) && (HasTerm(b, 3) <==> b & 0x08 != 0)
    ensures (HasTerm(b, 4) <==> b & 0x10 != 0) && (HasTerm(b, 5) <==> b & 0x20 != 0)
    ensures (HasTerm(b, 6) <==> b & 0x40 != 0) && (HasTerm(b, 7) <==> b & 0x80 != 0)
  {
  }

  lemma LongMulIsMul(a: bv8, b: bv8)
    ensures LongMul(a, b) == Mul(a, b)
  {
    hide Add, Xtime, HasTerm, MulLow;
    TermsAreBits(b);
    MulLowZero(a, b);
    AddZero(Term(a, b, 0));
    TermStep(a, b, 0);
    TermStep(a, b, 1);
    TermStep(a, b, 2);
    TermStep(a, b, 3);
    TermStep(a, b, 4);
    TermStep(a, b, 5);
    TermStep(a, b, 6);
    TermStep(a, b, 7);
  }
}
