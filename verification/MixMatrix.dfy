/**
 MixColumns and its inverse: the matrices of sections 5.1.3 and 5.3.3 of FIPS 197, acting on a column, and that each
 undoes the other.
 */
module MixMatrix {
  import opened GaloisField

  datatype Column = Column(s0: bv8, s1: bv8, s2: bv8, s3: bv8)

  function Add4(a: bv8, b: bv8, c: bv8, d: bv8): bv8 {
    Add(Add(a, b), Add(c, d))
  }

  /** One row of a matrix times a column. */
  function Row(k0: bv8, k1: bv8, k2: bv8, k3: bv8, c: Column): bv8 {
    Add4(Mul(c.s0, k0), Mul(c.s1, k1), Mul(c.s2, k2), Mul(c.s3, k3))
  }

  /** Section 5.1.3. */
  function MixColumn(c: Column): Column {
    Column(Row(2, 3, 1, 1, c), Row(1, 2, 3, 1, c), Row(1, 1, 2, 3, c), Row(3, 1, 1, 2, c))
  }

  /** Section 5.3.3. */
  function InvMixColumn(c: Column): Column {
    Column(Row(0xE, 0xB, 0xD, 0x9, c), Row(0x9, 0xE, 0xB, 0xD, c), Row(0xD, 0x9, 0xE, 0xB, c),
        Row(0xB, 0xD, 0x9, 0xE, c))
  }

  // ---------- sums of powers of x ----------

  /** Which of the powers 1, x, ..., x^4 a multiplier is the sum of. */
  datatype Poly = Poly(c0: bool, c1: bool, c2: bool, c3: bool, c4: bool)

  function Plus(p: Poly, q: Poly): Poly {
    Poly(p.c0 != q.c0, p.c1 != q.c1, p.c2 != q.c2, p.c3 != q.c3, p.c4 != q.c4)
  }

  function TimesX(p: Poly): Poly {
    Poly(false, p.c0, p.c1, p.c2, p.c3)
  }

  function When(c: bool, a: bv8): bv8 {
    if c then a else 0
  }

  /** `a` times the sum. */
  function Eval(p: Poly, a: bv8): bv8 {
    Add(When(p.c0, a), Add(When(p.c1, Power(a, 1)),
        Add(When(p.c2, Power(a, 2)), Add(When(p.c3, Power(a, 3)), When(p.c4, Power(a, 4))))))
  }

  lemma WhenAdd(c: bool, d: bool, a: bv8)
    ensures Add(When(c, a), When(d, a)) == When(c != d, a)
  {
    AddZero(a);
    AddZero(0);
  }

  lemma EvalPlus(p: Poly, q: Poly, a: bv8)
    ensures Add(Eval(p, a), Eval(q, a)) == Eval(Plus(p, q), a)
  {
    hide Add, When, Power;
    var a1, a2, a3, a4 := Power(a, 1), Power(a, 2), Power(a, 3), Power(a, 4);
    WhenAdd(p.c0, q.c0, a);
    WhenAdd(p.c1, q.c1, a1);
    WhenAdd(p.c2, q.c2, a2);
    WhenAdd(p.c3, q.c3, a3);
    WhenAdd(p.c4, q.c4, a4);
    var p3, q3 := Add(When(p.c3, a3), When(p.c4, a4)), Add(When(q.c3, a3), When(q.c4, a4));
    var p2, q2 := Add(When(p.c2, a2), p3), Add(When(q.c2, a2), q3);
    var p1, q1 := Add(When(p.c1, a1), p2), Add(When(q.c1, a1), q2);
    AddRegroup(When(p.c3, a3), When(p.c4, a4), When(q.c3, a3), When(q.c4, a4));
    AddRegroup(When(p.c2, a2), p3, When(q.c2, a2), q3);
    AddRegroup(When(p.c1, a1), p2, When(q.c1, a1), q2);
    AddRegroup(When(p.c0, a), p1, When(q.c0, a), q1);
  }

  lemma EvalTimesX(p: Poly, a: bv8)
    requires !p.c4
    ensures Eval(p, Power(a, 1)) == Eval(TimesX(p), a)
  {
    hide Add, Xtime;
    var b := Power(a, 1);
    assert Power(b, 1) == Power(a, 2) && Power(b, 2) == Power(a, 3) && Power(b, 3) == Power(a, 4);
    var v1, v2, v3, v4 := When(p.c0, b), When(p.c1, Power(b, 1)), When(p.c2, Power(b, 2)), When(p.c3, Power(b, 3));
    AddZero(v4);
    AddZero(Add(v1, Add(v2, Add(v3, v4))));
  }

  const NONE := Poly(false, false, false, false, false)
  const ONE := Poly(true, false, false, false, false)
  const TWO := Poly(false, true, false, false, false)
  const THREE := Poly(true, true, false, false, false)
  const NINE := Poly(true, false, false, true, false)
  const ELEVEN := Poly(true, true, false, true, false)
  const THIRTEEN := Poly(true, false, true, true, false)
  const FOURTEEN := Poly(false, true, true, true, false)

  /** The product, as far as x^4. */
  function Times(p: Poly, q: Poly): Poly {
    Poly(
      p.c0 && q.c0,
      (p.c0 && q.c1) != (p.c1 && q.c0),
      ((p.c0 && q.c2) != (p.c1 && q.c1)) != (p.c2 && q.c0),
      ((p.c0 && q.c3) != (p.c1 && q.c2)) != ((p.c2 && q.c1) != (p.c3 && q.c0)),
      (((p.c0 && q.c4) != (p.c1 && q.c3)) != ((p.c2 && q.c2) != (p.c3 && q.c1))) != (p.c4 && q.c0))
  }

  predicate Small(p: Poly) {
    p == ONE || p == TWO || p == THREE
  }

  lemma SmallProducts(p: Poly, q: Poly)
    requires Small(p)
    ensures Times(p, q) == Times(q, p) == if p == ONE then q else if p == TWO then TimesX(q) else Plus(q, TimesX(q))
  {
  }

  /** The byte of a multiplier. */
  function Byte(p: Poly): bv8 {
    if p == ONE then 1 else if p == TWO then 2 else if p == THREE then 3
    else if p == NINE then 0x9 else if p == ELEVEN then 0xB else if p == THIRTEEN then 0xD else 0xE
  }

  predicate Multiplier(p: Poly) {
    p == ONE || p == TWO || p == THREE || p == NINE || p == ELEVEN || p == THIRTEEN || p == FOURTEEN
  }

  lemma MulEval(p: Poly, a: bv8)
    requires Multiplier(p)
    ensures Mul(a, Byte(p)) == Eval(p, a)
  {
    hide Add, Power, Mul;
    var a1, a2, a3 := Power(a, 1), Power(a, 2), Power(a, 3);
    Multipliers(a);
    AddZero(0);
    AddZero(a);
    AddZero(a1);
    AddZero(a3);
    AddZero(Add(a2, a3));
    AddZero(Add(a1, Add(a2, a3)));
    AddAssociates(a, a1, a3);
    AddAssociates(a, a2, a3);
    AddAssociates(a1, a2, a3);
  }

  lemma XtimeZero()
    ensures Power(0, 1) == 0
  {
  }

  lemma EvalOfPower(p: Poly, a: bv8)
    ensures Eval(p, Power(a, 1)) == Power(Eval(p, a), 1)
  {
    hide Add, Xtime;
    var b, a2, a3, a4 := Power(a, 1), Power(a, 2), Power(a, 3), Power(a, 4);
    assert Power(b, 1) == a2 && Power(b, 2) == a3 && Power(b, 3) == a4 && Power(b, 4) == Power(a4, 1);
    var v3 := Add(When(p.c3, a3), When(p.c4, a4));
    var v2 := Add(When(p.c2, a2), v3);
    var v1 := Add(When(p.c1, b), v2);
    PowerLinear(When(p.c0, a), v1, 1);
    PowerLinear(When(p.c1, b), v2, 1);
    PowerLinear(When(p.c2, a2), v3, 1);
    PowerLinear(When(p.c3, a3), When(p.c4, a4), 1);
    XtimeZero();
  }

  lemma SmallTimes(p: Poly, a: bv8)
    requires Small(p)
    ensures Mul(a, Byte(p)) == if p == ONE then a else if p == TWO then Power(a, 1) else Add(a, Power(a, 1))
  {
    hide Add, Power, Mul;
    Multipliers(a);
  }

  /** Multiplying by 1, 2 or 3 and by another multiplier, in either order, multiplies by the product of the sums. */
  lemma ProductSmallFirst(p: Poly, q: Poly, a: bv8)
    requires Small(p) && Multiplier(q)
    ensures Mul(Mul(a, Byte(p)), Byte(q)) == Eval(Times(p, q), a)
  {
    hide Add, Power, Mul, Eval, Byte, Plus, Times;
    SmallProducts(p, q);
    SmallTimes(p, a);
    MulEval(q, a);
    if p != ONE {
      MulEval(q, Power(a, 1));
      EvalTimesX(q, a);
    }
    if p == THREE {
      MulLinear(a, Power(a, 1), Byte(q));
      EvalPlus(q, TimesX(q), a);
    }
  }

  lemma ProductSmallLast(p: Poly, q: Poly, a: bv8)
    requires Small(p) && Multiplier(q)
    ensures Mul(Mul(a, Byte(q)), Byte(p)) == Eval(Times(q, p), a)
  {
    hide Add, Power, Mul, Eval, Byte, Plus, Times;
    SmallProducts(p, q);
    MulEval(q, a);
    SmallTimes(p, Eval(q, a));
    EvalOfPower(q, a);
    EvalTimesX(q, a);
    EvalPlus(q, TimesX(q), a);
  }

  lemma Sum4(p: Poly, q: Poly, r: Poly, s: Poly, a: bv8)
    ensures Add4(Eval(p, a), Eval(q, a), Eval(r, a), Eval(s, a)) == Eval(Plus(Plus(p, q), Plus(r, s)), a)
  {
    hide Add, Eval;
    EvalPlus(p, q, a);
    EvalPlus(r, s, a);
    EvalPlus(Plus(p, q), Plus(r, s), a);
  }

  lemma EvalOne(a: bv8)
    ensures Eval(ONE, a) == a && Eval(NONE, a) == 0
  {
    hide Power, Add;
    AddZero(0);
    AddZero(a);
  }

  // ---------- the two matrices are inverse to each other ----------

  /** Multiplying a row sum. */
  lemma RowTimes(a: bv8, b: bv8, c: bv8, d: bv8, k: bv8)
    ensures Mul(Add4(a, b, c, d), k) == Add4(Mul(a, k), Mul(b, k), Mul(c, k), Mul(d, k))
  {
    hide Add, Mul;
    MulLinear(Add(a, b), Add(c, d), k);
    MulLinear(a, b, k);
    MulLinear(c, d, k);
  }

  lemma Pairwise(a: bv8, b: bv8, c: bv8, d: bv8, a': bv8, b': bv8, c': bv8, d': bv8)
    ensures Add(Add4(a, b, c, d), Add4(a', b', c', d')) == Add4(Add(a, a'), Add(b, b'), Add(c, c'), Add(d, d'))
  {
    hide Add;
    AddRegroup(Add(a, b), Add(c, d), Add(a', b'), Add(c', d'));
    AddRegroup(a, b, a', b');
    AddRegroup(c, d, c', d');
  }

  /** A sum of four rows is the sum of the four columns. */
  lemma Transpose(a0: bv8, b0: bv8, c0: bv8, d0: bv8, a1: bv8, b1: bv8, c1: bv8, d1: bv8,
                  a2: bv8, b2: bv8, c2: bv8, d2: bv8, a3: bv8, b3: bv8, c3: bv8, d3: bv8)
    ensures Add4(Add4(a0, b0, c0, d0), Add4(a1, b1, c1, d1), Add4(a2, b2, c2, d2), Add4(a3, b3, c3, d3))
         == Add4(Add4(a0, a1, a2, a3), Add4(b0, b1, b2, b3), Add4(c0, c1, c2, c3), Add4(d0, d1, d2, d3))
  {
    hide Add;
    Pairwise(a0, b0, c0, d0, a1, b1, c1, d1);
    Pairwise(a2, b2, c2, d2, a3, b3, c3, d3);
    Pairwise(Add(a0, a1), Add(b0, b1), Add(c0, c1), Add(d0, d1), Add(a2, a3), Add(b2, b3), Add(c2, c3), Add(d2, d3));
  }

  /** A row of multipliers. */
  datatype Multipliers4 = Multipliers4(k0: Poly, k1: Poly, k2: Poly, k3: Poly)

  predicate AllSmall(r: Multipliers4) {
    Small(r.k0) && Small(r.k1) && Small(r.k2) && Small(r.k3)
  }

  predicate AllMultipliers(r: Multipliers4) {
    Multiplier(r.k0) && Multiplier(r.k1) && Multiplier(r.k2) && Multiplier(r.k3)
  }

  function RowOf(r: Multipliers4, c: Column): bv8 {
    Row(Byte(r.k0), Byte(r.k1), Byte(r.k2), Byte(r.k3), c)
  }

  /** A row times a column of multipliers. */
  function Dot(r: Multipliers4, m0: Poly, m1: Poly, m2: Poly, m3: Poly): Poly {
    Plus(Plus(Times(m0, r.k0), Times(m1, r.k1)), Plus(Times(m2, r.k2), Times(m3, r.k3)))
  }

  lemma Product(p: Poly, q: Poly, a: bv8)
    requires Multiplier(p) && Multiplier(q) && (Small(p) || Small(q))
    ensures Mul(Mul(a, Byte(p)), Byte(q)) == Eval(Times(p, q), a)
  {
    hide Mul, Eval, Times, Byte;
    if Small(p) {
      ProductSmallFirst(p, q, a);
    } else {
      ProductSmallLast(q, p, a);
    }
  }

  lemma DotEval(r: Multipliers4, m0: Poly, m1: Poly, m2: Poly, m3: Poly, a: bv8)
    requires AllMultipliers(r) && Multiplier(m0) && Multiplier(m1) && Multiplier(m2) && Multiplier(m3)
    requires AllSmall(r) || (Small(m0) && Small(m1) && Small(m2) && Small(m3))
    ensures Add4(Mul(Mul(a, Byte(m0)), Byte(r.k0)), Mul(Mul(a, Byte(m1)), Byte(r.k1)),
      Mul(Mul(a, Byte(m2)), Byte(r.k2)), Mul(Mul(a, Byte(m3)), Byte(r.k3)))
         == Eval(Dot(r, m0, m1, m2, m3), a)
  {
    hide Add4, Mul, Eval, Times, Byte, Plus;
    Product(m0, r.k0, a);
    Product(m1, r.k1, a);
    Product(m2, r.k2, a);
    Product(m3, r.k3, a);
    Sum4(Times(m0, r.k0), Times(m1, r.k1), Times(m2, r.k2), Times(m3, r.k3), a);
  }

  function Share(m: Poly, a: bv8, k: Poly): bv8 {
    Mul(Mul(a, Byte(m)), Byte(k))
  }

  lemma Expand(m: Multipliers4, c: Column, k: Poly)
    ensures Mul(RowOf(m, c), Byte(k)) == Add4(Share(m.k0, c.s0, k), Share(m.k1, c.s1, k), Share(m.k2, c.s2, k),
      Share(m.k3, c.s3, k))
  {
    hide Add4, Mul, Byte;
    RowTimes(Mul(c.s0, Byte(m.k0)), Mul(c.s1, Byte(m.k1)), Mul(c.s2, Byte(m.k2)), Mul(c.s3, Byte(m.k3)), Byte(k));
  }

  lemma ExpandRow(r: Multipliers4, c: Column)
    ensures RowOf(r, c) == Add4(Mul(c.s0, Byte(r.k0)), Mul(c.s1, Byte(r.k1)), Mul(c.s2, Byte(r.k2)),
      Mul(c.s3, Byte(r.k3)))
  {
    hide Add4, Mul, Byte;
  }

  lemma DotShares(r: Multipliers4, m0: Poly, m1: Poly, m2: Poly, m3: Poly, a: bv8)
    requires AllMultipliers(r) && Multiplier(m0) && Multiplier(m1) && Multiplier(m2) && Multiplier(m3)
    requires AllSmall(r) || (Small(m0) && Small(m1) && Small(m2) && Small(m3))
    ensures Add4(Share(m0, a, r.k0), Share(m1, a, r.k1), Share(m2, a, r.k2), Share(m3, a, r.k3)) ==
      Eval(Dot(r, m0, m1, m2, m3), a)
  {
    hide Add4, Mul, Eval, Dot, Byte;
    DotEval(r, m0, m1, m2, m3, a);
  }

  lemma RowOfProduct(r: Multipliers4, m0: Multipliers4, m1: Multipliers4, m2: Multipliers4, m3: Multipliers4, c: Column)
    requires AllMultipliers(r) && AllMultipliers(m0) && AllMultipliers(m1) && AllMultipliers(m2) && AllMultipliers(m3)
    requires AllSmall(r) || (AllSmall(m0) && AllSmall(m1) && AllSmall(m2) && AllSmall(m3))
    ensures RowOf(r, Column(RowOf(m0, c), RowOf(m1, c), RowOf(m2, c), RowOf(m3, c)))
         == Add4(Eval(Dot(r, m0.k0, m1.k0, m2.k0, m3.k0), c.s0), Eval(Dot(r, m0.k1, m1.k1, m2.k1, m3.k1), c.s1),
                 Eval(Dot(r, m0.k2, m1.k2, m2.k2, m3.k2), c.s2), Eval(Dot(r, m0.k3, m1.k3, m2.k3, m3.k3), c.s3))
  {
    hide Add4, Eval, Byte, Dot, Share, RowOf, Mul, Multiplier, Small;
    ExpandRow(r, Column(RowOf(m0, c), RowOf(m1, c), RowOf(m2, c), RowOf(m3, c)));
    Expand(m0, c, r.k0);
    Expand(m1, c, r.k1);
    Expand(m2, c, r.k2);
    Expand(m3, c, r.k3);
    Transpose(
      Share(m0.k0, c.s0, r.k0), Share(m0.k1, c.s1, r.k0), Share(m0.k2, c.s2, r.k0), Share(m0.k3, c.s3, r.k0),
      Share(m1.k0, c.s0, r.k1), Share(m1.k1, c.s1, r.k1), Share(m1.k2, c.s2, r.k1), Share(m1.k3, c.s3, r.k1),
      Share(m2.k0, c.s0, r.k2), Share(m2.k1, c.s1, r.k2), Share(m2.k2, c.s2, r.k2), Share(m2.k3, c.s3, r.k2),
      Share(m3.k0, c.s0, r.k3), Share(m3.k1, c.s1, r.k3), Share(m3.k2, c.s2, r.k3), Share(m3.k3, c.s3, r.k3));
    DotShares(r, m0.k0, m1.k0, m2.k0, m3.k0, c.s0);
    DotShares(r, m0.k1, m1.k1, m2.k1, m3.k1, c.s1);
    DotShares(r, m0.k2, m1.k2, m2.k2, m3.k2, c.s2);
    DotShares(r, m0.k3, m1.k3, m2.k3, m3.k3, c.s3);
  }

  const MIX0 := Multipliers4(TWO, THREE, ONE, ONE)
  const MIX1 := Multipliers4(ONE, TWO, THREE, ONE)
  const MIX2 := Multipliers4(ONE, ONE, TWO, THREE)
  const MIX3 := Multipliers4(THREE, ONE, ONE, TWO)
  const INV0 := Multipliers4(FOURTEEN, ELEVEN, THIRTEEN, NINE)
  const INV1 := Multipliers4(NINE, FOURTEEN, ELEVEN, THIRTEEN)
  const INV2 := Multipliers4(THIRTEEN, NINE, FOURTEEN, ELEVEN)
  const INV3 := Multipliers4(ELEVEN, THIRTEEN, NINE, FOURTEEN)

  lemma MatrixRows(c: Column)
    ensures MixColumn(c) == Column(RowOf(MIX0, c), RowOf(MIX1, c), RowOf(MIX2, c), RowOf(MIX3, c))
    ensures InvMixColumn(c) == Column(RowOf(INV0, c), RowOf(INV1, c), RowOf(INV2, c), RowOf(INV3, c))
  {
    hide Row;
  }

  lemma UnitSums(a: bv8, b: bv8, c: bv8, d: bv8)
    ensures Add4(Eval(ONE, a), Eval(NONE, b), Eval(NONE, c), Eval(NONE, d)) == a
    ensures Add4(Eval(NONE, a), Eval(ONE, b), Eval(NONE, c), Eval(NONE, d)) == b
    ensures Add4(Eval(NONE, a), Eval(NONE, b), Eval(ONE, c), Eval(NONE, d)) == c
    ensures Add4(Eval(NONE, a), Eval(NONE, b), Eval(NONE, c), Eval(ONE, d)) == d
  {
    hide Add, Eval;
    EvalOne(a);
    EvalOne(b);
    EvalOne(c);
    EvalOne(d);
    AddZero(0);
    AddZero(a);
    AddZero(b);
    AddZero(c);
    AddZero(d);
  }

  /** The product of the two matrices has 1 on the diagonal and 0 elsewhere. */
  lemma UnitMatrix()
    ensures Dot(INV0, TWO, ONE, ONE, THREE) == Dot(INV1, THREE, TWO, ONE, ONE) == Dot(INV2, ONE, THREE, TWO, ONE) ==
      Dot(INV3, ONE, ONE, THREE, TWO) == ONE
    ensures Dot(INV0, THREE, TWO, ONE, ONE) == Dot(INV0, ONE, THREE, TWO, ONE) == Dot(INV0, ONE, ONE, THREE, TWO) ==
      NONE
    ensures Dot(INV1, TWO, ONE, ONE, THREE) == Dot(INV1, ONE, THREE, TWO, ONE) == Dot(INV1, ONE, ONE, THREE, TWO) ==
      NONE
    ensures Dot(INV2, TWO, ONE, ONE, THREE) == Dot(INV2, THREE, TWO, ONE, ONE) == Dot(INV2, ONE, ONE, THREE, TWO) ==
      NONE
    ensures Dot(INV3, TWO, ONE, ONE, THREE) == Dot(INV3, THREE, TWO, ONE, ONE) == Dot(INV3, ONE, THREE, TWO, ONE) ==
      NONE
  {
  }

  /** ... and so has the product in the other order. */
  lemma UnitMatrixReversed()
    ensures Dot(MIX0, FOURTEEN, NINE, THIRTEEN, ELEVEN) == Dot(MIX1, ELEVEN, FOURTEEN, NINE, THIRTEEN) ==
      Dot(MIX2, THIRTEEN, ELEVEN, FOURTEEN, NINE) == Dot(MIX3, NINE, THIRTEEN, ELEVEN, FOURTEEN) == ONE
    ensures Dot(MIX0, ELEVEN, FOURTEEN, NINE, THIRTEEN) == Dot(MIX0, THIRTEEN, ELEVEN, FOURTEEN, NINE) ==
      Dot(MIX0, NINE, THIRTEEN, ELEVEN, FOURTEEN) == NONE
    ensures Dot(MIX1, FOURTEEN, NINE, THIRTEEN, ELEVEN) == Dot(MIX1, THIRTEEN, ELEVEN, FOURTEEN, NINE) ==
      Dot(MIX1, NINE, THIRTEEN, ELEVEN, FOURTEEN) == NONE
    ensures Dot(MIX2, FOURTEEN, NINE, THIRTEEN, ELEVEN) == Dot(MIX2, ELEVEN, FOURTEEN, NINE, THIRTEEN) ==
      Dot(MIX2, NINE, THIRTEEN, ELEVEN, FOURTEEN) == NONE
    ensures Dot(MIX3, FOURTEEN, NINE, THIRTEEN, ELEVEN) == Dot(MIX3, ELEVEN, FOURTEEN, NINE, THIRTEEN) ==
      Dot(MIX3, THIRTEEN, ELEVEN, FOURTEEN, NINE) == NONE
  {
  }

  /** InvMixColumns undoes MixColumns ... */
  lemma InverseAfter(c: Column)
    ensures InvMixColumn(MixColumn(c)) == c
  {
    hide RowOf, Add4, Eval, Dot, MixColumn, InvMixColumn;
    MatrixRows(c);
    MatrixRows(MixColumn(c));
    RowOfProduct(INV0, MIX0, MIX1, MIX2, MIX3, c);
    RowOfProduct(INV1, MIX0, MIX1, MIX2, MIX3, c);
    RowOfProduct(INV2, MIX0, MIX1, MIX2, MIX3, c);
    RowOfProduct(INV3, MIX0, MIX1, MIX2, MIX3, c);
    UnitMatrix();
    UnitSums(c.s0, c.s1, c.s2, c.s3);
  }

  /** ... and MixColumns undoes InvMixColumns. */
  lemma InverseBefore(c: Column)
    ensures MixColumn(InvMixColumn(c)) == c
  {
    hide RowOf, Add4, Eval, Dot, MixColumn, InvMixColumn;
    MatrixRows(c);
    MatrixRows(InvMixColumn(c));
    RowOfProduct(MIX0, INV0, INV1, INV2, INV3, c);
    RowOfProduct(MIX1, INV0, INV1, INV2, INV3, c);
    RowOfProduct(MIX2, INV0, INV1, INV2, INV3, c);
    RowOfProduct(MIX3, INV0, INV1, INV2, INV3, c);
    UnitMatrixReversed();
    UnitSums(c.s0, c.s1, c.s2, c.s3);
  }
}
