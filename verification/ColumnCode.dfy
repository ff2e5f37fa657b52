/** The column arithmetic of the four MixColumns routines in src/include/aes.h, and that each computes its matrix. */
module ColumnCode {
  import opened GaloisField
  import opened MixMatrix

  // ---------- the code ----------

  /** `GF_HELPER(a ^ b) ^ a ^ xtime`, computed in ints and stored in a byte. */
  function FastRow(a: bv8, b: bv8, xtime: bv8): bv8 {
    Store(IntXor(IntXor(GfHelper(IntXor(a as bv32, b as bv32)), a as bv32), xtime as bv32))
  }

  /** `XTIME(a ^ b) ^ a ^ xtime` */
  function TableFreeRow(a: bv8, b: bv8, xtime: bv8): bv8 {
    Store(IntXor(IntXor(XtimeMacro(IntXor(a as bv32, b as bv32)), a as bv32), xtime as bv32))
  }

  /** `a ^ b ^ c ^ d` */
  function Xor4(a: bv8, b: bv8, c: bv8, d: bv8): bv8 {
    Store(IntXor(IntXor(IntXor(a as bv32, b as bv32), c as bv32), d as bv32))
  }

  /** The loop body of the fast `mix_columns`. */
  function FastMix(c: Column): Column {
    var xtime := Xor4(c.s0, c.s1, c.s2, c.s3);
    Column(FastRow(c.s0, c.s1, xtime), FastRow(c.s1, c.s2, xtime), FastRow(c.s2, c.s3, xtime),
        FastRow(c.s3, c.s0, xtime))
  }

  /** The loop body of the table-free `mix_columns`. */
  function TableFreeMix(c: Column): Column {
    var xtime := Xor4(c.s0, c.s1, c.s2, c.s3);
    Column(TableFreeRow(c.s0, c.s1, xtime), TableFreeRow(c.s1, c.s2, xtime), TableFreeRow(c.s2, c.s3, xtime),
        TableFreeRow(c.s3, c.s0, xtime))
  }

  /** `GF_HELPER(GF_HELPER(a ^ b))`, where the inner result may be wider than a byte. */
  function Factor(a: bv8, b: bv8): bv8 {
    Store(GfHelper(GfHelper(IntXor(a as bv32, b as bv32))))
  }

  /** `state ^= xtime ^ factor` */
  function Adjust(s: bv8, xtime: bv8, factor: bv8): bv8 {
    Store(IntXor(s as bv32, IntXor(xtime as bv32, factor as bv32)))
  }

  /** The loop body of the fast `inv_mix_columns`. */
  function FastInvMix(c: Column): Column {
    var m := FastMix(c);
    var factor1 := Factor(c.s0, c.s2);
    var factor2 := Factor(c.s1, c.s3);
    var xtime := Store(GfHelper(IntXor(factor1 as bv32, factor2 as bv32)));
    Column(Adjust(m.s0, xtime, factor1), Adjust(m.s1, xtime, factor2), Adjust(m.s2, xtime, factor1),
        Adjust(m.s3, xtime, factor2))
  }

  /** `gf_mul(a, k0) ^ gf_mul(b, k1) ^ gf_mul(c, k2) ^ gf_mul(d, k3)` */
  function TableFreeInvRow(k0: bv8, k1: bv8, k2: bv8, k3: bv8, c: Column): bv8 {
    Xor4(GfMul(c.s0, k0), GfMul(c.s1, k1), GfMul(c.s2, k2), GfMul(c.s3, k3))
  }

  /** The loop body of the table-free `inv_mix_columns`. */
  function TableFreeInvMix(c: Column): Column {
    Column(
      TableFreeInvRow(0x0E, 0x0B, 0x0D, 0x09, c),
      TableFreeInvRow(0x09, 0x0E, 0x0B, 0x0D, c),
      TableFreeInvRow(0x0D, 0x09, 0x0E, 0x0B, c),
      TableFreeInvRow(0x0B, 0x0D, 0x09, 0x0E, c))
  }

  // ---------- what the int expressions store ----------

  lemma Xor4Stores(a: bv8, b: bv8, c: bv8, d: bv8)
    ensures Xor4(a, b, c, d) == Add4(a, b, c, d)
  {
    hide Store, IntXor, Add;
    var ab := IntXor(a as bv32, b as bv32);
    StoreWide(a);
    StoreWide(b);
    StoreWide(c);
    StoreWide(d);
    StoreXor(a as bv32, b as bv32);
    StoreXor(ab, c as bv32);
    StoreXor(IntXor(ab, c as bv32), d as bv32);
    AddAssociates(Add(a, b), c, d);
  }

  lemma RowStores(a: bv8, b: bv8, xtime: bv8)
    ensures FastRow(a, b, xtime) == Add(Add(Xtime(Add(a, b)), a), xtime)
    ensures TableFreeRow(a, b, xtime) == Add(Add(Xtime(Add(a, b)), a), xtime)
  {
    hide Store, IntXor, Add, GfHelper, XtimeMacro, Xtime;
    var ab := IntXor(a as bv32, b as bv32);
    StoreWide(a);
    StoreWide(b);
    StoreWide(xtime);
    StoreXor(a as bv32, b as bv32);
    MacrosAreXtime(ab);
    StoreXor(GfHelper(ab), a as bv32);
    StoreXor(XtimeMacro(ab), a as bv32);
    StoreXor(IntXor(GfHelper(ab), a as bv32), xtime as bv32);
    StoreXor(IntXor(XtimeMacro(ab), a as bv32), xtime as bv32);
  }

  lemma FactorStores(a: bv8, b: bv8)
    ensures Factor(a, b) == Xtime(Xtime(Add(a, b)))
    ensures Store(GfHelper(IntXor(a as bv32, b as bv32))) == Xtime(Add(a, b))
  {
    hide Store, IntXor, Add, GfHelper, Xtime;
    var ab := IntXor(a as bv32, b as bv32);
    StoreWide(a);
    StoreWide(b);
    StoreXor(a as bv32, b as bv32);
    MacrosAreXtime(ab);
    MacrosAreXtime(GfHelper(ab));
  }

  lemma AdjustStores(s: bv8, xtime: bv8, factor: bv8)
    ensures Adjust(s, xtime, factor) == Add(s, Add(xtime, factor))
  {
    hide Store, IntXor, Add;
    StoreWide(s);
    StoreWide(xtime);
    StoreWide(factor);
    StoreXor(xtime as bv32, factor as bv32);
    StoreXor(s as bv32, IntXor(xtime as bv32, factor as bv32));
  }

  // ---------- linear forms in the four bytes of a column ----------

  function Form(r: Multipliers4, c: Column): bv8 {
    Add4(Eval(r.k0, c.s0), Eval(r.k1, c.s1), Eval(r.k2, c.s2), Eval(r.k3, c.s3))
  }

  function FormPlus(r: Multipliers4, q: Multipliers4): Multipliers4 {
    Multipliers4(Plus(r.k0, q.k0), Plus(r.k1, q.k1), Plus(r.k2, q.k2), Plus(r.k3, q.k3))
  }

  function FormTimesX(r: Multipliers4): Multipliers4 {
    Multipliers4(TimesX(r.k0), TimesX(r.k1), TimesX(r.k2), TimesX(r.k3))
  }

  lemma FormAdd(r: Multipliers4, q: Multipliers4, c: Column)
    ensures Add(Form(r, c), Form(q, c)) == Form(FormPlus(r, q), c)
  {
    hide Add, Add4, Eval, Plus;
    Pairwise(Eval(r.k0, c.s0), Eval(r.k1, c.s1), Eval(r.k2, c.s2), Eval(r.k3, c.s3),
             Eval(q.k0, c.s0), Eval(q.k1, c.s1), Eval(q.k2, c.s2), Eval(q.k3, c.s3));
    EvalPlus(r.k0, q.k0, c.s0);
    EvalPlus(r.k1, q.k1, c.s1);
    EvalPlus(r.k2, q.k2, c.s2);
    EvalPlus(r.k3, q.k3, c.s3);
  }

  predicate Shiftable(r: Multipliers4) {
    !r.k0.c4 && !r.k1.c4 && !r.k2.c4 && !r.k3.c4
  }

  lemma XtimeOfEval(p: Poly, a: bv8)
    requires !p.c4
    ensures Xtime(Eval(p, a)) == Eval(TimesX(p), a)
  {
    hide Eval, TimesX, Xtime;
    EvalOfPower(p, a);
    EvalTimesX(p, a);
  }

  lemma FormXtime(r: Multipliers4, c: Column)
    requires Shiftable(r)
    ensures Xtime(Form(r, c)) == Form(FormTimesX(r), c)
  {
    hide Add, Eval, TimesX, Xtime;
    var v0, v1, v2, v3 := Eval(r.k0, c.s0), Eval(r.k1, c.s1), Eval(r.k2, c.s2), Eval(r.k3, c.s3);
    XtimeLinear(Add(v0, v1), Add(v2, v3));
    XtimeLinear(v0, v1);
    XtimeLinear(v2, v3);
    XtimeOfEval(r.k0, c.s0);
    XtimeOfEval(r.k1, c.s1);
    XtimeOfEval(r.k2, c.s2);
    XtimeOfEval(r.k3, c.s3);
  }

  /** A matrix row is a form. */
  lemma RowIsForm(r: Multipliers4, c: Column)
    requires AllMultipliers(r)
    ensures RowOf(r, c) == Form(r, c)
  {
    hide Add4, Eval, Byte, Mul, Multiplier;
    MulEval(r.k0, c.s0);
    MulEval(r.k1, c.s1);
    MulEval(r.k2, c.s2);
    MulEval(r.k3, c.s3);
  }

  const E0 := Multipliers4(ONE, NONE, NONE, NONE)
  const E1 := Multipliers4(NONE, ONE, NONE, NONE)
  const E2 := Multipliers4(NONE, NONE, ONE, NONE)
  const E3 := Multipliers4(NONE, NONE, NONE, ONE)
  const ALL := Multipliers4(ONE, ONE, ONE, ONE)

  /** The bytes themselves, and their sum, are forms. */
  lemma UnitForms(c: Column)
    ensures Form(E0, c) == c.s0 && Form(E1, c) == c.s1 && Form(E2, c) == c.s2 && Form(E3, c) == c.s3
    ensures Form(ALL, c) == Add4(c.s0, c.s1, c.s2, c.s3)
  {
    hide Add4, Eval;
    UnitSums(c.s0, c.s1, c.s2, c.s3);
    EvalOne(c.s0);
    EvalOne(c.s1);
    EvalOne(c.s2);
    EvalOne(c.s3);
  }

  // ---------- the routines compute the matrices ----------

  /** A row of the fast routine as a form: from the forms of its two bytes. */
  lemma FastRowForm(r: Multipliers4, q: Multipliers4, c: Column)
    requires Shiftable(r) && Shiftable(q)
    ensures FastRow(Form(r, c), Form(q, c), Xor4(c.s0, c.s1, c.s2, c.s3)) ==
      Form(FormPlus(FormPlus(FormTimesX(FormPlus(r, q)), r), ALL), c)
    ensures TableFreeRow(Form(r, c), Form(q, c), Xor4(c.s0, c.s1, c.s2, c.s3)) ==
      Form(FormPlus(FormPlus(FormTimesX(FormPlus(r, q)), r), ALL), c)
  {
    hide Add, Add4, Xor4, Xtime, FastRow, TableFreeRow, Form, FormTimesX;
    var xtime := Xor4(c.s0, c.s1, c.s2, c.s3);
    Xor4Stores(c.s0, c.s1, c.s2, c.s3);
    UnitForms(c);
    RowStores(Form(r, c), Form(q, c), xtime);
    FormAdd(r, q, c);
    FormXtime(FormPlus(r, q), c);
    FormAdd(FormTimesX(FormPlus(r, q)), r, c);
    FormAdd(FormPlus(FormTimesX(FormPlus(r, q)), r), ALL, c);
  }

  lemma MixForms()
    ensures FormPlus(FormPlus(FormTimesX(FormPlus(E0, E1)), E0), ALL) == MIX0
    ensures FormPlus(FormPlus(FormTimesX(FormPlus(E1, E2)), E1), ALL) == MIX1
    ensures FormPlus(FormPlus(FormTimesX(FormPlus(E2, E3)), E2), ALL) == MIX2
    ensures FormPlus(FormPlus(FormTimesX(FormPlus(E3, E0)), E3), ALL) == MIX3
  {
  }

  lemma MatrixForms(c: Column)
    ensures MixColumn(c) == Column(Form(MIX0, c), Form(MIX1, c), Form(MIX2, c), Form(MIX3, c))
    ensures InvMixColumn(c) == Column(Form(INV0, c), Form(INV1, c), Form(INV2, c), Form(INV3, c))
  {
    hide RowOf, Form, MixColumn, InvMixColumn;
    MatrixRows(c);
    RowIsForm(MIX0, c);
    RowIsForm(MIX1, c);
    RowIsForm(MIX2, c);
    RowIsForm(MIX3, c);
    RowIsForm(INV0, c);
    RowIsForm(INV1, c);
    RowIsForm(INV2, c);
    RowIsForm(INV3, c);
  }

  /** Both versions of `mix_columns` multiply by the matrix of FIPS 197. */
  lemma MixIsMatrix(c: Column)
    ensures FastMix(c) == MixColumn(c) && TableFreeMix(c) == MixColumn(c)
  {
    hide Xor4, FastRow, TableFreeRow, Form, FormPlus, FormTimesX, MixColumn;
    MatrixForms(c);
    UnitForms(c);
    MixForms();
    FastRowForm(E0, E1, c);
    FastRowForm(E1, E2, c);
    FastRowForm(E2, E3, c);
    FastRowForm(E3, E0, c);
  }

  const CUBE := Poly(false, false, false, true, false)
  const CORRECTION := Multipliers4(CUBE, CUBE, CUBE, CUBE)

  /** The correction terms of the fast inverse, as forms. */
  lemma FactorForms(c: Column)
    ensures var f1, f2 := Factor(c.s0, c.s2), Factor(c.s1, c.s3);
      && f1 == Form(FormTimesX(FormTimesX(FormPlus(E0, E2))), c)
      && f2 == Form(FormTimesX(FormTimesX(FormPlus(E1, E3))), c)
      && Store(GfHelper(IntXor(f1 as bv32, f2 as bv32))) == Form(CORRECTION, c)
  {
    hide Add, Xtime, Factor, Form, Store, GfHelper, IntXor;
    UnitForms(c);
    FactorStores(c.s0, c.s2);
    FactorStores(c.s1, c.s3);
    FactorStores(Factor(c.s0, c.s2), Factor(c.s1, c.s3));
    FormAdd(E0, E2, c);
    FormAdd(E1, E3, c);
    FormXtime(FormPlus(E0, E2), c);
    FormXtime(FormPlus(E1, E3), c);
    FormXtime(FormTimesX(FormPlus(E0, E2)), c);
    FormXtime(FormTimesX(FormPlus(E1, E3)), c);
    var r, q := FormTimesX(FormTimesX(FormPlus(E0, E2))), FormTimesX(FormTimesX(FormPlus(E1, E3)));
    FormAdd(r, q, c);
    FormXtime(FormPlus(r, q), c);
    assert FormTimesX(FormPlus(r, q)) == CORRECTION;
  }

  lemma AdjustForm(m: Multipliers4, f: Multipliers4, c: Column)
    ensures Adjust(Form(m, c), Form(CORRECTION, c), Form(f, c)) == Form(FormPlus(m, FormPlus(CORRECTION, f)), c)
  {
    hide Add, Adjust, Form, FormPlus;
    AdjustStores(Form(m, c), Form(CORRECTION, c), Form(f, c));
    FormAdd(CORRECTION, f, c);
    FormAdd(m, FormPlus(CORRECTION, f), c);
  }

  lemma InvForms()
    ensures var f1, f2 := FormTimesX(FormTimesX(FormPlus(E0, E2))), FormTimesX(FormTimesX(FormPlus(E1, E3)));
      && FormPlus(MIX0, FormPlus(CORRECTION, f1)) == INV0 && FormPlus(MIX1, FormPlus(CORRECTION, f2)) == INV1
      && FormPlus(MIX2, FormPlus(CORRECTION, f1)) == INV2 && FormPlus(MIX3, FormPlus(CORRECTION, f2)) == INV3
  {
  }

  /**
   The fast `inv_mix_columns` multiplies by the inverse matrix, although its macros nest in ints wider than a byte.
   */
  lemma FastInvIsMatrix(c: Column)
    ensures FastInvMix(c) == InvMixColumn(c)
  {
    hide FastMix, MixColumn, InvMixColumn, Adjust, Factor, Form, FormPlus, FormTimesX, Store, GfHelper, IntXor;
    MatrixForms(c);
    MixIsMatrix(c);
    FactorForms(c);
    InvForms();
    var f1, f2 := FormTimesX(FormTimesX(FormPlus(E0, E2))), FormTimesX(FormTimesX(FormPlus(E1, E3)));
    AdjustForm(MIX0, f1, c);
    AdjustForm(MIX1, f2, c);
    AdjustForm(MIX2, f1, c);
    AdjustForm(MIX3, f2, c);
  }

  lemma GfMulByMultiplier(a: bv8, p: Poly)
    requires Multiplier(p)
    ensures GfMul(a, Byte(p)) == Mul(a, Byte(p))
  {
    hide GfMul, Mul;
    GfMulIsMul(a, Byte(p));
  }

  lemma TableFreeInvRowIsRow(r: Multipliers4, c: Column)
    requires AllMultipliers(r)
    ensures TableFreeInvRow(Byte(r.k0), Byte(r.k1), Byte(r.k2), Byte(r.k3), c) == RowOf(r, c)
  {
    hide GfMul, Mul, Xor4, Add4, Byte, Multiplier;
    GfMulByMultiplier(c.s0, r.k0);
    GfMulByMultiplier(c.s1, r.k1);
    GfMulByMultiplier(c.s2, r.k2);
    GfMulByMultiplier(c.s3, r.k3);
    Xor4Stores(Mul(c.s0, Byte(r.k0)), Mul(c.s1, Byte(r.k1)), Mul(c.s2, Byte(r.k2)), Mul(c.s3, Byte(r.k3)));
  }

  /** The table-free `inv_mix_columns` multiplies by the inverse matrix as well. */
  lemma TableFreeInvIsMatrix(c: Column)
    ensures TableFreeInvMix(c) == InvMixColumn(c)
  {
    hide TableFreeInvRow, RowOf, InvMixColumn;
    MatrixRows(c);
    TableFreeInvRowIsRow(INV0, c);
    TableFreeInvRowIsRow(INV1, c);
    TableFreeInvRowIsRow(INV2, c);
    TableFreeInvRowIsRow(INV3, c);
  }
}
