/** Powers of two, and the few facts about them that sizes, orders and aligned positions need. */
module PowersOfTwo {

  /** `1 << n` on an unbounded integer. */
  function Pow2(n: nat): (r: nat)
    ensures r >= 1
  {
    if n == 0 then 1 else 2 * Pow2(n - 1)
  }

  lemma {:induction false} Pow2Add(a: nat, b: nat)
    ensures Pow2(a + b) == Pow2(a) * Pow2(b)
  {
    if a == 0 {
    } else {
      Pow2Add(a - 1, b);
      assert a + b - 1 == a - 1 + b;
      assert Pow2(a) * Pow2(b) == 2 * (Pow2(a - 1) * Pow2(b));
    }
  }

  lemma {:induction false} Pow2Monotone(a: nat, b: nat)
    requires a <= b
    ensures Pow2(a) <= Pow2(b)
    decreases b - a
  {
    if a == b {
    } else {
      Pow2Monotone(a + 1, b);
    }
  }

  lemma MulMonotone(a: nat, b: nat, n: nat)
    requires a <= b
    ensures a * n <= b * n
  {
    assert (b - a) * n >= 0;
  }

  lemma OneLessTimes(a: nat, b: nat)
    requires a > 0
    ensures (a - 1) * b == a * b - b
  {
  }

  /** Quotient and remainder are determined by their defining equation. */
  lemma DivModUnique(x: nat, n: nat, q: nat, r: nat)
    requires x == q * n + r && r < n
    ensures x / n == q && x % n == r
  {
    var q', r' := x / n, x % n;
    assert x == q' * n + r';
    if q < q' {
      MulMonotone(q + 1, q', n);
    } else if q' < q {
      MulMonotone(q' + 1, q, n);
    }
  }

  /** Of two aligned blocks of one size, the lower ends before the higher begins. */
  lemma MultipleIsBelow(p: nat, q: nat, n: nat)
    requires n > 0 && p % n == 0 && q % n == 0 && p < q
    ensures p + n <= q
  {
    var i, j := p / n, q / n;
    if i + 1 <= j {
      MulMonotone(i + 1, j, n);
    } else {
      MulMonotone(j, i, n);
    }
  }

  lemma NextMultiple(p: nat, n: nat)
    requires n > 0 && p % n == 0
    ensures (p + n) % n == 0
    ensures forall q: nat :: p < q < p + n ==> q % n != 0
  {
    var k := p / n;
    DivModUnique(p + n, n, k + 1, 0);
    forall q: nat | p < q < p + n
      ensures q % n != 0
    {
      DivModUnique(q, n, k, q - p);
    }
  }

  /** The first multiple of n from x on. */
  function RoundUp(x: nat, n: nat): (r: nat)
    requires n > 0
    ensures r % n == 0 && x <= r < x + n
  {
    var k := (x + n - 1) / n;
    DivModUnique(k * n, n, k, 0);
    k * n
  }

  lemma RoundUpMultiple(x: nat, n: nat)
    requires n > 0 && x % n == 0
    ensures RoundUp(x, n) == x
  {
    hide RoundUp;
    if x < RoundUp(x, n) {
      MultipleIsBelow(x, RoundUp(x, n), n);
    }
  }

  /** A multiple of `a * b` is a multiple of `a`. */
  lemma MultipleOfFactor(p: nat, a: nat, b: nat)
    requires a > 0 && b > 0 && p % (a * b) == 0
    ensures p % a == 0
  {
    var k := p / (a * b);
    assert p == k * (a * b) == (k * b) * a;
    DivModUnique(p, a, k * b, 0);
  }

  /** A multiple of `a` leaves a multiple of `a` when divided by `a * b`. */
  lemma RemainderOfMultiple(p: nat, a: nat, b: nat)
    requires a > 0 && b > 0 && p % a == 0
    ensures p % (a * b) % a == 0
  {
    var q, d, r := p / a, p / (a * b), p % (a * b);
    assert p == q * a && p == d * (a * b) + r;
    assert d * (a * b) == (d * b) * a;
    assert r == (q - d * b) * a;
    if q < d * b {
      assert false;
    }
    DivModUnique(r, a, q - d * b, 0);
  }

  lemma MultipleMod(a: nat, b: nat)
    requires a > 0
    ensures a * b % a == 0
  {
    DivModUnique(a * b, a, b, 0);
  }
}
