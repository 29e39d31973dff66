/** Powers of two, and what shifting by them does. */
module Powers {
  function Pow2(n: nat): (p: nat)
    ensures p >= 1
  {
    if n == 0 then 1 else 2 * Pow2(n - 1)
  }

  lemma {:induction false} PowAdd(a: nat, b: nat)
    ensures Pow2(a + b) == Pow2(a) * Pow2(b)
  {
    if a > 0 {
      PowAdd(a - 1, b);
      assert Pow2(a + b) == 2 * Pow2(a - 1 + b);
      MulAssoc(2, Pow2(a - 1), Pow2(b));
    }
  }

  lemma {:induction false} PowMono(a: nat, b: nat)
    requires a <= b
    ensures Pow2(a) <= Pow2(b)
  {
    if a < b { PowMono(a, b - 1); }
  }

  lemma PowValues()
    ensures Pow2(0) == 1 && Pow2(1) == 2 && Pow2(8) == 256
    ensures Pow2(23) == 8388608 && Pow2(24) == 16777216
  {
    assert Pow2(4) == 16;
    assert Pow2(8) == 256;
    assert Pow2(12) == 4096;
    assert Pow2(16) == 65536;
    assert Pow2(20) == 1048576;
    assert Pow2(23) == 8388608;
  }

  lemma MulAssoc(a: int, b: int, c: int)
    ensures (a * b) * c == a * (b * c)
  {
  }

  lemma MulMono(a: int, b: int, c: int)
    requires a <= b && 0 <= c
    ensures a * c <= b * c
  {
  }

  lemma MulStrict(a: int, b: int, c: int)
    requires a < b && 0 < c
    ensures a * c < b * c
  {
  }

  /** Quotient and remainder are determined. */
  lemma QuotientIs(x: nat, p: nat, q: nat, r: nat)
    requires p > 0 && x == p * q + r && r < p
    ensures x / p == q && x % p == r
  {
    var d := x / p;
    assert x == p * d + x % p;
    Factor(p, q + 1, d);
    Factor(p, d + 1, q);
  }

  lemma Factor(p: nat, a: nat, b: nat)
    ensures a <= b ==> p * a <= p * b
  {
  }

  /** Halving the quotient doubles the unit of a bracket. */
  lemma HalvedBracket(q: nat, u: nat, x: nat)
    requires q * u <= x < (q + 1) * u
    ensures q / 2 * (2 * u) <= x < (q / 2 + 1) * (2 * u)
  {
    var h := q / 2;
    MulMono(2 * h, q, u);
    MulMono(q + 1, 2 * h + 2, u);
    assert (2 * h) * u == h * (2 * u) && (2 * h + 2) * u == (h + 1) * (2 * u);
  }

  /** `m >> d`, as repeated halving. */
  function Shr(m: nat, d: nat): (q: nat)
    ensures q * Pow2(d) <= m < (q + 1) * Pow2(d)
  {
    if d == 0 then m else
    var h := Shr(m, d - 1);
    HalvedBracket(h, Pow2(d - 1), m);
    h / 2
  }
}
