/**
 Integer square roots: the bitwise isqrt of kernel/audio/stt.c and the Newton iteration of
 sfp_sqrt in kernel/ai/pickle_softfp.c, both measured against the floor of the root.
 */
module SquareRoot {
  import opened Powers

  predicate IsRoot(n: nat, s: nat) { s * s <= n < (s + 1) * (s + 1) }

  /** The floor of the square root of `n`. */
  ghost function FloorSqrt(n: nat): (s: nat)
    ensures IsRoot(n, s)
  {
    if n == 0 then 0 else
    var r := FloorSqrt(n - 1);
    if (r + 1) * (r + 1) <= n then r + 1 else r
  }

  lemma RootUnique(n: nat, s: nat, t: nat)
    requires IsRoot(n, s) && IsRoot(n, t)
    ensures s == t
  {
    if s < t { Squares(s + 1, t); } else if t < s { Squares(t + 1, s); }
  }

  lemma Squares(a: nat, b: nat)
    requires a <= b
    ensures a * a <= b * b
  {
    MulMono(a, b, a);
    MulMono(a, b, b);
  }

  /** One Newton step: x = (x + n / x) >> 1. */
  function Step(n: nat, x: nat): nat
    requires x > 0
  {
    (x + n / x) / 2
  }

  /** No step ever falls below the floor of the root. */
  lemma StepAbove(n: nat, x: nat, s: nat)
    requires x > 0 && IsRoot(n, s)
    ensures Step(n, x) >= s
  {
    DivBracket(n, x);
    MeanAbove(n, x, n / x + 1, Step(n, x) + 1, s);
  }

  /** A mean of two factors of more than n is above the root. */
  lemma MeanAbove(n: nat, x: nat, y: nat, mean: nat, s: nat)
    requires n < y * x && 2 * mean >= x + y && s * s <= n
    ensures mean > s
  {
    Squares(x + y, 2 * mean);
    FourProducts(x, y);
    SquareOfDouble(mean);
    if mean <= s { Squares(mean, s); }
  }

  lemma FourProducts(a: nat, b: nat)
    ensures 4 * (a * b) <= (a + b) * (a + b)
  {
    assert (a + b) * (a + b) - 4 * (a * b) == (a - b) * (a - b);
    SquareNonNegative(a - b);
  }

  lemma SquareOfDouble(a: nat)
    ensures (2 * a) * (2 * a) == 4 * (a * a)
  {
  }

  lemma SquareNonNegative(a: int)
    ensures a * a >= 0
  {
  }

  lemma DivBracket(n: nat, x: nat)
    requires x > 0
    ensures n / x * x <= n < (n / x + 1) * x
  {
    assert n == n / x * x + n % x;
    assert (n / x + 1) * x == n / x * x + x;
  }

  /** The distance to the root is squared and divided by 2x, plus at most one. */
  lemma StepContracts(n: nat, x: nat, s: nat)
    requires x > 0 && IsRoot(n, s) && x >= s
    ensures (Step(n, x) - s - 1) * (2 * (s + (x - s))) <= (x - s) * (x - s)
  {
    DivBracket(n, x);
    assert (s + 1) * (s + 1) == s * s + 2 * s + 1;
    Contraction(n, x, n / x, Step(n, x), s);
  }

  lemma Contraction(n: int, x: int, q: int, r: int, s: int)
    requires 0 <= s <= x && 2 * r <= x + q && q * x <= n <= s * s + 2 * s
    ensures (r - s - 1) * (2 * (s + (x - s))) <= (x - s) * (x - s)
  {
    MulMono(2 * r, x + q, x);
    assert (x + q) * x == x * x + q * x;
    assert (x - s) * (x - s) == x * x - 2 * (x * s) + s * s;
    assert (r - s - 1) * (2 * x) == (2 * r) * x - 2 * (x * s) - 2 * x;
  }

  /** y*y / (c + y) grows with y. */
  lemma RatioGrows(c: nat, y: nat, e: nat)
    requires y <= e
    ensures (y * y) * (c + e) <= (e * e) * (c + y)
  {
    Squares(y, e);
    MulMono(y * y, e * e, c);
    MulMono(y, e, y * e);
    assert (y * y) * (c + e) == (y * y) * c + y * (y * e);
    assert (e * e) * (c + y) == (e * e) * c + e * (y * e);
  }

  /** If k*d <= s + a before a step, then t * 2k * ((k+1)*s + a) <= (s + a)^2 for the new
      distance t + 1. */
  lemma ScaledContraction(s: nat, d: nat, t: nat, k: nat, a: nat)
    requires k > 0 && s > 0 && k * d <= s + a && t * (2 * (s + d)) <= d * d
    ensures (t * (2 * k)) * (k * s + (s + a)) <= (s + a) * (s + a)
  {
    var y, e, c := k * d, s + a, k * s;
    var v := t * (2 * k);
    assert k * (s + d) == c + y;
    Regroup4(k, t, s + d);
    RegroupSquare(k, d);
    MulMono(t * (2 * (s + d)), d * d, k);
    MulMono(k * (t * (2 * (s + d))), k * (d * d), k);
    assert v * (c + y) <= y * y;
    RatioGrows(c, y, e);
    MulMono(v * (c + y), y * y, c + e);
    Swap(v, c + y, c + e);
    Positive(k, s, y);
    CancelFactor(v * (c + e), e * e, c + y);
  }

  lemma Regroup4(k: int, t: int, w: int)
    ensures k * (k * (t * (2 * w))) == (t * (2 * k)) * (k * w)
  {
  }

  lemma RegroupSquare(k: int, d: int)
    ensures k * (k * (d * d)) == (k * d) * (k * d)
  {
  }

  lemma Swap(v: int, p: int, q: int)
    ensures (v * p) * q == (v * q) * p
  {
  }

  lemma Positive(k: nat, s: nat, y: nat)
    requires k > 0 && s > 0
    ensures k * s + y > 0
  {
    MulStrict(0, k, s);
  }

  lemma CancelFactor(a: int, b: int, p: int)
    requires p > 0 && a * p <= b * p
    ensures a <= b
  {
    if a > b { MulStrict(b, a, p); }
  }

  /** One round of the error analysis: the bound k*d <= s + a tightens to k2*d2 <= s + a2. */
  lemma BoundTightens(s: nat, d: nat, d2: nat, k: nat, a: nat, a2: nat)
    requires k > 0 && 0x80_0000 <= s
    requires k * d <= s + a && (d2 - 1) * (2 * (s + d)) <= d * d
    requires a * a < 0x80_0000 * (a2 + 1 - 2 * k * (k + 1) - 2 * a)
    ensures 2 * k * (k + 1) * d2 <= s + a2
  {
    var k2 := 2 * k * (k + 1);
    if d2 == 0 {
      assert k2 * d2 == 0;
    } else {
      var t := d2 - 1;
      ScaledContraction(s, d, t, k, a);
      var v := t * k2;
      ExpandRound(s, t, k, a);
      if k2 * d2 > s + a2 {
        var c := a2 + 1 - k2;
        assert v >= s + c by { assert k2 * d2 == v + k2; }
        MulMono(s + c, v, s);
        assert (s + c) * s == s * s + c * s;
        assert (c - 2 * a) * s == c * s - 2 * (a * s);
        MulMono(0x80_0000, s, c - 2 * a);
      }
    }
  }

  lemma ExpandRound(s: nat, t: nat, k: nat, a: nat)
    requires (t * (2 * k)) * (k * s + (s + a)) <= (s + a) * (s + a)
    ensures (t * (2 * k * (k + 1))) * s <= s * s + 2 * (a * s) + a * a
  {
    assert (s + a) * (s + a) == s * s + 2 * (a * s) + a * a;
    assert k * s + (s + a) == (k + 1) * s + a;
    assert (t * (2 * k)) * ((k + 1) * s + a) == (t * (2 * k * (k + 1))) * s + (t * (2 * k)) * a;
    assert (t * (2 * k)) * a >= 0;
  }

  /** Four Newton steps from ma + 2^11 on n = ma * 2^23, as sfp_sqrt takes them. */
  function FourSteps(ma: nat): nat
    requires 0x80_0000 <= ma < 0x200_0000
  {
    Newton(ma * 0x80_0000, ma + 2048, 4)
  }

  /** k Newton steps from x towards the root of n. */
  function Newton(n: nat, x: nat, k: nat): nat
    requires n > 0 && x > 0
    decreases k
  {
    if k == 0 then x else RootPositive(n, x); Newton(n, Step(n, x), k - 1)
  }

  lemma RootPositive(n: nat, x: nat)
    requires n > 0 && x > 0
    ensures Step(n, x) > 0
  {
    var s := FloorSqrt(n);
    StepAbove(n, x, s);
    assert s > 0;
  }

  lemma RootRange(ma: nat, s: nat)
    requires 0x80_0000 <= ma < 0x200_0000 && IsRoot(ma * 0x80_0000, s)
    ensures 0x80_0000 <= s < 0x100_0000 && s <= ma <= 2 * s + 1
  {
    var n := ma * 0x80_0000;
    if s < 0x80_0000 { Squares(s + 1, 0x80_0000); }
    if s >= 0x100_0000 { Squares(0x100_0000, s); }
    MulMono(s + 1, 0x100_0000, s + 1);
    if ma < s {
      MulStrict(ma, s, s);
      MulMono(0x80_0000, s, ma);
    }
  }

  /** After four steps the iterate is the floor of the root or one more, for every significand. */
  lemma FourStepsRoot(ma: nat)
    requires 0x80_0000 <= ma < 0x200_0000
    ensures var s := FloorSqrt(ma * 0x80_0000); s <= FourSteps(ma) <= s + 1 && 0x80_0000 <= s < 0x100_0000
  {
    var n := ma * 0x80_0000;
    var s := FloorSqrt(n);
    RootRange(ma, s);
    var x0 := ma + 2048;
    var x1 := OneStep(n, x0, s);
    var x2 := OneStep(n, x1, s);
    var x3 := OneStep(n, x2, s);
    var x4 := OneStep(n, x3, s);
    assert Newton(n, x0, 4) == Newton(n, x1, 3) == Newton(n, x2, 2) == Newton(n, x3, 1) == Newton(n, x4, 0);
    BoundTightens(s, x0 - s, x1 - s, 1, 2049, 4102);
    BoundTightens(s, x1 - s, x2 - s, 4, 4102, 8246);
    BoundTightens(s, x2 - s, x3 - s, 40, 8246, 19780);
    LastStep(s, x3 - s, x4 - s);
  }

  lemma OneStep(n: nat, x: nat, s: nat) returns (x': nat)
    requires n > 0 && IsRoot(n, s) && x >= s > 0
    ensures x' == Step(n, x) && x' >= s
    ensures (x' - s - 1) * (2 * (s + (x - s))) <= (x - s) * (x - s)
  {
    x' := Step(n, x);
    StepAbove(n, x, s);
    StepContracts(n, x, s);
  }

  lemma LastStep(s: nat, d: nat, d2: nat)
    requires 0x80_0000 <= s < 0x100_0000
    requires 3280 * d <= s + 19780 && (d2 - 1) * (2 * (s + d)) <= d * d
    ensures d2 <= 1
  {
    if d2 > 1 {
      var t := d2 - 1;
      ScaledContraction(s, d, t, 3280, 19780);
      ExpandRound(s, t, 3280, 19780);
      MulMono(1, t, 21523360 * s);
      assert (t * (2 * 3280 * (3280 + 1))) * s == t * (21523360 * s);
      MulMono(s, 0xFF_FFFF, s);
    }
  }

  // ----- isqrt and isqrt64 of the speech recogniser ---------------------------------------

  /** The bitwise search shared by isqrt (16 bits) and isqrt64 (32 bits). */
  method BitwiseRoot(v: nat, width: nat) returns (root: nat)
    requires width > 0 && v < Pow2(width) * Pow2(width)
    ensures root == FloorSqrt(v) && root < Pow2(width)
  {
    root := 0;
    var bit := Pow2(width - 1);
    ghost var bits := width;
    assert Pow2(width) * Pow2(width) == (root + Pow2(bits)) * (root + Pow2(bits));
    while bit > 0
      invariant 0 <= bits <= width && bit == if bits > 0 then Pow2(bits - 1) else 0
      invariant root * root <= v < (root + Pow2(bits)) * (root + Pow2(bits))
      invariant root + Pow2(bits) <= Pow2(width)
    {
      var trial := root + bit;
      assert trial + bit == root + Pow2(bits);
      if trial * trial <= v { root := trial; }
      bit := bit / 2;
      bits := bits - 1;
    }
    RootUnique(v, root, FloorSqrt(v));
  }
}
