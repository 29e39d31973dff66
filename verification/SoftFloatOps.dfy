/**
 Multiplication, division and square root of kernel/ai/pickle_softfp.c, against the exact
 product, quotient and root (section 4.3 of IEEE 754-2008 defines the roundings named here).
 */
module SoftFloatOps {
  import opened Powers
  import opened SoftFloat
  import opened SquareRoot

  const TWO46 := 0x4000_0000_0000
  const TWO47 := 0x8000_0000_0000

  function XorSign(s: nat, t: nat): (r: nat)
    ensures r <= 1
  {
    if s == t then 0 else 1
  }

  /** The values of the operands have the signs of the bit patterns, and none of them is zero. */
  lemma ScaledSign(a: Bits)
    requires Unpack(a).mant != 0
    ensures Magnitude(a) > 0 && Abs(Scaled(a)) == Magnitude(a)
    ensures Scaled(a) < 0 <==> Unpack(a).sign == 1
  {
    MulMono(1, Unpack(a).mant, Pow2(Unpack(a).exp - 1));
  }

  lemma ZeroScaled(a: Bits)
    ensures Scaled(a) == 0 <==> Unpack(a).mant == 0
  {
    if Unpack(a).mant != 0 { ScaledSign(a); }
  }

  lemma SignedProduct(s: nat, t: nat, x: int, y: int)
    requires s <= 1 && t <= 1
    ensures Signed(s, x) * Signed(t, y) == Signed(XorSign(s, t), x * y)
  {
    assert (-x) * y == -(x * y) && x * (-y) == -(x * y) && (-x) * (-y) == x * y;
  }

  /** The sign of the exact product or quotient of two numbers that are not zero. */
  lemma SignOfProduct(a: Bits, b: Bits)
    requires Unpack(a).mant != 0 && Unpack(b).mant != 0
    ensures XorSign(Unpack(a).sign, Unpack(b).sign) == if (Scaled(a) < 0) == (Scaled(b) < 0) then 0 else 1
    ensures Scaled(a) * Scaled(b) == Signed(XorSign(Unpack(a).sign, Unpack(b).sign), Magnitude(a) * Magnitude(b))
  {
    ScaledSign(a);
    ScaledSign(b);
    SignedProduct(Unpack(a).sign, Unpack(b).sign, Magnitude(a), Magnitude(b));
  }

  /** The largest finite number of the sign that the exact product and quotient of a and b have. */
  function Saturated(a: Bits, b: Bits): Bits {
    if (Scaled(a) < 0) == (Scaled(b) < 0) then 0x7F7F_FFFF else 0xFF7F_FFFF
  }

  // ----- Multiplication -----------------------------------------------------------------

  /** The 24-bit significand that sfp_mul keeps of a normalised product, after its rounding test. */
  function RoundedSignificand(prod: nat): nat {
    var mant, rem := prod / HIDDEN, prod % HIDDEN;
    if rem > 0x40_0000 || (rem == 0x40_0000 && mant % 2 == 1) then mant + 1 else mant
  }

  /** x / (2 * half), rounded to nearest, ties to even. */
  function NearestEven(x: nat, half: nat): nat
    requires half > 0
  {
    var q, rem := x / (2 * half), x % (2 * half);
    if rem > half || (rem == half && q % 2 == 1) then q + 1 else q
  }

  /** Half a unit of the last place, in units of the full product. */
  function HalfUnit(prod: nat): nat { if prod < TWO47 then 0x40_0000 else HIDDEN }

  function ProductSignificand(prod: nat): nat {
    RoundedSignificand(if prod < TWO47 then prod else prod / 2)
  }

  function Mul(a: Bits, b: Bits): Bits {
    var p, q := Unpack(a), Unpack(b);
    if p.mant == 0 || q.mant == 0 then 0 else
    var prod := p.mant * q.mant;
    var e := p.exp + q.exp - 127;
    Packed(XorSign(p.sign, q.sign), if prod < TWO47 then e else e + 1, ProductSignificand(prod))
  }

  lemma ProductRange(m: nat, n: nat)
    requires HIDDEN <= m < TWICE && HIDDEN <= n < TWICE
    ensures TWO46 <= m * n < 4 * TWO46
  {
    MulMono(HIDDEN, m, n);
    MulStrict(m, TWICE, n);
  }

  lemma HalvedOnce(m: nat, e: int, hi: nat)
    requires 0 < hi && m < 2 * hi
    ensures ShiftDown(m, e, hi) == if m >= hi then (m / 2, e + 1) else (m, e)
  {
  }

  /** sfp_mul: the first loop never runs, the second at most once. */
  method Multiply(a: Bits, b: Bits) returns (r: Bits)
    ensures r == Mul(a, b)
  {
    var p, q := Unpack(a), Unpack(b);
    if p.mant == 0 || q.mant == 0 { return 0; }
    ProductRange(p.mant, q.mant);
    var prod := p.mant * q.mant;
    var e: int := p.exp + q.exp - 127;
    ghost var p0, e0 := prod, e;
    while prod < TWO46 && e > 1
      invariant prod > 0 && ShiftUp(prod, e, TWO46) == ShiftUp(p0, e0, TWO46)
      decreases e
    {
      prod, e := prod * 2, e - 1;
    }
    while prod >= TWO47
      invariant prod >= 0 && ShiftDown(prod, e, TWO47) == ShiftDown(p0, e0, TWO47)
      decreases prod
    {
      prod, e := prod / 2, e + 1;
    }
    HalvedOnce(p0, e0, TWO47);
    var mant := prod / HIDDEN;
    var rem := prod % HIDDEN;
    if rem > 0x40_0000 || (rem == 0x40_0000 && mant % 2 == 1) {
      mant := mant + 1;
    }
    r := Pack(XorSign(p.sign, q.sign), e, mant);
  }

  lemma MulCommutes(a: Bits, b: Bits)
    ensures Mul(a, b) == Mul(b, a)
  {
  }

  /** The rounding is to nearest, ties to even, except in one case: the normalising shift drops
      a set bit, what is left looks like a tie, and the kept significand is even. */
  lemma ProductRounding(prod: nat)
    requires TWO46 <= prod < 4 * TWO46
    ensures HIDDEN <= ProductSignificand(prod) <= TWICE
    ensures ProductSignificand(prod) == NearestEven(prod, HalfUnit(prod)) <==>
            !FalseTie(prod)
    ensures Abs(ProductSignificand(prod) * (2 * HalfUnit(prod)) - prod) <=
            if prod < TWO47 then HalfUnit(prod) else HalfUnit(prod) + 1
  {
    if prod >= TWO47 {
      assert prod / 2 / HIDDEN == prod / TWICE;
      assert prod % TWICE == 2 * (prod / 2 % HIDDEN) + prod % 2;
    }
  }

  /** The exponent of the product before clamping to the format. */
  function ProductExponent(e: int, prod: nat): int {
    e + (if prod < TWO47 then 0 else 1) + if ProductSignificand(prod) == TWICE then 1 else 0
  }

  lemma PackProduct(sign: nat, e: int, prod: nat)
    requires sign <= 1 && TWO46 <= prod < 4 * TWO46
    ensures var m, f := ProductSignificand(prod), ProductExponent(e, prod);
            && HIDDEN <= m <= TWICE
            && Packed(sign, if prod < TWO47 then e else e + 1, m) ==
               if f <= 0 then 0
               else if f >= 255 then MaxFinite(sign)
               else Encode(sign, f, if m == TWICE then HIDDEN else m)
  {
    var m := ProductSignificand(prod);
    var g := if prod < TWO47 then e else e + 1;
    ProductRounding(prod);
    if m == TWICE {
      PackWide(sign, g, m);
      PackNormal(sign, g + 1, HIDDEN);
    } else {
      PackNormal(sign, g, m);
    }
  }

  /** The exponent n of the scale: Scaled is the value times 2^n. */
  predicate IsScale(n: nat) { n + 1 == 150 }

  /** The result of an in-range product on the scale 2^(2n): its significand times one unit. */
  lemma {:induction false} ProductScaled(r: Bits, sign: nat, e: int, prod: nat, n: nat, k: nat)
    requires sign <= 1 && TWO46 <= prod < 4 * TWO46 && IsScale(n) && e + 127 == k + 2
    requires 1 <= ProductExponent(e, prod) <= 254
    requires r == Packed(sign, if prod < TWO47 then e else e + 1, ProductSignificand(prod))
    ensures Unpack(r).mant != 0 && Unpack(r).sign == sign
    ensures Magnitude(r) * Pow2(n) == (ProductSignificand(prod) * (2 * HalfUnit(prod))) * Pow2(k)
    ensures (2 * HalfUnit(prod)) * Pow2(k) <= Ulp(r) * Pow2(n)
  {
    var m, f := ProductSignificand(prod), ProductExponent(e, prod);
    PackProduct(sign, e, prod);
    var w := 2 * HalfUnit(prod);
    var c := if m == TWICE then 1 else 0;
    ProductPowers(f, n, k, if prod < TWO47 then 23 else 24, c, w);
    MulAssoc(m, w, Pow2(k));
    MulAssoc(Unpack(r).mant, Pow2(f - 1), Pow2(n));
  }

  lemma ProductPowers(f: nat, n: nat, k: nat, j: nat, c: nat, w: nat)
    requires f >= 1 && f - 1 + n == j + k + c && c <= 1
    requires (j == 23 && w == HIDDEN) || (j == 24 && w == TWICE)
    ensures Pow2(f - 1) * Pow2(n) == (c + 1) * (w * Pow2(k))
  {
    PowAdd(f - 1, n);
    PowAdd(j, k);
    PowValues();
  }

  /** NearestEven is rounding to nearest, ties to even. */
  lemma NearestEvenIs(x: nat, half: nat, r: nat)
    requires half == 0x40_0000 || half == HIDDEN
    ensures r == NearestEven(x, half) <==>
            Abs(r * (2 * half) - x) <= half && (Abs(r * (2 * half) - x) == half ==> r % 2 == 0)
  {
  }

  /** The normalising shift drops a set bit, what is left looks like a tie, and the significand kept is even. */
  predicate FalseTie(prod: nat) {
    prod >= TWO47 && prod % 2 == 1 && prod / 2 % HIDDEN == 0x40_0000 && prod / TWICE % 2 == 0
  }

  /** The product rounded to nearest, ties to even, at the exponent that sfp_mul gives it. */
  function CorrectProduct(a: Bits, b: Bits): Bits
    requires Unpack(a).mant != 0 && Unpack(b).mant != 0
  {
    var p, q := Unpack(a), Unpack(b);
    var prod: nat := p.mant * q.mant;
    var e := p.exp + q.exp - 127;
    Packed(if (Scaled(a) < 0) == (Scaled(b) < 0) then 0 else 1, if prod < TWO47 then e else e + 1,
           NearestEven(prod, HalfUnit(prod)))
  }

  /** In range, sfp_mul is correctly rounded exactly when the product of the significands is no false tie. */
  lemma MulNearestEven(a: Bits, b: Bits)
    requires Unpack(a).mant != 0 && Unpack(b).mant != 0
    requires 1 <= ProductExponent(Unpack(a).exp + Unpack(b).exp - 127, Unpack(a).mant * Unpack(b).mant) <= 254
    ensures Mul(a, b) == CorrectProduct(a, b) <==> !FalseTie(Unpack(a).mant * Unpack(b).mant)
  {
    var p, q := Unpack(a), Unpack(b);
    ProductRange(p.mant, q.mant);
    SignOfProduct(a, b);
    ProductNearestEven(XorSign(p.sign, q.sign), p.exp + q.exp - 127, p.mant * q.mant);
  }

  lemma ProductNearestEven(sign: nat, e: int, prod: nat)
    requires sign <= 1 && TWO46 <= prod < 4 * TWO46 && 1 <= ProductExponent(e, prod) <= 254
    ensures var f := if prod < TWO47 then e else e + 1;
            Packed(sign, f, ProductSignificand(prod)) == Packed(sign, f, NearestEven(prod, HalfUnit(prod))) <==>
            !FalseTie(prod)
  {
    ProductRounding(prod);
    if FalseTie(prod) {
      var m := ProductSignificand(prod);
      FalseTieShort(prod);
      PackNormal(sign, e + 1, m);
      PackNormal(sign, e + 1, m + 1);
      assert Unpack(Encode(sign, e + 1, m)).mant != Unpack(Encode(sign, e + 1, m + 1)).mant;
    }
  }

  /** At a false tie the significand is one too small. */
  lemma FalseTieShort(prod: nat)
    requires TWO46 <= prod < 4 * TWO46 && FalseTie(prod)
    ensures NearestEven(prod, HalfUnit(prod)) == ProductSignificand(prod) + 1 < TWICE
  {
    assert prod / 2 / HIDDEN == prod / TWICE;
    assert prod % TWICE == 2 * (prod / 2 % HIDDEN) + prod % 2;
  }

  /** Two factors whose product is a false tie: the result is one unit below the correct one. */
  lemma FalseTieWitness()
    ensures Mul(0x3F80_0C3D, 0x3FFF_EB15) == 0x4000_01C6 && CorrectProduct(0x3F80_0C3D, 0x3FFF_EB15) == 0x4000_01C7
  {
    assert Unpack(0x3F80_0C3D) == Parts(0, 127, 0x80_0C3D) && Unpack(0x3FFF_EB15) == Parts(0, 127, 0xFF_EB15);
    var prod: nat := 0x80_0C3D * 0xFF_EB15;
    assert TWO47 <= prod < 4 * TWO46;
    assert ProductSignificand(prod) == 0x80_01C6 && NearestEven(prod, HalfUnit(prod)) == 0x80_01C7;
    PackNormal(0, 128, 0x80_01C6);
    PackNormal(0, 128, 0x80_01C7);
  }

  /** `r` is within 1/2 + 2^-24 of a unit in its last place of x, on the scale 2^(2n). */
  predicate NearProduct(r: Bits, n: nat, x: int) {
    Unpack(r).mant != 0 && Abs(Scaled(r) * Pow2(n) - x) * TWICE <= (HIDDEN + 1) * (Ulp(r) * Pow2(n))
  }

  predicate NearMagnitude(r: Bits, n: nat, x: int) {
    Unpack(r).mant != 0 && Abs(Magnitude(r) * Pow2(n) - x) * TWICE <= (HIDDEN + 1) * (Ulp(r) * Pow2(n))
  }

  /** The same of magnitudes, for operands that are not zero. */
  lemma MulMagnitude(a: Bits, b: Bits, n: nat)
    requires Unpack(a).mant != 0 && Unpack(b).mant != 0 && IsScale(n)
    ensures var p, q, r := Unpack(a), Unpack(b), Mul(a, b);
            var f := ProductExponent(p.exp + q.exp - 127, p.mant * q.mant);
            if f <= 0 then r == 0
            else if f >= 255 then r == MaxFinite(XorSign(p.sign, q.sign))
            else Unpack(r).sign == XorSign(p.sign, q.sign) && NearMagnitude(r, n, Magnitude(a) * Magnitude(b))
  {
    var p, q := Unpack(a), Unpack(b);
    ProductRange(p.mant, q.mant);
    MulParts(p, q, Mul(a, b), n, p.mant * q.mant, Magnitude(a) * Magnitude(b));
  }

  /** For all operands: in range, the product is within 1/2 + 2^-24 of a unit in the last place of the
      exact one; beyond the range it saturates with the sign of the exact one, below it is flushed to zero. */
  lemma MulError(a: Bits, b: Bits, n: nat)
    requires IsScale(n)
    ensures var p, q, r := Unpack(a), Unpack(b), Mul(a, b);
            var f := ProductExponent(p.exp + q.exp - 127, p.mant * q.mant);
            if Scaled(a) == 0 || Scaled(b) == 0 || f <= 0 then r == 0
            else if f >= 255 then r == Saturated(a, b)
            else NearProduct(r, n, Scaled(a) * Scaled(b))
  {
    ZeroScaled(a);
    ZeroScaled(b);
    if Unpack(a).mant != 0 && Unpack(b).mant != 0 { MulNonzero(a, b, n); }
  }

  lemma MulNonzero(a: Bits, b: Bits, n: nat)
    requires Unpack(a).mant != 0 && Unpack(b).mant != 0 && IsScale(n)
    ensures var p, q, r := Unpack(a), Unpack(b), Mul(a, b);
            var f := ProductExponent(p.exp + q.exp - 127, p.mant * q.mant);
            if f <= 0 then r == 0
            else if f >= 255 then r == Saturated(a, b)
            else NearProduct(r, n, Scaled(a) * Scaled(b))
  {
    SignOfProduct(a, b);
    MulMagnitude(a, b, n);
    ProductSigned(Mul(a, b), XorSign(Unpack(a).sign, Unpack(b).sign), n, Magnitude(a) * Magnitude(b),
                  ProductExponent(Unpack(a).exp + Unpack(b).exp - 127, Unpack(a).mant * Unpack(b).mant));
  }

  /** What is known of magnitude and sign, as one statement about values. */
  lemma ProductSigned(r: Bits, sign: nat, n: nat, x: nat, f: int)
    requires 1 <= f <= 254 ==> Unpack(r).sign == sign && NearMagnitude(r, n, x)
    ensures 1 <= f <= 254 ==> NearProduct(r, n, Signed(sign, x))
  {
    if 1 <= f <= 254 { SignedError(r, n, sign, x); }
  }

  lemma SignedError(r: Bits, n: nat, sign: nat, x: nat)
    requires Unpack(r).sign == sign && NearMagnitude(r, n, x)
    ensures NearProduct(r, n, Signed(sign, x))
  {
    var m: int := Magnitude(r);
    assert (-m) * Pow2(n) == -(m * Pow2(n));
  }

  lemma MulParts(p: Parts, q: Parts, r: Bits, n: nat, prod: nat, exact: int)
    requires Normal(p) && Normal(q) && IsScale(n) && prod == p.mant * q.mant && TWO46 <= prod < 4 * TWO46
    requires r == Packed(XorSign(p.sign, q.sign), p.exp + q.exp - if prod < TWO47 then 127 else 126,
                         ProductSignificand(prod))
    requires exact == (p.mant * Pow2(p.exp - 1)) * (q.mant * Pow2(q.exp - 1))
    ensures var f := ProductExponent(p.exp + q.exp - 127, prod);
            if f <= 0 then r == 0
            else if f >= 255 then r == MaxFinite(XorSign(p.sign, q.sign))
            else Unpack(r).sign == XorSign(p.sign, q.sign) && NearMagnitude(r, n, exact)
  {
    var e := p.exp + q.exp - 127;
    var sign := XorSign(p.sign, q.sign);
    PackProduct(sign, e, prod);
    var f := ProductExponent(e, prod);
    if 1 <= f <= 254 {
      var k := p.exp - 1 + (q.exp - 1);
      ProductScaled(r, sign, e, prod, n, k);
      assert exact == prod * Pow2(k) by {
        PowAdd(p.exp - 1, q.exp - 1);
        Regroup(p.mant, Pow2(p.exp - 1), q.mant, Pow2(q.exp - 1));
      }
      ProductRounding(prod);
      ErrorBound(ProductSignificand(prod) * (2 * HalfUnit(prod)), prod, 2 * HalfUnit(prod), Pow2(k), Ulp(r) * Pow2(n));
    }
  }

  lemma ErrorBound(x: int, y: int, w: int, unit: nat, ulp: int)
    requires (w == HIDDEN && Abs(x - y) <= 0x40_0000) || (w == TWICE && Abs(x - y) <= HIDDEN + 1)
    requires w * unit <= ulp
    ensures Abs(x * unit - y * unit) * TWICE <= (HIDDEN + 1) * ulp
  {
    var d := Abs(x - y);
    AbsProduct(x, y, unit);
    assert d * TWICE <= (HIDDEN + 1) * w;
    MulMono(d * TWICE, (HIDDEN + 1) * w, unit);
    Swap(d, TWICE, unit);
    MulAssoc(HIDDEN + 1, w, unit);
  }

  lemma AbsProduct(x: int, y: int, unit: nat)
    ensures Abs(x * unit - y * unit) == Abs(x - y) * unit
  {
    assert x * unit - y * unit == (x - y) * unit;
    if x >= y { MulMono(0, x - y, unit); } else { MulMono(0, y - x, unit); }
  }

  lemma Regroup(m: nat, u: nat, n: nat, v: nat)
    ensures (m * u) * (n * v) == (m * n) * (u * v)
  {
  }

  // ----- Division -----------------------------------------------------------------------

  /** The integer quotient of the significands, scaled by 2^24. */
  function Quotient(m: nat, n: nat): (q: nat)
    requires n > 0
    ensures q * n <= m * TWICE < (q + 1) * n
  {
    DivBracket(m * TWICE, n);
    m * TWICE / n
  }

  /** sfp_div. */
  function Div(a: Bits, b: Bits): Bits {
    var p, q := Unpack(a), Unpack(b);
    if q.mant == 0 then MaxFinite(p.sign)
    else if p.mant == 0 then 0
    else
      var quot := Quotient(p.mant, q.mant);
      var e := p.exp - q.exp + 127;
      Packed(XorSign(p.sign, q.sign), if quot < TWICE then e else e + 1, if quot < TWICE then quot else quot / 2)
  }

  lemma QuotientRange(m: nat, n: nat)
    requires HIDDEN <= m < TWICE && HIDDEN <= n < TWICE
    ensures HIDDEN <= Quotient(m, n) < 2 * TWICE
  {
    var quot := Quotient(m, n);
    if quot < HIDDEN { MulMono(quot + 1, HIDDEN, n); }
    if quot >= 2 * TWICE { MulMono(2 * TWICE, quot, n); }
  }

  method Divide(a: Bits, b: Bits) returns (r: Bits)
    ensures r == Div(a, b)
  {
    var p, q := Unpack(a), Unpack(b);
    if q.mant == 0 {
      r := Pack(p.sign, 254, TWICE - 1);
      PackNormal(p.sign, 254, TWICE - 1);
      return;
    }
    if p.mant == 0 { return 0; }
    QuotientRange(p.mant, q.mant);
    var e: int := p.exp - q.exp + 127;
    var quot := p.mant * TWICE / q.mant;
    ghost var q0, e0 := quot, e;
    while quot < HIDDEN && e > 1
      invariant quot > 0 && ShiftUp(quot, e, HIDDEN) == ShiftUp(q0, e0, HIDDEN)
      decreases e
    {
      quot, e := quot * 2, e - 1;
    }
    while quot >= TWICE
      invariant quot >= 0 && ShiftDown(quot, e, TWICE) == ShiftDown(q0, e0, TWICE)
      decreases quot
    {
      quot, e := quot / 2, e + 1;
    }
    HalvedOnce(q0, e0, TWICE);
    r := Pack(XorSign(p.sign, q.sign), e, quot);
  }

  /** The exponent of the quotient before clamping. */
  function QuotientExponent(p: Parts, q: Parts): int
    requires q.mant > 0
  {
    p.exp - q.exp + if Quotient(p.mant, q.mant) < TWICE then 127 else 128
  }

  /** `r` is x/y cut toward zero to 24 bits: of the sign of the quotient, at most as large, and one unit
      more would be too large. */
  predicate CutQuotient(r: Bits, x: int, y: int) {
    && Unpack(r).mant != 0 && (Scaled(r) < 0 <==> (x < 0) != (y < 0))
    && Abs(Scaled(r)) * Abs(y) <= Abs(x) < (Abs(Scaled(r)) + Ulp(r)) * Abs(y)
  }

  /** The same of magnitudes. */
  predicate CutMagnitude(r: Bits, x: int, y: int) {
    Unpack(r).mant != 0 && Magnitude(r) * y <= x < (Magnitude(r) + Ulp(r)) * y
  }

  lemma SignedQuotient(r: Bits, a: Bits, b: Bits, c: nat, n: nat)
    requires Unpack(a).mant != 0 && Unpack(b).mant != 0 && 1 <= c
    requires Unpack(r).mant != 0 && Unpack(r).sign == XorSign(Unpack(a).sign, Unpack(b).sign)
    requires CutMagnitude(r, (c * Magnitude(a)) * Pow2(n), Magnitude(b))
    ensures CutQuotient(r, (c * Scaled(a)) * Pow2(n), Scaled(b))
  {
    ScaledSign(b);
    ScaledSign(r);
    SignOfProduct(a, b);
    DividendSign(a, c, Pow2(n));
  }

  lemma DividendSign(a: Bits, c: nat, t: nat)
    requires Unpack(a).mant != 0 && c >= 1 && t >= 1
    ensures Abs((c * Scaled(a)) * t) == (c * Magnitude(a)) * t && ((c * Scaled(a)) * t < 0 <==> Scaled(a) < 0)
  {
    ScaledSign(a);
    ScaledDividend(c, Magnitude(a), t);
  }

  lemma ScaledDividend(c: int, x: int, t: int)
    requires c >= 1 && x >= 1 && t >= 1
    ensures (c * -x) * t == -((c * x) * t) && (c * x) * t > 0
  {
    MulMono(1, c, x);
    MulMono(1, c * x, t);
    assert c * -x == -(c * x);
  }

  /** For all operands: in range, sfp_div is 2*a/b -- not a/b -- cut to 24 bits toward zero: the dividend is
      scaled by 2^24 for a 24-bit quotient, one place more than the exponent accounts for.  Dividing by zero
      gives the largest finite number of the dividend's sign. */
  lemma DivTruncatesTwice(a: Bits, b: Bits, n: nat)
    requires IsScale(n)
    ensures var p, q, r := Unpack(a), Unpack(b), Div(a, b);
            if Scaled(b) == 0 then r == if a >= 0x8000_0000 then 0xFF7F_FFFF else 0x7F7F_FFFF
            else if Scaled(a) == 0 || QuotientExponent(p, q) <= 0 then r == 0
            else if QuotientExponent(p, q) >= 255 then r == Saturated(a, b)
            else CutQuotient(r, (2 * Scaled(a)) * Pow2(n), Scaled(b))
  {
    ZeroScaled(a);
    ZeroScaled(b);
    if Unpack(a).mant != 0 && Unpack(b).mant != 0 {
      DivParts(Unpack(a), Unpack(b), Div(a, b), n, Magnitude(a), Magnitude(b));
      QuotientSigned(Div(a, b), a, b, 2, n, QuotientExponent(Unpack(a), Unpack(b)));
    }
  }

  lemma QuotientSigned(r: Bits, a: Bits, b: Bits, c: nat, n: nat, f: int)
    requires Unpack(a).mant != 0 && Unpack(b).mant != 0 && 1 <= c
    requires var sign := XorSign(Unpack(a).sign, Unpack(b).sign);
             if f <= 0 then r == 0
             else if f >= 255 then r == MaxFinite(sign)
             else Unpack(r).sign == sign && CutMagnitude(r, (c * Magnitude(a)) * Pow2(n), Magnitude(b))
    ensures if f <= 0 then r == 0
            else if f >= 255 then r == Saturated(a, b)
            else CutQuotient(r, (c * Scaled(a)) * Pow2(n), Scaled(b))
  {
    SignOfProduct(a, b);
    if 1 <= f <= 254 { SignedQuotient(r, a, b, c, n); }
  }

  lemma CutEncoded(sign: nat, e: nat, m: nat, x: int, y: int)
    requires sign <= 1 && 1 <= e <= 254 && HIDDEN <= m < TWICE
    requires (m * Pow2(e - 1)) * y <= x < (m * Pow2(e - 1) + Pow2(e - 1)) * y
    ensures Unpack(Encode(sign, e, m)).sign == sign && CutMagnitude(Encode(sign, e, m), x, y)
  {
    assert Unpack(Encode(sign, e, m)) == Parts(sign, e, m);
  }

  predicate Normal(p: Parts) { p.sign <= 1 && 1 <= p.exp <= 254 && HIDDEN <= p.mant < TWICE }

  lemma DivParts(p: Parts, q: Parts, r: Bits, n: nat, x: nat, y: nat)
    requires Normal(p) && Normal(q) && IsScale(n) && x == p.mant * Pow2(p.exp - 1) && y == q.mant * Pow2(q.exp - 1)
    requires var quot := Quotient(p.mant, q.mant);
             r == Packed(XorSign(p.sign, q.sign), p.exp - q.exp + if quot < TWICE then 127 else 128,
                         if quot < TWICE then quot else quot / 2)
    ensures var f := QuotientExponent(p, q);
            if f <= 0 then r == 0
            else if f >= 255 then r == MaxFinite(XorSign(p.sign, q.sign))
            else Unpack(r).sign == XorSign(p.sign, q.sign) && CutMagnitude(r, (2 * x) * Pow2(n), y)
  {
    var quot := Quotient(p.mant, q.mant);
    QuotientRange(p.mant, q.mant);
    var sign, f := XorSign(p.sign, q.sign), QuotientExponent(p, q);
    var m := if quot < TWICE then quot else quot / 2;
    var c := if quot < TWICE then 0 else 1;
    PackNormal(sign, f, m);
    if 1 <= f <= 254 {
      QuotientBracket(quot, p.mant * TWICE, q.mant, m, c);
      QuotientScaled(p.mant, q.mant, m, c, p.exp, q.exp, f, n);
      CutEncoded(sign, f, m, (2 * x) * Pow2(n), y);
    }
  }

  lemma QuotientBracket(quot: nat, x: nat, n: nat, m: nat, c: nat)
    requires quot * n <= x < (quot + 1) * n
    requires if quot < TWICE then m == quot && c == 0 else m == quot / 2 && c == 1
    ensures m * (Pow2(c) * n) <= x < (m + 1) * (Pow2(c) * n)
  {
    if c == 1 { HalvedBracket(quot, n, x); }
    assert Pow2(c) == c + 1;
  }

  lemma QuotientScaled(ma: nat, mb: nat, m: nat, c: nat, ea: nat, eb: nat, f: nat, n: nat)
    requires 1 <= ea && 1 <= eb && 1 <= f && f + eb == ea + 127 + c && IsScale(n)
    requires m * (Pow2(c) * mb) <= ma * TWICE < (m + 1) * (Pow2(c) * mb)
    ensures (m * Pow2(f - 1)) * (mb * Pow2(eb - 1)) <= (2 * (ma * Pow2(ea - 1))) * Pow2(n)
    ensures (2 * (ma * Pow2(ea - 1))) * Pow2(n) < (m * Pow2(f - 1) + Pow2(f - 1)) * (mb * Pow2(eb - 1))
  {
    var unit := Pow2(ea + 125);
    DividendScaled(ma, ea, n);
    DivisorPowers(c, ea, eb, f);
    Spread(m, Pow2(f - 1), mb, Pow2(eb - 1), Pow2(c), unit);
    Spread(m + 1, Pow2(f - 1), mb, Pow2(eb - 1), Pow2(c), unit);
    MulMono(m * (Pow2(c) * mb), ma * TWICE, unit);
    MulStrict(ma * TWICE, (m + 1) * (Pow2(c) * mb), unit);
    assert (m + 1) * Pow2(f - 1) == m * Pow2(f - 1) + Pow2(f - 1);
  }

  lemma DividendScaled(ma: nat, ea: nat, n: nat)
    requires 1 <= ea && IsScale(n)
    ensures (2 * (ma * Pow2(ea - 1))) * Pow2(n) == (ma * TWICE) * Pow2(ea + 125)
  {
    assert Pow2(ea) * Pow2(n) == TWICE * Pow2(ea + 125) by {
      PowAdd(ea, n);
      PowAdd(24, ea + 125);
      PowValues();
    }
    MulAssoc(ma, Pow2(ea), Pow2(n));
    MulAssoc(ma, TWICE, Pow2(ea + 125));
    assert 2 * (ma * Pow2(ea - 1)) == ma * Pow2(ea);
  }

  lemma DivisorPowers(c: nat, ea: nat, eb: nat, f: nat)
    requires 1 <= ea && 1 <= eb && 1 <= f && f + eb == ea + 127 + c
    ensures Pow2(f - 1) * Pow2(eb - 1) == Pow2(c) * Pow2(ea + 125)
  {
    PowAdd(f - 1, eb - 1);
    PowAdd(c, ea + 125);
  }

  lemma Spread(m: nat, u: nat, n: nat, v: nat, c: nat, unit: nat)
    requires u * v == c * unit
    ensures (m * u) * (n * v) == (m * (c * n)) * unit
  {
    Regroup(m, u, n, v);
    assert (m * n) * (c * unit) == (m * (c * n)) * unit;
  }

  /** What sfp_div should return: a/b cut to 24 bits, one exponent lower than it computes. */
  function CorrectQuotient(a: Bits, b: Bits): Bits
    requires Unpack(a).mant != 0 && Unpack(b).mant != 0
  {
    var p, q := Unpack(a), Unpack(b);
    Packed(if (Scaled(a) < 0) == (Scaled(b) < 0) then 0 else 1, QuotientExponent(p, q) - 1, QuotientSignificand(p, q))
  }

  /** The 24-bit significand of the quotient. */
  function QuotientSignificand(p: Parts, q: Parts): nat
    requires q.mant > 0
  {
    var quot := Quotient(p.mant, q.mant);
    if quot < TWICE then quot else quot / 2
  }

  /** That is indeed a/b cut toward zero wherever it is in range, saturating above and zero below. */
  lemma CorrectQuotientIs(a: Bits, b: Bits, n: nat)
    requires Unpack(a).mant != 0 && Unpack(b).mant != 0 && IsScale(n)
    ensures var r, f := CorrectQuotient(a, b), QuotientExponent(Unpack(a), Unpack(b)) - 1;
            if f <= 0 then r == 0
            else if f >= 255 then r == Saturated(a, b)
            else CutQuotient(r, Scaled(a) * Pow2(n), Scaled(b))
  {
    CorrectMagnitude(a, b, n);
    QuotientSigned(CorrectQuotient(a, b), a, b, 1, n, QuotientExponent(Unpack(a), Unpack(b)) - 1);
  }

  lemma CorrectMagnitude(a: Bits, b: Bits, n: nat)
    requires Unpack(a).mant != 0 && Unpack(b).mant != 0 && IsScale(n)
    ensures var (r, f) := (CorrectQuotient(a, b), QuotientExponent(Unpack(a), Unpack(b)) - 1);
            var sign := XorSign(Unpack(a).sign, Unpack(b).sign);
            if f <= 0 then r == 0
            else if f >= 255 then r == MaxFinite(sign)
            else Unpack(r).sign == sign && CutMagnitude(r, (1 * Magnitude(a)) * Pow2(n), Magnitude(b))
  {
    CorrectSign(a, b);
    CorrectParts(Unpack(a), Unpack(b), CorrectQuotient(a, b), n, Magnitude(a), Magnitude(b));
  }

  lemma CorrectSign(a: Bits, b: Bits)
    requires Unpack(a).mant != 0 && Unpack(b).mant != 0
    ensures var p, q := Unpack(a), Unpack(b);
            CorrectQuotient(a, b) ==
            Packed(XorSign(p.sign, q.sign), QuotientExponent(p, q) - 1, QuotientSignificand(p, q))
  {
    SignOfProduct(a, b);
  }

  lemma CorrectParts(p: Parts, q: Parts, r: Bits, n: nat, x: nat, y: nat)
    requires Normal(p) && Normal(q) && IsScale(n) && x == p.mant * Pow2(p.exp - 1) && y == q.mant * Pow2(q.exp - 1)
    requires r == Packed(XorSign(p.sign, q.sign), QuotientExponent(p, q) - 1, QuotientSignificand(p, q))
    ensures var f := QuotientExponent(p, q) - 1;
            if f <= 0 then r == 0
            else if f >= 255 then r == MaxFinite(XorSign(p.sign, q.sign))
            else Unpack(r).sign == XorSign(p.sign, q.sign) && CutMagnitude(r, x * Pow2(n), y)
  {
    var sign, f, m := XorSign(p.sign, q.sign), QuotientExponent(p, q), QuotientSignificand(p, q);
    QuotientRange(p.mant, q.mant);
    PackNormal(sign, f - 1, m);
    if 2 <= f <= 255 {
      HalvedQuotient(p, q, n, m, f, x, y);
      CutEncoded(sign, f - 1, m, x * Pow2(n), y);
    }
  }

  lemma HalvedQuotient(p: Parts, q: Parts, n: nat, m: nat, f: nat, x: nat, y: nat)
    requires Normal(p) && Normal(q) && IsScale(n) && x == p.mant * Pow2(p.exp - 1) && y == q.mant * Pow2(q.exp - 1)
    requires f == QuotientExponent(p, q) >= 2 && m == QuotientSignificand(p, q)
    ensures (m * Pow2(f - 2)) * y <= x * Pow2(n) < (m * Pow2(f - 2) + Pow2(f - 2)) * y
  {
    var quot := Quotient(p.mant, q.mant);
    var c := if quot < TWICE then 0 else 1;
    QuotientBracket(quot, p.mant * TWICE, q.mant, m, c);
    QuotientScaled(p.mant, q.mant, m, c, p.exp, q.exp, f, n);
    HalveBracket(m, Pow2(f - 2), y, x, Pow2(n));
  }

  lemma HalveBracket(m: int, u: int, y: int, x: int, t: int)
    requires (m * (2 * u)) * y <= (2 * x) * t < (m * (2 * u) + 2 * u) * y
    ensures (m * u) * y <= x * t < (m * u + u) * y
  {
    assert (m * (2 * u)) * y == 2 * ((m * u) * y);
    assert (2 * x) * t == 2 * (x * t);
    assert (m * (2 * u) + 2 * u) * y == 2 * ((m * u + u) * y);
  }

  /** sfp_div meets the correct quotient exactly when both are zero or both saturate: never for a
      quotient in range but the largest finite one. */
  lemma DivMeetsIff(a: Bits, b: Bits)
    requires Unpack(a).mant != 0 && Unpack(b).mant != 0
    ensures var p, q := Unpack(a), Unpack(b);
            var f := QuotientExponent(p, q);
            Div(a, b) == CorrectQuotient(a, b) <==>
            f <= 0 || f >= 256 || (f == 255 && QuotientSignificand(p, q) == TWICE - 1)
  {
    var p, q := Unpack(a), Unpack(b);
    var sign, f, m := XorSign(p.sign, q.sign), QuotientExponent(p, q), QuotientSignificand(p, q);
    QuotientRange(p.mant, q.mant);
    SignOfProduct(a, b);
    PackNormal(sign, f, m);
    PackNormal(sign, f - 1, m);
  }

  /** One divided by one comes out as two. */
  lemma DivWitness()
    ensures Div(0x3F80_0000, 0x3F80_0000) == 0x4000_0000
  {
    assert Unpack(0x3F80_0000) == Parts(0, 127, HIDDEN);
    assert Quotient(HIDDEN, HIDDEN) == TWICE;
    PackNormal(0, 128, HIDDEN);
  }

  // ----- Square root --------------------------------------------------------------------

  /** sfp_sqrt: negative arguments and zero give zero. */
  function Sqrt(a: Bits): Bits {
    var p := Unpack(a);
    if p.sign == 1 || p.mant == 0 then 0 else
    var x := FourSteps(OddScaled(p));
    var e := HalvedExponent(p);
    Packed(0, if x < TWICE then e else e + 1, if x < TWICE then x else x / 2)
  }

  /** The significand, doubled when the unbiased exponent is odd. */
  function OddScaled(p: Parts): (m: nat)
    requires p.mant != 0 ==> HIDDEN <= p.mant < TWICE
    ensures p.mant != 0 ==> HIDDEN <= m < 2 * TWICE
  {
    if (p.exp - 127) % 2 == 1 then 2 * p.mant else p.mant
  }

  /** `(exp - 127) >> 1`, the arithmetic shift that rounds negative exponents down, biased again. */
  function HalvedExponent(p: Parts): int { (p.exp - 127) / 2 + 127 }

  method NewtonStep(n: nat, x: nat) returns (y: nat)
    requires x > 0
    ensures y == Step(n, x)
  {
    y := (x + n / x) / 2;
  }

  /** The four unrolled Newton steps. */
  method NewtonSteps(ma: nat) returns (x: nat)
    requires HIDDEN <= ma < 2 * TWICE
    ensures x == FourSteps(ma)
  {
    var n := ma * HIDDEN;
    ghost var x0 := ma + 2048;
    x := NewtonStep(n, ma + 2048);
    RootPositive(n, x0);
    ghost var x1 := x;
    x := NewtonStep(n, x);
    RootPositive(n, x1);
    ghost var x2 := x;
    x := NewtonStep(n, x);
    RootPositive(n, x2);
    ghost var x3 := x;
    x := NewtonStep(n, x);
    RootPositive(n, x3);
    assert Newton(n, x0, 4) == Newton(n, x1, 3) == Newton(n, x2, 2) == Newton(n, x3, 1) == Newton(n, x, 0);
  }

  method SquareRootOf(a: Bits) returns (r: Bits)
    ensures r == Sqrt(a)
  {
    var p := Unpack(a);
    if p.sign == 1 { return 0; }
    if p.mant == 0 { return 0; }
    var ma := OddScaled(p);
    var e: int := HalvedExponent(p);
    FourStepsRoot(ma);
    var x := NewtonSteps(ma);
    ghost var x0, e0 := x, e;
    while x < HIDDEN && e > 1
      invariant x > 0 && ShiftUp(x, e, HIDDEN) == ShiftUp(x0, e0, HIDDEN)
      decreases e
    {
      x, e := x * 2, e - 1;
    }
    while x >= TWICE
      invariant x >= 0 && ShiftDown(x, e, TWICE) == ShiftDown(x0, e0, TWICE)
      decreases x
    {
      x, e := x / 2, e + 1;
    }
    HalvedOnce(x0, e0, TWICE);
    r := Pack(0, e, x);
  }

  /** `r` is within one unit u of the root of x, on the scale 2^n: (r - u)^2 <= x < (r + u)^2. */
  predicate NearRoot(r: Bits, u: nat, x: int) {
    && Unpack(r).mant != 0 && Unpack(r).sign == 0 && u <= Ulp(r) && u <= Magnitude(r)
    && (Magnitude(r) - u) * (Magnitude(r) - u) <= x < (Magnitude(r) + u) * (Magnitude(r) + u)
  }

  /** For every positive normal argument the result is within one unit of the root, for odd and
      negative exponents too, with u the unit of the halved exponent; all others give zero. */
  lemma SqrtBracket(a: Bits, n: nat)
    requires IsScale(n)
    ensures if Scaled(a) <= 0 then Sqrt(a) == 0
            else NearRoot(Sqrt(a), Pow2(HalvedExponent(Unpack(a)) - 1), Scaled(a) * Pow2(n))
  {
    if Unpack(a).mant != 0 { ScaledSign(a); }
    if Scaled(a) > 0 {
      var r, x := SqrtValue(a);
      SqrtNear(a, n, r, x);
    }
  }

  lemma SqrtNear(a: Bits, n: nat, r: Bits, x: nat)
    requires Unpack(a).sign == 0 && Unpack(a).mant != 0 && IsScale(n)
    requires var s := FloorSqrt(OddScaled(Unpack(a)) * HIDDEN); HIDDEN <= s < TWICE && s <= x <= s + 1
    requires var e := HalvedExponent(Unpack(a));
             r == Packed(0, if x < TWICE then e else e + 1, if x < TWICE then x else x / 2)
    ensures NearRoot(r, Pow2(HalvedExponent(Unpack(a)) - 1), Magnitude(a) * Pow2(n))
  {
    var p := Unpack(a);
    assert Magnitude(a) == p.mant * Pow2(p.exp - 1);
    SqrtParts(p, r, n, x, Magnitude(a));
  }

  /** The significand that the Newton steps end with, apart from how they find it. */
  lemma SqrtValue(a: Bits) returns (r: Bits, x: nat)
    requires Unpack(a).sign == 0 && Unpack(a).mant != 0
    ensures r == Sqrt(a)
    ensures var s := FloorSqrt(OddScaled(Unpack(a)) * HIDDEN); HIDDEN <= s < TWICE && s <= x <= s + 1
    ensures var e := HalvedExponent(Unpack(a));
            r == Packed(0, if x < TWICE then e else e + 1, if x < TWICE then x else x / 2)
  {
    r, x := Sqrt(a), FourSteps(OddScaled(Unpack(a)));
    FourStepsRoot(OddScaled(Unpack(a)));
  }

  lemma SqrtParts(p: Parts, r: Bits, n: nat, x: nat, exact: nat)
    requires Normal(p) && p.sign == 0 && IsScale(n) && exact == p.mant * Pow2(p.exp - 1)
    requires var s := FloorSqrt(OddScaled(p) * HIDDEN); HIDDEN <= s < TWICE && s <= x <= s + 1
    requires var e := HalvedExponent(p);
             r == Packed(0, if x < TWICE then e else e + 1, if x < TWICE then x else x / 2)
    ensures NearRoot(r, Pow2(HalvedExponent(p) - 1), exact * Pow2(n))
  {
    var (ma, e) := (OddScaled(p), HalvedExponent(p));
    RootMagnitude(x, e, r);
    RadicandScaled(p, n);
    RootBracket(x, FloorSqrt(ma * HIDDEN), ma * HIDDEN, Pow2(e - 1));
  }

  lemma RootMagnitude(x: nat, e: nat, r: Bits)
    requires HIDDEN <= x <= TWICE && 1 <= e <= 253
    requires r == Packed(0, if x < TWICE then e else e + 1, if x < TWICE then x else x / 2)
    ensures var u := Pow2(e - 1);
            && Unpack(r).mant != 0 && Unpack(r).sign == 0 && u <= Ulp(r) && u <= Magnitude(r)
            && Magnitude(r) - u == (x - 1) * u && Magnitude(r) + u == (x + 1) * u
  {
    var u := Pow2(e - 1);
    if x < TWICE {
      PackNormal(0, e, x);
    } else {
      PackNormal(0, e + 1, x / 2);
      assert Pow2(e) == 2 * u;
    }
    assert Magnitude(r) == x * u;
    MulMono(1, x, u);
  }

  /** Radicand and squared unit: a * 2^n == (ma * 2^23) * u^2, whatever the parity of the exponent. */
  lemma RadicandScaled(p: Parts, n: nat)
    requires Normal(p) && IsScale(n)
    ensures var u := Pow2(HalvedExponent(p) - 1);
            (p.mant * Pow2(p.exp - 1)) * Pow2(n) == (OddScaled(p) * HIDDEN) * (u * u)
  {
    var e := HalvedExponent(p);
    var odd := (p.exp - 127) % 2;
    RadicandPowers(p.exp, n, e, odd);
    assert OddScaled(p) == p.mant * Pow2(odd) by { PowValues(); }
    RadicandProducts(p.mant, Pow2(p.exp - 1), Pow2(n), Pow2(odd), Pow2(e - 1) * Pow2(e - 1));
  }

  lemma RadicandPowers(exp: nat, n: nat, e: nat, odd: nat)
    requires exp >= 1 && e >= 1 && (exp - 1) + n == odd + (23 + ((e - 1) + (e - 1)))
    ensures Pow2(exp - 1) * Pow2(n) == Pow2(odd) * (HIDDEN * (Pow2(e - 1) * Pow2(e - 1)))
  {
    PowAdd(exp - 1, n);
    PowAdd(e - 1, e - 1);
    PowAdd(23, (e - 1) + (e - 1));
    PowAdd(odd, 23 + ((e - 1) + (e - 1)));
    PowValues();
  }

  lemma RadicandProducts(m: nat, a: nat, b: nat, o: nat, v: nat)
    requires a * b == o * (HIDDEN * v)
    ensures (m * a) * b == (m * o * HIDDEN) * v
  {
    MulAssoc(m, a, b);
    MulAssoc(m, o, HIDDEN * v);
    MulAssoc(m * o, HIDDEN, v);
  }

  lemma RootBracket(x: nat, s: nat, radicand: nat, u: nat)
    requires IsRoot(radicand, s) && s <= x <= s + 1 && u > 0 && x > 0
    ensures ((x - 1) * u) * ((x - 1) * u) <= radicand * (u * u) < ((x + 1) * u) * ((x + 1) * u)
  {
    Squares(x - 1, s);
    Squares(s + 1, x + 1);
    MulMono((x - 1) * (x - 1), radicand, u * u);
    MulStrict(radicand, (x + 1) * (x + 1), u * u);
    Regroup(x - 1, u, x - 1, u);
    Regroup(x + 1, u, x + 1, u);
  }
}
