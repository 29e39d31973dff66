/**
 Integer-only binary32 arithmetic (kernel/ai/pickle_softfp.c): packing, addition and the
 exact meaning of its results.

 A bit pattern is a number below 2^32.  Its value times 2^149 is an integer, `Scaled`, so
 every claim about rounding is a claim about integers; `Ulp` is the weight of the last
 significand bit on the same scale.
 */
module SoftFloat {
  import opened Powers

  const SIGN_BIT := 0x8000_0000
  const HIDDEN := 0x0080_0000
  const TWICE := 0x0100_0000
  const MAX_FINITE := 0x7F7F_FFFF

  type Bits = x: int | 0 <= x < 0x1_0000_0000

  datatype Parts = Parts(sign: nat, exp: nat, mant: nat)

  /** sfp_unpack: denormals become zero, infinities and NaNs the largest finite number. */
  function Unpack(a: Bits): (p: Parts)
    ensures p.sign <= 1 && p.exp <= 254
    ensures p.mant == 0 <==> p.exp == 0
    ensures p.mant != 0 ==> HIDDEN <= p.mant < TWICE
  {
    var sign := a / SIGN_BIT;
    var exp := a / HIDDEN % 256;
    if exp == 0 then Parts(sign, 0, 0)
    else if exp == 255 then Parts(sign, 254, TWICE - 1)
    else Parts(sign, exp, a % HIDDEN + HIDDEN)
  }

  /** The bit pattern of a normal number. */
  function Encode(sign: nat, exp: nat, mant: nat): (r: Bits)
    requires sign <= 1 && 1 <= exp <= 254 && HIDDEN <= mant < TWICE
    ensures Unpack(r) == Parts(sign, exp, mant)
  {
    sign * SIGN_BIT + exp * HIDDEN + (mant - HIDDEN)
  }

  function MaxFinite(sign: nat): (r: Bits)
    requires sign <= 1
    ensures Unpack(r) == Parts(sign, 254, TWICE - 1)
  {
    sign * SIGN_BIT + MAX_FINITE
  }

  function Signed(sign: nat, v: int): int { if sign == 1 then -v else v }

  /** |value| * 2^149. */
  function Magnitude(a: Bits): nat {
    var p := Unpack(a);
    if p.mant == 0 then 0 else p.mant * Pow2(p.exp - 1)
  }

  /** value * 2^149. */
  function Scaled(a: Bits): int { Signed(Unpack(a).sign, Magnitude(a)) }

  function Ulp(a: Bits): nat
    requires Unpack(a).mant != 0
  {
    Pow2(Unpack(a).exp - 1)
  }

  /** What a bit pattern stands for (section 3.4 of IEEE 754-2008), on the scale 2^149: sign, biased exponent and
      23 fraction bits; subnormals are taken for zero, infinities and NaNs for the largest finite numbers. */
  lemma UnpackMeans(sign: nat, exp: nat, fraction: nat)
    requires sign <= 1 && exp <= 255 && fraction < 0x80_0000
    ensures var v := if exp == 0 then 0 else if exp == 255 then 0xFF_FFFF * Pow2(253)
                     else (0x80_0000 + fraction) * Pow2(exp - 1);
            Scaled(sign * 0x8000_0000 + exp * 0x80_0000 + fraction) == if sign == 0 then v else -v
  {
    UnpackFields(sign, exp, fraction);
  }

  lemma UnpackFields(sign: nat, exp: nat, fraction: nat)
    requires sign <= 1 && exp <= 255 && fraction < 0x80_0000
    ensures Unpack(sign * 0x8000_0000 + exp * 0x80_0000 + fraction) ==
            if exp == 0 then Parts(sign, 0, 0)
            else if exp == 255 then Parts(sign, 254, 0xFF_FFFF)
            else Parts(sign, exp, 0x80_0000 + fraction)
  {
    BitFields(sign, exp, fraction, sign * 0x8000_0000 + exp * 0x80_0000 + fraction);
  }

  lemma BitFields(sign: nat, exp: nat, fraction: nat, a: nat)
    requires exp <= 255 && fraction < 0x80_0000 && a == sign * 0x8000_0000 + exp * 0x80_0000 + fraction
    ensures a / 0x8000_0000 == sign && a / 0x80_0000 % 256 == exp && a % 0x80_0000 == fraction
  {
    assert a / 0x80_0000 == sign * 256 + exp;
  }

  // ----- Packing ------------------------------------------------------------------------

  /** The two normalising loops: double while below `lo` and the exponent lasts, halve while
      at or above `hi`. */
  function ShiftUp(mant: nat, exp: int, lo: nat): (r: (nat, int))
    requires mant > 0
    ensures r.0 > 0
    decreases exp
  {
    if mant < lo && exp > 1 then ShiftUp(2 * mant, exp - 1, lo) else (mant, exp)
  }

  function ShiftDown(mant: nat, exp: int, hi: nat): (r: (nat, int))
    requires hi > 0
    ensures r.0 < hi
    decreases mant
  {
    if mant >= hi then ShiftDown(mant / 2, exp + 1, hi) else (mant, exp)
  }

  /** What sfp_pack returns. */
  function Packed(sign: nat, exp: int, mant: nat): Bits
    requires sign <= 1
  {
    if mant == 0 then 0 else
    var up := ShiftUp(mant, exp, HIDDEN);
    var (m, e) := ShiftDown(up.0, up.1, TWICE);
    if e <= 0 then 0
    else if e >= 255 then MaxFinite(sign)
    else sign * SIGN_BIT + e * HIDDEN + m % HIDDEN
  }

  method Pack(sign: nat, exp: int, mant: Bits) returns (r: Bits)
    requires sign <= 1
    ensures r == Packed(sign, exp, mant)
  {
    if mant == 0 { return 0; }
    var m, e: int := mant, exp;
    while m < HIDDEN && e > 1
      invariant 0 < m < 0x1_0000_0000
      invariant ShiftUp(m, e, HIDDEN) == ShiftUp(mant, exp, HIDDEN)
      decreases e
    {
      m, e := m * 2, e - 1;
    }
    ghost var m1, e1 := m, e;
    while m >= TWICE
      invariant 0 <= m
      invariant ShiftDown(m, e, TWICE) == ShiftDown(m1, e1, TWICE)
      decreases m
    {
      m, e := m / 2, e + 1;
    }
    if e <= 0 { return 0; }
    if e >= 255 { return sign * SIGN_BIT + MAX_FINITE; }
    r := sign * SIGN_BIT + e * HIDDEN + m % HIDDEN;
  }

  lemma PackNormal(sign: nat, exp: int, mant: nat)
    requires sign <= 1 && HIDDEN <= mant < TWICE
    ensures Packed(sign, exp, mant) ==
            if exp <= 0 then 0 else if exp >= 255 then MaxFinite(sign) else Encode(sign, exp, mant)
  {
  }

  lemma PackWide(sign: nat, exp: int, mant: nat)
    requires sign <= 1 && TWICE <= mant < 2 * TWICE
    ensures Packed(sign, exp, mant) == Packed(sign, exp + 1, mant / 2)
  {
    assert ShiftUp(mant, exp, HIDDEN) == (mant, exp) && ShiftUp(mant / 2, exp + 1, HIDDEN) == (mant / 2, exp + 1);
    assert ShiftDown(mant, exp, TWICE) == ShiftDown(mant / 2, exp + 1, TWICE);
  }

  lemma PackShortStep(sign: nat, exp: int, mant: nat)
    requires sign <= 1 && 0 < mant < HIDDEN && exp > 1
    ensures Packed(sign, exp, mant) == Packed(sign, exp - 1, 2 * mant)
  {
    assert ShiftUp(mant, exp, HIDDEN) == ShiftUp(2 * mant, exp - 1, HIDDEN);
  }

  lemma PackLast(sign: nat, mant: nat)
    requires sign <= 1 && 0 < mant < HIDDEN
    ensures Packed(sign, 1, mant) == Encode(sign, 1, mant + HIDDEN)
  {
    assert ShiftUp(mant, 1, HIDDEN) == (mant, 1) && ShiftDown(mant, 1, TWICE) == (mant, 1);
  }

  /** A short significand is normalised exactly while the exponent lasts; when it runs out, the
      hidden bit is invented and the magnitude comes out too large by the smallest normal. */
  lemma {:induction false} PackNarrow(sign: nat, exp: nat, mant: nat)
    requires sign <= 1 && 1 <= exp <= 254 && 0 < mant < HIDDEN
    ensures var r := Packed(sign, exp, mant);
            var v := mant * Pow2(exp - 1);
            && Unpack(r).sign == sign && 1 <= Unpack(r).exp <= exp
            && Magnitude(r) == (if v >= HIDDEN then v else v + HIDDEN)
    decreases exp
  {
    if exp == 1 {
      PackLast(sign, mant);
    } else {
      PackShortStep(sign, exp, mant);
      assert Pow2(exp - 1) == 2 * Pow2(exp - 2);
      assert (2 * mant) * Pow2(exp - 2) == mant * Pow2(exp - 1);
      if 2 * mant < HIDDEN {
        PackNarrow(sign, exp - 1, 2 * mant);
      } else {
        PackNormal(sign, exp - 1, 2 * mant);
        MulMono(HIDDEN, 2 * mant, Pow2(exp - 2));
        MulMono(1, Pow2(exp - 2), HIDDEN);
      }
    }
  }

  /** `r` is `x` (on the 2^149 scale) cut to 24 significant bits toward zero. */
  predicate Truncates(r: Bits, sign: nat, x: nat) {
    var p := Unpack(r);
    p.mant != 0 && p.sign == sign && Magnitude(r) <= x < Magnitude(r) + Ulp(r)
  }

  /** First magnitude beyond the format: one unit above the largest finite number. */
  function Overflow(): nat { Magnitude(MaxFinite(0)) + Ulp(MaxFinite(0)) }

  lemma OverflowIs(top: nat)
    requires top == Unpack(MaxFinite(0)).exp - 1
    ensures Overflow() == TWICE * Pow2(top)
  {
    assert (TWICE - 1) * Pow2(top) + Pow2(top) == TWICE * Pow2(top);
  }

  /** Packing a significand that is `x` cut to the unit of `exp` cuts `x` to 24 bits, or saturates. */
  lemma PackTruncates(sign: nat, exp: nat, mant: nat, x: nat)
    requires sign <= 1 && 1 <= exp <= 254 && HIDDEN <= mant < 2 * TWICE
    requires mant * Pow2(exp - 1) <= x < (mant + 1) * Pow2(exp - 1)
    ensures var r := Packed(sign, exp, mant);
            if x < Overflow() then Truncates(r, sign, x) else r == MaxFinite(sign)
  {
    if mant < TWICE {
      PackTruncatesNormal(sign, exp, mant, x);
    } else {
      PackWide(sign, exp, mant);
      HalvedBracket(mant, Pow2(exp - 1), x);
      assert Pow2(exp) == 2 * Pow2(exp - 1);
      if exp == 254 {
        PackNormal(sign, exp + 1, mant / 2);
        OverflowIs(exp - 1);
        MulMono(TWICE, mant, Pow2(exp - 1));
      } else {
        PackTruncatesNormal(sign, exp + 1, mant / 2, x);
      }
    }
  }

  lemma PackTruncatesNormal(sign: nat, exp: nat, mant: nat, x: nat)
    requires sign <= 1 && 1 <= exp <= 254 && HIDDEN <= mant < TWICE
    requires mant * Pow2(exp - 1) <= x < (mant + 1) * Pow2(exp - 1)
    ensures x < Overflow() && Truncates(Packed(sign, exp, mant), sign, x)
  {
    var u := Pow2(exp - 1);
    var top := Unpack(MaxFinite(0)).exp - 1;
    OverflowIs(top);
    PackNormal(sign, exp, mant);
    PowMono(exp - 1, top);
    MulMono(mant + 1, TWICE, u);
    MulMono(u, Pow2(top), TWICE);
    assert (mant + 1) * u == mant * u + u;
  }

  // ----- Addition -----------------------------------------------------------------------

  /** Alignment shift; the C code answers 0 itself where `>>` would be undefined. */
  function ShiftRight(mant: nat, d: nat): nat { if d > 31 then 0 else Shr(mant, d) }

  lemma ShiftRightFloor(mant: nat, d: nat)
    requires mant < TWICE
    ensures ShiftRight(mant, d) * Pow2(d) <= mant < (ShiftRight(mant, d) + 1) * Pow2(d)
  {
    if d > 31 {
      PowMono(24, d);
      PowValues();
    }
  }

  /** The operand's significand on the scale of exponent `e`. */
  function Aligned(p: Parts, e: nat): nat { if p.exp < e then ShiftRight(p.mant, e - p.exp) else p.mant }

  function Max(a: nat, b: nat): (m: nat)
    ensures m >= a && m >= b && (m == a || m == b)
  {
    if a > b then a else b
  }

  /** sfp_add. */
  function Add(a: Bits, b: Bits): Bits {
    var p, q := Unpack(a), Unpack(b);
    if p.mant == 0 && q.mant == 0 then 0
    else if p.mant == 0 then Packed(q.sign, q.exp, q.mant)
    else if q.mant == 0 then Packed(p.sign, p.exp, p.mant)
    else
      var e := Max(p.exp, q.exp);
      var ma, mb := Aligned(p, e), Aligned(q, e);
      if p.sign == q.sign then Packed(p.sign, e, ma + mb)
      else if ma >= mb then Packed(p.sign, e, ma - mb)
      else Packed(q.sign, e, mb - ma)
  }

  lemma AddCommutes(a: Bits, b: Bits)
    ensures Add(a, b) == Add(b, a)
  {
    var p, q := Unpack(a), Unpack(b);
    if p.mant != 0 && q.mant != 0 {
      var e := Max(p.exp, q.exp);
      var ma, mb := Aligned(p, e), Aligned(q, e);
      if p.sign == q.sign {
        assert Add(a, b) == Packed(p.sign, e, ma + mb) == Add(b, a);
      } else if ma == mb {
        assert Add(a, b) == 0 == Add(b, a);
      } else {
        var d := if ma > mb then ma - mb else mb - ma;
        assert Add(a, b) == Packed(if ma > mb then p.sign else q.sign, e, d) == Add(b, a);
      }
    }
  }

  /** Zero and denormal operands are neutral, up to flushing and clamping of the other one. */
  lemma AddZero(a: Bits, b: Bits)
    requires Unpack(b).mant == 0
    ensures Scaled(Add(a, b)) == Scaled(a)
  {
    var p := Unpack(a);
    if p.mant != 0 { PackNormal(p.sign, p.exp, p.mant); }
  }

  /** The aligned significand brackets the operand's magnitude. */
  lemma AlignedBracket(a: Bits, e: nat)
    requires Unpack(a).mant != 0 && Unpack(a).exp <= e
    ensures var m := Aligned(Unpack(a), e);
            m * Pow2(e - 1) <= Magnitude(a) < (m + 1) * Pow2(e - 1)
  {
    var p := Unpack(a);
    var d := e - p.exp;
    var u := Pow2(p.exp - 1);
    PowAdd(d, p.exp - 1);
    var m := Aligned(p, e);
    if d == 0 {
      assert m == p.mant;
      MulStrict(m, m + 1, u);
    } else {
      ShiftRightFloor(p.mant, d);
      MulMono(m * Pow2(d), p.mant, u);
      MulStrict(p.mant, (m + 1) * Pow2(d), u);
      MulAssoc(m, Pow2(d), u);
      MulAssoc(m + 1, Pow2(d), u);
    }
  }

  /** Operands of one sign: the exact sum cut to 24 bits toward zero, saturating. */
  lemma AddSameSign(a: Bits, b: Bits)
    requires Unpack(a).mant != 0 && Unpack(b).mant != 0 && Unpack(a).sign == Unpack(b).sign
    ensures var sum := Magnitude(a) + Magnitude(b);
            if sum < Overflow() then Truncates(Add(a, b), Unpack(a).sign, sum)
            else Add(a, b) == MaxFinite(Unpack(a).sign)
  {
    var p, q := Unpack(a), Unpack(b);
    if p.exp < q.exp {
      AddCommutes(a, b);
      AddAligned(b, a);
    } else {
      AddAligned(a, b);
    }
  }

  lemma SumBracket(m: nat, n: nat, u: nat, x: nat)
    requires n * u <= x < (n + 1) * u
    ensures (m + n) * u <= m * u + x < (m + n + 1) * u
  {
    assert (m + n) * u == m * u + n * u && (m + n + 1) * u == m * u + (n + 1) * u;
  }

  lemma AddAligned(a: Bits, b: Bits)
    requires Unpack(a).mant != 0 && Unpack(b).mant != 0 && Unpack(a).sign == Unpack(b).sign
    requires Unpack(b).exp <= Unpack(a).exp
    ensures var sum := Magnitude(a) + Magnitude(b);
            if sum < Overflow() then Truncates(Add(a, b), Unpack(a).sign, sum)
            else Add(a, b) == MaxFinite(Unpack(a).sign)
  {
    var p, q := Unpack(a), Unpack(b);
    var mb := Aligned(q, p.exp);
    AlignedBracket(b, p.exp);
    AlignedBelow(q, p.exp);
    SumBracket(p.mant, mb, Pow2(p.exp - 1), Magnitude(b));
    PackTruncates(p.sign, p.exp, p.mant + mb, Magnitude(a) + Magnitude(b));
  }

  lemma AlignedBelow(p: Parts, e: nat)
    requires p.mant < TWICE
    ensures Aligned(p, e) <= p.mant
  {
    if p.exp < e {
      ShiftRightFloor(p.mant, e - p.exp);
      MulMono(1, Pow2(e - p.exp), ShiftRight(p.mant, e - p.exp));
    }
  }

  function Abs(x: int): (a: nat)
    ensures a == x || a == -x
  {
    if x < 0 then -x else x
  }

  /** Unit of the last place of the operand with the larger exponent. */
  function LargerUlp(a: Bits, b: Bits): nat
    requires Unpack(a).mant != 0 && Unpack(b).mant != 0
  {
    Pow2(Max(Unpack(a).exp, Unpack(b).exp) - 1)
  }

  /** The difference that sfp_add forms after alignment, on the 2^149 scale. */
  function Difference(a: Bits, b: Bits): nat
    requires Unpack(a).mant != 0 && Unpack(b).mant != 0
  {
    var p, q := Unpack(a), Unpack(b);
    var e := Max(p.exp, q.exp);
    Times(Abs(Aligned(p, e) - Aligned(q, e)), LargerUlp(a, b))
  }

  function Times(m: nat, unit: nat): (v: nat)
    ensures v == m * unit
  {
    MulMono(0, m, unit);
    m * unit
  }

  predicate WithinUlp(a: Bits, b: Bits, r: Bits)
    requires Unpack(a).mant != 0 && Unpack(b).mant != 0
  {
    Abs(Scaled(r) - (Scaled(a) + Scaled(b))) < LargerUlp(a, b)
  }

  /** Packing the difference `d` at exponent `e`: exact, or (below the smallest normal) too
      large by the smallest normal. */
  lemma PackDifference(sign: nat, e: nat, d: nat)
    requires sign <= 1 && 1 <= e <= 254 && 0 < d < TWICE
    ensures var r := Packed(sign, e, d);
            var v := d * Pow2(e - 1);
            Unpack(r).sign == sign && Magnitude(r) == (if v >= HIDDEN then v else v + HIDDEN)
  {
    if d < HIDDEN {
      PackNarrow(sign, e, d);
    } else {
      PackNormal(sign, e, d);
      MulMono(1, Pow2(e - 1), d);
    }
  }

  /** A difference below the smallest normal number is many units away from it. */
  lemma SmallUnit(e: nat, d: nat)
    requires e >= 1 && 0 < d && d * Pow2(e - 1) < HIDDEN
    ensures 2 * Pow2(e - 1) <= HIDDEN
  {
    MulMono(1, d, Pow2(e - 1));
    PowValues();
    if e - 1 >= 23 { PowMono(23, e - 1); }
    PowMono(e - 1, 22);
  }

  /** Operands of opposite sign: the result is within one unit of the larger operand of the
      exact sum, if and only if the aligned difference is zero or at least the smallest normal. */
  lemma AddOppositeSign(a: Bits, b: Bits)
    requires Unpack(a).mant != 0 && Unpack(b).mant != 0 && Unpack(a).sign != Unpack(b).sign
    ensures WithinUlp(a, b, Add(a, b)) <==> Difference(a, b) == 0 || Difference(a, b) >= HIDDEN
  {
    if Unpack(a).exp < Unpack(b).exp {
      AddCommutes(a, b);
      DifferenceSymmetric(a, b);
      SubtractAligned(b, a);
    } else {
      SubtractAligned(a, b);
    }
  }

  lemma DifferenceSymmetric(a: Bits, b: Bits)
    requires Unpack(a).mant != 0 && Unpack(b).mant != 0
    ensures LargerUlp(a, b) == LargerUlp(b, a) && Difference(a, b) == Difference(b, a)
  {
    var p, q := Unpack(a), Unpack(b);
    assert Max(p.exp, q.exp) == Max(q.exp, p.exp);
    var e := Max(p.exp, q.exp);
    assert Abs(Aligned(p, e) - Aligned(q, e)) == Abs(Aligned(q, e) - Aligned(p, e));
    assert LargerUlp(a, b) == LargerUlp(b, a);
  }

  lemma DifferenceIs(a: Bits, b: Bits, d: nat)
    requires Unpack(a).mant != 0 && Unpack(b).mant != 0 && Unpack(b).exp <= Unpack(a).exp
    requires d == Abs(Unpack(a).mant - Aligned(Unpack(b), Unpack(a).exp))
    ensures LargerUlp(a, b) == Pow2(Unpack(a).exp - 1) && Difference(a, b) == d * Pow2(Unpack(a).exp - 1)
  {
    var p, q := Unpack(a), Unpack(b);
    assert Max(p.exp, q.exp) == p.exp && Aligned(p, p.exp) == p.mant;
  }

  /** What sfp_add returns for opposite signs, first operand's exponent no smaller. */
  lemma SubtractPacks(a: Bits, b: Bits, d: nat, sign: nat)
    requires Unpack(a).mant != 0 && Unpack(b).mant != 0 && Unpack(a).sign != Unpack(b).sign
    requires Unpack(b).exp <= Unpack(a).exp
    requires var mb := Aligned(Unpack(b), Unpack(a).exp);
             d == Abs(Unpack(a).mant - mb) && sign == (if Unpack(a).mant >= mb then Unpack(a).sign else Unpack(b).sign)
    ensures d < TWICE && sign <= 1 && Add(a, b) == Packed(sign, Unpack(a).exp, d)
  {
    var p, q := Unpack(a), Unpack(b);
    AlignedBelow(q, p.exp);
    assert Max(p.exp, q.exp) == p.exp && Aligned(p, p.exp) == p.mant;
  }

  lemma PackedDifference(sign: nat, e: nat, d: nat, r: Bits)
    requires sign <= 1 && 1 <= e <= 254 && d < TWICE && r == Packed(sign, e, d)
    ensures var v := d * Pow2(e - 1);
            && (Unpack(r).sign == sign || d == 0)
            && Magnitude(r) == (if d == 0 then 0 else if v >= HIDDEN then v else v + HIDDEN)
  {
    if d > 0 { PackDifference(sign, e, d); }
  }

  lemma SubtractResult(a: Bits, b: Bits, d: nat, sign: nat)
    requires Unpack(a).mant != 0 && Unpack(b).mant != 0 && Unpack(a).sign != Unpack(b).sign
    requires Unpack(b).exp <= Unpack(a).exp
    requires var mb := Aligned(Unpack(b), Unpack(a).exp);
             d == Abs(Unpack(a).mant - mb) && sign == (if Unpack(a).mant >= mb then Unpack(a).sign else Unpack(b).sign)
    ensures Unpack(Add(a, b)).sign == sign || d == 0
    ensures Magnitude(Add(a, b)) ==
            if d == 0 then 0 else if Difference(a, b) >= HIDDEN then Difference(a, b) else Difference(a, b) + HIDDEN
  {
    SubtractPacks(a, b, d, sign);
    var r := Add(a, b);
    PackedDifference(sign, Unpack(a).exp, d, r);
    DifferenceIs(a, b, d);
  }

  /** The aligned quantities on the 2^149 scale, without their products. */
  lemma DifferenceFacts(a: Bits, b: Bits) returns (cut: nat)
    requires Unpack(a).mant != 0 && Unpack(b).mant != 0 && Unpack(b).exp <= Unpack(a).exp
    ensures var u, v := LargerUlp(a, b), Difference(a, b);
            && cut <= Magnitude(b) < cut + u && v == Abs(Magnitude(a) - cut)
            && (Magnitude(a) >= cut <==> Unpack(a).mant >= Aligned(Unpack(b), Unpack(a).exp))
            && (v == 0 <==> Unpack(a).mant == Aligned(Unpack(b), Unpack(a).exp))
            && (0 < v < HIDDEN ==> 2 * u <= HIDDEN)
  {
    var e := Unpack(a).exp;
    var mb := Aligned(Unpack(b), e);
    var d := Abs(Unpack(a).mant - mb);
    DifferenceIs(a, b, d);
    AlignedBracket(b, e);
    cut := DifferenceScaled(Unpack(a).mant, mb, d, e, Magnitude(a), Magnitude(b), Difference(a, b), LargerUlp(a, b));
  }

  lemma DifferenceScaled(m: nat, n: nat, d: nat, e: nat, x: nat, y: nat, v: nat, u: nat) returns (cut: nat)
    requires d == Abs(m - n) && e >= 1 && u == Pow2(e - 1) && x == m * u && n * u <= y < (n + 1) * u && v == d * u
    ensures cut <= y < cut + u && v == Abs(x - cut) && (x >= cut <==> m >= n) && (v == 0 <==> m == n)
    ensures 0 < v < HIDDEN ==> 2 * u <= HIDDEN
  {
    cut := n * u;
    DifferenceCore(m, n, d, e);
  }

  lemma DifferenceCore(m: nat, n: nat, d: nat, e: nat)
    requires d == Abs(m - n) && e >= 1
    ensures var u := Pow2(e - 1);
            && d * u == Abs(m * u - n * u) && (n + 1) * u == n * u + u
            && (m * u >= n * u <==> m >= n) && (d * u == 0 <==> m == n)
            && (0 < d * u < HIDDEN ==> 2 * u <= HIDDEN)
  {
    Distribute(m, n, d, Pow2(e - 1));
    if 0 < d && d * Pow2(e - 1) < HIDDEN { SmallUnit(e, d); }
  }

  lemma SubtractAligned(a: Bits, b: Bits)
    requires Unpack(a).mant != 0 && Unpack(b).mant != 0 && Unpack(a).sign != Unpack(b).sign
    requires Unpack(b).exp <= Unpack(a).exp
    ensures WithinUlp(a, b, Add(a, b)) <==> Difference(a, b) == 0 || Difference(a, b) >= HIDDEN
  {
    var p, q := Unpack(a), Unpack(b);
    var mb := Aligned(q, p.exp);
    var sign := if p.mant >= mb then p.sign else q.sign;
    SubtractResult(a, b, Abs(p.mant - mb), sign);
    var cut := DifferenceFacts(a, b);
    DifferenceError(p.sign, q.sign, sign, Magnitude(a), cut, Magnitude(b), LargerUlp(a, b), Difference(a, b),
        Scaled(Add(a, b)));
  }

  lemma Distribute(m: nat, n: nat, d: nat, u: nat)
    requires d == Abs(m - n) && u > 0
    ensures d * u == Abs(m * u - n * u) && (n + 1) * u == n * u + u
    ensures (m >= n <==> m * u >= n * u) && (d == 0 <==> d * u == 0)
  {
    if m >= n { MulMono(n, m, u); } else { MulStrict(m, n, u); }
    if d > 0 { MulStrict(0, d, u); }
  }

  /** The linear core: the cut-off part of the smaller operand is less than one unit. */
  lemma DifferenceError(sa: nat, sb: nat, sign: nat, x: int, cut: int, y: int, u: int, d: int, r: int)
    requires sa <= 1 && sb <= 1 && sa != sb && 0 < u
    requires cut <= y < cut + u && d == Abs(x - cut) && sign == (if x >= cut then sa else sb)
    requires if d == 0 then r == 0 else r == Signed(sign, if d >= HIDDEN then d else d + HIDDEN)
    requires 0 < d < HIDDEN ==> 2 * u <= HIDDEN
    ensures Abs(r - (Signed(sa, x) + Signed(sb, y))) < u <==> d == 0 || d >= HIDDEN
  {
  }

  /** A difference that falls below the smallest normal: 1.5 * 2^-126 - 2^-126 comes out as 1.5 * 2^-126. */
  lemma UnderflowWitness()
    ensures Add(0x00C0_0000, 0x8080_0000) == 0x00C0_0000
  {
    assert Unpack(0x00C0_0000) == Parts(0, 1, 0x00C0_0000) && Unpack(0x8080_0000) == Parts(1, 1, HIDDEN);
    assert ShiftUp(0x0040_0000, 1, HIDDEN) == (0x0040_0000, 1);
  }

  /** The shift decides: the exact difference 2^-126 - 2^-149 is below the smallest normal, but the aligned
      one is not, and the result is one 2^-149 off, less than a unit of the larger operand. */
  lemma ShiftLiftsDifference()
    ensures var a, b := 0x0100_0000, 0x8080_0001;
            && Unpack(a).mant != 0 && Unpack(b).mant != 0 && Add(a, b) == 0x0080_0000 && WithinUlp(a, b, Add(a, b))
            && 0 < Scaled(a) + Scaled(b) < HIDDEN == Difference(a, b)
            && Scaled(Add(a, b)) == Scaled(a) + Scaled(b) + 1
  {
    var a, b, r := 0x0100_0000, 0x8080_0001, 0x0080_0000;
    assert Unpack(a) == Parts(0, 2, HIDDEN) && Unpack(b) == Parts(1, 1, HIDDEN + 1);
    assert Unpack(r) == Parts(0, 1, HIDDEN);
    assert ShiftRight(HIDDEN + 1, 1) == 0x0040_0000;
    assert ShiftUp(0x0040_0000, 2, HIDDEN) == (HIDDEN, 1);
    assert Pow2(0) == 1 && Pow2(1) == 2;
  }
}
