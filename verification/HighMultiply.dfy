/** soft_mpyuhi and soft_mpyshi of sw/dev/cputest.c: the high word of a 32 by
    32 bit product by shift and add on 16-bit limbs. */
module HighMultiply {
  import opened Bits

  /** The product so far, spread over a word and two 16-bit limbs. */
  ghost predicate Limbs(p: nat, hi: nat, lhi: nat, llo: nat) {
    p == hi * 0x1_0000_0000 + lhi * 0x1_0000 + llo && lhi < TWO16 && llo < TWO16
  }

  /** The i low bits of b. */
  function Low(b: nat, i: nat): nat {
    if i == 0 then 0 else 2 * Low(b / 2, i - 1) + b % 2
  }

  /** Testing bit i decides whether 2^i joins the low bits. */
  lemma {:induction false} LowNext(b: nat, i: nat)
    ensures Low(b, i + 1) == Low(b, i) + if And(b, Pow2(i)) != 0 then Pow2(i) else 0
    decreases i
  {
    if i == 0 {
      assert And(b, 1) == b % 2 by { AndMask(b, 1); }
      assert Low(b, 1) == 2 * Low(b / 2, 0) + b % 2;
    } else {
      LowNext(b / 2, i - 1);
      assert b > 0 ==> And(b, Pow2(i)) == 2 * And(b / 2, Pow2(i - 1));
    }
  }

  lemma {:induction false} LowBelow(b: nat, i: nat)
    ensures Low(b, i) <= b && (b < Pow2(i) ==> Low(b, i) == b)
    decreases i
  {
    if i > 0 {
      LowBelow(b / 2, i - 1);
    }
  }

  /** The carry (x >> 16) & 0x0ffff and the limb x & 0x0ffff of a word. */
  method Split(x: nat) returns (carry: nat, limb: nat)
    requires x < TWO32
    ensures x == carry * 0x1_0000 + limb && carry < TWO16 && limb < TWO16
  {
    Mask16(x / 0x1_0000);
    Mask16(x);
    carry, limb := And(x / 0x1_0000, 0xffff), And(x, 0xffff);
  }

  lemma {:induction false} Mask16(x: nat)
    ensures And(x, 0xffff) == x % 0x1_0000
  {
    Pow2Values();
    AndMask(x, 16);
  }

  /** a << i for i < 16, cut into limbs; x is the exact product. */
  method ShiftLimbs(a: nat, i: nat, ghost x: nat) returns (sup: nat, shi: nat, slo: nat)
    requires a < TWO32 && i < 16 && IsShifted(a, i, x)
    ensures Limbs(x, sup, shi, slo) && sup < TWO16
  {
    var ahi, alo := Split(a);
    ShiftFits(a, ahi, alo, i);
    var low, high := U32(alo * Pow2(i)), U32(ahi * Pow2(i));
    var up;
    up, slo := Split(low);
    JoinFits(ahi, alo, i, high, low, up, slo);
    var joined := Or(high, up);
    sup, shi := Split(joined);
    Assemble(x, high, low, up, sup, shi, slo);
  }

  lemma Assemble(x: nat, high: nat, low: nat, up: nat, sup: nat, shi: nat, slo: nat)
    requires x == high * 0x1_0000 + low && low == up * 0x1_0000 + slo
    requires high + up == sup * 0x1_0000 + shi && shi < TWO16 && slo < TWO16
    ensures Limbs(x, sup, shi, slo)
  {
  }

  lemma {:induction false} ShiftFits(a: nat, ahi: nat, alo: nat, i: nat)
    requires a == ahi * 0x1_0000 + alo && ahi < TWO16 && alo < TWO16 && i < 16
    ensures ahi * Pow2(i) < TWO32 && alo * Pow2(i) < TWO32
    ensures a * Pow2(i) == ahi * Pow2(i) * 0x1_0000 + alo * Pow2(i)
  {
    Pow2Values();
    Pow2Monotone(i, 16);
    BelowProduct(alo, 0x1_0000, Pow2(i));
    BelowProduct(ahi, 0x1_0000, Pow2(i));
    ProductOfLimbs(a, ahi, alo, Pow2(i));
  }

  lemma {:induction false} ProductOfLimbs(a: nat, ahi: nat, alo: nat, p: nat)
    requires a == ahi * 0x1_0000 + alo
    ensures a * p == ahi * p * 0x1_0000 + alo * p
  {
    MulDistributes(ahi * 0x1_0000, alo, p);
  }

  /** What the low limb carries fits under the shifted high limb, so or-ing it in adds it. */
  lemma {:induction false} JoinFits(ahi: nat, alo: nat, i: nat, high: nat, low: nat, up: nat, slo: nat)
    requires ahi < TWO16 && alo < TWO16 && i < 16
    requires high == ahi * Pow2(i) && low == alo * Pow2(i) && low == up * 0x1_0000 + slo
    ensures Or(high, up) == high + up < TWO32
  {
    var p := Pow2(i);
    Pow2Values();
    Pow2Monotone(i, 16);
    MulLess(alo, 0x1_0000, p);
    MulLess(ahi, 0x1_0000, p);
    DivModUnique(high, p, ahi, 0);
    OrDisjoint(high, up, i);
  }

  lemma MulRight(x: nat, y: nat, z: nat)
    requires y <= z
    ensures x * y <= x * z
  {
  }

  lemma {:induction false} BelowProduct(x: nat, y: nat, p: nat)
    requires x < y && 0 < p <= TWO16
    ensures x * p < y * p <= y * 0x1_0000
  {
    MulLess(x, y, p);
    MulRight(y, p, 0x1_0000);
  }

  /** A 32-bit addition that does not overflow. */
  function Add32(x: nat, y: nat): (r: nat)
    requires x + y < TWO32
    ensures r == x + y
  {
    U32(x + y)
  }

  /** Add a shifted copy x whose low limb lines up with rllo. */
  method AddLow(sup: nat, shi: nat, slo: nat, rhi: nat, rlhi: nat, rllo: nat, ghost x: nat, ghost p: nat, ghost q: nat)
    returns (hi: nat, lhi: nat, llo: nat)
    requires Limbs(p, rhi, rlhi, rllo) && Limbs(x, sup, shi, slo) && q == p + x < TWO64
    ensures Limbs(q, hi, lhi, llo)
  {
    hi, lhi, llo := Add32(rhi, sup), Add32(rlhi, shi), Add32(rllo, slo);
    var c0, c1;
    c0, llo := Split(llo);
    c1, lhi := Split(Add32(lhi, c0));
    hi := Add32(hi, c1);
  }

  /** The same sixteen places further up: slo lines up with rlhi. */
  method AddHigh(sup: nat, shi: nat, slo: nat, rhi: nat, rlhi: nat, ghost rllo: nat, ghost x: nat, ghost p: nat,
                 ghost q: nat)
    returns (hi: nat, lhi: nat)
    requires Limbs(p, rhi, rlhi, rllo) && Limbs(x, sup, shi, slo) && sup < TWO16 && q == p + x * 0x1_0000 < TWO64
    ensures Limbs(q, hi, lhi, rllo)
  {
    HighFits(sup, shi, slo, rhi, rlhi, rllo, x, p, q);
    hi := Add32(rhi, U32(sup * 0x1_0000));
    hi := Add32(hi, shi);
    var carry;
    carry, lhi := Split(Add32(rlhi, slo));
    HighLimbs(sup, shi, slo, rhi, rlhi, rllo, x, p, q, carry, lhi);
    hi := Add32(hi, carry);
  }

  lemma HighFits(sup: nat, shi: nat, slo: nat, rhi: nat, rlhi: nat, rllo: nat, x: nat, p: nat, q: nat)
    requires Limbs(p, rhi, rlhi, rllo) && Limbs(x, sup, shi, slo) && sup < TWO16 && q == p + x * 0x1_0000 < TWO64
    ensures U32(sup * 0x1_0000) == sup * 0x1_0000 && rhi + sup * 0x1_0000 + shi < TWO32
  {
  }

  lemma HighLimbs(sup: nat, shi: nat, slo: nat, rhi: nat, rlhi: nat, rllo: nat, x: nat, p: nat, q: nat,
                  carry: nat, lhi: nat)
    requires Limbs(p, rhi, rlhi, rllo) && Limbs(x, sup, shi, slo) && q == p + x * 0x1_0000 < TWO64
    requires rlhi + slo == carry * 0x1_0000 + lhi && lhi < TWO16
    ensures rhi + sup * 0x1_0000 + shi + carry < TWO32
    ensures Limbs(q, rhi + sup * 0x1_0000 + shi + carry, lhi, rllo)
  {
  }

  /** What the limbs hold: a times the bits of b seen so far. */
  ghost predicate Multiplying(a: nat, b: nat, i: nat, p: nat) {
    p == a * Low(b, i)
  }

  ghost predicate IsShifted(a: nat, i: nat, x: nat) {
    x == a * Pow2(i)
  }

  /** Bit i of b decides whether x = a << i joins the product p so far. */
  lemma {:induction false} PartialProduct(a: nat, b: nat, i: nat, p: nat) returns (x: nat, q: nat)
    requires a < TWO32 && b < TWO32 && Multiplying(a, b, i, p)
    ensures IsShifted(a, i, x) && Multiplying(a, b, i + 1, q)
    ensures q == (if And(b, Pow2(i)) != 0 then p + x else p) < TWO64
  {
    x, q := a * Pow2(i), a * Low(b, i + 1);
    LowNext(b, i);
    LowBelow(b, i + 1);
    ProductBelow(a, Low(b, i + 1));
    var bit := if And(b, Pow2(i)) != 0 then Pow2(i) else 0;
    NextProduct(a, Low(b, i), Low(b, i + 1), bit);
  }

  /** The same for the upper bits, a being shifted sixteen places less. */
  lemma {:induction false} PartialProductHigh(a: nat, b: nat, i: nat, p: nat) returns (x: nat, q: nat)
    requires a < TWO32 && b < TWO32 && i >= 16 && Multiplying(a, b, i, p)
    ensures IsShifted(a, i - 16, x) && Multiplying(a, b, i + 1, q)
    ensures q == (if And(b, Pow2(i)) != 0 then p + x * 0x1_0000 else p) < TWO64
  {
    var full;
    full, q := PartialProduct(a, b, i, p);
    x := SixteenLess(a, i, full);
  }

  lemma {:induction false} SixteenLess(a: nat, i: nat, full: nat) returns (x: nat)
    requires i >= 16 && IsShifted(a, i, full)
    ensures IsShifted(a, i - 16, x) && full == x * 0x1_0000
  {
    x := a * Pow2(i - 16);
    SixteenMore(a, i, x);
  }

  lemma {:induction false} NextProduct(a: nat, m: nat, m': nat, bit: nat)
    requires m' == m + bit
    ensures a * m' == a * m + a * bit && a * 0 == 0
  {
    MulDistributes(m, bit, a);
  }

  lemma {:induction false} ProductBelow(a: nat, m: nat)
    requires a < TWO32 && m < TWO32
    ensures a * m < TWO64
  {
    MulRight(a, m, 0x1_0000_0000);
  }

  /** One turn of the first loop. */
  method StepLow(a: nat, b: nat, i: nat, rhi: nat, rlhi: nat, rllo: nat, ghost p: nat)
    returns (hi: nat, lhi: nat, llo: nat, ghost q: nat)
    requires a < TWO32 && b < TWO32 && i < 16 && Multiplying(a, b, i, p) && Limbs(p, rhi, rlhi, rllo)
    ensures Multiplying(a, b, i + 1, q) && Limbs(q, hi, lhi, llo)
  {
    ghost var x;
    x, q := PartialProduct(a, b, i, p);
    hi, lhi, llo := rhi, rlhi, rllo;
    if And(b, Pow2(i)) != 0 {
      var sup, shi, slo := ShiftLimbs(a, i, x);
      hi, lhi, llo := AddLow(sup, shi, slo, rhi, rlhi, rllo, x, p, q);
    }
  }

  /** One turn of the second loop. */
  method StepHigh(a: nat, b: nat, i: nat, rhi: nat, rlhi: nat, ghost rllo: nat, ghost p: nat)
    returns (hi: nat, lhi: nat, ghost q: nat)
    requires a < TWO32 && b < TWO32 && i >= 16 && i < 32 && Multiplying(a, b, i, p) && Limbs(p, rhi, rlhi, rllo)
    ensures Multiplying(a, b, i + 1, q) && Limbs(q, hi, lhi, rllo)
  {
    ghost var x;
    x, q := PartialProductHigh(a, b, i, p);
    hi, lhi := rhi, rlhi;
    if And(b, Pow2(i)) != 0 {
      var sup, shi, slo := ShiftLimbs(a, i - 16, x);
      hi, lhi := AddHigh(sup, shi, slo, rhi, rlhi, rllo, x, p, q);
    }
  }

  /** soft_mpyuhi */
  method SoftMpyUHi(a: nat, b: nat) returns (rhi: nat)
    requires a < TWO32 && b < TWO32
    ensures rhi == a * b / 0x1_0000_0000
  {
    var rlhi, rllo := 0, 0;
    rhi := 0;
    ghost var p: nat := 0;
    assert Multiplying(a, b, 0, 0);
    for i := 0 to 16
      invariant Multiplying(a, b, i, p) && Limbs(p, rhi, rlhi, rllo)
    {
      rhi, rlhi, rllo, p := StepLow(a, b, i, rhi, rlhi, rllo, p);
    }
    for i := 16 to 32
      invariant Multiplying(a, b, i, p) && Limbs(p, rhi, rlhi, rllo)
    {
      rhi, rlhi, p := StepHigh(a, b, i, rhi, rlhi, rllo, p);
    }
    Finished(a, b, p, rhi, rlhi, rllo);
  }

  lemma {:induction false} Finished(a: nat, b: nat, p: nat, rhi: nat, rlhi: nat, rllo: nat)
    requires b < TWO32 && Multiplying(a, b, 32, p) && Limbs(p, rhi, rlhi, rllo)
    ensures rhi == a * b / 0x1_0000_0000
  {
    Pow2Values();
    LowBelow(b, 32);
    assert p == a * b;
  }

  lemma {:induction false} SixteenMore(a: nat, i: nat, x: nat)
    requires i >= 16 && x == a * Pow2(i - 16)
    ensures x * 0x1_0000 == a * Pow2(i)
  {
    Pow2Values();
    Pow2Add(i - 16, 16);
    MulAssociates(a, Pow2(i - 16), 0x1_0000);
  }

  predicate Int(x: int) { 0 - TWO31 <= x < TWO31 }

  /** r ^ -1 */
  function Complement(r: nat): nat
    requires r < TWO32
  {
    TWO32 - 1 - r
  }

  /** soft_mpyshi: multiply the magnitudes, then negate the 64-bit product knowing
      only its high word and whether its low word is zero. */
  method SoftMpySHi(a0: int, b0: int) returns (r: int)
    requires Int(a0) && Int(b0)
    ensures r == a0 * b0 / 0x1_0000_0000
  {
    var sgn := (a0 < 0) != (b0 < 0);
    var a := if a0 < 0 then S32(-a0) else a0;
    var b := if b0 < 0 then S32(-b0) else b0;
    Magnitude(a0);
    Magnitude(b0);
    ghost var product := Abs(a0) * Abs(b0);
    MagnitudeProduct(Abs(a0), Abs(b0));
    SignOfProduct(a0, b0);
    FloorOfNegation(product);
    var p := U32(U32(a) * U32(b));
    var u := SoftMpyUHi(U32(a), U32(b));
    r := ApplySign(sgn, p, u, product);
  }

  /** r = (sgn) ? (r ^ -1) : r, and the carry into it when the low word is zero. */
  method ApplySign(sgn: bool, p: nat, u0: nat, ghost product: nat) returns (r: int)
    requires product <= 0x4000_0000_0000_0000
    requires u0 == product / 0x1_0000_0000 && p == product % 0x1_0000_0000
    ensures r == if !sgn then u0 else if p == 0 then -(u0 as int) else -(u0 as int) - 1
  {
    var u := u0;
    if sgn {
      u := Complement(u);
      if p == 0 {
        u := U32(u + 1);
      }
    }
    r := S32(u);
  }

  /** floor(-p / 2^32) from the two words of p. */
  lemma FloorOfNegation(p: nat)
    ensures (-(p as int)) / 0x1_0000_0000 ==
            if p % 0x1_0000_0000 == 0 then -(p / 0x1_0000_0000) as int else -(p / 0x1_0000_0000) - 1
  {
  }

  lemma Magnitude(a: int)
    requires Int(a)
    ensures U32(if a < 0 then S32(-a) else a) == Abs(a) <= TWO31
  {
  }

  lemma {:induction false} MagnitudeProduct(x: nat, y: nat)
    requires x <= TWO31 && y <= TWO31
    ensures x * y <= 0x4000_0000_0000_0000
  {
    MulRight(x, y, 0x8000_0000);
  }

  lemma SignOfProduct(a: int, b: int)
    ensures a * b == if (a < 0) == (b < 0) then Abs(a) * Abs(b) else -(Abs(a) * Abs(b))
  {
  }
}
