/** sw/zlib/udiv.c and sw/zlib/umod.c: 64-bit division on a 32-bit machine.
    Words are naturals below 2^32 or 2^64 and every shift and subtraction wraps. */
module LongDivision {
  import opened Bits

  // ----- leading zeros by way of bit reversal -----

  /** r = (r << 1) | (b & 1), b >>= 1, thirty-two times. */
  method ZipBitrev(a: nat) returns (r: nat)
    requires a < TWO32
    ensures r == Rev(32, a)
  {
    r := 0;
    var b := a;
    assert 0 * Pow2(32) == 0;
    for i := 0 to 32
      invariant Reversing(32, a, i, r, b)
    {
      ShiftInBit(32, a, i, r, b);
      r := Or(U32(2 * r), And(b, 1));
      b := b / 2;
    }
  }

  /** i bits of an n-bit word have moved over: the rest of the reversal is that of b. */
  ghost predicate Reversing(n: nat, a: nat, i: nat, r: nat, b: nat) {
    i <= n && r < Pow2(i) && r * Pow2(n - i) + Rev(n - i, b) == Rev(n, a)
  }

  lemma {:induction false} ShiftInBit(n: nat, a: nat, i: nat, r: nat, b: nat)
    requires i < n <= 32 && Reversing(n, a, i, r, b)
    ensures Reversing(n, a, i + 1, Or(U32(2 * r), And(b, 1)), b / 2)
  {
    JoinBit(r, b, i);
    BitOut(r, b % 2, Pow2(n - i - 1));
  }

  lemma {:induction false} JoinBit(r: nat, b: nat, i: nat)
    requires i < 32 && r < Pow2(i)
    ensures Or(U32(2 * r), And(b, 1)) == 2 * r + b % 2 < Pow2(i + 1)
  {
    ShiftOneFits(r, i);
    LowBit(b);
    OrBit(r, b % 2);
  }

  lemma {:induction false} ShiftOneFits(r: nat, i: nat)
    requires i < 32 && r < Pow2(i)
    ensures U32(2 * r) == 2 * r && 2 * r + 1 < Pow2(i + 1)
  {
    Pow2Values();
    Pow2Monotone(i + 1, 32);
  }

  lemma {:induction false} LowBit(b: nat)
    ensures And(b, 1) == b % 2
  {
    AndMask(b, 1);
  }

  lemma {:induction false} OrBit(r: nat, bit: nat)
    requires bit < 2
    ensures Or(2 * r, bit) == 2 * r + bit
  {
    OrDisjoint(2 * r, bit, 1);
  }

  lemma BitOut(r: nat, bit: nat, p: nat)
    ensures (2 * r + bit) * p == r * (2 * p) + bit * p
  {
  }

  /** The low w bits of a reversal are clear exactly when the top w bits of the
      original are, and dropping them is reversing in a narrower word. */
  lemma {:induction false} LowBitsOfReversal(n: nat, a: nat, w: nat)
    requires w <= n && a < Pow2(n)
    ensures Rev(n, a) % Pow2(w) == 0 <==> a < Pow2(n - w)
    ensures a < Pow2(n - w) ==> Rev(n, a) / Pow2(w) == Rev(n - w, a)
  {
    var k := n - w;
    var hi, lo := SplitWord(n, a, k);
    RevSplit(w, hi, k, lo);
    DivModUnique(Rev(n, a), Pow2(w), Rev(k, lo), Rev(w, hi));
    if hi == 0 {
      RevZero(w);
      assert a == lo;
    } else {
      RevPositive(w, hi);
    }
  }

  lemma {:induction false} SplitWord(n: nat, a: nat, k: nat) returns (hi: nat, lo: nat)
    requires k <= n && a < Pow2(n)
    ensures a == hi * Pow2(k) + lo && lo < Pow2(k) && hi < Pow2(n - k)
    ensures hi > 0 ==> a >= Pow2(k)
  {
    hi, lo := a / Pow2(k), a % Pow2(k);
    DivModFacts(a, Pow2(k));
    Pow2Add(n - k, k);
    if hi >= Pow2(n - k) {
      MulMonotone(Pow2(n - k), hi, Pow2(k));
      assert false;
    }
    if hi > 0 {
      MulMonotone(1, hi, Pow2(k));
    }
  }

  /** Between width and twice width leading zeros remain to be found in an m-bit
      word whose reversal is hv: drop `width` of them if they are all there. */
  method DropZeros(width: nat, hv: nat, cnt: nat, ghost m: nat, ghost a: nat)
    returns (hv': nat, cnt': nat, ghost m': nat)
    requires 0 < width && 2 * width <= m <= 32 && Pow2(m - 2 * width) <= a < Pow2(m) && hv == Rev(m, a)
    ensures m - width <= m' <= m && cnt' - cnt == m - m'
    ensures Pow2(m' - width) <= a < Pow2(m') && hv' == Rev(m', a)
  {
    AndMask(hv, width);
    LowBitsOfReversal(m, a, width);
    if And(hv, Pow2(width) - 1) == 0 {
      hv', cnt', m' := hv / Pow2(width), cnt + width, m - width;
    } else {
      hv', cnt', m' := hv, cnt, m;
    }
  }

  /** cltz: the number of leading zeros of a nonzero 64-bit word. */
  method Cltz(v: nat) returns (cnt: nat)
    requires 0 < v < TWO64
    ensures Normal(v, cnt)
  {
    var a, high := Halve(v);
    cnt := if high then 0 else 32;
    var hv := ZipBitrev(a);
    ghost var m;
    cnt, m := Descend(hv, cnt, a);
    TopBit(v, a, high, m);
  }

  /** The upper half of v, or the lower one when that is clear. */
  method Halve(v: nat) returns (hv: nat, high: bool)
    requires 0 < v < TWO64
    ensures 0 < hv < Pow2(32) && (high <==> v >= TWO32) && hv == if high then v / TWO32 else v
  {
    Pow2Values();
    hv := v / TWO32;
    high := hv != 0;
    if !high {
      AndMask(v, 32);
      hv := And(v, 0xffff_ffff);
    }
  }

  lemma {:induction false} TopBit(v: nat, a: nat, high: bool, m: nat)
    requires 1 <= m <= 32 && Pow2(m - 1) <= a < Pow2(m) && a == if high then v / TWO32 else v
    ensures Normal(v, (if high then 0 else 32) + 32 - m)
  {
    if high {
      HighHalf(v, a, m);
    }
  }

  /** The five rungs: m is where a's top bit was found. */
  method Descend(hv0: nat, cnt0: nat, ghost a: nat) returns (cnt: nat, ghost m: nat)
    requires 0 < a < Pow2(32) && hv0 == Rev(32, a)
    ensures 1 <= m <= 32 && cnt - cnt0 == 32 - m && Pow2(m - 1) <= a < Pow2(m)
  {
    var hv;
    hv, cnt, m := DropZeros(16, hv0, cnt0, 32, a);
    hv, cnt, m := DropZeros(8, hv, cnt, m, a);
    hv, cnt, m := DropZeros(4, hv, cnt, m, a);
    hv, cnt, m := DropZeros(2, hv, cnt, m, a);
    LowBitsOfReversal(m, a, 1);
    AndMask(hv, 1);
    if And(hv, 1) == 0 {
      cnt := cnt + 1;
      m := m - 1;
    }
  }

  /** v's high half has its top bit at m - 1, so v has it 32 places higher. */
  lemma {:induction false} HighHalf(v: nat, a: nat, m: nat)
    requires 1 <= m <= 32 && a == v / TWO32 && Pow2(m - 1) <= a < Pow2(m)
    ensures Pow2(m + 31) <= v < Pow2(m + 32)
  {
    Pow2Values();
    Pow2Add(m - 1, 32);
    Pow2Add(m, 32);
  }

  // ----- division -----

  /** __udivdi3 */
  method UDivDi3(a: nat, b: nat) returns (r: nat)
    requires a < TWO64 && 0 < b < TWO64
    ensures r == a / b
  {
    if a < b {
      return 0;
    }
    if b / TWO32 == 0 && a / TWO32 == 0 {
      return a / b;
    }
    var la := Cltz(a);
    var lb := Cltz(b);
    r := DivideAligned(a, la, b, lb);
  }

  /** The rest of __udivdi3, once both leading zero counts are known. */
  method DivideAligned(a0: nat, la: nat, b0: nat, lb: nat) returns (r: nat)
    requires Normal(a0, la) && Normal(b0, lb) && b0 <= a0
    ensures r == a0 / b0
  {
    ghost var unit := b0 * Pow2(la);
    AlignedUnder(a0, la, b0, lb);
    ScaleQuotient(a0, b0, Pow2(la));
    var a := U64(a0 * Pow2(la));
    var shifted := U64(b0 * Pow2(la));
    if lb - la < 32 && And(shifted, 0xffff_ffff) == 0 {
      r := DivideTops(a, shifted);
    } else {
      var b := U64(b0 * Pow2(lb));
      r := ShiftSubtract(a, b, lb - la, unit);
    }
  }

  method DivideTops(a: nat, b: nat) returns (r: nat)
    requires a < TWO64 && 0 < b < TWO64 && And(b, 0xffff_ffff) == 0
    ensures r == a / b
  {
    TopHalves(a, b);
    r := a / TWO32 / (b / TWO32);
  }

  /** v is a nonzero 64-bit word with l leading zeros. */
  predicate Normal(v: nat, l: nat) {
    l < 64 && Pow2(63 - l) <= v < Pow2(64 - l)
  }

  /** With leading zeros la and lb, neither shift loses a bit, and b's is the
      divisor under the dividend shifted by the difference. */
  lemma {:induction false} AlignedUnder(a: nat, la: nat, b: nat, lb: nat)
    requires Normal(a, la) && Normal(b, lb) && b <= a
    ensures la <= lb && 0 < b * Pow2(la) <= a * Pow2(la) < TWO64
    ensures U64(a * Pow2(la)) == a * Pow2(la) && U64(b * Pow2(la)) == b * Pow2(la)
    ensures b * Pow2(lb) == b * Pow2(la) * Pow2(lb - la) && U64(b * Pow2(lb)) == b * Pow2(lb)
    ensures a * Pow2(la) < 2 * (b * Pow2(lb))
  {
    FewerZeros(a, la, b, lb);
    ScaleBounds(a, la);
    ScaleBounds(b, lb);
    MulMonotone(b, a, Pow2(la));
    MulMonotone(1, b, Pow2(la));
    ShiftInTwo(b, la, lb);
    Fits(a * Pow2(la));
    Fits(b * Pow2(la));
    Fits(b * Pow2(lb));
  }

  lemma Fits(x: nat)
    requires x < TWO64
    ensures U64(x) == x
  {
  }

  lemma {:induction false} ShiftInTwo(b: nat, la: nat, lb: nat)
    requires la <= lb
    ensures b * Pow2(lb) == b * Pow2(la) * Pow2(lb - la)
  {
    Pow2Add(la, lb - la);
    MulAssociates(b, Pow2(la), Pow2(lb - la));
  }

  lemma {:induction false} FewerZeros(a: nat, la: nat, b: nat, lb: nat)
    requires Normal(a, la) && Normal(b, lb) && b <= a
    ensures la <= lb
  {
    if lb < la {
      Pow2Monotone(64 - la, 63 - lb);
      assert false;
    }
  }

  /** A word shifted left by its leading zeros has its top bit set and still fits. */
  lemma {:induction false} ScaleBounds(v: nat, l: nat)
    requires Normal(v, l)
    ensures TWO63 <= v * Pow2(l) < TWO64
  {
    TopBits(l);
    MulMonotone(Pow2(63 - l), v, Pow2(l));
    MulLess(v, Pow2(64 - l), Pow2(l));
  }

  lemma {:induction false} TopBits(l: nat)
    requires l < 64
    ensures Pow2(63 - l) * Pow2(l) == TWO63 && Pow2(64 - l) * Pow2(l) == TWO64
  {
    Pow2Values();
    Pow2Add(63 - l, l);
    Pow2Add(64 - l, l);
  }

  lemma {:induction false} ScaleQuotient(a: nat, b: nat, p: nat)
    requires b > 0 && p > 0
    ensures b * p > 0 && (a * p) / (b * p) == a / b
  {
    assert b * p > 0;
    DivModFacts(a, b);
    var q, r := a / b, a % b;
    assert a * p == q * (b * p) + r * p by {
      assert a * p == (q * b + r) * p;
    }
    MulLess(r, b, p);
    DivModUnique(a * p, b * p, q, r * p);
  }

  /** When the divisor's low half is clear only the high halves matter. */
  lemma {:induction false} TopHalves(a: nat, b: nat)
    requires 0 < b < TWO64 && And(b, 0xffff_ffff) == 0
    ensures b / TWO32 > 0 && a / b == a / TWO32 / (b / TWO32)
  {
    Pow2Values();
    AndMask(b, 32);
    var w := TWO32;
    var ib := b / w;
    assert b == ib * w;
    DivModFacts(a, w);
    var ia, rest := a / w, a % w;
    DivModFacts(ia, ib);
    var q, r := ia / ib, ia % ib;
    MulLess(r, ib, w);
    assert a == q * b + (r * w + rest) by {
      assert ia * w == (q * ib + r) * w;
      assert (q * ib) * w == q * b;
    }
    DivModUnique(a, b, q, r * w + rest);
  }

  /** What the shift-subtract loop keeps: `unit` is the divisor under the
      dividend, m = 2^k the quotient bit about to be decided, b the divisor in
      that position, r the bits decided so far and a what is left. */
  ghost predicate Dividing(total: nat, unit: nat, k: int, m: nat, b: nat, r: nat, a: nat) {
    && total == r * unit + a
    && if k >= 0 then m == Pow2(k) && b == m * unit && a < 2 * b && r % (2 * m) == 0
       else m == 0 && a < unit
  }

  /** The general case: r |= m and a -= b wherever b fits, halving m and b. */
  method ShiftSubtract(a0: nat, b0: nat, shift: nat, ghost unit: nat) returns (r: nat)
    requires unit > 0 && a0 < 2 * b0 && b0 == unit * Pow2(shift)
    ensures r == a0 / unit
  {
    var a, b := a0, b0;
    r := 0;
    var m := Pow2(shift);
    ghost var k: int := shift;
    while m > 0
      invariant -1 <= k && Dividing(a0, unit, k, m, b, r, a)
      decreases m
    {
      DividingStep(a0, unit, k, m, b, r, a);
      if a >= b {
        r := Or(r, m);
        a := a - b;
      }
      m := m / 2;
      b := b / 2;
      k := k - 1;
    }
    DivModUnique(a0, unit, r, a);
  }

  lemma {:induction false} DividingStep(total: nat, unit: nat, k: nat, m: nat, b: nat, r: nat, a: nat)
    requires Dividing(total, unit, k, m, b, r, a)
    ensures a >= b ==> Dividing(total, unit, k - 1, m / 2, b / 2, Or(r, m), a - b)
    ensures a < b ==> Dividing(total, unit, k - 1, m / 2, b / 2, r, a)
  {
    OrDisjoint(r, m, k + 1);
    Regain(total, unit, m, b, r, a);
    HalveUnit(unit, k, m, b);
    if k > 0 {
      MultiplePlus(r, m);
    }
  }

  lemma {:induction false} Regain(total: nat, unit: nat, m: nat, b: nat, r: nat, a: nat)
    requires total == r * unit + a && b == m * unit
    ensures total == (r + m) * unit + a - b
  {
    assert (r + m) * unit == r * unit + m * unit;
  }

  lemma {:induction false} HalveUnit(unit: nat, k: nat, m: nat, b: nat)
    requires m == Pow2(k) && b == m * unit
    ensures k > 0 ==> m / 2 == Pow2(k - 1) && m == 2 * (m / 2) && b / 2 == m / 2 * unit && b == 2 * (b / 2)
    ensures k == 0 ==> m / 2 == 0 && b == unit
  {
    if k > 0 {
      assert m * unit == 2 * (Pow2(k - 1) * unit);
    }
  }

  lemma {:induction false} MultiplePlus(r: nat, m: nat)
    requires m > 0 && r % (2 * m) == 0
    ensures r % m == 0 && (r + m) % m == 0
  {
    DivModFacts(r, 2 * m);
    var q := r / (2 * m);
    DivModUnique(r, m, 2 * q, 0);
    DivModUnique(r + m, m, 2 * q + 1, 0);
  }

  /** __umoddi3 */
  method UModDi3(a: nat, b: nat) returns (r: nat)
    requires a < TWO64 && 0 < b < TWO64
    ensures r == a % b
  {
    r := UDivDi3(a, b);
    DivModFacts(a, b);
    r := U64(r * b);
    r := U64(a - r);
  }

  predicate Long(x: int) { 0 - TWO63 <= x < TWO63 }

  /** C division: the remainder is smaller than the divisor and has the dividend's sign. */
  ghost predicate Truncates(a: int, b: int, q: int) {
    var rem := a - q * b;
    Abs(rem) < Abs(b) && (a >= 0 ==> rem >= 0) && (a <= 0 ==> rem <= 0)
  }

  function Signed(a: int, b: int, q: int): int {
    if (a < 0) == (b < 0) then q else -q
  }

  /** __divdi3 */
  method DivDi3(a0: int, b0: int) returns (r: int)
    requires Long(a0) && Long(b0) && b0 != 0
    ensures r == S64(Signed(a0, b0, Abs(a0) / Abs(b0)))
  {
    var s, a, b := 0, a0, b0;
    if a < 0 {
      s := 1;
      a := S64(-a);
    }
    if b < 0 {
      s := 1 - s;
      b := S64(-b);
    }
    Magnitude(a0);
    Magnitude(b0);
    var q := UDivDi3(U64(a), U64(b));
    QuotientFits(Abs(a0), Abs(b0));
    Negation(q);
    r := S64(q);
    if s == 1 {
      r := S64(-r);
    }
  }

  /** Negating a long and reading it as unsigned gives its magnitude, also for the most negative one. */
  lemma Magnitude(a: int)
    requires Long(a)
    ensures U64(if a < 0 then S64(-a) else a) == Abs(a) <= TWO63
  {
  }

  lemma {:induction false} Negation(q: nat)
    requires q <= TWO63
    ensures S64(-S64(q)) == S64(-(q as int))
    ensures q < TWO63 ==> S64(q) == q && S64(-(q as int)) == -(q as int)
    ensures S64(TWO63) == 0 - TWO63 && S64(0 - TWO63) == 0 - TWO63
  {
    if q < TWO63 {
      Small(q);
      Small(-(q as int));
    } else {
      assert q == TWO63;
    }
  }

  lemma Small(x: int)
    requires 0 - TWO63 <= x < TWO63
    ensures S64(x) == x
  {
  }

  lemma {:induction false} QuotientFits(x: nat, y: nat)
    requires y > 0
    ensures x / y <= x && (y >= 2 && x > 0 ==> x / y < x)
  {
    DivModFacts(x, y);
    var q := x / y;
    MulMonotone(1, y, q);
    if y >= 2 {
      MulMonotone(2, y, q);
    }
  }

  /** That is C's quotient, except that the one overflowing division gives back the dividend. */
  lemma {:induction false} SignedDivision(a: int, b: int)
    requires Long(a) && Long(b) && b != 0
    ensures var r := S64(Signed(a, b, Abs(a) / Abs(b)));
            if a == 0 - TWO63 && b == -1 then r == a else Long(r) && Truncates(a, b, r)
  {
    DivModFacts(Abs(a), Abs(b));
    QuotientFits(Abs(a), Abs(b));
    var q, rem := Abs(a) / Abs(b), Abs(a) % Abs(b);
    Negation(q);
    SignedProduct(a, b, q);
    if q == TWO63 {
      assert Abs(a) == TWO63 && a == 0 - TWO63 && Abs(b) == 1;
    }
    assert Truncates(a, b, Signed(a, b, q));
  }

  lemma SignedProduct(a: int, b: int, q: int)
    ensures Signed(a, b, q) * b == if a < 0 then -(q * Abs(b)) else q * Abs(b)
  {
  }
}
