/** Machine-word arithmetic on naturals: powers of two, bitwise and/or, bit
    reversal, and the wrap-around of 32- and 64-bit words. */
module Bits {

  function Pow2(k: nat): (p: nat)
    ensures p >= 1
  {
    if k == 0 then 1 else 2 * Pow2(k - 1)
  }

  const TWO8: nat := 0x100
  const TWO16: nat := 0x1_0000
  const TWO31: nat := 0x8000_0000
  const TWO32: nat := 0x1_0000_0000
  const TWO63: nat := 0x8000_0000_0000_0000
  const TWO64: nat := 0x1_0000_0000_0000_0000

  /** Conversion to an unsigned 32-bit (64-bit) word. */
  function U32(x: int): (r: nat) { x % 0x1_0000_0000 }

  function U64(x: int): (r: nat) { x % 0x1_0000_0000_0000_0000 }

  /** Conversion of a 32-bit word to a signed int. */
  function S32(x: int): int {
    var r := x % 0x1_0000_0000;
    if r < TWO31 then r else r - TWO32
  }

  /** Conversion to a signed 64-bit long. */
  function S64(x: int): int {
    var r := x % 0x1_0000_0000_0000_0000;
    if r < TWO63 then r else r - TWO64
  }

  function Abs(x: int): nat { if x < 0 then -x else x }

  /** a & b */
  function And(a: nat, b: nat): nat {
    if a == 0 || b == 0 then 0 else 2 * And(a / 2, b / 2) + (a % 2) * (b % 2)
  }

  /** a | b */
  function Or(a: nat, b: nat): nat
    decreases a + b
  {
    if a == 0 && b == 0 then 0 else 2 * Or(a / 2, b / 2) + (if a % 2 == 1 || b % 2 == 1 then 1 else 0)
  }

  /** Bit i of a. */
  predicate Bit(a: nat, i: nat)
    decreases i
  {
    if i == 0 then a % 2 == 1 else Bit(a / 2, i - 1)
  }

  lemma {:induction false} ZeroBits(i: nat)
    ensures !Bit(0, i)
  {
    if i > 0 {
      ZeroBits(i - 1);
    }
  }

  lemma {:induction false} AndBits(a: nat, b: nat, i: nat)
    ensures Bit(And(a, b), i) <==> Bit(a, i) && Bit(b, i)
    decreases i
  {
    if a == 0 || b == 0 {
      ZeroBits(i);
    } else if i > 0 {
      AndBits(a / 2, b / 2, i - 1);
    }
  }

  lemma {:induction false} OrBits(a: nat, b: nat, i: nat)
    ensures Bit(Or(a, b), i) <==> Bit(a, i) || Bit(b, i)
    decreases i
  {
    if a == 0 && b == 0 {
      ZeroBits(i);
    } else if i > 0 {
      OrBits(a / 2, b / 2, i - 1);
    }
  }

  /** Conversions give the word congruent to x. */
  lemma {:induction false} WordsAre(x: int, k: int, r: int)
    ensures 0 <= r < TWO32 && x == k * TWO32 + r ==> U32(x) == r
    ensures 0 <= r < TWO64 && x == k * TWO64 + r ==> U64(x) == r
    ensures 0 - TWO31 <= r < TWO31 && x == k * TWO32 + r ==> S32(x) == r
    ensures 0 - TWO63 <= r < TWO63 && x == k * TWO64 + r ==> S64(x) == r
  {
    if 0 <= r < TWO32 && x == k * TWO32 + r {
      DivModUnique(x, TWO32, k, r);
    }
    if 0 <= r < TWO64 && x == k * TWO64 + r {
      DivModUnique(x, TWO64, k, r);
    }
    if 0 - TWO31 <= r < TWO31 && x == k * TWO32 + r {
      DivModUnique(x, TWO32, if r < 0 then k - 1 else k, if r < 0 then r + TWO32 else r);
    }
    if 0 - TWO63 <= r < TWO63 && x == k * TWO64 + r {
      DivModUnique(x, TWO64, if r < 0 then k - 1 else k, if r < 0 then r + TWO64 else r);
    }
  }

  lemma {:induction false} Pow2Add(i: nat, j: nat)
    ensures Pow2(i + j) == Pow2(i) * Pow2(j)
    decreases i
  {
    if i > 0 {
      Pow2Add(i - 1, j);
      assert Pow2(i) * Pow2(j) == 2 * (Pow2(i - 1) * Pow2(j));
    }
  }

  lemma {:induction false} Pow2Values()
    ensures Pow2(4) == 16 && Pow2(8) == TWO8 && Pow2(16) == TWO16
    ensures Pow2(31) == TWO31 && Pow2(32) == TWO32 && Pow2(63) == TWO63 && Pow2(64) == TWO64
  {
    assert Pow2(4) == 16;
    Pow2Add(4, 4);
    Pow2Add(8, 8);
    Pow2Add(16, 16);
    Pow2Add(32, 32);
    assert Pow2(32) == 2 * Pow2(31);
    assert Pow2(64) == 2 * Pow2(63);
  }

  lemma {:induction false} Pow2Monotone(i: nat, j: nat)
    requires i <= j
    ensures Pow2(i) <= Pow2(j)
    decreases j
  {
    if i < j {
      Pow2Monotone(i, j - 1);
    }
  }

  /** Masking with 2^k - 1 keeps the remainder modulo 2^k. */
  lemma {:induction false} AndMask(a: nat, k: nat)
    ensures And(a, Pow2(k) - 1) == a % Pow2(k)
    decreases k
  {
    if k > 0 {
      AndMask(a / 2, k - 1);
      OneBitMore(a, Pow2(k - 1));
    }
  }

  lemma {:induction false} OneBitMore(a: nat, m: nat)
    requires m > 0 && And(a / 2, m - 1) == a / 2 % m
    ensures And(a, 2 * m - 1) == a % (2 * m)
  {
    if a == 0 {
      DivModUnique(0, 2 * m, 0, 0);
    } else {
      LowBitOfMask(a, m);
      HalveMod(a, m);
    }
  }

  lemma LowBitOfMask(a: nat, m: nat)
    requires a > 0 && m > 0
    ensures And(a, 2 * m - 1) == 2 * And(a / 2, m - 1) + a % 2
  {
    assert (2 * m - 1) / 2 == m - 1 && (2 * m - 1) % 2 == 1;
  }

  /** a mod 2m, one bit at a time. */
  lemma {:induction false} HalveMod(a: nat, m: nat)
    requires m > 0
    ensures a % (2 * m) == 2 * (a / 2 % m) + a % 2
  {
    var q, r := a / 2 / m, a / 2 % m;
    assert a / 2 == q * m + r;
    assert a == q * (2 * m) + (2 * r + a % 2);
    DivModUnique(a, 2 * m, q, 2 * r + a % 2);
  }

  lemma {:induction false} MulLess(q: int, p: int, d: nat)
    requires q < p
    ensures q * d + d <= p * d
  {
    assert p * d == q * d + (p - q) * d;
    assert (p - q - 1) * d >= 0;
  }

  lemma MulMonotone(x: nat, y: nat, d: nat)
    requires x <= y
    ensures x * d <= y * d
  {
  }

  lemma MulDistributes(x: int, y: int, z: int)
    ensures (x + y) * z == x * z + y * z
  {
  }

  lemma MulAssociates(x: nat, y: nat, z: nat)
    ensures x * (y * z) == x * y * z
  {
  }

  lemma {:induction false} QuotientUnique(d: nat, q: int, r: int, q': int, r': int)
    requires 0 <= r < d && 0 <= r' < d && q * d + r == q' * d + r'
    ensures q == q' && r == r'
  {
    if q < q' {
      MulLess(q, q', d);
    } else if q' < q {
      MulLess(q', q, d);
    }
  }

  lemma {:induction false} DivModUnique(a: int, d: nat, q: int, r: int)
    requires 0 <= r < d && a == q * d + r
    ensures a / d == q && a % d == r
  {
    DivModFacts(a, d);
    QuotientUnique(d, q, r, a / d, a % d);
  }

  lemma DivModFacts(a: int, d: nat)
    requires d > 0
    ensures a == a / d * d + a % d && 0 <= a % d < d
  {
  }

  /** Or-ing in bits below a multiple of 2^k is addition. */
  lemma {:induction false} OrDisjoint(a: nat, b: nat, k: nat)
    requires b < Pow2(k) && a % Pow2(k) == 0
    ensures Or(a, b) == a + b
    decreases k
  {
    if k == 0 {
      OrZero(a);
    } else {
      var m := Pow2(k - 1);
      HalveMod(a, m);
      OrDisjoint(a / 2, b / 2, k - 1);
    }
  }

  lemma {:induction false} OrZero(a: nat)
    ensures Or(a, 0) == a
  {
    if a > 0 {
      OrZero(a / 2);
    }
  }

  /** A remainder modulo a power of two can be taken of the wrapped word. */
  lemma {:induction false} WrapMod(x: int, k: nat)
    requires k <= 32
    ensures U32(x) % Pow2(k) == x % Pow2(k)
  {
    Pow2Values();
    Pow2Add(k, 32 - k);
    ModOfMod(x, Pow2(k), Pow2(32 - k));
  }

  lemma {:induction false} ModOfMod(x: int, m: nat, c: nat)
    requires m > 0 && c > 0
    ensures m * c > 0 && x % (m * c) % m == x % m
  {
    var d := m * c;
    assert d > 0;
    DivModFacts(x, d);
    var q, r := x / d, x % d;
    DivModFacts(r, m);
    assert q * d == (q * c) * m;
    assert (q * c) * m + r / m * m == (q * c + r / m) * m;
    DivModUnique(x, m, q * c + r / m, r % m);
  }

  /** The n low bits of a in reverse order. */
  function Rev(n: nat, a: nat): (r: nat)
    ensures r < Pow2(n)
  {
    if n == 0 then 0 else (a % 2) * Pow2(n - 1) + Rev(n - 1, a / 2)
  }

  /** Only the n low bits count. */
  lemma {:induction false} RevLow(n: nat, a: nat)
    ensures Rev(n, a % Pow2(n)) == Rev(n, a)
  {
    if n > 0 {
      RevLow(n - 1, a / 2);
      HalveMod(a, Pow2(n - 1));
      RevLowBit(n - 1, a / 2 % Pow2(n - 1), a % 2);
      RevLowBit(n - 1, a / 2, a % 2);
    }
  }

  lemma {:induction false} RevZero(n: nat)
    ensures Rev(n, 0) == 0
  {
    if n > 0 {
      RevZero(n - 1);
    }
  }

  lemma {:induction false} RevPositive(n: nat, a: nat)
    requires 0 < a < Pow2(n)
    ensures Rev(n, a) > 0
  {
    if a % 2 == 0 {
      RevPositive(n - 1, a / 2);
    } else {
      assert (a % 2) * Pow2(n - 1) == Pow2(n - 1);
    }
  }

  /** Reversing a word exchanges its high and its low part and reverses both. */
  lemma {:induction false} RevSplit(w: nat, hi: nat, k: nat, lo: nat)
    requires hi < Pow2(w) && lo < Pow2(k)
    ensures Rev(k + w, hi * Pow2(k) + lo) == Rev(k, lo) * Pow2(w) + Rev(w, hi)
    decreases k
  {
    if k > 0 {
      RevSplit(w, hi, k - 1, lo / 2);
      Pow2Add(k - 1, w);
      RevSplitBit(w, hi, k - 1, lo, Pow2(k - 1), Pow2(w));
    }
  }

  /** One more low bit. */
  lemma {:induction false} RevSplitBit(w: nat, hi: nat, k: nat, lo: nat, p: nat, q: nat)
    requires p == Pow2(k) && p * q == Pow2(k + w)
    requires Rev(k + w, hi * p + lo / 2) == Rev(k, lo / 2) * q + Rev(w, hi)
    ensures Rev(k + 1 + w, hi * (2 * p) + lo) == Rev(k + 1, lo) * q + Rev(w, hi)
  {
    DoubleProduct(hi, p);
    RevLowBit(k + w, hi * p, lo);
    RevLowBit(k, 0, lo);
    RegroupProduct(lo % 2, p, Rev(k, lo / 2), q);
  }

  lemma DoubleProduct(x: nat, p: nat)
    ensures x * (2 * p) == 2 * (x * p)
  {
  }

  lemma {:induction false} RegroupProduct(bit: nat, p: nat, rest: nat, q: nat)
    ensures (bit * p + rest) * q == bit * (p * q) + rest * q
  {
    MulDistributes(bit * p, rest, q);
    MulAssociates(bit, p, q);
  }

  lemma RevLowBit(n: nat, h: nat, lo: nat)
    ensures Rev(n + 1, 2 * h + lo) == lo % 2 * Pow2(n) + Rev(n, h + lo / 2)
  {
    assert (2 * h + lo) / 2 == h + lo / 2 && (2 * h + lo) % 2 == lo % 2;
  }

}
