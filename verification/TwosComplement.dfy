/** sw/host/twoc.cpp: reading a field of a word as a signed number, and dropping
    low bits of it with rounding to the nearest, ties to even. */
module TwosComplement {
  import opened Bits

  /** sbits: the low `bits` bits of val as a two's complement number. */
  function SBits(val: int, bits: nat): int
    requires bits >= 1
  {
    var r := val % Pow2(bits);
    if r >= Pow2(bits - 1) then r - Pow2(bits) else r
  }

  /** ubits */
  function UBits(val: int, bits: nat): nat {
    val % Pow2(bits)
  }

  /** val >> k on a signed word rounds down. */
  function Shr(val: int, k: nat): int {
    val / Pow2(k)
  }

  /** rndbits before its conversion to unsigned.  The source computes one mask in
      a 32-bit int, which is why at most 31 bits may be dropped. */
  function Rounded(val: int, n: nat, m: nat): int
    requires 1 <= m <= n <= 63 && n - m <= 31
  {
    var s, d := SBits(val, n), n - m;
    if d == 0 then s
    else if d == 1 then
      var t := SBits(Shr(val, 1), m);
      if s % 4 == 3 then t + 1 else t
    else
      var t := SBits(Shr(val, d), m);
      if Shr(s, d - 1) % 2 == 0 then t
      else if s % Pow2(d - 1) != 0 then t + 1
      else if t % 2 == 1 then t + 1
      else t
  }

  function RndBits(val: int, n: nat, m: nat): nat
    requires 1 <= m <= n <= 63 && n - m <= 31
  {
    U64(Rounded(val, n, m))
  }

  /** SBits is the only number in the signed range congruent to val. */
  lemma {:induction false} SBitsIs(val: int, bits: nat, k: int, y: int)
    requires bits >= 1 && val == k * Pow2(bits) + y && -(Pow2(bits - 1) as int) <= y < Pow2(bits - 1)
    ensures SBits(val, bits) == y
  {
    var p := Pow2(bits);
    if y >= 0 {
      DivModUnique(val, p, k, y);
    } else {
      assert (k - 1) * p == k * p - p;
      DivModUnique(val, p, k - 1, y + p);
    }
  }

  lemma {:induction false} SBitsRange(val: int, bits: nat) returns (k: int)
    requires bits >= 1
    ensures -(Pow2(bits - 1) as int) <= SBits(val, bits) < Pow2(bits - 1)
    ensures val == k * Pow2(bits) + SBits(val, bits)
  {
    var p := Pow2(bits);
    DivModFacts(val, p);
    k := if val % p >= Pow2(bits - 1) then val / p + 1 else val / p;
    assert (val / p + 1) * p == val / p * p + p;
  }

  /** Signed and unsigned reading of the same field determine each other. */
  lemma {:induction false} FieldRoundTrip(val: int, bits: nat)
    requires bits >= 1
    ensures SBits(UBits(val, bits), bits) == SBits(val, bits) && UBits(SBits(val, bits), bits) == UBits(val, bits)
  {
    var p := Pow2(bits);
    DivModFacts(val, p);
    var r := val % p;
    DivModUnique(r, p, 0, r);
    if r >= Pow2(bits - 1) {
      DivModUnique(r - p, p, -1, r);
    }
  }

  /** UBits is the only number in the unsigned range congruent to val. */
  lemma {:induction false} UBitsIs(val: int, bits: nat, u: int)
    ensures u == UBits(val, bits) <==> 0 <= u < Pow2(bits) && exists k: int :: val == k * Pow2(bits) + u
  {
    var p := Pow2(bits);
    DivModFacts(val, p);
    if 0 <= u < p && exists k: int :: val == k * p + u {
      var k: int :| val == k * p + u;
      DivModUnique(val, p, k, u);
    }
  }

  /** Dropping d low bits of the word and then reading the field is reading it and then dropping. */
  lemma {:induction false} FieldOfShifted(val: int, m: nat, d: nat)
    requires m >= 1
    ensures SBits(Shr(val, d), m) == Shr(SBits(val, m + d), d)
  {
    var k := SBitsRange(val, m + d);
    var s, q := SBits(val, m + d), Pow2(d);
    Pow2Add(m, d);
    Pow2Add(m - 1, d);
    DivModFacts(s, q);
    Carry(val, k, Pow2(m), q, s / q, s % q);
    QuotientRange(s, q, Pow2(m - 1));
    SBitsIs(Shr(val, d), m, k, s / q);
  }

  lemma {:induction false} Carry(val: int, k: int, p: nat, q: nat, t: int, low: int)
    requires 0 <= low < q && val == k * (p * q) + (t * q + low)
    ensures val / q == k * p + t
  {
    assert k * (p * q) == k * p * q;
    assert (k * p + t) * q == k * p * q + t * q;
    DivModUnique(val, q, k * p + t, low);
  }

  lemma {:induction false} QuotientRange(s: int, q: nat, h: nat)
    requires q > 0 && -(h * q) <= s < h * q
    ensures -(h as int) <= s / q < h
  {
    DivModFacts(s, q);
    var t, low := s / q, -(h as int);
    assert low * q == -(h * q) && (t + 1) * q == t * q + q;
    Cancel(t, h, q);
    Cancel(low, t + 1, q);
  }

  lemma {:induction false} Cancel(x: int, y: int, q: nat)
    requires x * q < y * q
    ensures x < y
  {
    if y < x {
      MulLess(y, x, q);
    }
  }

  /** r is s / 2^d rounded to nearest, ties to even. */
  ghost predicate RoundsHalfEven(s: int, q: nat, r: int) {
    var e := 2 * (s - r * q);
    -(q as int) <= e <= q && (e == q || e == -(q as int) ==> r % 2 == 0)
  }

  /** There is only one such number. */
  lemma {:induction false} RoundingUnique(s: int, q: nat, r: int, r': int)
    requires q > 0 && RoundsHalfEven(s, q, r) && RoundsHalfEven(s, q, r')
    ensures r == r'
  {
    NotBelow(s, q, r, r');
    NotBelow(s, q, r', r);
  }

  lemma {:induction false} NotBelow(s: int, q: nat, r: int, r': int)
    requires q > 0 && RoundsHalfEven(s, q, r) && RoundsHalfEven(s, q, r')
    ensures r' <= r
  {
    assert (r + 1) * q == r * q + q && (r + 2) * q == r * q + 2 * q;
    if r + 2 < r' {
      MulLess(r + 2, r', q);
    }
  }

  /** rndbits rounds the signed n-bit value to nearest, ties to even, positive or negative. */
  lemma {:induction false} RndBitsRounds(val: int, n: nat, m: nat)
    requires 1 <= m <= n <= 63 && n - m <= 31
    ensures RoundsHalfEven(SBits(val, n), Pow2(n - m), Rounded(val, n, m))
  {
    var s, d := SBits(val, n), n - m;
    if d > 0 {
      FieldOfShifted(val, m, d);
      LowPart(s, d);
      var t, low, h := Shr(s, d), s % Pow2(d), Pow2(d - 1);
      NearestOf(s, t, low, h, Rounded(val, n, m));
    }
  }

  /** The rounded value needs one bit more than the m asked for exactly when bits are
      dropped and the input lies within half a unit of the top (on the half unit
      itself a one-bit result rounds down to 0, any other up); it never leaves
      the range otherwise. */
  lemma {:induction false} RndBitsOverflows(val: int, n: nat, m: nat)
    requires 1 <= m <= n <= 63 && n - m <= 31
    ensures var r, s := Rounded(val, n, m), SBits(val, n);
            && -(Pow2(m - 1) as int) <= r <= Pow2(m - 1)
            && (r == Pow2(m - 1) <==> m < n && InTopHalf(s, n, m))
            && RndBits(val, n, m) == if r < 0 then TWO64 + r else r
  {
    var s, d, r := SBits(val, n), n - m, Rounded(val, n, m);
    var _ := SBitsRange(val, n);
    if d > 0 {
      RndBitsRounds(val, n, m);
      RoundedRange(s, n, m, d, r);
    }
    Unsigned(r, m - 1);
  }

  predicate InTopHalf(s: int, n: nat, m: nat)
    requires 1 <= m < n
  {
    if m == 1 then s > Pow2(n - 1) - Pow2(n - m - 1) else s >= Pow2(n - 1) - Pow2(n - m - 1)
  }

  /** 127 in eight bits comes out as 8, which four bits hold only as -8. */
  lemma {:induction false} TopRoundsOut()
    ensures Rounded(127, 8, 4) == 8 && SBits(8, 4) == -8
  {
    assert Pow2(8) == 256 && Pow2(4) == 16 && Pow2(3) == 8 && Pow2(7) == 128;
  }

  lemma {:induction false} RoundedRange(s: int, n: nat, m: nat, d: nat, r: int)
    requires m >= 1 && d >= 1 && n == m + d
    requires -(Pow2(n - 1) as int) <= s < Pow2(n - 1) && RoundsHalfEven(s, Pow2(d), r)
    ensures -(Pow2(m - 1) as int) <= r <= Pow2(m - 1)
    ensures r == Pow2(m - 1) <==> InTopHalf(s, n, m)
  {
    var half, q, top, topq := FieldPowers(n, m, d);
    Topmost(s, half, q, top, r, topq, r * q);
  }

  lemma {:induction false} FieldPowers(n: nat, m: nat, d: nat) returns (half: nat, q: nat, top: nat, topq: nat)
    requires m >= 1 && d >= 1 && n == m + d
    ensures half == Pow2(d - 1) && q == Pow2(d) && top == Pow2(m - 1) && topq == Pow2(n - 1)
    ensures half > 0 && q == 2 * half && topq == top * q
    ensures (top % 2 == 0 <==> m >= 2) && top >= 1
  {
    half, q, top, topq := Pow2(d - 1), Pow2(d), Pow2(m - 1), Pow2(n - 1);
    Pow2Add(m - 1, d);
    if m >= 2 {
      assert top == 2 * Pow2(m - 2);
    }
  }

  lemma {:induction false} Unsigned(r: int, k: nat)
    requires k <= 62 && -(Pow2(k) as int) <= r <= Pow2(k)
    ensures U64(r) == if r < 0 then TWO64 + r else r
  {
    Pow2Monotone(k, 63);
    Pow2Values();
  }

  lemma {:induction false} Topmost(s: int, half: nat, q: nat, top: int, r: int, topq: int, rq: int)
    requires half > 0 && q == 2 * half && top >= 0 && topq == top * q && rq == r * q
    requires -topq <= s < topq && RoundsHalfEven(s, q, r)
    ensures -top <= r <= top && (r == top <==> if top % 2 == 0 then s >= topq - half else s > topq - half)
  {
    Apart(r, top, q);
    Apart(top, r, q);
    Apart(r, top - 1, q);
    Apart(-top, r, q);
    Apart(r, -top, q);
    Squeeze(s, half, top, r, topq, rq);
  }

  /** Multiples of q lie at least q apart. */
  lemma {:induction false} Apart(x: int, y: int, q: nat)
    ensures x < y ==> x * q <= y * q - q
    ensures (-x) * q == -(x * q) && (-y) * q == -(y * q)
    ensures (x - 1) * q == x * q - q && (y - 1) * q == y * q - q
  {
    if x < y {
      MulLess(x, y, q);
    }
  }

  lemma Squeeze(s: int, half: nat, top: int, r: int, topq: int, rq: int)
    requires half > 0 && top >= 0 && -topq <= s < topq
    requires -2 * half <= 2 * (s - rq) <= 2 * half
    requires 2 * (s - rq) in {2 * half, -2 * half} ==> r % 2 == 0
    requires r < top ==> rq <= topq - 2 * half
    requires r < top - 1 ==> rq <= topq - 4 * half
    requires r == top ==> rq == topq
    requires r > top ==> rq >= topq + 2 * half
    requires r < -top ==> rq <= -topq - 2 * half
    ensures -top <= r <= top && (r == top <==> if top % 2 == 0 then s >= topq - half else s > topq - half)
  {
  }

  lemma NearestOf(s: int, t: int, low: nat, h: nat, r: int)
    requires h > 0 && low < 2 * h && s == t * (2 * h) + low && (t + 1) * (2 * h) == t * (2 * h) + 2 * h
    requires r == if low < h || (low == h && t % 2 == 0) then t else t + 1
    ensures RoundsHalfEven(s, 2 * h, r)
  {
  }

  /** Where s falls between two multiples of 2^d, bit d - 1 and the bits below it say. */
  lemma {:induction false} LowPart(s: int, d: nat)
    requires d >= 1
    ensures var t, low, h := Shr(s, d), s % Pow2(d), Pow2(d - 1);
            && s == t * (2 * h) + low && 0 <= low < 2 * h
            && (Shr(s, d - 1) % 2 == 0 <==> low < h)
            && (low >= h ==> (s % h == 0 <==> low == h))
            && (t + 1) * (2 * h) == t * (2 * h) + 2 * h
    ensures d == 1 ==> (s % 4 == 3 <==> s % 2 == 1 && Shr(s, 1) % 2 == 1)
  {
    var h := Pow2(d - 1);
    var q := 2 * h;
    DivModFacts(s, q);
    var t, low := s / q, s % q;
    assert (t + 1) * q == t * q + q;
    if low < h {
      assert s == (2 * t) * h + low;
      DivModUnique(s, h, 2 * t, low);
    } else {
      assert s == (2 * t + 1) * h + (low - h);
      DivModUnique(s, h, 2 * t + 1, low - h);
    }
  }
}
