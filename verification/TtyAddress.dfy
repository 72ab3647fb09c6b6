/** encode_address of sw/host/ttybus.cpp: setting the bus address with as few
    characters as the driver manages. */
module TtyAddress {
  import opened Bits
  import opened TtyCode

  /** The difference, in words, as the driver computes it: an unsigned
      subtraction shifted right, so a step backwards is a huge step forwards. */
  function Ahead(last: nat, a: nat): (d: nat)
    ensures d < ADDRESSES
  {
    U32(a - last) / 4
  }

  /** The difference forms.  The last one carries the code of the one before it,
      though it has a digit more. */
  function DiffCode(d: nat): seq<char> {
    if d < 32 then Code(0x09, d, 1)
    else if d < 2048 then Code(0x0b, d, 2)
    else if d < 0x2_0000 then Code(0x0d, d, 3)
    else if d < 0x80_0000 then Code(0x0d, d, 4)
    else []
  }

  /** The absolute form of word address w, when it is preferred to a difference
      form of n characters; n is 0 when there is none. */
  function AbsoluteCode(w: nat, n: nat): seq<char> {
    if w <= 0x3f && (n == 0 || n >= 2) then Code(0x08, w, 1)
    else if w <= 0xfff && (n == 0 || n >= 3) then Code(0x0a, w, 2)
    else if w <= 0x3_ffff && (n == 0 || n >= 4) then Code(0x0c, w, 3)
    else if w <= 0xff_ffff && (n == 0 || n >= 5) then Code(0x0e, w, 4)
    else if n == 0 then Code(0x00, w, 5)
    else []
  }

  /** encode_address for an aligned byte address a; `known` says that `last` is
      known to be the address at the far end. */
  function AddressCode(known: bool, last: nat, a: nat): seq<char> {
    if known && a == last then []
    else
      var dif := if known then DiffCode(Ahead(last, a)) else [];
      var abs := AbsoluteCode(a / 4, |dif|);
      if abs != [] then abs else dif
  }

  predicate ByteAddress(a: nat) { a % 4 == 0 && a < TWO32 }

  /** encode_address: first the difference into the buffer, then an absolute form
      over it unless the difference is shorter. */
  method EncodeAddress(addrSet: bool, lastaddr: nat, a: nat) returns (buf: seq<char>)
    requires ByteAddress(lastaddr) && ByteAddress(a)
    ensures buf == AddressCode(addrSet, lastaddr, a)
  {
    var addr := a / 4;
    buf := [];
    if addrSet && a == lastaddr {
      return;
    }
    if addrSet {
      buf := EncodeDifference(lastaddr, a);
    }
    var abs := EncodeAbsolute(addr, |buf|);
    if abs != [] {
      buf := abs;
    }
  }

  /** The absolute form, when it replaces a difference of n characters. */
  method EncodeAbsolute(addr: nat, n: nat) returns (buf: seq<char>)
    requires addr < ADDRESSES
    ensures buf == AbsoluteCode(addr, n)
  {
    buf := [];
    if addr <= 0x3f && (n == 0 || n >= 2) {
      LowDigit(addr);
      buf := [CharEnc(0x08), CharEnc(addr)];
    } else if addr <= 0xfff && (n == 0 || n >= 3) {
      TwoDigits(addr);
      buf := [CharEnc(0x0a), CharEnc(addr / 64 % 64), CharEnc(addr % 64)];
    } else if addr <= 0x3_ffff && (n == 0 || n >= 4) {
      ThreeDigits(addr);
      buf := [CharEnc(0x0c), CharEnc(addr / 0x1000 % 64), CharEnc(addr / 64 % 64), CharEnc(addr % 64)];
    } else if addr <= 0xff_ffff && (n == 0 || n >= 5) {
      FourDigits(addr);
      buf := [CharEnc(0x0e), CharEnc(addr / 0x4_0000 % 64), CharEnc(addr / 0x1000 % 64),
              CharEnc(addr / 64 % 64), CharEnc(addr % 64)];
    } else if n == 0 {
      buf := Encode(0, addr);
    }
  }

  /** encode: a word in six characters, the top two bits beside hb. */
  method Encode(hb: nat, val: nat) returns (buf: seq<char>)
    requires hb < 16
    ensures buf == Code(hb * 4 + val / 0x4000_0000 % 4, val, 5)
  {
    FiveDigits(val);
    buf := [CharEnc(hb * 4 + val / 0x4000_0000 % 4), CharEnc(val / 0x100_0000 % 64), CharEnc(val / 0x4_0000 % 64),
            CharEnc(val / 0x1000 % 64), CharEnc(val / 64 % 64), CharEnc(val % 64)];
  }

  method EncodeDifference(lastaddr: nat, a: nat) returns (buf: seq<char>)
    ensures buf == DiffCode(Ahead(lastaddr, a))
  {
    var diffaddr: int := Ahead(lastaddr, a);
    if -32 <= diffaddr < 32 {
      LowDigit(diffaddr);
      buf := [CharEnc(0x09), CharEnc(diffaddr % 64)];
    } else if -2048 <= diffaddr < 2048 {
      TwoDigits(diffaddr);
      buf := [CharEnc(0x0b), CharEnc(diffaddr / 64 % 64), CharEnc(diffaddr % 64)];
    } else if -0x2_0000 <= diffaddr < 0x2_0000 {
      ThreeDigits(diffaddr);
      buf := [CharEnc(0x0d), CharEnc(diffaddr / 0x1000 % 64), CharEnc(diffaddr / 64 % 64), CharEnc(diffaddr % 64)];
    } else if -0x80_0000 <= diffaddr < 0x80_0000 {
      FourDigits(diffaddr);
      buf := [CharEnc(0x0d), CharEnc(diffaddr / 0x4_0000 % 64), CharEnc(diffaddr / 0x1000 % 64),
              CharEnc(diffaddr / 64 % 64), CharEnc(diffaddr % 64)];
    } else {
      buf := [];
    }
  }

  /** The guard of the faulty branch: a high address a middling step ahead of the last one. */
  predicate Miscoded(known: bool, last: nat, a: nat) {
    known && a != last && a / 4 >= 0x100_0000 && 0x2_0000 <= Ahead(last, a) < 0x80_0000
  }

  /** What the driver believes about the far end is true. */
  predicate InStep(m: Mirror, known: bool, last: nat) {
    ValidMirror(m) && (known ==> ByteAddress(last) && m.addr == last / 4)
  }

  /** The stream sets the address to w and does nothing else. */
  predicate Reaches(m: Mirror, s: seq<char>, w: nat)
    requires ValidMirror(m)
  {
    Decode(m, s) == Decoded(true, m.(addr := w), [])
  }

  lemma {:induction false} AheadReaches(last: nat, a: nat)
    requires ByteAddress(last) && ByteAddress(a)
    ensures WrapAddress(last / 4 + Ahead(last, a)) == a / 4
    ensures a != last ==> Ahead(last, a) > 0
  {
    assert a == a / 4 * 4 && last == last / 4 * 4;
    if a >= last {
      assert U32(a - last) == a - last == (a / 4 - last / 4) * 4;
    } else {
      assert U32(a - last) == TWO32 + a - last == (0x4000_0000 + a / 4 - last / 4) * 4;
    }
  }

  lemma {:induction false} CodeReaches(m: Mirror, code: nat, v: nat, n: nat, w: nat)
    requires ValidMirror(m) && code < 64 && CodeLength(code) == n + 1 && v < Pow64(n)
    requires Effect(m, code, v, n + 1) == One(m.(addr := w), [], n + 1)
    ensures Reaches(m, Code(code, v, n), w)
  {
    CodeMeans(m, code, v, n, Code(code, v, n), m.(addr := w), []);
  }

  lemma {:induction false} AbsoluteReaches(m: Mirror, code: nat, w: nat, n: nat)
    requires ValidMirror(m) && w < ADDRESSES && w < Pow64(n)
    requires (n == 5 && code == 0) || (1 <= n <= 4 && code == 0x06 + 2 * n)
    ensures Reaches(m, Code(code, w, n), w)
  {
    AbsoluteEffect(m, code, w, n);
    assert WrapAddress(w) == w;
    CodeReaches(m, code, w, n, w);
  }

  lemma {:induction false} DifferenceReaches(m: Mirror, d: nat, n: nat, w: nat)
    requires ValidMirror(m) && 1 <= n <= 4 && 2 * d < Pow64(n) && w == WrapAddress(m.addr + d)
    ensures Reaches(m, Code(0x07 + 2 * n, d, n), w)
  {
    DifferenceEffect(m, 0x07 + 2 * n, d, n);
    CodeReaches(m, 0x07 + 2 * n, d, n, w);
  }

  lemma DifferenceEffect(m: Mirror, code: nat, v: nat, n: nat)
    requires ValidMirror(m) && 1 <= n <= 4 && code == 0x07 + 2 * n
    ensures CodeLength(code) == n + 1
    ensures Effect(m, code, v, n + 1) == One(m.(addr := WrapAddress(m.addr + SignExtend(v, n))), [], n + 1)
  {
  }

  lemma AbsoluteEffect(m: Mirror, code: nat, v: nat, n: nat)
    requires ValidMirror(m) && ((n == 5 && code == 0) || (1 <= n <= 4 && code == 0x06 + 2 * n))
    ensures CodeLength(code) == n + 1
    ensures Effect(m, code, v, n + 1) == One(m.(addr := WrapAddress(v)), [], n + 1)
  {
  }

  /** The miscoded form: three digits are taken for the difference and the last
      one for the start of another command, so the address comes out wrong
      even where nothing else does. */
  lemma {:induction false} MiscodedFails(m: Mirror, d: nat, w: nat)
    requires ValidMirror(m) && 0x2_0000 <= d < 0x80_0000 && w == WrapAddress(m.addr + d)
    ensures !Reaches(m, Code(0x0d, d, 4), w)
  {
    Pow64Values();
    LastDigitOff(d);
    CharRoundTrip(d % 64);
    OffCourse(m.addr, d);
    CutShort(m, d / 64, 3, [CharEnc(d % 64)], w);
  }

  lemma {:induction false} CutShort(m: Mirror, d: nat, n: nat, tail: seq<char>, w: nat)
    requires ValidMirror(m) && 1 <= n <= 4 && 2 * d < Pow64(n) && WrapAddress(m.addr + d) != w
    requires |tail| == 1 && CharDec(tail[0]) < 64
    ensures !Reaches(m, Code(0x07 + 2 * n, d, n) + tail, w)
  {
    var far := WrapAddress(m.addr + d);
    DifferenceReaches(m, d, n, far);
    DigitTooMany(m, Code(0x07 + 2 * n, d, n), tail, m.(addr := far), w);
  }

  lemma {:induction false} DigitTooMany(m: Mirror, head: seq<char>, tail: seq<char>, m': Mirror, w: nat)
    requires ValidMirror(m) && ValidMirror(m') && Decode(m, head) == Decoded(true, m', []) && m'.addr != w
    requires |tail| == 1 && CharDec(tail[0]) < 64
    ensures !Reaches(m, head + tail, w)
  {
    DecodeAppend(m, head, tail);
    LoneDigit(m', tail);
  }

  lemma {:induction false} LastDigitOff(d: nat)
    ensures Code(0x0d, d, 4) == Code(0x0d, d / 64, 3) + [CharEnc(d % 64)]
  {
    assert Digits(d, 4) == Digits(d / 64, 3) + [CharEnc(d % 64)];
  }

  lemma OffCourse(far: nat, d: nat)
    requires far < ADDRESSES && 0x2_0000 <= d < 0x80_0000
    ensures WrapAddress(far + d / 64) != WrapAddress(far + d)
  {
  }

  lemma {:induction false} LoneDigit(m: Mirror, s: seq<char>)
    requires ValidMirror(m) && |s| == 1 && CharDec(s[0]) < 64
    ensures var d := Decode(m, s); !d.ok || d.commands != [] || d.m == m
  {
    LeadingAll(s, 1);
    assert Leading(s, CodeLength(CharDec(s[0]))) == 1 by {
      assert s[1..] == [];
    }
    var o := DecodeOne(m, s);
    if o.One? {
      assert CodeLength(CharDec(s[0])) == 1;
      assert |o.commands| == 1 || o.m == m;
      DecodeSingle(m, s);
    }
  }

  /** Where the characters sent for a take a far end that was at word address `far`. */
  function Landing(known: bool, last: nat, a: nat, far: nat): nat {
    if !known then a / 4
    else if a == last then far
    else if AbsoluteCode(a / 4, |DiffCode(Ahead(last, a))|) != [] then a / 4
    else WrapAddress(far + Ahead(last, a))
  }

  /** That is where it was meant to go: the driver claims no knowledge, or what it
      believes is true, or it sends an absolute form. */
  predicate Arrives(known: bool, last: nat, a: nat, far: nat) {
    !known || far == last / 4 || (a != last && AbsoluteCode(a / 4, |DiffCode(Ahead(last, a))|) != [])
  }

  lemma {:induction false} ArrivesExactly(known: bool, last: nat, a: nat, far: nat)
    requires (known ==> ByteAddress(last)) && ByteAddress(a) && far < ADDRESSES
    ensures Landing(known, last, a, far) == a / 4 <==> Arrives(known, last, a, far)
  {
    if known {
      AheadReaches(last, a);
      assert a == a / 4 * 4 && last == last / 4 * 4;
      SameOffset(far, last / 4, Ahead(last, a));
    }
  }

  /** Steps of the same size reach the same address only from the same address. */
  lemma SameOffset(x: nat, y: nat, d: nat)
    requires x < ADDRESSES && y < ADDRESSES
    ensures WrapAddress(x + d) == WrapAddress(y + d) <==> x == y
  {
  }

  /** Whatever the far end's address was, what is sent does what it should from
      there exactly when the faulty branch is not taken. */
  lemma {:induction false} AddressLandsExactly(m: Mirror, known: bool, last: nat, a: nat)
    requires ValidMirror(m) && (known ==> ByteAddress(last)) && ByteAddress(a)
    ensures Reaches(m, AddressCode(known, last, a), Landing(known, last, a, m.addr)) <==> !Miscoded(known, last, a)
  {
    if !known {
      AbsoluteLands(m, a / 4, 0);
    } else if a == last {
      assert m.(addr := m.addr) == m;
    } else {
      KnownLandsExactly(m, last, a, a / 4, Ahead(last, a), |DiffCode(Ahead(last, a))|);
    }
  }

  lemma {:induction false} KnownLandsExactly(m: Mirror, last: nat, a: nat, w: nat, d: nat, n: nat)
    requires ValidMirror(m) && ByteAddress(last) && ByteAddress(a) && a != last
    requires w == a / 4 && d == Ahead(last, a) && n == |DiffCode(d)|
    ensures Reaches(m, AddressCode(true, last, a), Landing(true, last, a, m.addr)) <==> !Miscoded(true, last, a)
  {
    FormChosen(last, a, w, d, n, m.addr);
    if AbsoluteCode(w, n) != [] {
      AbsoluteLands(m, w, n);
    } else {
      DifferenceLandsExactly(m, w, d);
    }
  }

  lemma {:induction false} FormChosen(last: nat, a: nat, w: nat, d: nat, n: nat, far: nat)
    requires a != last && w == a / 4 && d == Ahead(last, a) && n == |DiffCode(d)|
    ensures AbsoluteCode(w, n) != [] ==>
              && AddressCode(true, last, a) == AbsoluteCode(w, n) && Landing(true, last, a, far) == w
              && !Miscoded(true, last, a)
    ensures AbsoluteCode(w, n) == [] ==>
              && AddressCode(true, last, a) == DiffCode(d) && Landing(true, last, a, far) == WrapAddress(far + d)
              && (Miscoded(true, last, a) <==> w >= 0x100_0000 && 0x2_0000 <= d < 0x80_0000)
  {
  }

  lemma {:induction false} AbsoluteLands(m: Mirror, w: nat, n: nat)
    requires ValidMirror(m) && w < ADDRESSES && AbsoluteCode(w, n) != []
    ensures Reaches(m, AbsoluteCode(w, n), w)
  {
    Pow64Values();
    var s := AbsoluteCode(w, n);
    var k := |s| - 1;
    AbsoluteReaches(m, if k == 5 then 0 else 0x06 + 2 * k, w, k);
  }

  /** A difference form is sent when no absolute form is as short. */
  lemma {:induction false} DifferenceLandsExactly(m: Mirror, w: nat, d: nat)
    requires ValidMirror(m) && w < ADDRESSES && AbsoluteCode(w, |DiffCode(d)|) == []
    ensures d < 0x80_0000 && (w < 0x100_0000 ==> d < 0x2_0000)
    ensures Reaches(m, DiffCode(d), WrapAddress(m.addr + d)) <==> d < 0x2_0000
  {
    Pow64Values();
    if d < 0x2_0000 {
      DifferenceReaches(m, d, |DiffCode(d)| - 1, WrapAddress(m.addr + d));
    } else {
      MiscodedFails(m, d, WrapAddress(m.addr + d));
    }
  }

  /** From the address the driver believes in, the address sent is the address
      reached, for every aligned address and every last address, exactly when the
      faulty branch is not taken. */
  lemma {:induction false} AddressReachedExactly(m: Mirror, known: bool, last: nat, a: nat)
    requires InStep(m, known, last) && ByteAddress(a)
    ensures Reaches(m, AddressCode(known, last, a), a / 4) <==> !Miscoded(known, last, a)
  {
    AddressLandsExactly(m, known, last, a);
    ArrivesExactly(known, last, a, m.addr);
  }

  /** Half a megabyte ahead of word address 2^24, for one, the address is lost. */
  lemma {:induction false} HighStepLost(m: Mirror)
    requires ValidMirror(m) && m.addr == 0x100_0000
    ensures var last, a := 0x400_0000, 0x408_0000;
            Miscoded(true, last, a) && !Reaches(m, AddressCode(true, last, a), a / 4)
  {
    AddressReachedExactly(m, true, 0x400_0000, 0x408_0000);
  }

  /** In particular for every word address below 2^24. */
  lemma {:induction false} LowAddressReached(m: Mirror, known: bool, last: nat, a: nat)
    requires InStep(m, known, last) && ByteAddress(a) && a / 4 < 0x100_0000
    ensures Reaches(m, AddressCode(known, last, a), a / 4)
  {
    AddressReachedExactly(m, known, last, a);
  }

  // ----- how short -----

  /** Characters in the shortest absolute form, and in the shortest difference
      forms ahead by d and back by d; 6 stands for none of at most 5. */
  function AbsoluteLength(w: nat): nat {
    if w < 64 then 2 else if w < 0x1000 then 3 else if w < 0x4_0000 then 4 else if w < 0x100_0000 then 5 else 6
  }

  function AheadLength(d: nat): nat {
    if d < 32 then 2 else if d < 0x800 then 3 else if d < 0x2_0000 then 4 else if d < 0x80_0000 then 5 else 6
  }

  function BackLength(d: nat): nat {
    if d <= 32 then 2 else if d <= 0x800 then 3 else if d <= 0x2_0000 then 4 else if d <= 0x80_0000 then 5 else 6
  }

  function Min(x: nat, y: nat): nat { if x <= y then x else y }

  function StepsAhead(m: Mirror, w: nat): nat { WrapAddress(w - m.addr) }

  function StepsBack(m: Mirror, w: nat): nat { WrapAddress(m.addr - w) }

  /** Zero and a step back from there. */
  function BelowZeroLength(w: nat): nat { 2 + BackLength(WrapAddress(-(w as int))) }

  function BestLength(m: Mirror, w: nat): nat {
    Min(Min(AbsoluteLength(w), BelowZeroLength(w)), Min(AheadLength(StepsAhead(m, w)), BackLength(StepsBack(m, w))))
  }

  /** Where n characters that cause no bus traffic can take the address: nowhere, a
      step of n characters away, or to an absolute address or a step back from zero. */
  predicate Within(far: nat, w: nat, n: nat) {
    || w == far
    || (n >= 2
        && (|| AheadLength(WrapAddress(w - far)) <= n || BackLength(WrapAddress(far - w)) <= n
            || AbsoluteLength(w) <= n || BelowZeroLength(w) <= n))
  }

  /** Two stretches take it no further than one of their joint length. */
  lemma {:induction false} WithinJoins(far: nat, w1: nat, w2: nat, n1: nat, n2: nat)
    requires far < ADDRESSES && w1 < ADDRESSES && w2 < ADDRESSES && Within(far, w1, n1) && Within(w1, w2, n2)
    ensures Within(far, w2, n1 + n2)
  {
    if w1 != far && w2 != w1 && n1 + n2 < 6 {
      if AbsoluteLength(w2) <= n2 || BelowZeroLength(w2) <= n2 {
      } else if AbsoluteLength(w1) <= n1 || BelowZeroLength(w1) <= n1 {
        StepNearZero(w1, w2, n1, n2);
      } else {
        StepAfterStep(far, w1, w2, n1, n2);
      }
    }
  }

  /** A step in words, forwards or backwards. */
  predicate Step(x: int, n: nat) {
    if x >= 0 then AheadLength(x) <= n else BackLength(-x) <= n
  }

  /** The step that was taken, as a number. */
  lemma {:induction false} StepOf(far: nat, w: nat, n: nat) returns (x: int)
    requires far < ADDRESSES && w < ADDRESSES && n < 6
    requires AheadLength(WrapAddress(w - far)) <= n || BackLength(WrapAddress(far - w)) <= n
    ensures Step(x, n) && w == WrapAddress(far + x)
  {
    x := if AheadLength(WrapAddress(w - far)) <= n then WrapAddress(w - far) else 0 - WrapAddress(far - w);
  }

  lemma {:induction false} StepTaken(far: nat, w: nat, x: int, n: nat)
    requires far < ADDRESSES && n < 6 && Step(x, n) && w == WrapAddress(far + x)
    ensures AheadLength(WrapAddress(w - far)) <= n || BackLength(WrapAddress(far - w)) <= n
  {
    if x >= 0 {
      assert WrapAddress(w - far) == x;
    } else {
      assert WrapAddress(far - w) == -x;
    }
  }

  /** Two steps of joint length below six are one that is no longer. */
  lemma StepSum(x: int, y: int, n1: nat, n2: nat)
    requires Step(x, n1) && Step(y, n2) && 2 <= n1 && 2 <= n2 && n1 + n2 < 6
    ensures Step(x + y, n1 + n2)
  {
  }

  lemma WrapSteps(far: int, x: int, y: int)
    ensures WrapAddress(WrapAddress(far + x) + y) == WrapAddress(far + (x + y))
  {
  }

  lemma {:induction false} StepAfterStep(far: nat, w1: nat, w2: nat, n1: nat, n2: nat)
    requires far < ADDRESSES && w1 < ADDRESSES && w2 < ADDRESSES && 2 <= n1 && 2 <= n2 && n1 + n2 < 6
    requires AheadLength(WrapAddress(w1 - far)) <= n1 || BackLength(WrapAddress(far - w1)) <= n1
    requires AheadLength(WrapAddress(w2 - w1)) <= n2 || BackLength(WrapAddress(w1 - w2)) <= n2
    ensures AheadLength(WrapAddress(w2 - far)) <= n1 + n2 || BackLength(WrapAddress(far - w2)) <= n1 + n2
  {
    var x := StepOf(far, w1, n1);
    var y := StepOf(w1, w2, n2);
    StepSum(x, y, n1, n2);
    WrapSteps(far, x, y);
    StepTaken(far, w2, x + y, n1 + n2);
  }

  lemma {:induction false} StepNearZero(w1: nat, w2: nat, n1: nat, n2: nat)
    requires w1 < ADDRESSES && w2 < ADDRESSES && 2 <= n1 && 2 <= n2 && n1 + n2 < 6
    requires AbsoluteLength(w1) <= n1 || BelowZeroLength(w1) <= n1
    requires AheadLength(WrapAddress(w2 - w1)) <= n2 || BackLength(WrapAddress(w1 - w2)) <= n2
    ensures AbsoluteLength(w2) <= n1 + n2 || BelowZeroLength(w2) <= n1 + n2
  {
    var y := StepOf(w1, w2, n2);
    OffZero(w1, y, n1, n2);
    if w1 + y >= 0 {
      assert WrapAddress(w1 + y) == w1 + y;
    } else {
      assert WrapAddress(-(w2 as int)) == -(w1 + y);
    }
  }

  lemma OffZero(w1: nat, y: int, n1: nat, n2: nat)
    requires AbsoluteLength(w1) <= n1 && Step(y, n2) && 2 <= n2 && n1 + n2 < 6
    ensures w1 + y < ADDRESSES
    ensures w1 + y >= 0 ==> AbsoluteLength(w1 + y) <= n1 + n2
    ensures w1 + y < 0 ==> 2 + BackLength(-(w1 + y)) <= n1 + n2
  {
  }

  /** One command. */
  lemma {:induction false} CommandWithin(m: Mirror, s: seq<char>)
    requires ValidMirror(m) && s != [] && DecodeOne(m, s).One? && DecodeOne(m, s).commands == []
    ensures var o := DecodeOne(m, s); o.m == m.(addr := o.m.addr) && Within(m.addr, o.m.addr, o.used)
  {
    var c := CharDec(s[0]);
    var n := CodeLength(c);
    if Leading(s, n) == n && 0x08 <= c < 0x10 {
      var args := s[1..n];
      assert AllDigits(args) by {
        assert args == s[..n][1..];
      }
      ValueBelow(args);
      AddressWithin(m, c, Value(args), n);
    }
  }

  lemma {:induction false} AddressWithin(m: Mirror, c: nat, v: nat, n: nat)
    requires ValidMirror(m) && 0x08 <= c < 0x10 && n == CodeLength(c) && v < Pow64(n - 1)
    ensures var o := Effect(m, c, v, n); o.m == m.(addr := o.m.addr) && Within(m.addr, o.m.addr, n)
  {
    Pow64Values();
    if c % 2 == 0 {
      assert WrapAddress(v) == v;
    } else {
      SignedStep(m, SignExtend(v, n - 1), WrapAddress(m.addr + SignExtend(v, n - 1)), n - 1);
    }
  }

  /** A whole stream, of any number of commands, dropped ones among them. */
  lemma {:induction false} StreamWithin(m: Mirror, s: seq<char>)
    requires ValidMirror(m) && Decode(m, s).ok && Decode(m, s).commands == []
    ensures var d := Decode(m, s); d.m == m.(addr := d.m.addr) && Within(m.addr, d.m.addr, |s|)
    decreases |s|
  {
    if s != [] {
      var o := DecodeOne(m, s);
      CommandWithin(m, s);
      StreamWithin(o.m, s[o.used..]);
      WithinJoins(m.addr, o.m.addr, Decode(m, s).m.addr, o.used, |s| - o.used);
    }
  }

  /** No stream sets the address anew in fewer characters than the best form. */
  lemma {:induction false} NoShorter(m: Mirror, s: seq<char>, w: nat)
    requires ValidMirror(m) && w < ADDRESSES && w != m.addr && Reaches(m, s, w)
    ensures |s| >= BestLength(m, w)
  {
    ReachesWithin(m, s, w);
    WithinBest(m, w, |s|);
  }

  lemma WithinBest(m: Mirror, w: nat, n: nat)
    requires w != m.addr && Within(m.addr, w, n)
    ensures n >= BestLength(m, w)
  {
  }

  lemma {:induction false} ReachesWithin(m: Mirror, s: seq<char>, w: nat)
    requires ValidMirror(m) && Reaches(m, s, w)
    ensures Within(m.addr, w, |s|)
  {
    StreamWithin(m, s);
  }

  /** A step of x words with n digits is one of the difference forms. */
  lemma {:induction false} SignedStep(m: Mirror, x: int, w: nat, n: nat)
    requires ValidMirror(m) && w == WrapAddress(m.addr + x) && 1 <= n <= 4
    requires -(Pow64(n) as int) <= 2 * x < Pow64(n)
    ensures x >= 0 ==> StepsAhead(m, w) == x && AheadLength(x) <= n + 1
    ensures x < 0 ==> StepsBack(m, w) == -x && BackLength(-x) <= n + 1
  {
    Pow64Values();
    if x >= 0 {
      assert WrapAddress(w - m.addr) == x;
    } else {
      assert WrapAddress(m.addr - w) == -x;
    }
  }

  /** A step of x words in n digits. */
  function StepForm(x: int, n: nat): (s: seq<char>)
    requires 1 <= n <= 4 && -(Pow64(n) as int) <= 2 * x < Pow64(n)
    ensures |s| == n + 1
  {
    Code(0x07 + 2 * n, if x >= 0 then x else Pow64(n) + x, n)
  }

  lemma SignExtends(x: int, v: nat, n: nat)
    requires -(Pow64(n) as int) <= 2 * x < Pow64(n) && v == if x >= 0 then x else Pow64(n) + x
    ensures v < Pow64(n) && SignExtend(v, n) == x
  {
  }

  lemma {:induction false} StepReaches(m: Mirror, x: int, w: nat, n: nat)
    requires ValidMirror(m) && 1 <= n <= 4 && w == WrapAddress(m.addr + x) && -(Pow64(n) as int) <= 2 * x < Pow64(n)
    ensures Reaches(m, StepForm(x, n), w)
  {
    var v: nat := if x >= 0 then x else Pow64(n) + x;
    SignExtends(x, v, n);
    DifferenceEffect(m, 0x07 + 2 * n, v, n);
    CodeReaches(m, 0x07 + 2 * n, v, n, w);
  }

  /** The stream sets the address to w from wherever the far end is. */
  ghost predicate AlwaysReaches(s: seq<char>, w: nat) {
    forall m | ValidMirror(m) :: Reaches(m, s, w)
  }

  lemma {:induction false} ZeroExists() returns (zero: seq<char>)
    ensures |zero| == 2 && AlwaysReaches(zero, 0)
  {
    zero := Code(0x08, 0, 1);
    forall m | ValidMirror(m)
      ensures Reaches(m, zero, 0)
    {
      ZeroReaches(m, 0, 1);
    }
  }

  lemma {:induction false} ZeroReaches(m: Mirror, w: nat, n: nat)
    requires ValidMirror(m) && w == 0 && n == 1
    ensures Reaches(m, Code(0x06 + 2 * n, w, n), w)
  {
    Pow64Values();
    AbsoluteReaches(m, 0x06 + 2 * n, w, n);
  }

  /** Zero, and b words back from it in n digits. */
  lemma {:induction false} BelowZeroReaches(m: Mirror, zero: seq<char>, b: nat, n: nat, w: nat)
    requires ValidMirror(m) && AlwaysReaches(zero, 0)
    requires 1 <= n <= 4 && 2 * b <= Pow64(n) && w == WrapAddress(-(b as int))
    ensures Reaches(m, zero + StepForm(-(b as int), n), w)
  {
    StepReaches(m.(addr := 0), -(b as int), w, n);
    InTurn(m, zero, 0, StepForm(-(b as int), n), w);
  }

  lemma {:induction false} InTurn(m: Mirror, s: seq<char>, w: nat, t: seq<char>, w': nat)
    requires ValidMirror(m) && w < ADDRESSES && Reaches(m, s, w) && Reaches(m.(addr := w), t, w')
    ensures Reaches(m, s + t, w')
  {
    DecodeTwo(m, s, m.(addr := w), [], t, m.(addr := w'), []);
  }

  /** And the best form exists. */
  lemma {:induction false} BestExists(m: Mirror, w: nat) returns (s: seq<char>)
    requires ValidMirror(m) && w < ADDRESSES
    ensures Reaches(m, s, w) && |s| == BestLength(m, w)
  {
    var n := BestLength(m, w) - 1;
    if AbsoluteLength(w) == n + 1 {
      s := AbsoluteBest(m, w, n);
    } else if AheadLength(StepsAhead(m, w)) == n + 1 {
      s := AheadBest(m, w, StepsAhead(m, w), n);
    } else if BackLength(StepsBack(m, w)) == n + 1 {
      s := BackBest(m, w, StepsBack(m, w), n);
    } else {
      s := BelowZeroBest(m, w, WrapAddress(-(w as int)), n - 2);
    }
  }

  lemma {:induction false} AheadBest(m: Mirror, w: nat, f: nat, n: nat) returns (s: seq<char>)
    requires ValidMirror(m) && w < ADDRESSES && f == StepsAhead(m, w) && 1 <= n <= 4 && AheadLength(f) == n + 1
    ensures Reaches(m, s, w) && |s| == n + 1
  {
    LengthsCover(w, f, 0, n);
    StepLands(m, w);
    s := StepForm(f, n);
    StepReaches(m, f, w, n);
  }

  lemma {:induction false} BackBest(m: Mirror, w: nat, b: nat, n: nat) returns (s: seq<char>)
    requires ValidMirror(m) && w < ADDRESSES && b == StepsBack(m, w) && 1 <= n <= 4 && BackLength(b) == n + 1
    ensures Reaches(m, s, w) && |s| == n + 1
  {
    LengthsCover(w, 0, b, n);
    StepLands(m, w);
    s := StepForm(-(b as int), n);
    StepReaches(m, -(b as int), w, n);
  }

  lemma {:induction false} AbsoluteBest(m: Mirror, w: nat, n: nat) returns (s: seq<char>)
    requires ValidMirror(m) && 1 <= n <= 5 && w < ADDRESSES && AbsoluteLength(w) == n + 1
    ensures Reaches(m, s, w) && |s| == n + 1
  {
    LengthsCover(w, 0, 0, n);
    var code := if n == 5 then 0 else 0x06 + 2 * n;
    s := Code(code, w, n);
    AbsoluteReaches(m, code, w, n);
  }

  lemma {:induction false} BelowZeroBest(m: Mirror, w: nat, z: nat, n: nat) returns (s: seq<char>)
    requires ValidMirror(m) && 0 < w < ADDRESSES && z == WrapAddress(-(w as int)) && BackLength(z) == n + 1 && n <= 4
    ensures Reaches(m, s, w) && |s| == n + 3
  {
    LengthsCover(w, z, z, n);
    Opposite(w, z);
    var zero := ZeroExists();
    s := zero + StepForm(-(z as int), n);
    BelowZeroReaches(m, zero, z, n, w);
  }

  lemma {:induction false} Opposite(w: nat, z: nat)
    requires 0 < w < ADDRESSES && z == WrapAddress(-(w as int))
    ensures z > 0 && w == WrapAddress(-(z as int))
  {
    assert z == ADDRESSES - w;
    assert WrapAddress(-(z as int)) == ADDRESSES - z;
  }

  lemma {:induction false} LengthsCover(w: nat, f: nat, b: nat, n: nat)
    requires 1 <= n <= 5 && w < ADDRESSES
    ensures AbsoluteLength(w) == n + 1 ==> w < Pow64(n)
    ensures AheadLength(f) == n + 1 && n < 5 ==> 2 * f < Pow64(n)
    ensures BackLength(b) == n + 1 && n < 5 ==> 2 * b <= Pow64(n)
  {
    Pow64Values();
  }

  lemma StepLands(m: Mirror, w: nat)
    requires ValidMirror(m) && w < ADDRESSES
    ensures WrapAddress(m.addr + StepsAhead(m, w)) == w && WrapAddress(m.addr - StepsBack(m, w)) == w
  {
  }

  /** What is sent to a known far end for a new address, off the faulty branch: the
      better of an absolute form and a step ahead. */
  lemma {:induction false} EmittedLength(m: Mirror, last: nat, a: nat)
    requires InStep(m, true, last) && ByteAddress(a) && a != last && !Miscoded(true, last, a)
    ensures |AddressCode(true, last, a)| == Min(AbsoluteLength(a / 4), AheadLength(StepsAhead(m, a / 4)))
  {
    AheadReaches(last, a);
    StepLands(m, a / 4);
    AheadIs(m, last, a, Ahead(last, a));
    FormLength(last, a, a / 4, Ahead(last, a));
  }

  lemma {:induction false} AheadIs(m: Mirror, last: nat, a: nat, d: nat)
    requires InStep(m, true, last) && d < ADDRESSES && a / 4 == WrapAddress(m.addr + d)
    ensures StepsAhead(m, a / 4) == d
  {
  }

  lemma {:induction false} FormLength(last: nat, a: nat, w: nat, d: nat)
    requires ByteAddress(a) && a != last && w == a / 4 && d == Ahead(last, a) && !Miscoded(true, last, a)
    ensures |AddressCode(true, last, a)| == Min(AbsoluteLength(w), AheadLength(d))
  {
    var n := |DiffCode(d)|;
    FormChosen(last, a, w, d, n, 0);
    AbsoluteSize(w, n);
  }

  lemma AbsoluteSize(w: nat, n: nat)
    requires n < 6
    ensures AbsoluteCode(w, n) == [] <==> n != 0 && n < AbsoluteLength(w)
    ensures AbsoluteCode(w, n) != [] ==> |AbsoluteCode(w, n)| == AbsoluteLength(w)
  {
  }

  /** So what is sent is shortest, among all the streams that would do, exactly when
      no step back, from the last address or from zero, would have been strictly
      shorter: the driver's unsigned difference never finds those. */
  lemma {:induction false} ShortestExactly(m: Mirror, last: nat, a: nat)
    requires InStep(m, true, last) && ByteAddress(a) && a != last && !Miscoded(true, last, a)
    ensures (forall s | Reaches(m, s, a / 4) :: |AddressCode(true, last, a)| <= |s|)
       <==> Min(AbsoluteLength(a / 4), AheadLength(StepsAhead(m, a / 4)))
            <= Min(BackLength(StepsBack(m, a / 4)), BelowZeroLength(a / 4))
  {
    var w, sent := a / 4, AddressCode(true, last, a);
    EmittedLength(m, last, a);
    assert a == a / 4 * 4 && last == last / 4 * 4;
    forall s | Reaches(m, s, w)
      ensures |s| >= BestLength(m, w)
    {
      NoShorter(m, s, w);
    }
    var best := BestExists(m, w);
  }

  /** With nothing known about the far end, what is sent works from everywhere, and is
      a shortest such stream exactly when the address is zero or not among the
      uppermost 2048: those zero and a step back would reach in fewer. */
  lemma {:induction false} UnknownShortestExactly(last: nat, a: nat)
    requires ByteAddress(a)
    ensures AlwaysReaches(AddressCode(false, last, a), a / 4)
    ensures (forall s | AlwaysReaches(s, a / 4) :: |AddressCode(false, last, a)| <= |s|)
       <==> a / 4 == 0 || ADDRESSES - a / 4 > 0x800
  {
    var w := a / 4;
    UnknownReaches(last, a, AddressCode(false, last, a));
    AbsoluteSize(w, 0);
    if w == 0 || ADDRESSES - w > 0x800 {
      forall s | AlwaysReaches(s, w)
        ensures |s| >= AbsoluteLength(w)
      {
        var opposite := SomeMirror(WrapAddress(w + 0x2000_0000));
        assert Reaches(opposite, s, w);
        FarSide(opposite, s, w);
      }
    } else {
      var s := UppermostReached(w, ADDRESSES - w, 2);
    }
  }

  lemma {:induction false} UppermostReached(w: nat, b: nat, n: nat) returns (s: seq<char>)
    requires n == 2 && 0 < b <= 0x800 && w == ADDRESSES - b
    ensures AlwaysReaches(s, w) && |s| == 5 < AbsoluteLength(w)
  {
    Pow64Values();
    var zero := ZeroExists();
    s := zero + StepForm(-(b as int), n);
    forall m | ValidMirror(m)
      ensures Reaches(m, s, w)
    {
      BelowZeroReaches(m, zero, b, n, w);
    }
  }

  lemma {:induction false} SomeMirror(far: nat) returns (m: Mirror)
    requires far < ADDRESSES
    ensures ValidMirror(m) && m.addr == far
  {
    m := Mirror(far, seq(TABLE, _ => 0), 0);
  }

  lemma {:induction false} UnknownReaches(last: nat, a: nat, s: seq<char>)
    requires ByteAddress(a) && s == AddressCode(false, last, a)
    ensures AlwaysReaches(s, a / 4)
  {
    forall m | ValidMirror(m)
      ensures Reaches(m, s, a / 4)
    {
      AddressLandsExactly(m, false, last, a);
    }
  }

  /** From the far side of the address space no step is short. */
  lemma {:induction false} FarSide(m: Mirror, s: seq<char>, w: nat)
    requires ValidMirror(m) && w < ADDRESSES && m.addr == WrapAddress(w + 0x2000_0000) && Reaches(m, s, w)
    requires w == 0 || ADDRESSES - w > 0x800
    ensures |s| >= AbsoluteLength(w)
  {
    NoShorter(m, s, w);
    HalfWay(m.addr, w);
  }

  lemma {:induction false} HalfWay(far: nat, w: nat)
    requires w < ADDRESSES && far == WrapAddress(w + 0x2000_0000)
    ensures far != w && WrapAddress(w - far) == 0x2000_0000 && WrapAddress(far - w) == 0x2000_0000
    ensures w == 0 || ADDRESSES - w > 0x800 ==> BelowZeroLength(w) >= AbsoluteLength(w)
  {
    if w < 0x2000_0000 {
      assert far == w + 0x2000_0000;
    } else {
      assert far == w - 0x2000_0000;
    }
    if w > 0 {
      assert WrapAddress(-(w as int)) == ADDRESSES - w;
    }
  }

  /** One word back from a high address: two characters would do, five are sent. */
  lemma {:induction false} StepBackMissed(m: Mirror)
    requires ValidMirror(m) && m.addr == 0xff_ffff
    ensures |AddressCode(true, 0x3ff_fffc, 0x3ff_fff8)| == 5 && BestLength(m, 0xff_fffe) == 2
  {
    EmittedLength(m, 0x3ff_fffc, 0x3ff_fff8);
  }
}
