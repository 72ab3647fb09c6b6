/** The six-bit character code of sw/host/ttybus.cpp and a decoder for the command
    stream the driver sends, after the receiving half of rtl/wbubus.v: a mirror
    of the bus address and of the 256-entry write table at the far end. */
module TtyCode {

  // ----- characters -----

  /** charenc */
  function CharEnc(v: nat): char
    requires v < 64
  {
    if v < 10 then ('0' as int + v) as char
    else if v < 36 then ('A' as int - 10 + v) as char
    else if v < 62 then ('a' as int - 36 + v) as char
    else if v == 62 then '@'
    else '%'
  }

  const INVALID: nat := 0x100

  /** chardec */
  function CharDec(b: char): nat {
    if '0' <= b <= '9' then b as int - '0' as int
    else if 'A' <= b <= 'Z' then b as int - 'A' as int + 10
    else if 'a' <= b <= 'z' then b as int - 'a' as int + 36
    else if b == '@' then 62
    else if b == '%' then 63
    else INVALID
  }

  /** The alphabet: digits, capitals and small letters in order, then two signs; no
      other character means anything. */
  lemma AlphabetIs(v: nat, b: char)
    ensures CharEnc(0) == '0' && CharEnc(9) == '9' && CharEnc(10) == 'A' && CharEnc(35) == 'Z'
    ensures CharEnc(36) == 'a' && CharEnc(61) == 'z' && CharEnc(62) == '@' && CharEnc(63) == '%'
    ensures v < 9 || 10 <= v < 35 || 36 <= v < 61 ==> CharEnc(v + 1) as int == CharEnc(v) as int + 1
    ensures CharDec(b) == INVALID <==>
            !('0' <= b <= '9' || 'A' <= b <= 'Z' || 'a' <= b <= 'z' || b == '@' || b == '%')
  {
  }

  lemma CharRoundTrip(v: nat)
    requires v < 64
    ensures CharDec(CharEnc(v)) == v
  {
  }

  lemma CharUnique(b: char)
    requires CharDec(b) != INVALID
    ensures CharDec(b) < 64 && CharEnc(CharDec(b)) == b
  {
  }

  // ----- numbers as six-bit digits, most significant first -----

  function Pow64(n: nat): (p: nat)
    ensures p >= 1
  {
    if n == 0 then 1 else 64 * Pow64(n - 1)
  }

  function Digits(v: nat, n: nat): (s: seq<char>)
    ensures |s| == n
  {
    if n == 0 then [] else Digits(v / 64, n - 1) + [CharEnc(v % 64)]
  }

  lemma {:induction false} LowDigit(v: nat)
    ensures Digits(v, 1) == [CharEnc(v % 64)]
  {
    assert Digits(v / 64, 0) == [];
  }

  lemma {:induction false} TwoDigits(v: nat)
    ensures Digits(v, 2) == [CharEnc(v / 64 % 64), CharEnc(v % 64)]
  {
    LowDigit(v / 64);
  }

  lemma {:induction false} ThreeDigits(v: nat)
    ensures Digits(v, 3) == [CharEnc(v / 0x1000 % 64), CharEnc(v / 64 % 64), CharEnc(v % 64)]
  {
    TwoDigits(v / 64);
    assert v / 64 / 64 == v / 0x1000;
  }

  lemma {:induction false} FourDigits(v: nat)
    ensures Digits(v, 4) == [CharEnc(v / 0x4_0000 % 64), CharEnc(v / 0x1000 % 64), CharEnc(v / 64 % 64),
                             CharEnc(v % 64)]
  {
    ThreeDigits(v / 64);
    assert v / 64 / 64 == v / 0x1000 && v / 64 / 0x1000 == v / 0x4_0000;
  }

  lemma {:induction false} FiveDigits(v: nat)
    ensures Digits(v, 5) == [CharEnc(v / 0x100_0000 % 64), CharEnc(v / 0x4_0000 % 64), CharEnc(v / 0x1000 % 64),
                             CharEnc(v / 64 % 64), CharEnc(v % 64)]
  {
    FourDigits(v / 64);
    assert v / 64 / 64 == v / 0x1000 && v / 64 / 0x1000 == v / 0x4_0000 && v / 64 / 0x4_0000 == v / 0x100_0000;
  }

  predicate AllDigits(s: seq<char>) {
    forall i | 0 <= i < |s| :: CharDec(s[i]) < 64
  }

  function Value(s: seq<char>): nat {
    if s == [] then 0 else Value(s[..|s| - 1]) * 64 + CharDec(s[|s| - 1])
  }

  lemma {:induction false} DigitsRoundTrip(v: nat, n: nat)
    requires v < Pow64(n)
    ensures AllDigits(Digits(v, n)) && Value(Digits(v, n)) == v
  {
    if n > 0 {
      DigitsRoundTrip(v / 64, n - 1);
      CharRoundTrip(v % 64);
      assert Digits(v, n)[..n - 1] == Digits(v / 64, n - 1);
    }
  }

  lemma {:induction false} ValueBelow(s: seq<char>)
    requires AllDigits(s)
    ensures Value(s) < Pow64(|s|)
  {
    if s != [] {
      ValueBelow(s[..|s| - 1]);
    }
  }

  lemma {:induction false} Pow64Values()
    ensures Pow64(1) == 64 && Pow64(2) == 0x1000 && Pow64(3) == 0x4_0000
    ensures Pow64(4) == 0x100_0000 && Pow64(5) == 0x4000_0000
  {
    assert Pow64(2) == 64 * Pow64(1);
    assert Pow64(3) == 64 * Pow64(2);
    assert Pow64(4) == 64 * Pow64(3);
    assert Pow64(5) == 64 * Pow64(4);
  }

  // ----- the far end -----

  const ADDRESSES: nat := 0x4000_0000
  const TABLE: nat := 0x100

  /** The word address register and the table of words sent in full. */
  datatype Mirror = Mirror(addr: nat, tbl: seq<nat>, wraddr: nat)

  predicate ValidMirror(m: Mirror) {
    m.addr < ADDRESSES && |m.tbl| == TABLE && m.wraddr < TABLE
  }

  datatype Command = BusWrite(addr: nat, value: nat) | BusRead(addr: nat, count: nat, inc: bool)

  function WrapAddress(a: int): (r: nat)
    ensures r < ADDRESSES
  {
    a % 0x4000_0000
  }

  function Slot(i: int): (r: nat)
    ensures r < TABLE
  {
    i % 0x100
  }

  /** How many characters a command has, told by its first. */
  function CodeLength(c: nat): (n: nat)
    ensures 1 <= n <= 6
  {
    if c < 0x08 then 6
    else if c < 0x10 then (c - 0x08) / 2 + 2
    else if c < 0x18 then 2
    else if c < 0x20 then 6
    else if c < 0x30 then 1
    else if c < 0x40 then 2
    else 1
  }

  /** A two's complement number of n six-bit digits. */
  function SignExtend(v: nat, n: nat): int {
    if 2 * v < Pow64(n) then v else v - Pow64(n)
  }

  datatype One = Incomplete | One(m: Mirror, commands: seq<Command>, used: nat)

  /** Ends a run of writes; a newline after a write makes one of its own accord. */
  const END_OF_WRITE: nat := 0x2e

  /** The address register after a write. */
  function Stepped(m: Mirror, inc: bool): Mirror {
    if inc then m.(addr := WrapAddress(m.addr + 1)) else m
  }

  /** The table after a word sent in full. */
  function Remembered(m: Mirror, word: nat): Mirror
    requires ValidMirror(m)
  {
    m.(tbl := m.tbl[m.wraddr := word], wraddr := Slot(m.wraddr + 1))
  }

  /** What the command with first character c, argument v and n characters does. */
  function Effect(m: Mirror, c: nat, v: nat, n: nat): (o: One)
    requires ValidMirror(m) && c < 64 && n == CodeLength(c)
    ensures o.One? && o.used == n && ValidMirror(o.m)
  {
    var inc := c % 2 == 1;
    if c < 0x04 then One(m.(addr := WrapAddress(c * 0x4000_0000 + v)), [], n)
    else if c < 0x08 || c == END_OF_WRITE then One(m, [], n)
    else if c < 0x10 then
      One(m.(addr := WrapAddress(if inc then m.addr + SignExtend(v, n - 1) else v)), [], n)
    else if c < 0x18 then
      var word := m.tbl[Slot(m.wraddr - ((c - 0x10) / 2 * 64 + v))];
      One(Stepped(m, inc), [BusWrite(m.addr, word)], n)
    else if c < 0x20 then
      var word := (c - 0x18) / 2 * 0x4000_0000 + v;
      One(Stepped(Remembered(m, word), inc), [BusWrite(m.addr, word)], n)
    else
      var count := if c < 0x30 then (c - 0x20) / 2 + 1 else (c - 0x30) / 2 * 64 + v + 9;
      One(if inc then m.(addr := WrapAddress(m.addr + count)) else m, [BusRead(m.addr, count, inc)], n)
  }

  /** How many digits the stream starts with, counting no more than n. */
  function Leading(s: seq<char>, n: nat): (k: nat)
    ensures k <= n && k <= |s| && AllDigits(s[..k])
    ensures k < n && k < |s| ==> CharDec(s[k]) == INVALID
    decreases n
  {
    if n == 0 || s == [] || CharDec(s[0]) >= 64 then 0
    else
      var k := Leading(s[1..], n - 1);
      assert s[..k + 1] == [s[0]] + s[1..][..k];
      k + 1
  }

  /** Read one command off the front of the stream.  A newline, or any other
      character that is no digit, drops the command it cuts short. */
  function DecodeOne(m: Mirror, s: seq<char>): (o: One)
    requires ValidMirror(m) && s != []
    ensures o.One? ==> 0 < o.used <= |s| && ValidMirror(o.m)
  {
    var c := CharDec(s[0]);
    var n := CodeLength(c);
    var k := Leading(s, n);
    if k == n then Effect(m, c, Value(s[1..n]), n)
    else if k < |s| then One(m, [], k + 1)
    else Incomplete
  }

  datatype Decoded = Decoded(ok: bool, m: Mirror, commands: seq<Command>)

  /** Read the whole stream. */
  function Decode(m: Mirror, s: seq<char>): (d: Decoded)
    requires ValidMirror(m)
    ensures d.ok ==> ValidMirror(d.m)
    decreases |s|
  {
    if s == [] then Decoded(true, m, [])
    else
      match DecodeOne(m, s)
      case Incomplete => Decoded(false, m, [])
      case One(m', commands, used) =>
        var rest := Decode(m', s[used..]);
        Decoded(rest.ok, rest.m, commands + rest.commands)
  }

  lemma {:induction false} LeadingAppend(s: seq<char>, t: seq<char>, n: nat)
    requires Leading(s, n) == n || Leading(s, n) < |s|
    ensures Leading(s + t, n) == Leading(s, n)
    decreases n
  {
    if n > 0 && s != [] {
      assert (s + t)[0] == s[0] && (s + t)[1..] == s[1..] + t;
      if CharDec(s[0]) < 64 {
        LeadingAppend(s[1..], t, n - 1);
      }
    }
  }

  lemma {:induction false} LeadingAll(s: seq<char>, n: nat)
    requires n <= |s| && AllDigits(s[..n])
    ensures Leading(s, n) == n
    decreases n
  {
    if n > 0 {
      assert s[..n][0] == s[0];
      assert s[1..][..n - 1] == s[..n][1..];
      LeadingAll(s[1..], n - 1);
    }
  }

  /** A prefix code: what follows a complete command cannot change it. */
  lemma {:induction false} PrefixCode(m: Mirror, s: seq<char>, t: seq<char>)
    requires ValidMirror(m) && s != [] && DecodeOne(m, s).One?
    ensures DecodeOne(m, s + t) == DecodeOne(m, s)
  {
    var n := CodeLength(CharDec(s[0]));
    assert (s + t)[0] == s[0];
    LeadingAppend(s, t, n);
    if Leading(s, n) == n {
      assert (s + t)[1..n] == s[1..n];
    }
  }

  /** So a stream that decodes can be followed by another. */
  lemma {:induction false} DecodeAppend(m: Mirror, s: seq<char>, t: seq<char>)
    requires ValidMirror(m) && Decode(m, s).ok
    ensures var d := Decode(m, s);
            var e := Decode(d.m, t);
            Decode(m, s + t) == Decoded(e.ok, e.m, d.commands + e.commands)
    decreases |s|
  {
    if s == [] {
      assert s + t == t;
      assert [] + Decode(m, t).commands == Decode(m, t).commands;
    } else {
      var o := DecodeOne(m, s);
      PrefixCode(m, s, t);
      var tail := s[o.used..];
      DecodeAppend(o.m, tail, t);
      Rest(s, t, o.used);
      var d := Decode(o.m, tail);
      Regroup(o.commands, d.commands, Decode(d.m, t).commands);
    }
  }

  /** Two streams in turn. */
  lemma {:induction false} DecodeTwo(m: Mirror, s: seq<char>, m1: Mirror, c1: seq<Command>, t: seq<char>,
                                     m2: Mirror, c2: seq<Command>)
    requires ValidMirror(m) && Decode(m, s) == Decoded(true, m1, c1)
    requires ValidMirror(m1) && Decode(m1, t) == Decoded(true, m2, c2)
    ensures Decode(m, s + t) == Decoded(true, m2, c1 + c2)
  {
    DecodeAppend(m, s, t);
  }

  lemma Rest<T>(s: seq<T>, t: seq<T>, k: nat)
    requires k <= |s|
    ensures (s + t)[k..] == s[k..] + t
  {
  }

  lemma Regroup<T>(a: seq<T>, b: seq<T>, c: seq<T>)
    ensures a + (b + c) == a + b + c
  {
  }

  lemma {:induction false} DecodeSingle(m: Mirror, s: seq<char>)
    requires ValidMirror(m) && s != [] && DecodeOne(m, s).One? && DecodeOne(m, s).used == |s|
    ensures Decode(m, s) == Decoded(true, DecodeOne(m, s).m, DecodeOne(m, s).commands)
  {
    var o := DecodeOne(m, s);
    assert s[o.used..] == [];
    assert o.commands + [] == o.commands;
  }

  /** A command as characters: its code and n digits of argument. */
  function Code(code: nat, v: nat, n: nat): (s: seq<char>)
    requires code < 64
    ensures |s| == n + 1
  {
    [CharEnc(code)] + Digits(v, n)
  }

  /** It reads back as that code and argument. */
  lemma {:induction false} CodeRoundTrip(m: Mirror, code: nat, v: nat, n: nat)
    requires ValidMirror(m) && code < 64 && CodeLength(code) == n + 1 && v < Pow64(n)
    ensures DecodeOne(m, Code(code, v, n)) == Effect(m, code, v, n + 1)
    ensures var o := Effect(m, code, v, n + 1); Decode(m, Code(code, v, n)) == Decoded(true, o.m, o.commands)
  {
    CodeRead(m, code, v, n, Code(code, v, n));
    DecodeSingle(m, Code(code, v, n));
  }

  lemma {:induction false} CodeMeans(m: Mirror, code: nat, v: nat, n: nat, s: seq<char>, m': Mirror,
                                     commands: seq<Command>)
    requires ValidMirror(m) && code < 64 && CodeLength(code) == n + 1 && v < Pow64(n) && s == Code(code, v, n)
    requires Effect(m, code, v, n + 1) == One(m', commands, n + 1)
    ensures Decode(m, s) == Decoded(true, m', commands)
  {
    CodeRoundTrip(m, code, v, n);
  }

  lemma {:induction false} CodeRead(m: Mirror, code: nat, v: nat, n: nat, s: seq<char>)
    requires ValidMirror(m) && code < 64 && CodeLength(code) == n + 1 && v < Pow64(n) && s == Code(code, v, n)
    ensures DecodeOne(m, s) == Effect(m, code, v, n + 1)
  {
    CodeSpelled(code, v, n, s);
    LeadingAll(s, n + 1);
  }

  lemma {:induction false} CodeSpelled(code: nat, v: nat, n: nat, s: seq<char>)
    requires code < 64 && v < Pow64(n) && s == Code(code, v, n)
    ensures |s| == n + 1 && CharDec(s[0]) == code && AllDigits(s[..n + 1]) && Value(s[1..n + 1]) == v
  {
    CharRoundTrip(code);
    DigitsRoundTrip(v, n);
    assert s[1..n + 1] == Digits(v, n);
    assert s[..n + 1] == s;
  }

  // ----- read commands -----

  function Flag(inc: bool): nat { if inc then 1 else 0 }

  function ShortRead(inc: bool, k: nat): seq<char>
    requires k < 8
  {
    [CharEnc(0x20 + k * 2 + Flag(inc))]
  }

  function LongRead(inc: bool, q: nat, r: nat): seq<char>
    requires q < 8 && r < 64
  {
    [CharEnc(0x30 + q * 2 + Flag(inc)), CharEnc(r)]
  }

  /** readcmd, for the lengths it asserts. */
  function ReadCmd(inc: bool, len: nat): seq<char>
    requires 0 < len < 520
  {
    if len <= 8 then ShortRead(inc, (len - 1) % 8) else LongRead(inc, (len - 9) / 64 % 8, (len - 9) % 64)
  }

  function AfterRead(m: Mirror, inc: bool, len: nat): Decoded {
    Decoded(true, if inc then m.(addr := WrapAddress(m.addr + len)) else m, [BusRead(m.addr, len, inc)])
  }

  /** A read command asks for as many words as it was made for, at the current
      address, unless it is for eight words without stepping: that is the mark
      that ends a run of writes, and reads nothing. */
  lemma {:induction false} ReadCmdExactly(m: Mirror, inc: bool, len: nat)
    requires ValidMirror(m) && 0 < len < 520
    ensures Decode(m, ReadCmd(inc, len)) == AfterRead(m, inc, len) <==> inc || len != 8
    ensures !inc && len == 8 ==> Decode(m, ReadCmd(inc, len)) == Decoded(true, m, [])
  {
    ReadCmdFields(len);
    if len <= 8 {
      ShortReadDecodes(m, inc, len - 1, len, ReadCmd(inc, len));
    } else {
      LongReadDecodes(m, inc, (len - 9) / 64, (len - 9) % 64, len, ReadCmd(inc, len));
    }
  }

  /** Eight words from one address: the driver sends one character and nothing is read. */
  lemma {:induction false} EightWordsUnread(m: Mirror)
    requires ValidMirror(m)
    ensures ReadCmd(false, 8) == ['k'] && Decode(m, ['k']) == Decoded(true, m, [])
  {
    ReadCmdExactly(m, false, 8);
  }

  lemma ReadCmdFields(len: nat)
    requires 0 < len < 520
    ensures len <= 8 ==> (len - 1) % 8 == len - 1 < 8
    ensures len >= 9 ==> (len - 9) / 64 % 8 == (len - 9) / 64 < 8 && (len - 9) / 64 * 64 + (len - 9) % 64 + 9 == len
  {
  }

  lemma {:induction false} ShortReadDecodes(m: Mirror, inc: bool, k: nat, len: nat, s: seq<char>)
    requires ValidMirror(m) && k < 8 && len == k + 1 && s == ShortRead(inc, k)
    ensures Decode(m, s) == if !inc && len == 8 then Decoded(true, m, []) else AfterRead(m, inc, len)
  {
    var code := 0x20 + k * 2 + Flag(inc);
    NoDigits(code, s);
    CodeRoundTrip(m, code, 0, 0);
    ShortReadEffect(m, inc, k, code);
  }

  lemma {:induction false} NoDigits(code: nat, s: seq<char>)
    requires code < 64 && s == [CharEnc(code)]
    ensures s == Code(code, 0, 0)
  {
    assert Digits(0, 0) == [];
  }

  lemma {:induction false} ShortReadEffect(m: Mirror, inc: bool, k: nat, code: nat)
    requires ValidMirror(m) && k < 8 && code == 0x20 + k * 2 + Flag(inc)
    ensures CodeLength(code) == 1
    ensures code != END_OF_WRITE ==>
              Effect(m, code, 0, 1) == One(AfterRead(m, inc, k + 1).m, AfterRead(m, inc, k + 1).commands, 1)
    ensures code == END_OF_WRITE ==> Effect(m, code, 0, 1) == One(m, [], 1)
    ensures code == END_OF_WRITE <==> !inc && k == 7
  {
    assert code % 2 == Flag(inc) && (code - 0x20) / 2 == k;
  }

  lemma {:induction false} LongReadDecodes(m: Mirror, inc: bool, q: nat, r: nat, len: nat, s: seq<char>)
    requires ValidMirror(m) && q < 8 && r < 64 && len == q * 64 + r + 9 && s == LongRead(inc, q, r)
    ensures Decode(m, s) == AfterRead(m, inc, len)
  {
    var code := 0x30 + q * 2 + Flag(inc);
    LastDigit(r);
    LongReadEffect(m, inc, q, r, code);
    CodeMeans(m, code, r, 1, s, AfterRead(m, inc, len).m, AfterRead(m, inc, len).commands);
  }

  lemma {:induction false} LongReadEffect(m: Mirror, inc: bool, q: nat, r: nat, code: nat)
    requires ValidMirror(m) && q < 8 && r < 64 && code == 0x30 + q * 2 + Flag(inc)
    ensures CodeLength(code) == 2
    ensures var d := AfterRead(m, inc, q * 64 + r + 9); Effect(m, code, r, 2) == One(d.m, d.commands, 2)
  {
    assert code % 2 == Flag(inc) && (code - 0x30) / 2 == q;
  }

  lemma {:induction false} LastDigit(v: nat)
    requires v < 64
    ensures Digits(v, 1) == [CharEnc(v)] && v < Pow64(1)
  {
    assert Digits(v / 64, 0) == [];
    Pow64Values();
  }
}
