/** writev of sw/host/ttybus.cpp: a vector of words sent as an address followed
    by one command per word, a word seen recently being sent as how long ago. */
module TtyWrite {
  import opened Bits
  import opened TtyCode
  import opened TtyAddress

  /** m_writetbl, m_wraddr, m_wrloaded, m_lastaddr and m_addr_set. */
  datatype Coder = Coder(tbl: seq<nat>, wraddr: nat, loaded: bool, last: nat, known: bool)

  const MAXWRLEN: nat := 32

  predicate ValidCoder(c: Coder) {
    |c.tbl| == 512 && c.wraddr < TABLE && ByteAddress(c.last)
  }

  /** A slot that has been written since start-up. */
  predicate Filled(c: Coder, j: nat) {
    j < TABLE && (c.loaded || j < c.wraddr)
  }

  /** The slot written k pushes ago. */
  function Past(wraddr: nat, k: nat): (t: nat)
    ensures t < TABLE
  {
    Slot(wraddr - k)
  }

  /** The search from i pushes ago: how many pushes ago the word was last sent in full, or 0. */
  function Lookup(c: Coder, val: nat, i: nat): (r: nat)
    requires ValidCoder(c) && 1 <= i
    ensures r < TABLE && (r != 0 ==> i <= r)
    decreases TABLE - i
  {
    if i >= TABLE then 0
    else
      var t := Past(c.wraddr, i);
      if !c.loaded && t > c.wraddr then 0
      else if c.tbl[t] == val then i
      else Lookup(c, val, i + 1)
  }

  lemma PastSlot(wraddr: nat, i: nat)
    requires wraddr < TABLE && 1 <= i < TABLE
    ensures Past(wraddr, i) == (if i <= wraddr then wraddr - i else wraddr - i + TABLE) != wraddr
    ensures Slot(wraddr - Past(wraddr, i)) == i
  {
  }

  /** The word is in none of the filled slots written from i to j pushes ago. */
  ghost predicate Absent(c: Coder, val: nat, i: nat, j: nat)
    requires ValidCoder(c)
  {
    forall k | i <= k < j && Filled(c, Past(c.wraddr, k)) :: c.tbl[Past(c.wraddr, k)] != val
  }

  lemma AbsentMore(c: Coder, val: nat, i: nat, j: nat)
    requires ValidCoder(c) && Absent(c, val, i + 1, j) && c.tbl[Past(c.wraddr, i)] != val
    ensures Absent(c, val, i, j)
  {
  }

  /** Before the first time round the table, slots above the write pointer are unfilled. */
  lemma {:induction false} UnfilledFrom(c: Coder, val: nat, i: nat)
    requires ValidCoder(c) && 1 <= i < TABLE && !c.loaded && Past(c.wraddr, i) > c.wraddr
    ensures Absent(c, val, i, TABLE)
  {
    PastSlot(c.wraddr, i);
    forall k | i <= k < TABLE
      ensures !Filled(c, Past(c.wraddr, k))
    {
      PastSlot(c.wraddr, k);
    }
  }

  /** A hit is the most recent copy of the word and lies in a slot that has been
      filled; a miss means no filled slot other than the oldest holds it. */
  lemma {:induction false} LookupFinds(c: Coder, val: nat, i: nat)
    requires ValidCoder(c) && 1 <= i
    ensures var r := Lookup(c, val, i);
            && (r != 0 ==> c.tbl[Past(c.wraddr, r)] == val && Filled(c, Past(c.wraddr, r)))
            && Absent(c, val, i, if r == 0 then TABLE else r)
    decreases TABLE - i
  {
    if i < TABLE {
      PastSlot(c.wraddr, i);
      var t := Past(c.wraddr, i);
      if !c.loaded && t > c.wraddr {
        UnfilledFrom(c, val, i);
      } else if c.tbl[t] != val {
        LookupFinds(c, val, i + 1);
        var r := Lookup(c, val, i + 1);
        AbsentMore(c, val, i, if r == 0 then TABLE else r);
      }
    }
  }

  function Advanced(c: Coder, inc: bool): (c': Coder)
    ensures ValidCoder(c) ==> ValidCoder(c')
  {
    if inc then c.(last := U32(c.last + 4)) else c
  }

  /** The coder after sending a word in full. */
  function Pushed(c: Coder, val: nat): (c': Coder)
    requires ValidCoder(c)
    ensures ValidCoder(c') && c'.known == c.known && c'.last == c.last
  {
    var next := Slot(c.wraddr + 1);
    c.(tbl := c.tbl[c.wraddr := val], wraddr := next, loaded := c.loaded || next == 0)
  }

  /** The first digits of a word's command. */
  function TableOp(top: nat, inc: bool): (c: nat)
    requires top < 4
    ensures 0x10 <= c < 0x18 && (c % 2 == 1 <==> inc) && (c - 0x10) / 2 == top
  {
    0x10 + top * 2 + Flag(inc)
  }

  function RawOp(top: nat, inc: bool): (c: nat)
    requires top < 4
    ensures 0x18 <= c < 0x20 && (c % 2 == 1 <==> inc) && (c - 0x18) / 2 == top
  {
    0x18 + top * 2 + Flag(inc)
  }

  /** One word: its characters and the coder afterwards. */
  function WordCode(c: Coder, val: nat, inc: bool): (r: (seq<char>, Coder))
    requires ValidCoder(c)
    ensures ValidCoder(r.1) && r.1.known == c.known && r.1.last == Advanced(c, inc).last
  {
    var ago := Lookup(c, val, 1);
    if ago != 0 then (Code(TableOp(ago / 64 % 4, inc), ago, 1), Advanced(c, inc))
    else (Code(RawOp(val / 0x4000_0000 % 4, inc), val, 5), Advanced(Pushed(c, val), inc))
  }

  function WordsCode(c: Coder, buf: seq<nat>, inc: bool): (r: (seq<char>, Coder))
    requires ValidCoder(c)
    ensures ValidCoder(r.1) && r.1.known == c.known
  {
    if buf == [] then ([], c)
    else
      var n := |buf| - 1;
      var before := WordsCode(c, buf[..n], inc);
      var word := WordCode(before.1, buf[n], inc);
      (before.0 + word.0, word.1)
  }

  function Addressed(c: Coder, a: nat): Coder {
    c.(last := a, known := true)
  }

  /** Everything one call sends, and the coder afterwards.  With nothing to write
      nothing is sent, not even the address. */
  function CallCode(c: Coder, a: nat, inc: bool, buf: seq<nat>): (r: (seq<char>, Coder))
    requires ValidCoder(c) && ByteAddress(a)
    ensures ValidCoder(r.1) && r.1.known
  {
    if buf == [] then ([], Addressed(c, a))
    else
      var words := WordsCode(Addressed(c, a), buf, inc);
      (AddressCode(c.known, c.last, a) + words.0 + ['\n'], words.1)
  }

  datatype Outcome = Done | BusErr(addr: nat)

  class Tty {
    const writetbl: array<nat>
    var wraddr: nat
    var loaded: bool
    var lastaddr: nat
    var addrSet: bool
    /** Everything handed to the device so far. */
    var sent: seq<char>

    ghost function View(): Coder
      reads this, writetbl
    {
      Coder(writetbl[..], wraddr, loaded, lastaddr, addrSet)
    }

    constructor (writetbl: array<nat>)
      requires writetbl.Length == 512
      ensures this.writetbl == writetbl && sent == [] && ValidCoder(View()) && !addrSet && !loaded && wraddr == 0
    {
      this.writetbl := writetbl;
      wraddr, loaded, lastaddr, addrSet, sent := 0, false, 0, false, [];
    }

    /** The compression loop. */
    method Find(val: nat) returns (caddr: nat)
      requires ValidCoder(View())
      ensures caddr == Lookup(View(), val, 1)
    {
      caddr := 0;
      var i := 1;
      while i < TABLE
        invariant 1 <= i <= TABLE && caddr == 0
        invariant Lookup(View(), val, 1) == Lookup(View(), val, i)
      {
        var tstaddr := Past(wraddr, i);
        if !loaded && tstaddr > wraddr {
          break;
        }
        if writetbl[tstaddr] == val {
          PastSlot(wraddr, i);
          caddr := Slot(wraddr - tstaddr);
          break;
        }
        i := i + 1;
      }
    }

    /** Encode one word, remembering it when it goes in full. */
    method EncodeWord(val: nat, inc: bool) returns (code: seq<char>)
      requires ValidCoder(View())
      modifies `wraddr, `loaded, `lastaddr, writetbl
      ensures code == WordCode(old(View()), val, inc).0 && View() == WordCode(old(View()), val, inc).1
    {
      var caddr := Find(val);
      if caddr != 0 {
        code := TableCode(caddr, inc);
      } else {
        code := RawCode(val, inc);
        Push(val);
      }
      if inc {
        lastaddr := U32(lastaddr + 4);
      }
    }

    method TableCode(caddr: nat, inc: bool) returns (code: seq<char>)
      ensures code == Code(TableOp(caddr / 64 % 4, inc), caddr, 1)
    {
      var flag := if inc then 1 else 0;
      LowDigit(caddr);
      code := [CharEnc(0x10 + caddr / 64 % 4 * 2 + flag), CharEnc(caddr % 64)];
    }

    method RawCode(val: nat, inc: bool) returns (code: seq<char>)
      ensures code == Code(RawOp(val / 0x4000_0000 % 4, inc), val, 5)
    {
      var flag := if inc then 1 else 0;
      FiveDigits(val);
      code := [
        CharEnc(0x18 + val / 0x4000_0000 % 4 * 2 + flag),
        CharEnc(val / 0x100_0000 % 64), CharEnc(val / 0x4_0000 % 64), CharEnc(val / 0x1000 % 64),
        CharEnc(val / 64 % 64), CharEnc(val % 64)];
    }

    method Push(val: nat)
      requires ValidCoder(View())
      modifies `wraddr, `loaded, writetbl
      ensures View() == Pushed(old(View()), val)
    {
      writetbl[wraddr] := val;
      assert writetbl[..] == old(writetbl[..])[wraddr := val];
      wraddr := Slot(wraddr + 1);
      if wraddr == 0 {
        loaded := true;
      }
    }

    /** The words of one device write. */
    method EncodeChunk(words: seq<nat>, inc: bool) returns (code: seq<char>)
      requires ValidCoder(View())
      modifies `wraddr, `loaded, `lastaddr, writetbl
      ensures code == WordsCode(old(View()), words, inc).0 && View() == WordsCode(old(View()), words, inc).1
    {
      code := [];
      assert words[..0] == [];
      for i := 0 to |words|
        invariant code == WordsCode(old(View()), words[..i], inc).0
                  && View() == WordsCode(old(View()), words[..i], inc).1
      {
        assert words[..i + 1][..i] == words[..i];
        var one := EncodeWord(words[i], inc);
        code := code + one;
      }
      assert words[..|words|] == words;
    }

    /** writev: at most MAXWRLEN words to each device write, a newline after the last. */
    method WriteV(a: nat, inc: bool, buf: seq<nat>) returns (o: Outcome)
      requires ValidCoder(View()) && a < TWO32
      modifies this, writetbl
      ensures a % 4 != 0 ==> o == BusErr(a) && View() == old(View()) && sent == old(sent)
      ensures a % 4 == 0 ==>
                var call := CallCode(old(View()), a, inc, buf);
                o == Done && sent == old(sent) + call.0 && View() == call.1
    {
      if a % 4 != 0 {
        return BusErr(a);
      }
      var ptr := EncodeAddress(addrSet, lastaddr, a);
      lastaddr, addrSet := a, true;
      SendWords(ptr, inc, buf);
      FinishCall(old(sent), ptr, WordsCode(Addressed(old(View()), a), buf, inc).0);
      o := Done;
    }

    /** The chunks of one call, the first with the address in front. */
    method SendWords(address: seq<char>, inc: bool, buf: seq<nat>)
      requires ValidCoder(View())
      modifies `wraddr, `loaded, `lastaddr, `sent, writetbl
      ensures View() == WordsCode(old(View()), buf, inc).1
      ensures sent == if buf == [] then old(sent) else old(sent) + address + WordsCode(old(View()), buf, inc).0 + ['\n']
    {
      var ptr, nw := address, 0;
      ghost var start, base, code, prefix := View(), sent + address, [], [];
      assert base + code == base && WordsCode(start, prefix, inc) == ([], start);
      while nw < |buf|
        invariant nw <= |buf| && prefix == buf[..nw]
        invariant WordsCode(start, prefix, inc) == (code, View())
        invariant nw < |buf| ==> sent + ptr == base + code
        invariant nw == |buf| > 0 ==> sent == base + code + ['\n']
        invariant nw == 0 ==> sent == old(sent)
      {
        var ln := ChunkSize(|buf| - nw);
        var words := buf[nw..nw + ln];
        WordsAppend(start, prefix, words, inc);
        var chunk := SendChunk(ptr, words, inc, ln == |buf| - nw);
        Regroup(base, code, chunk);
        Extend(buf, nw, ln);
        prefix, code, nw, ptr := prefix + words, code + chunk, nw + ln, [];
      }
      assert prefix == buf;
    }

    static method ChunkSize(left: nat) returns (ln: nat)
      requires left > 0
      ensures 0 < ln <= left && ln <= MAXWRLEN
    {
      ln := left;
      if ln > MAXWRLEN {
        ln := MAXWRLEN;
      }
    }

    /** One device write. */
    method SendChunk(ptr: seq<char>, words: seq<nat>, inc: bool, final: bool) returns (chunk: seq<char>)
      requires ValidCoder(View()) && |words| <= MAXWRLEN
      modifies `wraddr, `loaded, `lastaddr, `sent, writetbl
      ensures chunk == WordsCode(old(View()), words, inc).0 && View() == WordsCode(old(View()), words, inc).1
      ensures final ==> sent == old(sent) + ptr + chunk + ['\n']
      ensures !final ==> sent + [] == old(sent) + ptr + chunk
    {
      chunk := EncodeChunk(words, inc);
      var text := ptr + chunk;
      Regroup(sent, ptr, chunk);
      if final {
        Regroup(sent, text, ['\n']);
        text := text + ['\n'];
      }
      sent := sent + text;
      assert sent + [] == sent;
    }
  }

  lemma Extend<T>(s: seq<T>, n: nat, k: nat)
    requires n + k <= |s|
    ensures s[..n] + s[n..n + k] == s[..n + k]
  {
  }

  lemma FinishCall(sent: seq<char>, address: seq<char>, code: seq<char>)
    ensures sent + address + code + ['\n'] == sent + (address + code + ['\n'])
    ensures sent + [] == sent
  {
  }

  lemma {:induction false} WordsAppend(c: Coder, xs: seq<nat>, ys: seq<nat>, inc: bool)
    requires ValidCoder(c)
    ensures var x := WordsCode(c, xs, inc);
            var y := WordsCode(x.1, ys, inc);
            WordsCode(c, xs + ys, inc) == (x.0 + y.0, y.1)
    decreases |ys|
  {
    var x := WordsCode(c, xs, inc);
    if ys == [] {
      assert xs + ys == xs && x.0 + [] == x.0;
    } else {
      var n := |ys| - 1;
      WordsAppend(c, xs, ys[..n], inc);
      assert (xs + ys)[..|xs + ys| - 1] == xs + ys[..n] && (xs + ys)[|xs + ys| - 1] == ys[n];
      var y := WordsCode(x.1, ys[..n], inc);
      Regroup(x.0, y.0, WordCode(y.1, ys[n], inc).0);
    }
  }

  // ----- the table is the last 255 words sent in full -----

  /** The k-th last of some words. */
  function Ago(words: seq<nat>, k: nat): nat
    requires 1 <= k <= |words|
  {
    words[|words| - k]
  }

  /** `sent` are the words that have been sent in full since start-up. */
  ghost predicate Remembers(c: Coder, sent: seq<nat>) {
    && ValidCoder(c) && c.wraddr == |sent| % 0x100 && (c.loaded <==> |sent| >= 0x100)
    && forall k | 1 <= k < 0x100 && k <= |sent| :: c.tbl[Past(c.wraddr, k)] == Ago(sent, k)
  }

  lemma {:induction false} PushedRemembers(c: Coder, sent: seq<nat>, val: nat)
    requires Remembers(c, sent)
    ensures Remembers(Pushed(c, val), sent + [val])
  {
    var c', sent' := Pushed(c, val), sent + [val];
    NextSlot(|sent|, c.wraddr);
    forall k | 1 <= k < 0x100 && k <= |sent'|
      ensures c'.tbl[Past(c'.wraddr, k)] == Ago(sent', k)
    {
      PastNext(c.wraddr, k);
      if k > 1 {
        PastSlot(c.wraddr, k - 1);
      }
    }
  }

  lemma NextSlot(n: nat, w: nat)
    requires w == n % 0x100
    ensures Slot(w + 1) == (n + 1) % 0x100 && (Slot(w + 1) == 0 ==> n + 1 >= 0x100)
    ensures n + 1 == 0x100 ==> Slot(w + 1) == 0
  {
  }

  lemma {:induction false} PastNext(w: nat, k: nat)
    requires w < 0x100 && k >= 1
    ensures Past(Slot(w + 1), k) == if k == 1 then w else Past(w, k - 1)
  {
    if w == 0xff {
      assert Slot(w + 1) == 0 && Slot(0 - k) == Slot(0x100 - k);
    } else {
      assert Slot(w + 1) == w + 1;
    }
  }

  lemma {:induction false} FilledExactly(c: Coder, sent: seq<nat>, k: nat)
    requires Remembers(c, sent) && 1 <= k < 0x100
    ensures Filled(c, Past(c.wraddr, k)) <==> k <= |sent|
  {
    PastSlot(c.wraddr, k);
    if !c.loaded {
      assert c.wraddr == |sent|;
    }
  }

  /** The search finds the word exactly when it is among the last 255 sent in full, and
      then how long ago that last was. */
  lemma {:induction false} LookupExactly(c: Coder, sent: seq<nat>, val: nat)
    requires Remembers(c, sent)
    ensures var r := Lookup(c, val, 1);
            && (r != 0 ==> r <= |sent| && Ago(sent, r) == val)
            && forall k | 1 <= k < (if r == 0 then 0x100 else r) && k <= |sent| :: Ago(sent, k) != val
  {
    var r := Lookup(c, val, 1);
    LookupFinds(c, val, 1);
    if r != 0 {
      FilledExactly(c, sent, r);
    }
    forall k | 1 <= k < (if r == 0 then 0x100 else r) && k <= |sent|
      ensures Ago(sent, k) != val
    {
      FilledExactly(c, sent, k);
    }
  }

  /** Among the last 255 words sent in full. */
  predicate Recent(sent: seq<nat>, val: nat) {
    exists k | 1 <= k < 0x100 && k <= |sent| :: Ago(sent, k) == val
  }

  /** A word takes two characters if it is among those, and otherwise six and joins them. */
  lemma {:induction false} WordCost(c: Coder, sent: seq<nat>, val: nat, inc: bool)
    requires Remembers(c, sent)
    ensures var word := WordCode(c, val, inc);
            if Recent(sent, val) then |word.0| == 2 && Remembers(word.1, sent)
            else |word.0| == 6 && Remembers(word.1, sent + [val])
  {
    LookupExactly(c, sent, val);
    WordShape(c, val, inc);
    if Lookup(c, val, 1) == 0 {
      PushedRemembers(c, sent, val);
    }
  }

  lemma WordShape(c: Coder, val: nat, inc: bool)
    requires ValidCoder(c)
    ensures var word := WordCode(c, val, inc);
            if Lookup(c, val, 1) != 0 then |word.0| == 2 && word.1 == Advanced(c, inc)
            else |word.0| == 6 && word.1 == Advanced(Pushed(c, val), inc)
  {
  }

  lemma {:induction false} StartRemembers(c: Coder)
    requires ValidCoder(c) && !c.loaded && c.wraddr == 0
    ensures Remembers(c, [])
  {
  }

  // ----- the far end follows -----

  /** The two tables agree wherever the driver may look: in every slot that has been
      filled other than the one the next word goes to.  (That slot the receiver
      also overwrites on commands that do not move its write pointer.)  Nothing is
      said about addresses. */
  ghost predicate Sync(c: Coder, m: Mirror) {
    && ValidCoder(c) && ValidMirror(m) && m.wraddr == c.wraddr
    && forall j | 0 <= j < TABLE && j != c.wraddr && Filled(c, j) :: m.tbl[j] == c.tbl[j]
  }

  /** So whatever the receiver leaves in that slot makes no difference. */
  lemma {:induction false} NextSlotOpen(c: Coder, m: Mirror, word: nat)
    requires Sync(c, m)
    ensures Sync(c, m.(tbl := m.tbl[m.wraddr := word]))
  {
  }

  lemma {:induction false} PushedSync(c: Coder, m: Mirror, val: nat)
    requires Sync(c, m)
    ensures Sync(Pushed(c, val), Remembered(m, val))
  {
    assert Slot(c.wraddr + 1) == if c.wraddr == 255 then 0 else c.wraddr + 1;
  }

  lemma {:induction false} ModByDigit(v: nat, p: nat)
    requires p > 0
    ensures v % (64 * p) / 64 == v / 64 % p && v % (64 * p) % 64 == v % 64
  {
    DivModFacts(v / 64, p);
    var q, r := v / 64 / p, v / 64 % p;
    assert v / 64 == q * p + r;
    assert v == q * (64 * p) + (r * 64 + v % 64);
    DivModUnique(v, 64 * p, q, r * 64 + v % 64);
  }

  lemma {:induction false} DigitsMod(v: nat, n: nat)
    ensures Digits(v, n) == Digits(v % Pow64(n), n)
    decreases n
  {
    if n > 0 {
      ModByDigit(v, Pow64(n - 1));
      DigitsMod(v / 64, n - 1);
    }
  }

  /** A table command reads back as a write of the word that many pushes ago. */
  lemma {:induction false} TableCommand(m: Mirror, top: nat, low: nat, inc: bool, s: seq<char>, word: nat)
    requires ValidMirror(m) && top < 4 && low < 64 && s == Code(TableOp(top, inc), low, 1)
    requires word == m.tbl[Past(m.wraddr, top * 64 + low)]
    ensures Decode(m, s) == Decoded(true, Stepped(m, inc), [BusWrite(m.addr, word)])
  {
    var code := TableOp(top, inc);
    Pow64Values();
    TableEffect(m, code, top, low, inc);
    CodeMeans(m, code, low, 1, s, Stepped(m, inc), [BusWrite(m.addr, word)]);
  }

  lemma TableEffect(m: Mirror, code: nat, top: nat, low: nat, inc: bool)
    requires ValidMirror(m) && 0x10 <= code < 0x18 && (code % 2 == 1 <==> inc) && (code - 0x10) / 2 == top
    ensures CodeLength(code) == 2
    ensures Effect(m, code, low, 2) ==
            One(Stepped(m, inc), [BusWrite(m.addr, m.tbl[Past(m.wraddr, top * 64 + low)])], 2)
  {
  }

  lemma RawEffect(m: Mirror, code: nat, top: nat, low: nat, inc: bool)
    requires ValidMirror(m) && 0x18 <= code < 0x20 && (code % 2 == 1 <==> inc) && (code - 0x18) / 2 == top
    ensures CodeLength(code) == 6
    ensures var word := top * 0x4000_0000 + low;
            Effect(m, code, low, 6) == One(Stepped(Remembered(m, word), inc), [BusWrite(m.addr, word)], 6)
  {
  }

  /** A word in full reads back as a write that is also remembered. */
  lemma {:induction false} RawCommand(m: Mirror, top: nat, low: nat, inc: bool, s: seq<char>, word: nat)
    requires ValidMirror(m) && top < 4 && low < 0x4000_0000 && s == Code(RawOp(top, inc), low, 5)
    requires word == top * 0x4000_0000 + low
    ensures Decode(m, s) == Decoded(true, Stepped(Remembered(m, word), inc), [BusWrite(m.addr, word)])
  {
    var code := RawOp(top, inc);
    Pow64Values();
    RawEffect(m, code, top, low, inc);
    CodeMeans(m, code, low, 5, s, Stepped(Remembered(m, word), inc), [BusWrite(m.addr, word)]);
  }

  lemma {:induction false} TableFields(ago: nat, inc: bool)
    requires ago < TABLE
    ensures ago / 64 < 4 && ago / 64 * 64 + ago % 64 == ago
    ensures Code(TableOp(ago / 64 % 4, inc), ago, 1) == Code(TableOp(ago / 64, inc), ago % 64, 1)
  {
    LowDigit(ago);
    LowDigit(ago % 64);
  }

  lemma {:induction false} RawFields(val: nat, inc: bool)
    requires val < TWO32
    ensures val / 0x4000_0000 < 4 && val / 0x4000_0000 * 0x4000_0000 + val % 0x4000_0000 == val
    ensures Code(RawOp(val / 0x4000_0000 % 4, inc), val, 5) ==
            Code(RawOp(val / 0x4000_0000, inc), val % 0x4000_0000, 5)
  {
    TopTwoBits(val, val / 0x4000_0000, val % 0x4000_0000);
    Pow64Values();
    DigitsMod(val, 5);
  }

  lemma TopTwoBits(val: nat, top: nat, low: nat)
    requires val < TWO32 && top == val / 0x4000_0000 && low == val % 0x4000_0000
    ensures top < 4 && top % 4 == top && top * 0x4000_0000 + low == val
  {
  }

  lemma {:induction false} HitDecodes(c: Coder, m: Mirror, val: nat, inc: bool, ago: nat, s: seq<char>)
    requires Sync(c, m) && ago == Lookup(c, val, 1) != 0
    requires s == Code(TableOp(ago / 64 % 4, inc), ago, 1)
    ensures Decode(m, s) == Decoded(true, Stepped(m, inc), [BusWrite(m.addr, val)])
  {
    LookupFinds(c, val, 1);
    PastSlot(c.wraddr, ago);
    TableFields(ago, inc);
    TableCommand(m, ago / 64, ago % 64, inc, s, val);
  }

  lemma {:induction false} MissDecodes(m: Mirror, val: nat, inc: bool, s: seq<char>)
    requires ValidMirror(m) && val < TWO32 && s == Code(RawOp(val / 0x4000_0000 % 4, inc), val, 5)
    ensures Decode(m, s) == Decoded(true, Stepped(Remembered(m, val), inc), [BusWrite(m.addr, val)])
  {
    RawFields(val, inc);
    RawCommand(m, val / 0x4000_0000, val % 0x4000_0000, inc, s, val);
  }

  /** The far end after one word. */
  function WordMirror(c: Coder, m: Mirror, val: nat, inc: bool): (m': Mirror)
    requires ValidCoder(c) && ValidMirror(m)
    ensures ValidMirror(m') && m'.addr == if inc then WrapAddress(m.addr + 1) else m.addr
  {
    Stepped(if Lookup(c, val, 1) != 0 then m else Remembered(m, val), inc)
  }

  /** One word: the far end writes it where it should. */
  lemma {:induction false} WordDecodes(c: Coder, m: Mirror, val: nat, inc: bool)
    requires Sync(c, m) && val < TWO32
    ensures Decode(m, WordCode(c, val, inc).0) == Decoded(true, WordMirror(c, m, val, inc), [BusWrite(m.addr, val)])
  {
    var ago, s := Lookup(c, val, 1), WordCode(c, val, inc).0;
    if ago != 0 {
      HitDecodes(c, m, val, inc, ago, s);
    } else {
      MissDecodes(m, val, inc, s);
    }
  }

  /** And the tables stay in step. */
  lemma {:induction false} WordSync(c: Coder, m: Mirror, val: nat, inc: bool)
    requires Sync(c, m)
    ensures Sync(WordCode(c, val, inc).1, WordMirror(c, m, val, inc))
  {
    if Lookup(c, val, 1) == 0 {
      PushedSync(c, m, val);
    }
  }

  /** Where the n-th write of a call goes. */
  function Target(w: nat, n: nat, inc: bool): nat {
    if inc then WrapAddress(w + n) else w
  }

  /** The bus writes a call asks for: one word after another from an address, or all at it. */
  function Writes(w: nat, buf: seq<nat>, inc: bool): (r: seq<Command>)
    ensures |r| == |buf|
  {
    if buf == [] then []
    else
      var n := |buf| - 1;
      Writes(w, buf[..n], inc) + [BusWrite(Target(w, n, inc), buf[n])]
  }

  predicate Words(buf: seq<nat>) {
    forall i | 0 <= i < |buf| :: buf[i] < TWO32
  }

  /** The far end after some words. */
  function WordsMirror(c: Coder, m: Mirror, buf: seq<nat>, inc: bool): (m': Mirror)
    requires ValidCoder(c) && ValidMirror(m)
    ensures ValidMirror(m')
  {
    if buf == [] then m
    else
      var n := |buf| - 1;
      WordMirror(WordsCode(c, buf[..n], inc).1, WordsMirror(c, m, buf[..n], inc), buf[n], inc)
  }

  lemma {:induction false} WordsSync(c: Coder, m: Mirror, buf: seq<nat>, inc: bool)
    requires Sync(c, m)
    ensures Sync(WordsCode(c, buf, inc).1, WordsMirror(c, m, buf, inc))
    decreases |buf|
  {
    if buf != [] {
      var n := |buf| - 1;
      WordsSync(c, m, buf[..n], inc);
      WordSync(WordsCode(c, buf[..n], inc).1, WordsMirror(c, m, buf[..n], inc), buf[n], inc);
    }
  }

  lemma {:induction false} WordsAddress(c: Coder, m: Mirror, buf: seq<nat>, inc: bool, n: nat)
    requires ValidCoder(c) && ValidMirror(m) && n == |buf|
    ensures WordsMirror(c, m, buf, inc).addr == Target(m.addr, n, inc)
  {
    if n > 0 {
      WordsAddress(c, m, buf[..n - 1], inc, n - 1);
      TargetNext(m.addr, n - 1, inc);
    }
  }

  lemma {:induction false} WordsDecode(c: Coder, m: Mirror, buf: seq<nat>, inc: bool)
    requires Sync(c, m) && Words(buf)
    ensures Decode(m, WordsCode(c, buf, inc).0) == Decoded(true, WordsMirror(c, m, buf, inc), Writes(m.addr, buf, inc))
    decreases |buf|
  {
    if buf != [] {
      var n := |buf| - 1;
      var before, m1 := WordsCode(c, buf[..n], inc), WordsMirror(c, m, buf[..n], inc);
      WordsDecode(c, m, buf[..n], inc);
      assert Decode(m1, WordCode(before.1, buf[n], inc).0) ==
             Decoded(true, WordsMirror(c, m, buf, inc), [BusWrite(m1.addr, buf[n])]) by {
        WordsSync(c, m, buf[..n], inc);
        WordDecodes(before.1, m1, buf[n], inc);
      }
      WordsAddress(c, m, buf[..n], inc, n);
      WritesLast(m.addr, buf, inc);
      LastWordDecodes(m, before.0, m1, Writes(m.addr, buf[..n], inc), WordCode(before.1, buf[n], inc).0,
                      WordsMirror(c, m, buf, inc), BusWrite(m1.addr, buf[n]),
                      WordsCode(c, buf, inc).0, Writes(m.addr, buf, inc));
    }
  }

  lemma WritesLast(w: nat, buf: seq<nat>, inc: bool)
    requires buf != []
    ensures var n := |buf| - 1;
            Writes(w, buf, inc) == Writes(w, buf[..n], inc) + [BusWrite(Target(w, n, inc), buf[n])]
  {
  }

  lemma {:induction false} LastWordDecodes(m: Mirror, s: seq<char>, m1: Mirror, w: seq<Command>, t: seq<char>,
                                           m2: Mirror, last: Command, whole: seq<char>, all: seq<Command>)
    requires ValidMirror(m) && Decode(m, s) == Decoded(true, m1, w)
    requires ValidMirror(m1) && Decode(m1, t) == Decoded(true, m2, [last])
    requires whole == s + t && all == w + [last]
    ensures Decode(m, whole) == Decoded(true, m2, all)
  {
    DecodeTwo(m, s, m1, w, t, m2, [last]);
  }

  lemma TargetNext(w: nat, n: nat, inc: bool)
    ensures Target(w, n + 1, inc) == if inc then WrapAddress(Target(w, n, inc) + 1) else Target(w, n, inc)
  {
  }

  lemma {:induction false} NewlineDecodes(m: Mirror)
    requires ValidMirror(m)
    ensures Decode(m, ['\n']) == Decoded(true, m, [])
  {
    DecodeSingle(m, ['\n']);
  }

  /** Where the writes of a call made from c start, the far end being at `far`. */
  function Start(c: Coder, far: nat, a: nat): nat {
    Landing(c.known, c.last, a, far)
  }

  /** Where the far end is after the call. */
  function FarAfter(c: Coder, far: nat, call: Call): nat {
    if !Sends(call) then far else Target(Start(c, far, call.a), |call.buf|, call.inc)
  }

  /** One call: the far end performs a write for every word, in order, from wherever
      the address sent has taken it, and the tables stay in step, whatever was
      sent before.  With nothing to write nothing happens at all. */
  lemma {:induction false} CallDecodes(c: Coder, m: Mirror, call: Call) returns (m': Mirror)
    requires Sync(c, m) && ByteAddress(call.a) && Words(call.buf) && !Garbled(c, call)
    ensures Decode(m, CharsOf(c, call)) == Decoded(true, m', LandedBy(c, m.addr, call))
    ensures Sync(After(c, call), m')
    ensures m'.addr == FarAfter(c, m.addr, call)
  {
    if call.buf == [] {
      m' := m;
    } else {
      var w := Start(c, m.addr, call.a);
      var address := AddressCode(c.known, c.last, call.a);
      AddressLandsExactly(m, c.known, c.last, call.a);
      StartBelow(c, m.addr, call.a);
      m' := AddressedDecodes(Addressed(c, call.a), m.(addr := w), w, call);
      CallStream(m, address, m.(addr := w), WordsCode(Addressed(c, call.a), call.buf, call.inc).0, m',
                 Writes(w, call.buf, call.inc), CallCode(c, call.a, call.inc, call.buf).0);
    }
  }

  lemma StartBelow(c: Coder, far: nat, a: nat)
    requires ByteAddress(a) && far < ADDRESSES
    ensures Start(c, far, a) < ADDRESSES
  {
  }

  /** The words of a call, once the far end is at word address w. */
  lemma {:induction false} AddressedDecodes(c: Coder, m: Mirror, w: nat, call: Call) returns (m': Mirror)
    requires Sync(c, m) && m.addr == w && Words(call.buf)
    ensures Decode(m, WordsCode(c, call.buf, call.inc).0) == Decoded(true, m', Writes(w, call.buf, call.inc))
    ensures Sync(WordsCode(c, call.buf, call.inc).1, m') && m'.addr == Target(w, |call.buf|, call.inc)
  {
    m' := WordsMirror(c, m, call.buf, call.inc);
    WordsSync(c, m, call.buf, call.inc);
    WordsDecode(c, m, call.buf, call.inc);
    WordsAddress(c, m, call.buf, call.inc, |call.buf|);
  }

  lemma {:induction false} CallStream(m: Mirror, address: seq<char>, m0: Mirror, words: seq<char>, m': Mirror,
                                      wrs: seq<Command>, whole: seq<char>)
    requires ValidMirror(m) && Decode(m, address) == Decoded(true, m0, [])
    requires ValidMirror(m0) && Decode(m0, words) == Decoded(true, m', wrs)
    requires whole == address + words + ['\n']
    ensures Decode(m, whole) == Decoded(true, m', wrs)
  {
    DecodeTwo(m, address, m0, [], words, m', wrs);
    assert [] + wrs == wrs == wrs + [];
    NewlineDecodes(m');
    DecodeTwo(m, address + words, m', wrs, ['\n'], m', []);
  }

  /** The driver's last address is the far end's. */
  predicate Located(c: Coder, far: nat) {
    c.known ==> far == c.last / 4
  }

  /** A call with nothing to write records an address it never sent: afterwards the
      driver is right about the far end exactly when the far end was there already. */
  lemma {:induction false} EmptyCallKeepsStepExactly(c: Coder, m: Mirror, a: nat, inc: bool)
    requires Sync(c, m) && ByteAddress(a)
    ensures CallCode(c, a, inc, []).0 == [] && Sync(CallCode(c, a, inc, []).1, m)
    ensures Located(CallCode(c, a, inc, []).1, m.addr) <==> m.addr == a / 4
  {
  }

  // ----- any sequence of calls -----

  datatype Call = Call(a: nat, inc: bool, buf: seq<nat>)

  /** A misaligned call is refused, and one without words says nothing. */
  predicate Sends(call: Call) {
    ByteAddress(call.a) && call.buf != []
  }

  /** The guard of the faulty branch of encode_address, where characters are sent at all. */
  predicate Garbled(c: Coder, call: Call) {
    Sends(call) && Miscoded(c.known, c.last, call.a)
  }

  /** The arguments are unsigned 32-bit words. */
  predicate Typed(calls: seq<Call>) {
    forall i | 0 <= i < |calls| :: calls[i].a < TWO32 && Words(calls[i].buf)
  }

  /** One call: the coder afterwards, the characters sent, and the writes that the far
      end makes of them, starting where the address has taken it. */
  function After(c: Coder, call: Call): (c': Coder)
    requires ValidCoder(c)
    ensures ValidCoder(c')
  {
    if ByteAddress(call.a) then CallCode(c, call.a, call.inc, call.buf).1 else c
  }

  function CharsOf(c: Coder, call: Call): seq<char>
    requires ValidCoder(c)
  {
    if ByteAddress(call.a) then CallCode(c, call.a, call.inc, call.buf).0 else []
  }

  function LandedBy(c: Coder, far: nat, call: Call): seq<Command> {
    if Sends(call) then Writes(Start(c, far, call.a), call.buf, call.inc) else []
  }

  function CoderAfter(c: Coder, calls: seq<Call>): (c': Coder)
    requires ValidCoder(c)
    ensures ValidCoder(c')
    decreases |calls|
  {
    if calls == [] then c
    else
      var n := |calls| - 1;
      After(CoderAfter(c, calls[..n]), calls[n])
  }

  function StreamOf(c: Coder, calls: seq<Call>): seq<char>
    requires ValidCoder(c)
    decreases |calls|
  {
    if calls == [] then []
    else
      var n := |calls| - 1;
      StreamOf(c, calls[..n]) + CharsOf(CoderAfter(c, calls[..n]), calls[n])
  }

  predicate NoneGarbled(c: Coder, calls: seq<Call>)
    requires ValidCoder(c)
    decreases |calls|
  {
    calls == [] ||
    (var n := |calls| - 1; NoneGarbled(c, calls[..n]) && !Garbled(CoderAfter(c, calls[..n]), calls[n]))
  }

  /** Where the far end is after some calls, having been at `far`. */
  function Far(c: Coder, far: nat, calls: seq<Call>): nat
    requires ValidCoder(c)
    decreases |calls|
  {
    if calls == [] then far
    else
      var n := |calls| - 1;
      FarAfter(CoderAfter(c, calls[..n]), Far(c, far, calls[..n]), calls[n])
  }

  /** The writes a sequence of calls asks for. */
  function Asked(calls: seq<Call>): seq<Command>
    decreases |calls|
  {
    if calls == [] then []
    else
      var n := |calls| - 1;
      Asked(calls[..n]) + AskedBy(calls[n])
  }

  /** The writes the far end makes of it. */
  function Landed(c: Coder, far: nat, calls: seq<Call>): seq<Command>
    requires ValidCoder(c)
    decreases |calls|
  {
    if calls == [] then []
    else
      var n := |calls| - 1;
      Landed(c, far, calls[..n]) + LandedBy(CoderAfter(c, calls[..n]), Far(c, far, calls[..n]), calls[n])
  }

  function AskedBy(call: Call): seq<Command> {
    if Sends(call) then Writes(call.a / 4, call.buf, call.inc) else []
  }

  /** The words of the calls that are not refused, one after another. */
  function Sent(calls: seq<Call>): seq<nat>
    decreases |calls|
  {
    if calls == [] then []
    else
      var n := |calls| - 1;
      Sent(calls[..n]) + if Sends(calls[n]) then calls[n].buf else []
  }

  function Values(commands: seq<Command>): (v: seq<nat>)
    ensures |v| == |commands|
  {
    seq(|commands|, i requires 0 <= i < |commands| =>
          if commands[i].BusWrite? then commands[i].value else commands[i].count)
  }

  /** Every call that sends anything starts where it should. */
  predicate AllArrive(c: Coder, far: nat, calls: seq<Call>)
    requires ValidCoder(c)
    decreases |calls|
  {
    calls == [] ||
    (var n := |calls| - 1;
     var before := CoderAfter(c, calls[..n]);
     && AllArrive(c, far, calls[..n])
     && (Sends(calls[n]) ==> Arrives(before.known, before.last, calls[n].a, Far(c, far, calls[..n]))))
  }

  /** Over any sequence of calls, empty and misaligned ones among them, however the
      dictionary has filled and wrapped: the far end makes exactly the writes that
      land where the addresses sent have taken it. */
  lemma {:induction false} SessionDecodes(c: Coder, m: Mirror, calls: seq<Call>) returns (m': Mirror)
    requires Sync(c, m) && Typed(calls) && NoneGarbled(c, calls)
    ensures Decode(m, StreamOf(c, calls)) == Decoded(true, m', Landed(c, m.addr, calls))
    ensures Sync(CoderAfter(c, calls), m') && m'.addr == Far(c, m.addr, calls)
    decreases |calls|
  {
    m' := m;
    if calls != [] {
      var n := |calls| - 1;
      var m1 := SessionDecodes(c, m, calls[..n]);
      m' := LastCall(m, StreamOf(c, calls[..n]), m1, Landed(c, m.addr, calls[..n]),
                     CoderAfter(c, calls[..n]), calls[n]);
    }
  }

  lemma {:induction false} LastCall(m: Mirror, s: seq<char>, m1: Mirror, landed: seq<Command>, c: Coder, call: Call)
    returns (m': Mirror)
    requires ValidMirror(m) && Decode(m, s) == Decoded(true, m1, landed)
    requires Sync(c, m1) && call.a < TWO32 && Words(call.buf) && !Garbled(c, call)
    ensures Decode(m, s + CharsOf(c, call)) == Decoded(true, m', landed + LandedBy(c, m1.addr, call))
    ensures Sync(After(c, call), m') && m'.addr == FarAfter(c, m1.addr, call)
  {
    m' := m1;
    if ByteAddress(call.a) {
      m' := CallDecodes(c, m1, call);
    }
    DecodeTwo(m, s, m1, landed, CharsOf(c, call), m', LandedBy(c, m1.addr, call));
  }

  /** The words written are the words sent, whatever the addresses. */
  lemma {:induction false} WordsSurvive(c: Coder, far: nat, calls: seq<Call>)
    requires ValidCoder(c)
    ensures Values(Landed(c, far, calls)) == Sent(calls) && AllWrites(Landed(c, far, calls))
    decreases |calls|
  {
    if calls != [] {
      var n := |calls| - 1;
      WordsSurvive(c, far, calls[..n]);
      var last, w := calls[n], Start(CoderAfter(c, calls[..n]), Far(c, far, calls[..n]), calls[n].a);
      WritesValues(w, last.buf, last.inc);
      ValuesAppend(Landed(c, far, calls[..n]), LandedBy(CoderAfter(c, calls[..n]), Far(c, far, calls[..n]), last));
    }
  }

  predicate AllWrites(commands: seq<Command>) {
    forall i | 0 <= i < |commands| :: commands[i].BusWrite?
  }

  lemma {:induction false} WritesValues(w: nat, buf: seq<nat>, inc: bool)
    ensures Values(Writes(w, buf, inc)) == buf && AllWrites(Writes(w, buf, inc))
    decreases |buf|
  {
    if buf != [] {
      var n := |buf| - 1;
      var init, last := Writes(w, buf[..n], inc), BusWrite(Target(w, n, inc), buf[n]);
      WritesValues(w, buf[..n], inc);
      WritesLast(w, buf, inc);
      ValuesAppend(init, [last]);
      assert Values([last]) == [buf[n]];
      assert buf == buf[..n] + [buf[n]];
    }
  }

  lemma ValuesAppend(xs: seq<Command>, ys: seq<Command>)
    ensures Values(xs + ys) == Values(xs) + Values(ys)
  {
  }

  /** What lands is what was asked for exactly when every call that sends anything
      starts where it should. */
  lemma {:induction false} LandedAsAskedExactly(c: Coder, far: nat, calls: seq<Call>)
    requires ValidCoder(c) && far < ADDRESSES
    ensures |Landed(c, far, calls)| == |Asked(calls)| && Far(c, far, calls) < ADDRESSES
    ensures Landed(c, far, calls) == Asked(calls) <==> AllArrive(c, far, calls)
    decreases |calls|
  {
    if calls != [] {
      var n := |calls| - 1;
      LandedAsAskedExactly(c, far, calls[..n]);
      LastLandsExactly(Landed(c, far, calls[..n]), Asked(calls[..n]),
                       CoderAfter(c, calls[..n]), Far(c, far, calls[..n]), calls[n]);
    }
  }

  lemma {:induction false} LastLandsExactly(landed: seq<Command>, asked: seq<Command>, c: Coder, far: nat, call: Call)
    requires ValidCoder(c) && far < ADDRESSES && |landed| == |asked|
    ensures |landed + LandedBy(c, far, call)| == |asked + AskedBy(call)| && FarAfter(c, far, call) < ADDRESSES
    ensures landed + LandedBy(c, far, call) == asked + AskedBy(call) <==>
            landed == asked && (Sends(call) ==> Arrives(c.known, c.last, call.a, far))
  {
    if Sends(call) {
      var w := Start(c, far, call.a);
      StartBelow(c, far, call.a);
      ArrivesExactly(c.known, c.last, call.a, far);
      WritesFrom(w, call.a / 4, call.buf, call.inc);
    }
    SameTails(landed, LandedBy(c, far, call), asked, AskedBy(call));
  }

  /** Writes from different places are different writes. */
  lemma {:induction false} WritesFrom(w: nat, w': nat, buf: seq<nat>, inc: bool)
    requires w < ADDRESSES && w' < ADDRESSES && buf != []
    ensures Writes(w, buf, inc) == Writes(w', buf, inc) <==> w == w'
    decreases |buf|
  {
    var n := |buf| - 1;
    if n > 0 {
      WritesFrom(w, w', buf[..n], inc);
      SameTails(Writes(w, buf[..n], inc), [BusWrite(Target(w, n, inc), buf[n])],
                Writes(w', buf[..n], inc), [BusWrite(Target(w', n, inc), buf[n])]);
    } else {
      assert Writes(w, buf, inc)[0] == BusWrite(w, buf[0]) && Writes(w', buf, inc)[0] == BusWrite(w', buf[0]);
    }
  }

  lemma {:induction false} SameTails<T>(xs: seq<T>, ys: seq<T>, xs': seq<T>, ys': seq<T>)
    requires |xs| == |xs'|
    ensures xs + ys == xs' + ys' <==> xs == xs' && ys == ys'
  {
    if xs + ys == xs' + ys' {
      assert xs == (xs + ys)[..|xs|] && ys == (xs + ys)[|xs|..];
      assert xs' == (xs' + ys')[..|xs'|] && ys' == (xs' + ys')[|xs'|..];
    }
  }

  /** So a session recovers every word, address and increment exactly when every
      address arrives. */
  lemma {:induction false} SessionExactly(c: Coder, m: Mirror, calls: seq<Call>)
    requires Sync(c, m) && Typed(calls) && NoneGarbled(c, calls)
    ensures var d := Decode(m, StreamOf(c, calls));
            && d.ok && AllWrites(d.commands) && Values(d.commands) == Sent(calls)
            && (d.commands == Asked(calls) <==> AllArrive(c, m.addr, calls))
  {
    var m' := SessionDecodes(c, m, calls);
    WordsSurvive(c, m.addr, calls);
    LandedAsAskedExactly(c, m.addr, calls);
  }

  /** A caller who never makes an empty call, except where the driver already is,
      is sure of that. */
  predicate Careful(c: Coder, calls: seq<Call>)
    requires ValidCoder(c)
    decreases |calls|
  {
    calls == [] ||
    (var n := |calls| - 1;
     var before := CoderAfter(c, calls[..n]);
     && Careful(c, calls[..n])
     && (ByteAddress(calls[n].a) && calls[n].buf == [] ==> before.known && calls[n].a == before.last))
  }

  lemma {:induction false} CarefulArrives(c: Coder, far: nat, calls: seq<Call>)
    requires ValidCoder(c) && far < ADDRESSES && Located(c, far) && Careful(c, calls)
    ensures AllArrive(c, far, calls) && Far(c, far, calls) < ADDRESSES
    ensures Located(CoderAfter(c, calls), Far(c, far, calls))
    decreases |calls|
  {
    if calls != [] {
      var n := |calls| - 1;
      CarefulArrives(c, far, calls[..n]);
      var before, far1, last := CoderAfter(c, calls[..n]), Far(c, far, calls[..n]), calls[n];
      if Sends(last) {
        StartBelow(before, far1, last.a);
        ArrivesExactly(before.known, before.last, last.a, far1);
        WordsLast(Addressed(before, last.a), last.buf, last.inc, |last.buf|);
      }
    }
  }

  /** The driver's last address moves with the words. */
  lemma {:induction false} WordsLast(c: Coder, buf: seq<nat>, inc: bool, n: nat)
    requires ValidCoder(c) && n == |buf|
    ensures WordsCode(c, buf, inc).1.last / 4 == Target(c.last / 4, n, inc)
  {
    if n > 0 {
      var before := WordsCode(c, buf[..n - 1], inc).1;
      WordsLast(c, buf[..n - 1], inc, n - 1);
      WordLast(before, buf[n - 1], inc);
      TargetNext(c.last / 4, n - 1, inc);
    }
  }

  lemma {:induction false} WordLast(c: Coder, val: nat, inc: bool)
    requires ValidCoder(c)
    ensures WordCode(c, val, inc).1.last / 4 == if inc then WrapAddress(c.last / 4 + 1) else c.last / 4
  {
    var last := c.last;
    AdvanceAddress(last);
    assert WordCode(c, val, inc).1.last == if inc then U32(last + 4) else last;
  }

  lemma {:induction false} AdvanceAddress(last: nat)
    requires ByteAddress(last)
    ensures ByteAddress(U32(last + 4)) && U32(last + 4) / 4 == WrapAddress(last / 4 + 1)
  {
    assert last == last / 4 * 4;
  }

  /** An empty call and then a write to the same address: the write goes to
      wherever the far end happened to be. */
  lemma {:induction false} StrayWrite(c: Coder, m: Mirror, word: nat)
    requires Sync(c, m) && !c.known && m.addr == 0 && word < TWO32
    ensures var calls := [Call(64, false, []), Call(64, false, [word])];
            && Decode(m, StreamOf(c, calls)).commands == [BusWrite(0, word)]
            && Asked(calls) == [BusWrite(16, word)]
  {
    var first, second := Call(64, false, []), Call(64, false, [word]);
    TwoCalls(c, 0, first, second);
    OneWrite(0, word);
    OneWrite(16, word);
    var m' := SessionDecodes(c, m, [first, second]);
  }

  lemma {:induction false} TwoCalls(c: Coder, far: nat, first: Call, second: Call)
    requires ValidCoder(c)
    ensures var calls, c1 := [first, second], After(c, first);
            && (NoneGarbled(c, calls) <==> !Garbled(c, first) && !Garbled(c1, second))
            && Landed(c, far, calls) == LandedBy(c, far, first) + LandedBy(c1, FarAfter(c, far, first), second)
            && Asked(calls) == AskedBy(first) + AskedBy(second)
  {
    var calls := [first, second];
    assert calls[..1] == [first] && [first][..0] == [];
    assert CoderAfter(c, []) == c && Far(c, far, []) == far && Landed(c, far, []) == [] && Asked([]) == [];
    assert CoderAfter(c, [first]) == After(c, first) && Far(c, far, [first]) == FarAfter(c, far, first);
    assert Landed(c, far, [first]) == LandedBy(c, far, first);
    assert Asked([first]) == AskedBy(first);
    assert NoneGarbled(c, [first]) <==> !Garbled(c, first);
  }

  lemma {:induction false} OneWrite(w: nat, word: nat)
    ensures Writes(w, [word], false) == [BusWrite(w, word)]
  {
    assert [word][..0] == [];
  }

  /** At start-up nothing is filled and no address is known: any far end whose write
      pointer is at the start is in step, wherever its address is. */
  lemma {:induction false} StartInSync(c: Coder, m: Mirror)
    requires ValidCoder(c) && !c.known && !c.loaded && c.wraddr == 0
    requires ValidMirror(m) && m.wraddr == 0
    ensures Sync(c, m) && Located(c, m.addr)
  {
  }
}
