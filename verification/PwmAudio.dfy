/** rtl/wbpwmaudio.v, of fixed or variable rate: one-bit audio by comparing each
    sample with a bit-reversed free-running counter.  The bit reversal spreads
    the high clocks evenly instead of bunching them. */
module PwmAudio {
  import opened Bits

  /** Bits in the counter. */
  const WIDTH: nat := 16

  datatype PwmState = PwmState(
    timer: nat,
    ztimer: bool,
    sample: nat,       // sample_out, binary offset
    next: nat,         // next_sample
    valid: bool,       // next_valid
    counter: nat,      // pwm_counter
    pwm: bool,         // o_pwm
    interrupt: bool,   // o_int
    reload: nat,       // r_reload_value; in the fixed-rate build it never changes
    aux: nat           // o_aux
  )

  datatype BusWrite = NoWrite | Write(addr: bool, word: nat)

  /** The parameters: VARIABLE_RATE, and where a timer of TIMING_BITS bits and the NAUX
      auxiliary outputs wrap. */
  datatype Build = Build(variable: bool, timerSpan: nat, auxSpan: nat)

  predicate ValidBuild(b: Build) {
    b.timerSpan >= 2 && b.auxSpan >= 2
  }

  predicate Sized(b: Build, s: PwmState) {
    && ValidBuild(b)
    && s.timer < b.timerSpan && s.sample < TWO16 && s.next < TWO16 && s.counter < TWO16
    && s.reload < b.timerSpan && s.aux < b.auxSpan
  }

  /** The registers the source initialises; sample_out, o_pwm and ztimer's
      companions start anywhere. */
  predicate PowerUp(b: Build, reload: nat, s: PwmState) {
    && Sized(b, s) && s.timer == reload == s.reload && !s.ztimer
    && s.next == 0x8000 && s.valid && s.counter == 0 && !s.interrupt
  }

  function Word16(x: int): (r: nat)
    ensures r < TWO16
  {
    x % 0x1_0000
  }

  /** Two's complement to binary offset: { ~data[15], data[14:0] }. */
  function Offset(word: nat): (r: nat)
    ensures r < TWO16
  {
    Word16(word + 0x8000)
  }

  /** With VARIABLE_RATE a write to the upper address sets the rate; every other write
      is a sample. */
  predicate SetsRate(b: Build, w: BusWrite) {
    w.Write? && b.variable && w.addr
  }

  predicate IsSample(b: Build, w: BusWrite) {
    w.Write? && !(b.variable && w.addr)
  }

  /** The low bits of a word, as many as fit: what is left after taking off whole spans. */
  function Low(word: nat, span: nat): (r: nat)
    requires span > 0
    ensures r < span
    decreases word
  {
    if word < span then word else Low(word - span, span)
  }

  lemma {:induction false} LowIsRemainder(word: nat, span: nat)
    requires span > 0
    ensures Low(word, span) == word % span
    decreases word
  {
    if word < span {
      DivModUnique(word, span, 0, word);
    } else {
      LowIsRemainder(word - span, span);
      DivModFacts(word - span, span);
      var q := (word - span) / span;
      MulDistributes(q, 1, span);
      DivModUnique(word, span, q + 1, (word - span) % span);
    }
  }

  function Before(timer: nat, span: nat): (r: nat)
    requires timer < span
    ensures r < span
  {
    if timer == 0 then span - 1 else timer - 1
  }

  /** Bits 20 and up of a sample whose bit 16 is set. */
  function AuxNext(aux: nat, word: nat, span: nat): (r: nat)
    requires span > 0
    ensures aux < span ==> r < span
  {
    if word / 0x1_0000 % 2 == 1 then Low(word / 0x10_0000, span) else aux
  }

  /** The register values after one clock edge. */
  function PwmNext(b: Build, s: PwmState, w: BusWrite): (s': PwmState)
    requires Sized(b, s)
    ensures Sized(b, s')
  {
    PwmState(
      timer := if s.ztimer then s.reload else Before(s.timer, b.timerSpan),
      ztimer := s.timer == 1,
      sample := if s.ztimer then s.next else s.sample,
      next := if IsSample(b, w) then Offset(w.word) else s.next,
      valid := if IsSample(b, w) then true else if s.ztimer then false else s.valid,
      counter := Word16(s.counter + 1),
      pwm := s.sample >= Rev(WIDTH, s.counter),
      interrupt := !s.valid,
      reload := if SetsRate(b, w) then Low(w.word, b.timerSpan) else s.reload,
      aux := if IsSample(b, w) then AuxNext(s.aux, w.word, b.auxSpan) else s.aux)
  }

  class Pwm {
    const b: Build
    var timer: nat
    var ztimer: bool
    var sample: nat
    var next: nat
    var valid: bool
    var counter: nat
    var pwm: bool
    var interrupt: bool
    var reload: nat
    var aux: nat

    ghost function View(): PwmState
      reads this
    {
      PwmState(timer, ztimer, sample, next, valid, counter, pwm, interrupt, reload, aux)
    }

    constructor (b: Build, reload: nat, sample: nat, pwm: bool, aux: nat)
      requires ValidBuild(b) && reload < b.timerSpan && sample < TWO16 && aux < b.auxSpan
      ensures this.b == b && PowerUp(b, reload, View())
    {
      this.b, this.reload, this.sample, this.pwm, this.aux := b, reload, sample, pwm, aux;
      timer, ztimer, next, valid, counter, interrupt := reload, false, 0x8000, true, 0, false;
    }

    /** One rising clock edge: the comparison sees the sample and counter as they were. */
    method Tick(w: BusWrite)
      requires Sized(b, View())
      modifies this
      ensures View() == PwmNext(b, old(View()), w)
    {
      Modulate();
      Playback(w);
      Configure(w);
    }

    /** pwm_counter and o_pwm. */
    method Modulate()
      requires counter < TWO16
      modifies `counter, `pwm
      ensures counter == Word16(old(counter) + 1) && pwm == (sample >= Rev(WIDTH, old(counter)))
    {
      var reversed := BitReversal(counter);
      counter, pwm := Word16(counter + 1), sample >= reversed;
    }

    /** The sample timer, the sample registers and the interrupt. */
    method Playback(w: BusWrite)
      requires timer < b.timerSpan
      modifies `timer, `ztimer, `sample, `next, `valid, `interrupt
      ensures timer == (if old(ztimer) then reload else Before(old(timer), b.timerSpan)) && ztimer == (old(timer) == 1)
      ensures sample == if old(ztimer) then old(next) else old(sample)
      ensures next == if IsSample(b, w) then Offset(w.word) else old(next)
      ensures valid == if IsSample(b, w) then true else if old(ztimer) then false else old(valid)
      ensures interrupt == !old(valid)
    {
      interrupt := !valid;
      var expired := ztimer;
      ztimer := timer == 1;
      timer := if expired then reload else Before(timer, b.timerSpan);
      if expired {
        sample := next;
      }
      if IsSample(b, w) {
        next, valid := Offset(w.word), true;
      } else if expired {
        valid := false;
      }
    }

    /** The rate and the auxiliary outputs. */
    method Configure(w: BusWrite)
      requires ValidBuild(b)
      modifies `reload, `aux
      ensures reload == if SetsRate(b, w) then Low(w.word, b.timerSpan) else old(reload)
      ensures aux == if IsSample(b, w) then AuxNext(old(aux), w.word, b.auxSpan) else old(aux)
    {
      if SetsRate(b, w) {
        reload := Low(w.word, b.timerSpan);
      }
      if IsSample(b, w) && w.word / 0x1_0000 % 2 == 1 {
        aux := Low(w.word / 0x10_0000, b.auxSpan);
      }
    }

    /** br_counter[k] = pwm_counter[15 - k], one wire at a time. */
    method BitReversal(counter: nat) returns (r: nat)
      requires counter < TWO16
      ensures r == Rev(WIDTH, counter)
    {
      r := 0;
      var rest: nat := counter;
      for k := 0 to WIDTH
        invariant Wired(WIDTH, counter, k, r, rest)
      {
        var wire := Wire(rest % 2, Pow2(WIDTH - 1 - k));
        WireOne(WIDTH, counter, k, r, rest, wire);
        r, rest := r + wire, rest / 2;
      }
      AllWired(WIDTH, counter, r, rest);
    }
  }

  function Wire(bit: nat, place: nat): nat { bit * place }

  /** k wires laid: what is missing is the reversal of the rest. */
  ghost predicate Wired(n: nat, c: nat, k: nat, r: nat, rest: nat) {
    k <= n && r + Rev(n - k, rest) == Rev(n, c)
  }

  lemma {:induction false} WireOne(n: nat, c: nat, k: nat, r: nat, rest: nat, wire: nat)
    requires k < n && Wired(n, c, k, r, rest) && wire == Wire(rest % 2, Pow2(n - 1 - k))
    ensures Wired(n, c, k + 1, r + wire, rest / 2)
  {
    assert Rev(n - k, rest) == wire + Rev(n - 1 - k, rest / 2);
  }

  lemma AllWired(n: nat, c: nat, r: nat, rest: nat)
    requires Wired(n, c, n, r, rest)
    ensures r == Rev(n, c)
  {
  }

  // ----- counting high clocks -----

  /** Whether a w-bit counter at c puts the output high. */
  predicate High(w: nat, c: nat, v: nat) {
    Rev(w, c) <= v
  }

  /** How many of the n counter values from c on put the output high. */
  function Highs(w: nat, c: nat, n: nat, v: nat): nat {
    if n == 0 then 0 else Highs(w, c, n - 1, v) + if High(w, c + n - 1, v) then 1 else 0
  }

  lemma {:induction false} HighsSplit(w: nat, c: nat, m: nat, n: nat, v: nat)
    ensures Highs(w, c, m + n, v) == Highs(w, c, m, v) + Highs(w, c + m, n, v)
  {
    if n > 0 {
      HighsSplit(w, c, m, n - 1, v);
    }
  }

  /** How many of b, b + m, b + 2m, ... are at most v. */
  function Steps(b: nat, m: nat, v: nat): nat
    requires m > 0
  {
    if v < b then 0 else (v - b) / m + 1
  }

  /** Every other step, and the ones between. */
  lemma {:induction false} StepsHalve(b: nat, m: nat, v: nat)
    requires m > 0
    ensures Steps(b, m, v) == Steps(b, 2 * m, v) + Steps(b + m, 2 * m, v)
  {
    if v >= b {
      var d := v - b;
      HalfQuotient(d, m);
      if v >= b + m {
        DivModFacts(d, m);
        DivModUnique(d - m, m, d / m - 1, d % m);
        HalfQuotient(d - m, m);
      } else {
        DivModUnique(d, m, 0, d);
      }
    }
  }

  lemma {:induction false} HalfQuotient(d: nat, m: nat)
    requires m > 0
    ensures d / (2 * m) == d / m / 2
  {
    DivModFacts(d, m);
    var q, r := d / m, d % m;
    TwiceHalf(q, m);
    DivModUnique(d, 2 * m, q / 2, q % 2 * m + r);
  }

  lemma {:induction false} TwiceHalf(q: nat, m: nat)
    ensures q * m == q / 2 * (2 * m) + q % 2 * m
    ensures q % 2 * m <= m
  {
    var h, bit := q / 2, q % 2;
    assert q == 2 * h + bit;
    assert (2 * h + bit) * m == h * (2 * m) + bit * m;
  }

  /** Over the 2^k counter values that share their high part, bit reversal visits
      the values congruent to the reversed high part, each exactly once. */
  lemma {:induction false} AlignedWindow(w: nat, n: nat, k: nat, base: nat, v: nat)
    requires w == n + k && base < Pow2(n) && v < Pow2(w)
    ensures Highs(w, Start(base, k), Pow2(k), v) == Steps(Rev(n, base), Pow2(n), v)
    decreases k
  {
    if k == 0 {
      SingleClock(w, base, v);
    } else {
      var start, half := Start(2 * base, k - 1), Pow2(k - 1);
      OneBitMore(base, n);
      AlignedWindow(w, n + 1, k - 1, 2 * base, v);
      AlignedWindow(w, n + 1, k - 1, 2 * base + 1, v);
      StartNext(2 * base, k - 1);
      JoinReversed(w, n, base, start, half, v);
      TwoHalves(base, k, start, half);
    }
  }

  lemma TwoHalves(base: nat, k: nat, start: nat, half: nat)
    requires k > 0 && start == Start(2 * base, k - 1) && half == Pow2(k - 1)
    ensures Start(base, k) == start && Pow2(k) == 2 * half
  {
  }

  lemma OneBitMore(base: nat, n: nat)
    requires base < Pow2(n)
    ensures 2 * base + 1 < Pow2(n + 1)
  {
  }

  /** base * 2^k, by doubling. */
  function Start(base: nat, k: nat): nat
    decreases k
  {
    if k == 0 then base else Start(2 * base, k - 1)
  }

  lemma {:induction false} StartNext(base: nat, k: nat)
    ensures Start(base + 1, k) == Start(base, k) + Pow2(k)
    decreases k
  {
    if k > 0 {
      StartNext(2 * base, k - 1);
      StartNext(2 * base + 1, k - 1);
    }
  }

  lemma {:induction false} StartIsProduct(base: nat, k: nat)
    ensures Start(base, k) == base * Pow2(k)
    decreases k
  {
    if k > 0 {
      StartIsProduct(2 * base, k - 1);
      assert 2 * base * Pow2(k - 1) == base * (2 * Pow2(k - 1));
    }
  }

  lemma {:induction false} JoinReversed(w: nat, n: nat, base: nat, start: nat, half: nat, v: nat)
    requires Highs(w, start, half, v) == Steps(Rev(n + 1, 2 * base), Pow2(n + 1), v)
    requires Highs(w, start + half, half, v) == Steps(Rev(n + 1, 2 * base + 1), Pow2(n + 1), v)
    ensures Highs(w, start, 2 * half, v) == Steps(Rev(n, base), Pow2(n), v)
  {
    EvenOddReversal(n, base);
    JoinWindows(w, start, half, Pow2(n), Rev(n, base), v);
  }

  /** Two adjacent windows of `half` clocks make one of twice that. */
  lemma {:induction false} JoinWindows(w: nat, start: nat, half: nat, m: nat, b: nat, v: nat)
    requires m > 0
    requires Highs(w, start, half, v) == Steps(b, 2 * m, v)
    requires Highs(w, start + half, half, v) == Steps(b + m, 2 * m, v)
    ensures Highs(w, start, 2 * half, v) == Steps(b, m, v)
  {
    HighsSplit(w, start, half, half, v);
    StepsHalve(b, m, v);
  }

  lemma {:induction false} SingleClock(w: nat, c: nat, v: nat)
    requires c < Pow2(w) && v < Pow2(w)
    ensures Highs(w, c, 1, v) == Steps(Rev(w, c), Pow2(w), v)
  {
    assert Highs(w, c, 1, v) == Highs(w, c, 0, v) + if High(w, c, v) then 1 else 0;
    if v >= Rev(w, c) {
      DivModUnique(v - Rev(w, c), Pow2(w), 0, v - Rev(w, c));
    }
  }

  lemma {:induction false} EvenOddReversal(n: nat, b: nat)
    ensures Rev(n + 1, 2 * b) == Rev(n, b)
    ensures Rev(n + 1, 2 * b + 1) == Pow2(n) + Rev(n, b)
  {
    assert (2 * b) / 2 == b && (2 * b + 1) / 2 == b;
  }

  /** Starting the full cycle anywhere changes nothing. */
  lemma {:induction false} FullCycleShifts(w: nat, c: nat, v: nat)
    ensures Highs(w, c, Pow2(w), v) == Highs(w, 0, Pow2(w), v)
  {
    if c > 0 {
      FullCycleShifts(w, c - 1, v);
      var n := Pow2(w) - 1;
      HighsSplit(w, c - 1, 1, n, v);
      assert Highs(w, c - 1, 1, v) == Highs(w, c - 1, 0, v) + if High(w, c - 1, v) then 1 else 0;
      assert Highs(w, c, n + 1, v) == Highs(w, c, n, v) + if High(w, c + n, v) then 1 else 0;
      OncePerCycle(w, c - 1);
    }
  }

  lemma {:induction false} OncePerCycle(w: nat, c: nat)
    ensures Rev(w, c + Pow2(w)) == Rev(w, c)
  {
    var m := Pow2(w);
    DivModFacts(c, m);
    MulDistributes(c / m, 1, m);
    DivModUnique(c + m, m, c / m + 1, c % m);
    RevLow(w, c);
    RevLow(w, c + m);
  }

  /** A whole cycle from anywhere has exactly v + 1 high clocks. */
  lemma {:induction false} FullCycle(w: nat, c: nat, v: nat)
    requires v < Pow2(w)
    ensures Highs(w, c, Pow2(w), v) == v + 1
  {
    AlignedWindow(w, 0, w, 0, v);
    StartIsProduct(0, w);
    FullCycleShifts(w, c, v);
    DivModUnique(v, 1, v, 0);
  }

  /** An aligned window of 2^k clocks carries its share to within one clock. */
  lemma {:induction false} WindowShare(w: nat, k: nat, base: nat, v: nat)
    requires k <= w && base < Pow2(w - k) && v < Pow2(w)
    ensures var m, n := Pow2(w - k), Highs(w, base * Pow2(k), Pow2(k), v);
            -(m as int) < n * m - (v + 1) < m
  {
    AlignedWindow(w, w - k, k, base, v);
    StartIsProduct(base, k);
    StepsShare(Rev(w - k, base), Pow2(w - k), v);
  }

  lemma {:induction false} StepsShare(b: nat, m: nat, v: nat)
    requires b < m
    ensures -(m as int) < Steps(b, m, v) * m - (v + 1) < m
  {
    if v >= b {
      DivModFacts(v - b, m);
      var q := (v - b) / m;
      assert (q + 1) * m == q * m + m;
    }
  }

  // ----- runs -----

  /** The state t clocks into a run. */
  function StateAt(b: Build, s: PwmState, ws: seq<BusWrite>, t: nat): (s': PwmState)
    requires Sized(b, s) && t <= |ws|
    ensures Sized(b, s')
  {
    if t == 0 then s else PwmNext(b, StateAt(b, s, ws, t - 1), ws[t - 1])
  }

  /** How many of the first t clocks of a run leave o_pwm high. */
  function HighClocks(b: Build, s: PwmState, ws: seq<BusWrite>, t: nat): nat
    requires Sized(b, s) && t <= |ws|
  {
    if t == 0 then 0 else HighClocks(b, s, ws, t - 1) + if StateAt(b, s, ws, t).pwm then 1 else 0
  }

  /** The sample register shows v before every clock of the run. */
  predicate Held(b: Build, s: PwmState, ws: seq<BusWrite>, v: nat)
    requires Sized(b, s)
  {
    forall t | 0 <= t < |ws| :: StateAt(b, s, ws, t).sample == v
  }

  lemma {:induction false} CounterHigh(c: nat, v: nat)
    ensures High(WIDTH, c, v) == (v >= Rev(WIDTH, Word16(c)))
  {
    Pow2Values();
    RevLow(WIDTH, c);
  }

  lemma ClockNext(b: Build, s: PwmState, w: BusWrite, r: nat)
    requires Sized(b, s) && r == Rev(WIDTH, s.counter)
    ensures PwmNext(b, s, w).pwm == (s.sample >= r) && PwmNext(b, s, w).counter == Word16(s.counter + 1)
  {
  }

  /** One clock of a held run, n clocks in. */
  lemma {:induction false} ClockHigh(b: Build, s: PwmState, w: BusWrite, c: nat, n: nat, v: nat)
    requires Sized(b, s) && s.sample == v && s.counter == Word16(c + n)
    ensures PwmNext(b, s, w).pwm == High(WIDTH, c + n, v)
    ensures PwmNext(b, s, w).counter == Word16(c + (n + 1))
  {
    ClockNext(b, s, w, Rev(WIDTH, s.counter));
    CounterStep(c, n);
    CounterHigh(c + n, v);
  }

  lemma CounterStep(c: nat, n: nat)
    ensures Word16(Word16(c + n) + 1) == Word16(c + (n + 1))
  {
  }

  lemma OneMore(w: nat, c: nat, n: nat, v: nat)
    ensures Highs(w, c, n + 1, v) == Highs(w, c, n, v) + if High(w, c + n, v) then 1 else 0
  {
  }

  lemma {:induction false} RunHighs(b: Build, s: PwmState, ws: seq<BusWrite>, t: nat, v: nat)
    requires Sized(b, s) && Held(b, s, ws, v) && t <= |ws|
    ensures HighClocks(b, s, ws, t) == Highs(WIDTH, s.counter, t, v)
    ensures StateAt(b, s, ws, t).counter == Word16(s.counter + t)
  {
    if t > 0 {
      RunHighs(b, s, ws, t - 1, v);
      ClockHigh(b, StateAt(b, s, ws, t - 1), ws[t - 1], s.counter, t - 1, v);
      OneMore(WIDTH, s.counter, t - 1, v);
    }
  }

  /** While a sample is held, every 2^16 clocks have exactly v + 1 high. */
  lemma {:induction false} DutyCycle(b: Build, s: PwmState, ws: seq<BusWrite>, v: nat)
    requires Sized(b, s) && v < TWO16 && |ws| == 0x1_0000 && Held(b, s, ws, v)
    ensures HighClocks(b, s, ws, |ws|) == v + 1
  {
    RunHighs(b, s, ws, |ws|, v);
    Pow2Values();
    FullCycle(WIDTH, s.counter, v);
  }

  /** And every aligned 2^k of them have the same share to within one clock. */
  lemma {:induction false} ShortTermDuty(b: Build, s: PwmState, ws: seq<BusWrite>, v: nat, k: nat, base: nat)
    requires Sized(b, s) && v < TWO16 && Held(b, s, ws, v)
    requires k <= WIDTH && base < Pow2(WIDTH - k) && |ws| == Pow2(k) && s.counter == base * Pow2(k)
    ensures var m, n := Pow2(WIDTH - k), HighClocks(b, s, ws, |ws|);
            -(m as int) < n * m - (v + 1) < m
  {
    RunHighs(b, s, ws, |ws|, v);
    Pow2Values();
    WindowShare(WIDTH, k, base, v);
  }

  // ----- from a bus write to the output -----

  /** The write carries the two's complement number x in its low 16 bits. */
  predicate Carries(b: Build, w: BusWrite, x: int) {
    && w.Write? && !(b.variable && w.addr)
    && -0x8000 <= x < 0x8000 && w.word % 0x1_0000 == if x >= 0 then x else x + 0x1_0000
  }

  /** A sample is turned from two's complement into an offset from the lowest one. */
  lemma {:induction false} SampleWritten(b: Build, s: PwmState, w: BusWrite, x: int)
    requires Sized(b, s) && Carries(b, w, x)
    ensures PwmNext(b, s, w).next == x + 0x8000 && PwmNext(b, s, w).valid
  {
    OffsetFrom(w.word, x);
    SampleTaken(b, s, w);
  }

  lemma OffsetFrom(word: nat, x: int)
    requires -0x8000 <= x < 0x8000 && word % 0x1_0000 == if x >= 0 then x else x + 0x1_0000
    ensures Offset(word) == x + 0x8000
  {
  }

  lemma SampleTaken(b: Build, s: PwmState, w: BusWrite)
    requires Sized(b, s) && w.Write? && !(b.variable && w.addr)
    ensures PwmNext(b, s, w).next == Offset(w.word) && PwmNext(b, s, w).valid
    ensures PwmNext(b, s, w).aux == AuxNext(s.aux, w.word, b.auxSpan)
  {
  }

  /** Bit 16 of it says whether bits 20 and up go to the auxiliary outputs. */
  lemma {:induction false} AuxWritten(b: Build, s: PwmState, w: BusWrite, aux: nat, spare: nat, flag: nat, low: nat)
    requires Sized(b, s) && w.Write? && !(b.variable && w.addr) && spare < 8 && flag < 2 && low < 0x1_0000
    requires w.word == aux * 0x10_0000 + spare * 0x2_0000 + flag * 0x1_0000 + low
    ensures PwmNext(b, s, w).aux == if flag == 1 then aux % b.auxSpan else s.aux
  {
    AuxBits(w.word, aux, spare, flag, low);
    LowIsRemainder(aux, b.auxSpan);
    SampleTaken(b, s, w);
  }

  lemma {:induction false} AuxBits(word: nat, aux: nat, spare: nat, flag: nat, low: nat)
    requires spare < 8 && flag < 2 && low < 0x1_0000
    requires word == aux * 0x10_0000 + spare * 0x2_0000 + flag * 0x1_0000 + low
    ensures word / 0x1_0000 % 2 == flag && word / 0x10_0000 == aux
  {
    var tops := aux * 8 + spare;
    DivModUnique(word, 0x1_0000, tops * 2 + flag, low);
    DivModUnique(tops * 2 + flag, 2, tops, flag);
    DivModUnique(word, 0x10_0000, aux, spare * 0x2_0000 + flag * 0x1_0000 + low);
  }

  /** In the variable-rate build a write to the upper address sets the rate and nothing
      else; in the other the rate never changes. */
  lemma {:induction false} RateWritten(b: Build, s: PwmState, w: BusWrite)
    requires Sized(b, s)
    ensures var s' := PwmNext(b, s, w);
            if b.variable && w.Write? && w.addr then
              s'.reload == w.word % b.timerSpan && s'.next == s.next && s'.aux == s.aux
            else s'.reload == s.reload
  {
    if w.Write? {
      LowIsRemainder(w.word, b.timerSpan);
    }
  }

  /** No sample is written from clock t up to clock u. */
  predicate NoSample(b: Build, ws: seq<BusWrite>, t: nat, u: nat)
    requires u <= |ws|
  {
    forall k | t <= k < u :: ws[k].Write? ==> b.variable && ws[k].addr
  }

  /** The waiting sample waits until another is written. */
  lemma {:induction false} NextKept(b: Build, s: PwmState, ws: seq<BusWrite>, t: nat, u: nat)
    requires Sized(b, s) && t <= u <= |ws| && NoSample(b, ws, t, u)
    ensures StateAt(b, s, ws, u).next == StateAt(b, s, ws, t).next
  {
    if t < u {
      NextKept(b, s, ws, t, u - 1);
    }
  }

  /** Once loaded it plays on. */
  lemma {:induction false} SamplePlays(b: Build, s: PwmState, ws: seq<BusWrite>, t: nat, u: nat)
    requires Sized(b, s) && t < u <= |ws| && NoSample(b, ws, t, u) && StateAt(b, s, ws, t).ztimer
    ensures StateAt(b, s, ws, u).sample == StateAt(b, s, ws, t).next
    decreases u
  {
    NextKept(b, s, ws, t, u - 1);
    if t + 1 < u {
      SamplePlays(b, s, ws, t, u - 1);
    }
  }

  /** The run from clock t on is a run of its own. */
  lemma {:induction false} LaterRun(b: Build, s: PwmState, ws: seq<BusWrite>, t: nat, k: nat)
    requires Sized(b, s) && t + k <= |ws|
    ensures StateAt(b, StateAt(b, s, ws, t), ws[t..], k) == StateAt(b, s, ws, t + k)
  {
    if k > 0 {
      LaterRun(b, s, ws, t, k - 1);
    }
  }

  /** Written, loaded when the timer next runs out, and not replaced, the number x keeps
      the output high on exactly x + 0x8001 of the 2^16 clocks after any clock from then on. */
  lemma {:induction false} WrittenSampleSounds(b: Build, s: PwmState, ws: seq<BusWrite>, later: seq<BusWrite>, x: int,
                                               t0: nat, t1: nat, t: nat)
    requires Sized(b, s) && t0 < t1 < t <= t + |later| <= |ws| && later == ws[t..t + |later|] && |later| == 0x1_0000
    requires Carries(b, ws[t0], x) && NoSample(b, ws, t0 + 1, t + |later|) && StateAt(b, s, ws, t1).ztimer
    ensures HighClocks(b, StateAt(b, s, ws, t), later, |later|) == x + 0x8001
  {
    SampleWritten(b, StateAt(b, s, ws, t0), ws[t0], x);
    NextKept(b, s, ws, t0 + 1, t1);
    PlaysThroughout(b, s, ws, t1, t, StateAt(b, s, ws, t), later, x + 0x8000);
    DutyCycle(b, StateAt(b, s, ws, t), later, x + 0x8000);
  }

  lemma {:induction false} PlaysThroughout(b: Build, s: PwmState, ws: seq<BusWrite>, t1: nat, t: nat,
                                           s1: PwmState, later: seq<BusWrite>, v: nat)
    requires Sized(b, s) && t1 < t <= t + |later| <= |ws| && later == ws[t..t + |later|] && s1 == StateAt(b, s, ws, t)
    requires NoSample(b, ws, t1, t + |later|) && StateAt(b, s, ws, t1).ztimer && StateAt(b, s, ws, t1).next == v
    ensures Held(b, s1, later, v)
  {
    forall k | 0 <= k < |later|
      ensures StateAt(b, s1, later, k).sample == v
    {
      assert ws[t..][..|later|] == later;
      Truncated(b, s1, ws[t..], |later|, k);
      LaterRun(b, s, ws, t, k);
      SamplePlays(b, s, ws, t1, t + k);
    }
  }

  lemma {:induction false} Truncated(b: Build, s: PwmState, ws: seq<BusWrite>, n: nat, k: nat)
    requires Sized(b, s) && k <= n <= |ws|
    ensures StateAt(b, s, ws[..n], k) == StateAt(b, s, ws, k)
  {
    if k > 0 {
      Truncated(b, s, ws, n, k - 1);
    }
  }

  /** The timer counts down to its end, which it reaches once, and on the clock after is
      set to the rate again: from one load to the next are exactly reload + 1 clocks. */
  lemma {:induction false} TimerRunsOut(b: Build, s: PwmState, ws: seq<BusWrite>, k: nat)
    requires Sized(b, s) && !s.ztimer && k <= s.timer <= |ws| && s.timer > 0
    ensures StateAt(b, s, ws, k).timer == s.timer - k && (StateAt(b, s, ws, k).ztimer <==> k == s.timer)
  {
    if k > 0 {
      TimerRunsOut(b, s, ws, k - 1);
    }
  }

  /** A timer at zero that has just been loaded goes the whole way round. */
  lemma TimerWraps(b: Build, s: PwmState, w: BusWrite)
    requires Sized(b, s) && !s.ztimer && s.timer == 0
    ensures var s' := PwmNext(b, s, w); s'.timer == b.timerSpan - 1 && !s'.ztimer
  {
  }

  /** Between loads the sample being played does not change. */
  lemma SampleKept(b: Build, s: PwmState, w: BusWrite)
    requires Sized(b, s) && !s.ztimer
    ensures PwmNext(b, s, w).sample == s.sample
  {
  }

  lemma TimerReloads(b: Build, s: PwmState, w: BusWrite)
    requires Sized(b, s) && s.ztimer && s.timer == 0
    ensures var s' := PwmNext(b, s, w); s'.timer == s.reload && !s'.ztimer && s'.sample == s.next
  {
  }

  /** A sample waits to be loaded until the timer runs out; from the load on another is
      asked for until it comes.  The interrupt says so one clock later. */
  lemma {:induction false} SampleStillValid(b: Build, s: PwmState, ws: seq<BusWrite>, t: nat, u: nat)
    requires Sized(b, s) && t < u <= |ws| && ws[t].Write? && !(b.variable && ws[t].addr)
    requires forall k | t < k < u :: !StateAt(b, s, ws, k).ztimer
    ensures StateAt(b, s, ws, u).valid && (u > t + 1 ==> !StateAt(b, s, ws, u).interrupt)
  {
    if t + 1 < u {
      SampleStillValid(b, s, ws, t, u - 1);
    }
  }

  lemma {:induction false} SampleAskedFor(b: Build, s: PwmState, ws: seq<BusWrite>, t: nat, u: nat)
    requires Sized(b, s) && t < u <= |ws| && StateAt(b, s, ws, t).ztimer && NoSample(b, ws, t, u)
    ensures !StateAt(b, s, ws, u).valid && (u > t + 1 ==> StateAt(b, s, ws, u).interrupt)
  {
    if t + 1 < u {
      SampleAskedFor(b, s, ws, t, u - 1);
    }
  }
}
