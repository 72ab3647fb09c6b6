/** rtl/rxuartlite.v: the receiver, one always block per register. */
module RxUartLite {
  import opened Frame8N1

  const IDLE: nat := 15
  const STOP: nat := 8

  datatype RxState = RxState(
    q: bool, qq: bool, ck: bool,   // the three synchroniser flip-flops
    chg: nat,                      // chg_counter, 24 bits
    half: bool,                    // half_baud_time
    state: nat,                    // state, 4 bits
    baud: nat,                     // baud_counter, 24 bits
    zeroBaud: bool,                // zero_baud_counter
    data: Byte,                    // data_reg
    wr: bool,                      // o_wr
    out: Byte                      // o_data
  )

  /** Power-up.  The source gives data_reg, baud_counter and o_wr no initial
      value, so they are unconstrained. */
  predicate RxInit(r: RxState) {
    && !r.q && !r.qq && !r.ck && r.chg == 0 && !r.half
    && r.state == IDLE && !r.zeroBaud
    && r.baud < COUNTER_SPAN
  }

  function HalfBaud(clocks: nat): nat
    requires ValidBaud(clocks)
  {
    clocks / 2 - 1
  }

  /** { bit, data[7:1] } */
  function ShiftIn(data: Byte, bit: bool): Byte {
    data[1..] + [bit]
  }

  /** The register values after one clock edge with `line` on i_uart_rx. */
  function RxNext(clocks: nat, r: RxState, line: bool): RxState
    requires ValidBaud(clocks)
  {
    RxState(
      q := line,
      qq := r.q,
      ck := r.qq,
      chg := if r.qq != r.ck then 0 else Up(r.chg),
      half := !r.ck && r.chg >= HalfBaud(clocks),
      state :=
        if r.state == IDLE then (if !r.ck && r.half then 0 else IDLE)
        else if r.zeroBaud then (if r.state < STOP then r.state + 1 else IDLE)
        else r.state,
      baud := if r.zeroBaud || r.state == IDLE then clocks - 1 else Down(r.baud),
      zeroBaud := r.state != IDLE && r.baud == 1,
      data := if r.zeroBaud then ShiftIn(r.data, r.ck) else r.data,
      wr := r.zeroBaud && r.state == STOP,
      out := if r.zeroBaud && r.state == STOP then r.data else r.out)
  }

  class RxUart {
    const clocks: nat
    var q: bool
    var qq: bool
    var ck: bool
    var chg: nat
    var half: bool
    var state: nat
    var baud: nat
    var zeroBaud: bool
    var data: Byte
    var wr: bool
    var out: Byte

    ghost function View(): RxState
      reads this
    {
      RxState(q, qq, ck, chg, half, state, baud, zeroBaud, data, wr, out)
    }

    /** The uninitialised registers hold whatever the caller says they hold. */
    constructor (clocks: nat, baud0: nat, data0: Byte, wr0: bool)
      requires baud0 < COUNTER_SPAN
      ensures this.clocks == clocks && RxInit(View())
    {
      this.clocks := clocks;
      q, qq, ck, chg, half := false, false, false, 0, false;
      state, zeroBaud := IDLE, false;
      baud, data, wr := baud0, data0, wr0;
      out := [false, false, false, false, false, false, false, false];
    }

    /** One rising clock edge.  Nothing in the second half reads a register the
        first half writes, so the two together read only old values. */
    method Tick(line: bool)
      requires ValidBaud(clocks)
      modifies this
      ensures View() == RxNext(clocks, old(View()), line)
    {
      Deserialise();
      Sample(line);
    }

    /** The state machine, shift register, output and baud counter blocks. */
    method Deserialise()
      requires ValidBaud(clocks)
      modifies `state, `data, `wr, `out, `baud, `zeroBaud
      ensures var next := RxNext(clocks, old(View()), ck);
              && state == next.state && data == next.data && wr == next.wr && out == next.out
              && baud == next.baud && zeroBaud == next.zeroBaud
    {
      var state' := state;
      if state == IDLE {
        state' := IDLE;
        if !ck && half {
          state' := 0;
        }
      } else if zeroBaud {
        state' := if state < STOP then state + 1 else IDLE;
      }

      var data' := if zeroBaud then ShiftIn(data, ck) else data;

      var wr', out' := false, out;
      if zeroBaud && state == STOP {
        wr', out' := true, data;
      }

      var baud' := if zeroBaud || state == IDLE then clocks - 1 else Down(baud);
      var zeroBaud' := state != IDLE && baud == 1;

      state, data, wr, out, baud, zeroBaud := state', data', wr', out', baud', zeroBaud';
    }

    /** The synchroniser, the change counter and the half-baud detector. */
    method Sample(line: bool)
      requires ValidBaud(clocks)
      modifies `q, `qq, `ck, `chg, `half
      ensures q == line && qq == old(q) && ck == old(qq)
      ensures chg == if old(qq != ck) then 0 else Up(old(chg))
      ensures half == old(!ck && chg >= HalfBaud(clocks))
    {
      var chg' := if qq != ck then 0 else Up(chg);
      var half' := !ck && chg >= HalfBaud(clocks);
      q, qq, ck, chg, half := line, q, qq, chg', half';
    }
  }

  // ----- the receiver's clockwork, whatever is on the line -----

  /** Waiting for a start bit, with the baud counter primed. */
  predicate Resting(clocks: nat, r: RxState) {
    r.state == IDLE && !r.zeroBaud && r.baud == clocks - 1
  }

  /** u clocks after the middle of a start bit was recognised. */
  predicate Counting(clocks: nat, r: RxState, u: nat)
    requires clocks > 0
  {
    && r.state == Slot(clocks, u)
    && r.baud == Left(clocks, u)
    && r.zeroBaud == (r.baud == 0)
    && !r.wr
  }

  /** Nine bit times are counted out and then exactly one strobe is given. */
  lemma {:induction false} CountStep(clocks: nat, r: RxState, line: bool, u: nat)
    requires ValidBaud(clocks) && u < 9 * clocks && Counting(clocks, r, u)
    ensures u + 1 < 9 * clocks ==> Counting(clocks, RxNext(clocks, r, line), u + 1)
    ensures u + 1 == 9 * clocks ==>
              var r' := RxNext(clocks, r, line);
              Resting(clocks, r') && r'.wr && r'.out == r.data
  {
    SlotStep(clocks, u);
    SlotBelow(clocks, u, 9);
    SlotBelow(clocks, u + 1, 9);
  }

  lemma RestStep(clocks: nat, r: RxState, line: bool)
    requires ValidBaud(clocks) && Resting(clocks, r)
    ensures var r' := RxNext(clocks, r, line);
            if !r.ck && r.half then Counting(clocks, r', 0) else Resting(clocks, r') && !r'.wr
  {
  }

  // ----- the receiver listening to a frame -----

  /** Clocks from the first low clock on the line to the receiver's bit counter starting. */
  function Lag(clocks: nat): nat { clocks / 2 + 4 }

  /** The flip-flops hold the line as it was one, two and three clocks ago. */
  predicate Synchronised(clocks: nat, r: RxState, p: nat, b: Byte)
    requires clocks > 0
  {
    r.q == Line(clocks, b, p - 1) && r.qq == Line(clocks, b, p - 2) && r.ck == Line(clocks, b, p - 3)
  }

  /** Before the middle of the start bit: the low time is being measured. */
  predicate Hunting(clocks: nat, r: RxState, p: nat) {
    && Resting(clocks, r) && !r.wr
    && (3 <= p ==> r.chg == p - 3 && r.half == (p == Lag(clocks) - 1))
  }

  /** The top k bits of the shift register are the first k bits of the byte. */
  predicate Captured(r: RxState, b: Byte, k: nat) {
    k <= 8 && r.data[8 - k..] == b[..k]
  }

  /** The receiver's registers at clock p of a frame carrying b. */
  predicate RxMatches(clocks: nat, r: RxState, p: nat, b: Byte)
    requires clocks > 0
  {
    && Synchronised(clocks, r, p, b)
    && (p < Lag(clocks) ==> Hunting(clocks, r, p))
    && (Lag(clocks) <= p < Lag(clocks) + 9 * clocks ==>
          && Counting(clocks, r, p - Lag(clocks))
          && Captured(r, b, Slot(clocks, p - Lag(clocks))))
    && (p >= Lag(clocks) + 9 * clocks ==>
          && Resting(clocks, r)
          && r.wr == (p == Lag(clocks) + 9 * clocks)
          && (r.wr ==> r.out == b))
  }

  lemma HuntStep(clocks: nat, r: RxState, p: nat, b: Byte)
    requires ValidBaud(clocks) && clocks >= 6
    requires p < Lag(clocks) && Synchronised(clocks, r, p, b) && Hunting(clocks, r, p)
    ensures p + 1 < Lag(clocks) ==> Hunting(clocks, RxNext(clocks, r, Line(clocks, b, p)), p + 1)
    ensures p + 1 == Lag(clocks) ==> Counting(clocks, RxNext(clocks, r, Line(clocks, b, p)), 0)
  {
  }

  /** On the last clock of a counted bit time the delayed line shows the middle of the next bit. */
  lemma {:induction false} SampleInMiddle(clocks: nat, u: nat, h: nat)
    requires clocks > 0 && Left(clocks, u) == 0 && h < clocks
    ensures Slot(clocks, u + 1 + h) == Slot(clocks, u) + 1
    decreases u
  {
    if u >= clocks {
      SampleInMiddle(clocks, u - clocks, h);
    }
  }

  lemma {:induction false} CaptureBit(data: Byte, b: Byte, k: nat)
    requires k < 8 && data[8 - k..] == b[..k]
    ensures ShiftIn(data, b[k])[7 - k..] == b[..k + 1]
  {
    assert ShiftIn(data, b[k])[7 - k..] == data[8 - k..] + [b[k]];
  }

  lemma {:induction false} CaptureStep(clocks: nat, r: RxState, p: nat, b: Byte)
    requires ValidBaud(clocks)
    requires Lag(clocks) <= p && p + 1 < Lag(clocks) + 9 * clocks
    requires Synchronised(clocks, r, p, b)
    requires Counting(clocks, r, p - Lag(clocks)) && Captured(r, b, Slot(clocks, p - Lag(clocks)))
    ensures Captured(RxNext(clocks, r, Line(clocks, b, p)), b, Slot(clocks, p + 1 - Lag(clocks)))
  {
    var u := p - Lag(clocks);
    SlotStep(clocks, u);
    SlotBelow(clocks, u + 1, 9);
    if Left(clocks, u) == 0 {
      MiddleOfBit(clocks, r, p, b, u, Slot(clocks, u));
      ShiftCaptures(clocks, r, Line(clocks, b, p), b, Slot(clocks, u));
    } else {
      assert RxNext(clocks, r, Line(clocks, b, p)).data == r.data;
    }
  }

  /** At the end of a counted bit time the delayed line shows the next data bit. */
  lemma {:induction false} MiddleOfBit(clocks: nat, r: RxState, p: nat, b: Byte, u: nat, k: nat)
    requires ValidBaud(clocks) && p == u + Lag(clocks) && Synchronised(clocks, r, p, b)
    requires Left(clocks, u) == 0 && k == Slot(clocks, u) && k < 8
    ensures r.ck == b[k]
  {
    SampleInMiddle(clocks, u, clocks / 2);
    assert p - 3 == u + 1 + clocks / 2;
  }

  lemma {:induction false} ShiftCaptures(clocks: nat, r: RxState, line: bool, b: Byte, k: nat)
    requires ValidBaud(clocks) && k < 8 && r.zeroBaud && r.ck == b[k] && Captured(r, b, k)
    ensures Captured(RxNext(clocks, r, line), b, k + 1)
  {
    CaptureBit(r.data, b, k);
  }

  lemma {:induction false} RxStep(clocks: nat, r: RxState, p: nat, b: Byte)
    requires ValidBaud(clocks) && clocks >= 6 && RxMatches(clocks, r, p, b)
    ensures RxMatches(clocks, RxNext(clocks, r, Line(clocks, b, p)), p + 1, b)
  {
    var line := Line(clocks, b, p);
    var end := Lag(clocks) + 9 * clocks;
    if p < Lag(clocks) {
      HuntStep(clocks, r, p, b);
    } else if p < end {
      CountStep(clocks, r, line, p - Lag(clocks));
      if p + 1 < end {
        CaptureStep(clocks, r, p, b);
      } else {
        SlotStep(clocks, p - Lag(clocks));
        SlotBelow(clocks, p - Lag(clocks), 9);
        SlotBelow(clocks, p + 1 - Lag(clocks), 9);
        assert r.data == r.data[8 - 8..] && b[..8] == b;
      }
    } else {
      SlotBelow(clocks, p - 3, 9);
      RestStep(clocks, r, line);
    }
  }

  // ----- the receiver on a steady line -----

  /** n clocks with the line held at one level. */
  function Steady(clocks: nat, r: RxState, line: bool, n: nat): RxState
    requires ValidBaud(clocks)
  {
    if n == 0 then r else RxNext(clocks, Steady(clocks, r, line, n - 1), line)
  }

  /** o_data changes only with a strobe. */
  lemma OutputHeld(clocks: nat, r: RxState, line: bool)
    requires ValidBaud(clocks)
    ensures var r' := RxNext(clocks, r, line); !r'.wr ==> r'.out == r.out
  {
  }

  /** The line has been high for long. */
  predicate Quiet(clocks: nat, r: RxState)
    requires ValidBaud(clocks)
  {
    r.q && r.qq && r.ck && Resting(clocks, r) && !r.half && !r.wr
  }

  /** k clocks into a low stretch, with nothing recognised yet. */
  predicate Low(clocks: nat, r: RxState, k: nat)
    requires ValidBaud(clocks)
  {
    && Resting(clocks, r) && !r.wr && r.q == (k < 1) && r.qq == (k < 2) && r.ck == (k < 3)
    && (k >= 3 ==> r.chg == k - 3) && r.half == (k >= clocks / 2 + 3)
  }

  lemma {:induction false} LowStretch(clocks: nat, r: RxState, k: nat)
    requires ValidBaud(clocks) && Quiet(clocks, r) && k <= clocks / 2 + 3
    ensures Low(clocks, Steady(clocks, r, false, k), k)
  {
    if k > 0 {
      LowStretch(clocks, r, k - 1);
    }
  }

  /** The line back high for j clocks after too short a low stretch of m. */
  predicate Glitch(clocks: nat, r: RxState, m: nat, j: nat)
    requires ValidBaud(clocks)
  {
    && Resting(clocks, r) && !r.wr
    && r.q == (j >= 1 || m == 0) && r.qq == (j >= 2 || m + j < 2) && r.ck == (j >= 3 || m + j < 3)
    && (m + j >= 3 && j <= 2 ==> r.chg == m + j - 3)
    && (r.half ==> j >= 3)
  }

  lemma {:induction false} GlitchPasses(clocks: nat, r: RxState, m: nat, j: nat)
    requires ValidBaud(clocks) && Quiet(clocks, r) && m <= clocks / 2
    ensures Glitch(clocks, Steady(clocks, Steady(clocks, r, false, m), true, j), m, j)
  {
    if j == 0 {
      LowStretch(clocks, r, m);
    } else {
      GlitchPasses(clocks, r, m, j - 1);
    }
  }

  /** From rest, a low stretch of m clocks starts a byte exactly when it is longer than
      half a bit: a shorter one leaves the receiver resting for good, a longer one has it
      counting half a bit and four clocks after it began. */
  lemma {:induction false} StartsExactly(clocks: nat, r: RxState, m: nat, n: nat)
    requires ValidBaud(clocks) && Quiet(clocks, r)
    ensures m <= clocks / 2 ==>
              var r' := Steady(clocks, Steady(clocks, r, false, m), true, n); Resting(clocks, r') && !r'.wr
    ensures Counting(clocks, Steady(clocks, r, false, clocks / 2 + 4), 0)
    ensures m > clocks / 2 && m <= Lag(clocks) ==>
              Counting(clocks, Steady(clocks, Steady(clocks, r, false, m), true, Lag(clocks) - m), 0)
  {
    if m <= clocks / 2 {
      GlitchPasses(clocks, r, m, n);
    }
    LowStretch(clocks, r, clocks / 2 + 3);
    if clocks / 2 < m <= Lag(clocks) {
      LateRise(clocks, r, m);
    }
  }

  /** A rise after half a bit comes too late to be noticed. */
  lemma {:induction false} LateRise(clocks: nat, r: RxState, m: nat)
    requires ValidBaud(clocks) && Quiet(clocks, r) && clocks / 2 < m <= Lag(clocks)
    ensures Counting(clocks, Steady(clocks, Steady(clocks, r, false, m), true, Lag(clocks) - m), 0)
  {
    if m == Lag(clocks) {
      LowStretch(clocks, r, m - 1);
    } else {
      LowStretch(clocks, r, m);
      var s0 := Steady(clocks, r, false, m);
      assert Steady(clocks, s0, true, 0) == s0;
      var s1 := RxNext(clocks, s0, true);
      assert Steady(clocks, s0, true, 1) == s1;
      var s2 := RxNext(clocks, s1, true);
      assert Steady(clocks, s0, true, 2) == s2;
      var s3 := RxNext(clocks, s2, true);
      assert Steady(clocks, s0, true, 3) == s3;
    }
  }

  /** The line has been low for half a bit and more, c clocks by the counter. */
  predicate Broken(clocks: nat, r: RxState, c: nat)
    requires ValidBaud(clocks)
  {
    !r.q && !r.qq && !r.ck && r.half && r.chg == c && c >= HalfBaud(clocks)
  }

  /** On a line that stays low a byte is strobed out every nine bit times and a clock. */
  lemma {:induction false} BreakRepeats(clocks: nat, r: RxState, c: nat, u: nat)
    requires ValidBaud(clocks) && Resting(clocks, r) && Broken(clocks, r, c)
    requires u <= 9 * clocks && c + 9 * clocks + 1 < COUNTER_SPAN
    ensures var r' := Steady(clocks, r, false, u + 1);
            && Broken(clocks, r', c + u + 1)
            && if u < 9 * clocks then Counting(clocks, r', u) else Resting(clocks, r') && r'.wr
  {
    if u == 0 {
      assert Steady(clocks, r, false, 0) == r;
    } else {
      BreakRepeats(clocks, r, c, u - 1);
      BreakStep(clocks, Steady(clocks, r, false, u), c + u, u - 1);
    }
  }

  lemma {:induction false} BreakStep(clocks: nat, r: RxState, c: nat, u: nat)
    requires ValidBaud(clocks) && u < 9 * clocks && Counting(clocks, r, u)
    requires Broken(clocks, r, c) && c + 1 < COUNTER_SPAN
    ensures var r' := RxNext(clocks, r, false);
            && Broken(clocks, r', c + 1)
            && if u + 1 < 9 * clocks then Counting(clocks, r', u + 1) else Resting(clocks, r') && r'.wr
  {
    CountStep(clocks, r, false, u);
  }
}
