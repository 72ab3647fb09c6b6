/** rtl/txuartlite.v: the transmitter, one always block per register. */
module TxUartLite {
  import opened Frame8N1

  const IDLE: nat := 15
  const STOP: nat := 8

  datatype TxState = TxState(
    baud: nat,        // baud_counter, 24 bits
    zeroBaud: bool,   // zero_baud_counter
    state: nat,       // state, 4 bits
    lcl: Byte,        // lcl_data
    busy: bool,       // r_busy
    line: bool        // o_uart_tx
  )

  const TX_RESET := TxState(5, false, IDLE, ONES, true, true)

  predicate Accepts(s: TxState, wr: bool) {
    wr && !s.busy
  }

  /** The register values after one clock edge. */
  function TxNext(clocks: nat, s: TxState, wr: bool, data: Byte): TxState
    requires ValidBaud(clocks)
  {
    var take := Accepts(s, wr);
    TxState(
      baud :=
        if s.state == IDLE then (if take then clocks - 1 else 0)
        else if !s.zeroBaud then Down(s.baud)
        else clocks - 1,
      zeroBaud := if s.state == IDLE then !take else s.baud == 1,
      state :=
        if !s.zeroBaud then s.state
        else if s.state == IDLE then (if take then 0 else IDLE)
        else if s.state <= STOP then s.state + 1
        else IDLE,
      lcl := if take then data else if s.zeroBaud then s.lcl[1..] + [true] else s.lcl,
      busy := if !s.zeroBaud then true else if s.state == IDLE then take else true,
      line := if take then false else if s.zeroBaud then s.lcl[0] else s.line)
  }

  class TxUart {
    const clocks: nat
    var baud: nat
    var zeroBaud: bool
    var state: nat
    var lcl: Byte
    var busy: bool
    var line: bool

    ghost function View(): TxState
      reads this
    {
      TxState(baud, zeroBaud, state, lcl, busy, line)
    }

    constructor (clocks: nat)
      ensures this.clocks == clocks && View() == TX_RESET
    {
      this.clocks := clocks;
      baud, zeroBaud, state, lcl, busy, line := 5, false, IDLE, ONES, true, true;
    }

    /** One rising clock edge.  Every block below reads the old registers; the
        last statement makes all the new values visible at once. */
    method Tick(wr: bool, data: Byte)
      requires ValidBaud(clocks)
      modifies this
      ensures View() == TxNext(clocks, old(View()), wr, data)
    {
      var busy', state' := busy, state;
      if !zeroBaud {
        busy' := true;
      } else if state == IDLE {
        busy' := false;
        if wr && !busy {
          busy', state' := true, 0;
        }
      } else {
        busy' := true;
        state' := if state <= STOP then state + 1 else IDLE;
      }

      var lcl' := lcl;
      if wr && !busy {
        lcl' := data;
      } else if zeroBaud {
        lcl' := lcl[1..] + [true];
      }

      var line' := line;
      if wr && !busy {
        line' := false;
      } else if zeroBaud {
        line' := lcl[0];
      }

      var baud', zeroBaud' := baud, baud == 1;
      if state == IDLE {
        baud', zeroBaud' := 0, true;
        if wr && !busy {
          baud', zeroBaud' := clocks - 1, false;
        }
      } else if !zeroBaud {
        baud' := Down(baud);
      } else {
        baud' := clocks - 1;
      }

      busy, state, lcl, line, baud, zeroBaud := busy', state', lcl', line', baud', zeroBaud';
    }
  }

  /** Where the transmitter is: between frames and able to accept, or at clock p
      since the start bit of a frame carrying b first showed on the line.  Two
      clocks after the stop bit it can accept again. */
  datatype TxPhase = Ready | Sending(p: nat, b: Byte)

  function FrameLength(clocks: nat): nat { 10 * clocks + 2 }

  /** What is left of b in the shift register after k shifts. */
  function Shifted(b: Byte, k: nat): Byte
  {
    if k < 8 then b[k..] + ONES[..k] else ONES
  }

  /** Transmitting bit time k with l clocks of it left. */
  ghost predicate TxAt(s: TxState, k: nat, l: nat, b: Byte) {
    && s.busy
    && s.line == Level(b, k)
    && s.lcl == Shifted(b, k)
    && s.state == k
    && s.baud == l
    && s.zeroBaud == (l == 0)
  }

  /** The exact register contents in each phase. */
  ghost predicate TxMatches(clocks: nat, s: TxState, ph: TxPhase)
    requires ValidBaud(clocks)
  {
    match ph
    case Ready =>
      s.state == IDLE && s.zeroBaud && !s.busy && s.line && s.lcl == ONES
    case Sending(p, b) =>
      if p < 10 * clocks then TxAt(s, Slot(clocks, p), Left(clocks, p), b)
      else
        && p < FrameLength(clocks)
        && s.state == IDLE && s.busy && s.line && s.lcl == ONES
        && s.zeroBaud == (p == 10 * clocks + 1)
  }

  /** A strobe is taken exactly when the transmitter is between frames. */
  function TxPhaseNext(clocks: nat, ph: TxPhase, wr: bool, data: Byte): TxPhase {
    match ph
    case Ready => if wr then Sending(0, data) else Ready
    case Sending(p, b) => if p + 1 < FrameLength(clocks) then Sending(p + 1, b) else Ready
  }

  /** One clock within a bit. */
  lemma TxSameBit(clocks: nat, s: TxState, k: nat, l: nat, b: Byte, wr: bool, data: Byte)
    requires ValidBaud(clocks) && k <= 9 && 0 < l < clocks && TxAt(s, k, l, b)
    ensures TxAt(TxNext(clocks, s, wr, data), k, l - 1, b)
  {
  }

  lemma ShiftedStep(b: Byte, k: nat)
    ensures Shifted(b, k)[1..] + [true] == Shifted(b, k + 1)
    ensures k < 8 ==> Shifted(b, k)[0] == b[k]
    ensures k >= 8 ==> Shifted(b, k)[0]
  {
  }

  /** The last clock of a bit. */
  lemma {:induction false} TxNextBit(clocks: nat, s: TxState, k: nat, b: Byte, wr: bool, data: Byte)
    requires ValidBaud(clocks) && k <= 9 && TxAt(s, k, 0, b)
    ensures k < 9 ==> TxAt(TxNext(clocks, s, wr, data), k + 1, clocks - 1, b)
    ensures k == 9 ==> TxMatches(clocks, TxNext(clocks, s, wr, data), Sending(10 * clocks, b))
  {
    ShiftedStep(b, k);
  }

  /** The phase and the registers stay in step, whatever is strobed in. */
  lemma {:induction false} TxStep(clocks: nat, s: TxState, ph: TxPhase, wr: bool, data: Byte)
    requires ValidBaud(clocks) && TxMatches(clocks, s, ph)
    ensures TxMatches(clocks, TxNext(clocks, s, wr, data), TxPhaseNext(clocks, ph, wr, data))
    ensures Accepts(s, wr) <==> wr && ph.Ready?
  {
    if ph.Sending? && ph.p < 10 * clocks {
      var p := ph.p;
      SlotStep(clocks, p);
      SlotBelow(clocks, p, 10);
      SlotBelow(clocks, p + 1, 10);
      if Left(clocks, p) > 0 {
        TxSameBit(clocks, s, Slot(clocks, p), Left(clocks, p), ph.b, wr, data);
      } else {
        TxNextBit(clocks, s, Slot(clocks, p), ph.b, wr, data);
      }
      if p + 1 == 10 * clocks {
        assert Slot(clocks, p) == 9;
      }
    }
  }

  /** The line is the frame's, and it is high once the frame is over. */
  lemma {:induction false} TxMatchesLine(clocks: nat, s: TxState, p: nat, b: Byte)
    requires ValidBaud(clocks) && p <= FrameLength(clocks)
    requires TxMatches(clocks, s, if p < FrameLength(clocks) then Sending(p, b) else Ready)
    ensures s.line == Line(clocks, b, p)
    ensures s.busy <==> p < FrameLength(clocks)
  {
    SlotBelow(clocks, p, 10);
  }

  datatype TxInput = TxInput(wr: bool, data: Byte)

  function TxRun(clocks: nat, ins: seq<TxInput>): TxState
    requires ValidBaud(clocks)
  {
    if ins == [] then TX_RESET
    else
      var last := ins[|ins| - 1];
      TxNext(clocks, TxRun(clocks, ins[..|ins| - 1]), last.wr, last.data)
  }

  /** Every reachable state is in some phase. */
  lemma {:induction false} TxReachable(clocks: nat, ins: seq<TxInput>) returns (ph: TxPhase)
    requires ValidBaud(clocks)
    ensures TxMatches(clocks, TxRun(clocks, ins), ph)
  {
    if ins == [] {
      ph := Sending(10 * clocks, ONES);
    } else {
      var n := |ins| - 1;
      ph := TxReachable(clocks, ins[..n]);
      TxStep(clocks, TxRun(clocks, ins[..n]), ph, ins[n].wr, ins[n].data);
      ph := TxPhaseNext(clocks, ph, ins[n].wr, ins[n].data);
    }
  }

  /** From each accepted strobe the line carries exactly one frame, each bit for
      exactly `clocks` clocks, and it stays high until the transmitter is ready
      again: no later strobe can disturb a bit or cut the stop bit short. */
  lemma {:induction false} TxWaveform(clocks: nat, ins: seq<TxInput>, n: nat, m: nat)
    requires ValidBaud(clocks)
    requires n < |ins| == n + 1 + m && m <= FrameLength(clocks)
    requires Accepts(TxRun(clocks, ins[..n]), ins[n].wr)
    ensures TxMatches(clocks, TxRun(clocks, ins),
                      if m < FrameLength(clocks) then Sending(m, ins[n].data) else Ready)
    ensures TxRun(clocks, ins).line == Line(clocks, ins[n].data, m)
    ensures TxRun(clocks, ins).busy <==> m < FrameLength(clocks)
  {
    var last := |ins| - 1;
    assert TxRun(clocks, ins) == TxNext(clocks, TxRun(clocks, ins[..last]), ins[last].wr, ins[last].data);
    if m == 0 {
      var ph := TxReachable(clocks, ins[..n]);
      TxStep(clocks, TxRun(clocks, ins[..n]), ph, ins[n].wr, ins[n].data);
    } else {
      assert ins[..last][..n] == ins[..n] && ins[..last][n] == ins[n];
      TxWaveform(clocks, ins[..last], n, m - 1);
      TxStep(clocks, TxRun(clocks, ins[..last]), Sending(m - 1, ins[n].data), ins[last].wr, ins[last].data);
    }
    TxMatchesLine(clocks, TxRun(clocks, ins), m, ins[n].data);
  }
}
