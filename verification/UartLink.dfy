/** The transmitter's o_uart_tx wired to the receiver's i_uart_rx, both on one
    clock: every byte accepted is delivered once, intact and in order, exactly
    when a bit is at least six clocks long. */
module UartLink {
  import opened Frame8N1
  import opened TxUartLite
  import opened RxUartLite

  datatype LinkState = LinkState(tx: TxState, rx: RxState)

  function LinkNext(clocks: nat, s: LinkState, i: TxInput): LinkState
    requires ValidBaud(clocks)
  {
    LinkState(TxNext(clocks, s.tx, i.wr, i.data), RxNext(clocks, s.rx, s.tx.line))
  }

  predicate LinkInit(s: LinkState) {
    s.tx == TX_RESET && RxInit(s.rx)
  }

  class Link {
    const tx: TxUart
    const rx: RxUart

    ghost function View(): LinkState
      reads tx, rx
    {
      LinkState(tx.View(), rx.View())
    }

    constructor (clocks: nat, baud0: nat, data0: Byte, wr0: bool)
      requires baud0 < COUNTER_SPAN
      ensures tx.clocks == clocks && rx.clocks == clocks && fresh(tx) && fresh(rx)
      ensures LinkInit(View())
    {
      tx := new TxUart(clocks);
      rx := new RxUart(clocks, baud0, data0, wr0);
    }

    /** Both halves see the same clock edge: the receiver samples the line as it was before it. */
    method Tick(wr: bool, data: Byte)
      requires ValidBaud(tx.clocks) && rx.clocks == tx.clocks
      modifies tx, rx
      ensures View() == LinkNext(tx.clocks, old(View()), TxInput(wr, data))
    {
      var line := tx.line;
      tx.Tick(wr, data);
      rx.Tick(line);
    }
  }

  // ----- runs and what they deliver -----

  function LinkRun(clocks: nat, s0: LinkState, ins: seq<TxInput>): LinkState
    requires ValidBaud(clocks)
  {
    if ins == [] then s0
    else LinkNext(clocks, LinkRun(clocks, s0, ins[..|ins| - 1]), ins[|ins| - 1])
  }

  /** The bytes strobed in while the transmitter was not busy. */
  function Accepted(clocks: nat, s0: LinkState, ins: seq<TxInput>): seq<Byte>
    requires ValidBaud(clocks)
  {
    if ins == [] then []
    else
      var n := |ins| - 1;
      Accepted(clocks, s0, ins[..n]) +
      if Accepts(LinkRun(clocks, s0, ins[..n]).tx, ins[n].wr) then [ins[n].data] else []
  }

  /** What a clock delivers: the value of o_data if o_wr is high. */
  function Strobe(rx: RxState): seq<Byte> {
    if rx.wr then [rx.out] else []
  }

  /** What every clock delivers, the power-up clock included. */
  function Delivered(clocks: nat, s0: LinkState, ins: seq<TxInput>): seq<Byte>
    requires ValidBaud(clocks)
  {
    if ins == [] then Strobe(s0.rx)
    else Delivered(clocks, s0, ins[..|ins| - 1]) + Strobe(LinkRun(clocks, s0, ins).rx)
  }

  // ----- the product invariant -----

  /** Boot(t): t clocks after power-up, while the synchroniser still holds its
      zeros.  InFrame(p, b): clock p of a frame carrying b. */
  datatype Phase = Boot(t: nat) | Quiet | InFrame(p: nat, b: Byte)

  function TxPhaseOf(clocks: nat, ph: Phase): TxPhase {
    match ph
    case Boot(t) => if t < 2 then Sending(10 * clocks + t, ONES) else Ready
    case Quiet => Ready
    case InFrame(p, b) => Sending(p, b)
  }

  function PhaseNext(clocks: nat, ph: Phase, i: TxInput): Phase {
    match ph
    case Boot(t) => if t < 2 then Boot(t + 1) else if i.wr then InFrame(0, i.data) else Quiet
    case Quiet => if i.wr then InFrame(0, i.data) else Quiet
    case InFrame(p, b) => if p + 1 < FrameLength(clocks) then InFrame(p + 1, b) else Quiet
  }

  predicate Booting(clocks: nat, r: RxState, t: nat)
    requires ValidBaud(clocks)
  {
    && t <= 2
    && r.q == (t >= 1) && r.qq == (t >= 2) && !r.ck
    && r.chg == t && (r.half <==> t >= 1 && t - 1 >= HalfBaud(clocks))
    && r.state == RxUartLite.IDLE && !r.zeroBaud
    && (t >= 1 ==> r.baud == clocks - 1 && !r.wr)
  }

  ghost predicate LinkMatches(clocks: nat, s: LinkState, ph: Phase)
    requires ValidBaud(clocks)
  {
    && TxMatches(clocks, s.tx, TxPhaseOf(clocks, ph))
    && match ph
       case Boot(t) => Booting(clocks, s.rx, t)
       case Quiet => s.rx.q && s.rx.qq && s.rx.ck && Resting(clocks, s.rx) && !s.rx.wr
       case InFrame(p, b) => RxMatches(clocks, s.rx, p, b)
  }

  lemma BootStep(clocks: nat, r: RxState, t: nat)
    requires ValidBaud(clocks) && clocks >= 6 && Booting(clocks, r, t)
    ensures var r' := RxNext(clocks, r, true);
            if t < 2 then Booting(clocks, r', t + 1)
            else r'.q && r'.qq && r'.ck && Resting(clocks, r') && !r'.wr
  {
  }

  /** At the end of a frame the receiver has long been resting and its flip-flops show a high line. */
  lemma {:induction false} FrameEnd(clocks: nat, r: RxState, b: Byte)
    requires ValidBaud(clocks) && clocks >= 6 && RxMatches(clocks, r, FrameLength(clocks), b)
    ensures r.q && r.qq && r.ck && Resting(clocks, r) && !r.wr
  {
    SlotBelow(clocks, FrameLength(clocks) - 1, 9);
    SlotBelow(clocks, FrameLength(clocks) - 2, 9);
    SlotBelow(clocks, FrameLength(clocks) - 3, 9);
  }

  lemma {:induction false} RxFollows(clocks: nat, s: LinkState, p: nat, b: Byte)
    requires ValidBaud(clocks) && clocks >= 6 && LinkMatches(clocks, s, InFrame(p, b))
    ensures RxMatches(clocks, RxNext(clocks, s.rx, s.tx.line), p + 1, b)
  {
    TxMatchesLine(clocks, s.tx, p, b);
    RxStep(clocks, s.rx, p, b);
  }

  lemma {:induction false} LinkStepBoot(clocks: nat, s: LinkState, t: nat, i: TxInput)
    requires ValidBaud(clocks) && clocks >= 6 && LinkMatches(clocks, s, Boot(t))
    ensures LinkMatches(clocks, LinkNext(clocks, s, i), PhaseNext(clocks, Boot(t), i))
  {
    TxStep(clocks, s.tx, TxPhaseOf(clocks, Boot(t)), i.wr, i.data);
    SlotBelow(clocks, 10 * clocks + t, 10);
    assert s.tx.line;
    BootStep(clocks, s.rx, t);
  }

  lemma {:induction false} LinkStepQuiet(clocks: nat, s: LinkState, i: TxInput)
    requires ValidBaud(clocks) && clocks >= 6 && LinkMatches(clocks, s, Quiet)
    ensures LinkMatches(clocks, LinkNext(clocks, s, i), PhaseNext(clocks, Quiet, i))
  {
    TxStep(clocks, s.tx, Ready, i.wr, i.data);
    RestStep(clocks, s.rx, true);
  }

  lemma {:induction false} FrameGoesOn(clocks: nat, tx: TxState, rx: RxState, p: nat, b: Byte, i: TxInput)
    requires ValidBaud(clocks) && clocks >= 6 && p < FrameLength(clocks)
    requires TxMatches(clocks, tx, TxPhaseNext(clocks, Sending(p, b), i.wr, i.data))
    requires RxMatches(clocks, rx, p + 1, b)
    ensures LinkMatches(clocks, LinkState(tx, rx), PhaseNext(clocks, InFrame(p, b), i))
  {
    if p + 1 == FrameLength(clocks) {
      FrameEnd(clocks, rx, b);
    }
  }

  lemma {:induction false} LinkStepFrame(clocks: nat, s: LinkState, p: nat, b: Byte, i: TxInput)
    requires ValidBaud(clocks) && clocks >= 6 && p < FrameLength(clocks) && LinkMatches(clocks, s, InFrame(p, b))
    ensures LinkMatches(clocks, LinkNext(clocks, s, i), PhaseNext(clocks, InFrame(p, b), i))
  {
    TxStep(clocks, s.tx, Sending(p, b), i.wr, i.data);
    RxFollows(clocks, s, p, b);
    FrameGoesOn(clocks, TxNext(clocks, s.tx, i.wr, i.data), RxNext(clocks, s.rx, s.tx.line), p, b, i);
  }

  lemma {:induction false} LinkStep(clocks: nat, s: LinkState, ph: Phase, i: TxInput)
    requires ValidBaud(clocks) && clocks >= 6 && LinkMatches(clocks, s, ph)
    ensures LinkMatches(clocks, LinkNext(clocks, s, i), PhaseNext(clocks, ph, i))
  {
    match ph
    case Boot(t) => LinkStepBoot(clocks, s, t, i);
    case Quiet => LinkStepQuiet(clocks, s, i);
    case InFrame(p, b) => LinkStepFrame(clocks, s, p, b, i);
  }

  function RunPhase(clocks: nat, ins: seq<TxInput>): Phase {
    if ins == [] then Boot(0) else PhaseNext(clocks, RunPhase(clocks, ins[..|ins| - 1]), ins[|ins| - 1])
  }

  /** What has been accepted but not yet delivered. */
  function InFlight(clocks: nat, ph: Phase): seq<Byte> {
    if ph.InFrame? && ph.p < Lag(clocks) + 9 * clocks then [ph.b] else []
  }

  lemma {:induction false} RunMatches(clocks: nat, s0: LinkState, ins: seq<TxInput>)
    requires ValidBaud(clocks) && clocks >= 6 && LinkInit(s0)
    ensures LinkMatches(clocks, LinkRun(clocks, s0, ins), RunPhase(clocks, ins))
  {
    if ins != [] {
      var n := |ins| - 1;
      RunMatches(clocks, s0, ins[..n]);
      LinkStep(clocks, LinkRun(clocks, s0, ins[..n]), RunPhase(clocks, ins[..n]), ins[n]);
    }
  }

  /** What is accepted on a clock: a byte exactly when the phase allows it. */
  function Taken(clocks: nat, ph: Phase, i: TxInput): seq<Byte> {
    if i.wr && TxPhaseOf(clocks, ph).Ready? then [i.data] else []
  }

  lemma {:induction false} AcceptedStep(clocks: nat, s0: LinkState, ins: seq<TxInput>)
    requires ValidBaud(clocks) && clocks >= 6 && LinkInit(s0) && ins != []
    ensures var n := |ins| - 1;
            var take := Taken(clocks, RunPhase(clocks, ins[..n]), ins[n]);
            && (Accepts(LinkRun(clocks, s0, ins[..n]).tx, ins[n].wr) <==> take != [])
            && Accepted(clocks, s0, ins) == Accepted(clocks, s0, ins[..n]) + take
  {
    var n := |ins| - 1;
    RunMatches(clocks, s0, ins[..n]);
    var s, ph := LinkRun(clocks, s0, ins[..n]), RunPhase(clocks, ins[..n]);
    TxStep(clocks, s.tx, TxPhaseOf(clocks, ph), ins[n].wr, ins[n].data);
  }

  /** On every clock what was in flight and what is accepted is what comes out and
      what is in flight then. */
  lemma {:induction false} FlightStep(clocks: nat, ph: Phase, i: TxInput, s: LinkState, s': LinkState)
    requires ValidBaud(clocks) && clocks >= 6
    requires LinkMatches(clocks, s, ph) && LinkMatches(clocks, s', PhaseNext(clocks, ph, i))
    ensures InFlight(clocks, ph) + Taken(clocks, ph, i) == Strobe(s'.rx) + InFlight(clocks, PhaseNext(clocks, ph, i))
  {
  }

  lemma {:induction false} Balance(first: seq<Byte>, a: seq<Byte>, d: seq<Byte>, f: seq<Byte>,
                                   take: seq<Byte>, out: seq<Byte>, f': seq<Byte>)
    requires first + a == d + f && f + take == out + f'
    ensures first + (a + take) == d + out + f'
  {
    assert first + (a + take) == first + a + take == d + (f + take);
  }

  /** Bytes in = bytes out + the one on the wire, after every run; ahead of them all
      comes out what o_wr, which has no initial value, may strobe at power-up. */
  lemma {:induction false} Conservation(clocks: nat, s0: LinkState, ins: seq<TxInput>)
    requires ValidBaud(clocks) && clocks >= 6 && LinkInit(s0)
    ensures Strobe(s0.rx) + Accepted(clocks, s0, ins) ==
            Delivered(clocks, s0, ins) + InFlight(clocks, RunPhase(clocks, ins))
  {
    if ins != [] {
      var n := |ins| - 1;
      var s, s', ph := LinkRun(clocks, s0, ins[..n]), LinkRun(clocks, s0, ins), RunPhase(clocks, ins[..n]);
      Conservation(clocks, s0, ins[..n]);
      RunMatches(clocks, s0, ins[..n]);
      RunMatches(clocks, s0, ins);
      AcceptedStep(clocks, s0, ins);
      FlightStep(clocks, ph, ins[n], s, s');
      Balance(Strobe(s0.rx), Accepted(clocks, s0, ins[..n]), Delivered(clocks, s0, ins[..n]), InFlight(clocks, ph),
              Taken(clocks, ph, ins[n]), Strobe(s'.rx), InFlight(clocks, PhaseNext(clocks, ph, ins[n])));
    }
  }

  /** After a strobe that starts a frame the phase is known for the length of the frame. */
  lemma {:induction false} PhaseSince(clocks: nat, ins: seq<TxInput>, n: nat, m: nat)
    requires n < |ins| == n + 1 + m && m < FrameLength(clocks)
    requires ins[n].wr && TxPhaseOf(clocks, RunPhase(clocks, ins[..n])).Ready?
    ensures RunPhase(clocks, ins) == InFrame(m, ins[n].data)
  {
    var last := |ins| - 1;
    if m > 0 {
      assert ins[..last][..n] == ins[..n] && ins[..last][n] == ins[n];
      PhaseSince(clocks, ins[..last], n, m - 1);
    }
  }

  lemma {:induction false} AcceptedStays(clocks: nat, s0: LinkState, ins: seq<TxInput>, before: seq<TxInput>)
    requires ValidBaud(clocks) && clocks >= 6 && LinkInit(s0) && ins != [] && before == ins[..|ins| - 1]
    requires RunPhase(clocks, before).InFrame?
    ensures Accepted(clocks, s0, ins) == Accepted(clocks, s0, before)
  {
    AcceptedStep(clocks, s0, ins);
    assert Accepted(clocks, s0, before) + [] == Accepted(clocks, s0, before);
  }

  /** No other byte is accepted meanwhile. */
  lemma {:induction false} AcceptedSince(clocks: nat, s0: LinkState, ins: seq<TxInput>, n: nat, m: nat)
    requires ValidBaud(clocks) && clocks >= 6 && LinkInit(s0)
    requires n < |ins| == n + 1 + m && m < FrameLength(clocks)
    requires ins[n].wr && TxPhaseOf(clocks, RunPhase(clocks, ins[..n])).Ready?
    ensures Accepted(clocks, s0, ins) == Accepted(clocks, s0, ins[..n]) + [ins[n].data]
  {
    if m == 0 {
      AcceptedStep(clocks, s0, ins);
    } else {
      var before := ins[..|ins| - 1];
      assert before[..n] == ins[..n] && before[n] == ins[n];
      PhaseSince(clocks, before, n, m - 1);
      AcceptedSince(clocks, s0, before, n, m - 1);
      AcceptedStays(clocks, s0, ins, before);
    }
  }

  /** A byte accepted at clock n is delivered at clock n + 1 + 9.5 bit times + 4
      and not a clock earlier or later. */
  lemma {:induction false} ExactLatency(clocks: nat, s0: LinkState, ins: seq<TxInput>, n: nat, m: nat)
    requires ValidBaud(clocks) && clocks >= 6 && LinkInit(s0)
    requires n < |ins| == n + 1 + m && m < FrameLength(clocks)
    requires Accepts(LinkRun(clocks, s0, ins[..n]).tx, ins[n].wr)
    ensures Delivered(clocks, s0, ins) ==
            Strobe(s0.rx) + Accepted(clocks, s0, ins[..n])
            + if m < 9 * clocks + clocks / 2 + 4 then [] else [ins[n].data]
  {
    AcceptedStep(clocks, s0, ins[..n + 1]);
    assert ins[..n + 1][..n] == ins[..n];
    PhaseSince(clocks, ins, n, m);
    AcceptedSince(clocks, s0, ins, n, m);
    Conservation(clocks, s0, ins);
    TakeOff(Strobe(s0.rx), Accepted(clocks, s0, ins[..n]), ins[n].data,
            Delivered(clocks, s0, ins), InFlight(clocks, RunPhase(clocks, ins)));
  }

  lemma {:induction false} TakeOff(first: seq<Byte>, a: seq<Byte>, b: Byte, d: seq<Byte>, f: seq<Byte>)
    requires first + (a + [b]) == d + f && (f == [] || f == [b])
    ensures d == first + a + if f == [b] then [] else [b]
  {
    assert first + (a + [b]) == first + a + [b];
    if f == [b] {
      assert d == (d + f)[..|d|] && first + a == (first + a + [b])[..|first + a|];
    } else {
      assert d + [] == d;
    }
  }

  // ----- shorter bits: the synchroniser's power-up zeros look like a start bit -----

  const SILENCE := TxInput(false, ONES)

  /** Nothing is strobed in, so the line never moves. */
  lemma {:induction false} SilentLine(clocks: nat, s0: LinkState, n: nat)
    requires ValidBaud(clocks) && LinkInit(s0)
    ensures LinkRun(clocks, s0, seq(n, _ => SILENCE)).tx.line
    ensures Accepted(clocks, s0, seq(n, _ => SILENCE)) == []
    ensures TxMatches(clocks, LinkRun(clocks, s0, seq(n, _ => SILENCE)).tx,
                      TxPhaseOf(clocks, if n < 2 then Boot(n) else Quiet))
  {
    if n > 0 {
      var ins := seq(n, _ => SILENCE);
      assert ins[..n - 1] == seq(n - 1, _ => SILENCE);
      SilentLine(clocks, s0, n - 1);
      TxStep(clocks, LinkRun(clocks, s0, ins[..n - 1]).tx,
             TxPhaseOf(clocks, if n - 1 < 2 then Boot(n - 1) else Quiet), false, ONES);
    }
  }

  /** Clocks from power-up to the false start. */
  function FalseStart(clocks: nat): nat { if clocks < 4 then 2 else 3 }

  function SilentRx(clocks: nat, r: RxState, n: nat): RxState
    requires ValidBaud(clocks)
  {
    if n == 0 then r else RxNext(clocks, SilentRx(clocks, r, n - 1), true)
  }

  lemma {:induction false} SilentRun(clocks: nat, s0: LinkState, n: nat)
    requires ValidBaud(clocks) && LinkInit(s0)
    ensures LinkRun(clocks, s0, seq(n, _ => SILENCE)).rx == SilentRx(clocks, s0.rx, n)
  {
    if n > 0 {
      assert seq(n, _ => SILENCE)[..n - 1] == seq(n - 1, _ => SILENCE);
      SilentRun(clocks, s0, n - 1);
      SilentLine(clocks, s0, n - 1);
    }
  }

  lemma {:induction false} SilentCounting(clocks: nat, r0: RxState, u: nat)
    requires 2 <= clocks <= 5 && RxInit(r0) && u <= 9 * clocks
    ensures var r := SilentRx(clocks, r0, FalseStart(clocks) + u);
            if u < 9 * clocks then Counting(clocks, r, u) else r.wr
  {
    if u == 0 {
      assert Booting(clocks, SilentRx(clocks, r0, 1), 1);
      assert FalseStart(clocks) == 3 ==> Booting(clocks, SilentRx(clocks, r0, 2), 2);
    } else {
      SilentCounting(clocks, r0, u - 1);
      CountStep(clocks, SilentRx(clocks, r0, FalseStart(clocks) + u - 1), true, u - 1);
    }
  }

  /** With a bit shorter than six clocks the receiver strobes out a byte nobody sent. */
  lemma {:induction false} SpuriousByte(clocks: nat, s0: LinkState) returns (ins: seq<TxInput>)
    requires 2 <= clocks <= 5 && LinkInit(s0)
    ensures Accepted(clocks, s0, ins) == [] && ins != [] && LinkRun(clocks, s0, ins).rx.wr
    ensures Delivered(clocks, s0, ins) != []
  {
    var n := FalseStart(clocks) + 9 * clocks;
    ins := seq(n, _ => SILENCE);
    SilentRun(clocks, s0, n);
    SilentLine(clocks, s0, n);
    SilentCounting(clocks, s0.rx, 9 * clocks);
  }

  /** From that power-up state every run delivers a prefix of what it accepted,
      lacking at most the byte on the wire. */
  ghost predicate Faithful(clocks: nat, s0: LinkState)
    requires ValidBaud(clocks)
  {
    forall ins ::
      && Delivered(clocks, s0, ins) <= Accepted(clocks, s0, ins)
      && |Accepted(clocks, s0, ins)| <= |Delivered(clocks, s0, ins)| + 1
  }

  /** The link is faithful exactly when a bit lasts at least six clocks and o_wr
      powers up low. */
  lemma {:induction false} FaithfulExactly(clocks: nat, s0: LinkState)
    requires ValidBaud(clocks) && LinkInit(s0)
    ensures Faithful(clocks, s0) <==> clocks >= 6 && !s0.rx.wr
  {
    if s0.rx.wr {
      assert Delivered(clocks, s0, []) == [s0.rx.out] && Accepted(clocks, s0, []) == [];
    } else if clocks >= 6 {
      forall ins
        ensures Delivered(clocks, s0, ins) <= Accepted(clocks, s0, ins)
        ensures |Accepted(clocks, s0, ins)| <= |Delivered(clocks, s0, ins)| + 1
      {
        Conservation(clocks, s0, ins);
        assert Strobe(s0.rx) + Accepted(clocks, s0, ins) == Accepted(clocks, s0, ins);
      }
    } else {
      var ins := SpuriousByte(clocks, s0);
      assert !(Delivered(clocks, s0, ins) <= Accepted(clocks, s0, ins));
    }
  }

  /** A power-up state from which a byte nobody sent comes out at once, however long
      a bit lasts. */
  lemma {:induction false} PowerUpStrobe(clocks: nat) returns (s0: LinkState)
    requires ValidBaud(clocks)
    ensures LinkInit(s0) && Accepted(clocks, s0, []) == [] && Delivered(clocks, s0, []) == [ONES]
    ensures !Faithful(clocks, s0)
  {
    s0 := LinkState(TX_RESET, RxState(false, false, false, 0, false, RxUartLite.IDLE, 0, false, ONES, true, ONES));
    FaithfulExactly(clocks, s0);
  }
}
