/** The bus handshake of rtl/qflashxpress.v: a read controller that counts a
    request out in a shift register and can take the next sequential request
    while the last one is still finishing. */
module FlashXpress {

  /** One clock's inputs; maintenance comes from the start-up sequencer. */
  datatype Input = Input(maintenance: bool, cyc: bool, stb: bool, addr: nat)

  datatype State = State(
    busy: seq<bool>,   // busy_pipe, bit 0 first
    stall: bool,       // o_wb_stall
    preAck: bool,      // pre_ack
    pipeReq: bool,     // pipe_req
    ackPipe: bool,     // ack_pipe
    ack: bool,         // o_wb_ack
    last: nat,         // last_addr
    pipelined: bool    // OPT_FLASH_PIPELINE, fixed when the core is built
  )

  const WIDTH: nat := 22

  /** The word with bits k and up set: 22'h3fffff for 0, 22'h3fc000 for 14. */
  function Ones(k: nat): (b: seq<bool>)
    ensures |b| == WIDTH
  {
    seq(WIDTH, i => i >= k)
  }

  /** { busy_pipe[20:0], 1'b0 } */
  function Shifted(b: seq<bool>): (r: seq<bool>)
    requires |b| == WIDTH
    ensures |r| == WIDTH
  {
    [false] + b[..WIDTH - 1]
  }

  function Following(a: nat): nat { (a + 1) % 0x40_0000 }

  predicate Takes(s: State, i: Input) {
    i.stb && !s.stall
  }

  /** The register values after one clock edge. */
  function Next(s: State, i: Input): (s': State)
    requires |s.busy| == WIDTH
    ensures |s'.busy| == WIDTH
  {
    var take := Takes(s, i);
    State(
      busy :=
        if (take && !s.pipeReq) || i.maintenance then Ones(0)
        else if take then Ones(14)
        else Shifted(s.busy),
      stall := take || s.busy[19] || (s.busy[20] && !s.pipeReq),
      preAck :=
        if i.maintenance || !i.cyc then false
        else if take then true
        else if s.ack && !s.pipeReq then false
        else s.preAck,
      pipeReq := s.pipelined && s.preAck && i.stb && Following(s.last) == i.addr,
      ackPipe := s.preAck && s.busy[20] && !s.busy[19],
      ack := s.preAck && s.ackPipe,
      last := if take then i.addr else s.last,
      pipelined := s.pipelined)
  }

  predicate Reset(s: State) {
    s.busy == Ones(0) && s.stall && !s.preAck && !s.pipeReq && !s.ackPipe && !s.ack
  }

  class Controller {
    var busy: seq<bool>
    var stall: bool
    var preAck: bool
    var pipeReq: bool
    var ackPipe: bool
    var ack: bool
    var last: nat
    const pipelined: bool

    ghost function View(): State
      reads this
    {
      State(busy, stall, preAck, pipeReq, ackPipe, ack, last, pipelined)
    }

    constructor (last: nat, pipelined: bool)
      ensures Reset(View()) && this.pipelined == pipelined
    {
      busy, stall, preAck, pipeReq, ackPipe, ack := Ones(0), true, false, false, false, false;
      this.last, this.pipelined := last, pipelined;
    }

    /** One rising clock edge. */
    method Tick(i: Input)
      requires |busy| == WIDTH
      modifies this
      ensures View() == Next(old(View()), i)
    {
      var take, acking := i.stb && !stall, ack;
      Answer(take);
      Accept(i, take, acking);
    }

    /** The stall line and the two acknowledgement registers. */
    method Answer(take: bool)
      requires |busy| == WIDTH
      modifies `stall, `ackPipe, `ack
      ensures stall == (take || busy[19] || (busy[20] && !pipeReq))
      ensures ackPipe == (preAck && busy[20] && !busy[19]) && ack == (preAck && old(ackPipe))
    {
      stall := take || busy[19] || (busy[20] && !pipeReq);
      ack := preAck && ackPipe;
      ackPipe := preAck && busy[20] && !busy[19];
    }

    /** The request side; `acking` is o_wb_ack before the edge. */
    method Accept(i: Input, take: bool, acking: bool)
      requires |busy| == WIDTH
      modifies `busy, `preAck, `pipeReq, `last
      ensures busy == if (take && !old(pipeReq)) || i.maintenance then Ones(0)
                      else if take then Ones(14)
                      else Shifted(old(busy))
      ensures preAck == if i.maintenance || !i.cyc then false
                        else if take then true
                        else if acking && !old(pipeReq) then false
                        else old(preAck)
      ensures pipeReq == (pipelined && old(preAck) && i.stb && Following(old(last)) == i.addr)
      ensures last == if take then i.addr else old(last)
    {
      var pipeCondition := pipelined && preAck && i.stb && Following(last) == i.addr;
      if (take && !pipeReq) || i.maintenance {
        busy := Ones(0);
      } else if take {
        busy := Ones(14);
      } else {
        busy := Shifted(busy);
      }
      if i.maintenance || !i.cyc {
        preAck := false;
      } else if take {
        preAck := true;
      } else if acking && !pipeReq {
        preAck := false;
      }
      if take {
        last := i.addr;
      }
      pipeReq := pipeCondition;
    }
  }

  // ----- phases -----

  /** Starting(k): k shifts after start-up, no request yet.  Idle: nothing going on.
      Waiting(k, loaded): a request has been shifted k places since it was loaded,
      on the previous clock if `loaded`; at 22 places it is being acknowledged. */
  datatype Phase = Starting(k: nat) | Idle | Waiting(k: nat, loaded: bool)

  /** A strobe that has been recognised as sequential is still there, unchanged. */
  predicate StillAsking(s: State, i: Input) {
    s.pipeReq ==> i.stb && i.addr == Following(s.last)
  }

  /** The registers in each phase, and what the master is then known to be doing. */
  predicate Matches(s: State, ph: Phase, i: Input) {
    match ph
    case Starting(k) =>
      k <= 21 && s.busy == Ones(k) && s.stall && !s.preAck && !s.pipeReq && !s.ackPipe && !s.ack
    case Idle =>
      s.busy == Ones(22) && !s.stall && !s.preAck && !s.pipeReq && !s.ackPipe && !s.ack
    case Waiting(k, loaded) =>
      && k <= 22 && s.busy == Ones(k) && s.preAck && (s.pipeReq ==> s.pipelined)
      && (loaded ==> k == 0 || k == 14)
      && (k <= 20 ==> s.stall) && (k == 21 && !s.stall ==> s.pipeReq) && (k == 22 ==> !s.stall)
      && s.ackPipe == (k == 21)
      && (s.ack ==> k == 22 || (loaded && k == 14 && s.pipeReq)) && (k == 22 ==> s.ack)
      && (!loaded ==> StillAsking(s, i))
  }

  function PhaseNext(s: State, ph: Phase, i: Input): Phase {
    match ph
    case Starting(k) =>
      if i.maintenance then Starting(0) else if k < 21 then Starting(k + 1) else Idle
    case Idle =>
      if i.stb then Waiting(0, true) else Idle
    case Waiting(k, loaded) =>
      if Takes(s, i) then Waiting(if s.pipeReq then 14 else 0, true)
      else if k < 22 then Waiting(k + 1, false)
      else Idle
  }

  /** The master keeps a stalled request as it is. */
  predicate Polite(s: State, i: Input, i': Input) {
    i.stb && s.stall ==> i'.stb && i'.addr == i.addr
  }

  lemma ShiftOnes(k: nat)
    requires k <= 22
    ensures Shifted(Ones(k)) == Ones(if k < 22 then k + 1 else 22)
  {
  }

  lemma {:induction false} Step(s: State, ph: Phase, i: Input, i': Input)
    requires |s.busy| == WIDTH && Matches(s, ph, i) && i.cyc && Polite(s, i, i')
    requires i.maintenance ==> ph == Starting(0)
    ensures Matches(Next(s, i), PhaseNext(s, ph, i), i')
  {
    match ph
    case Starting(k) =>
      ShiftOnes(k);
    case Idle =>
      ShiftOnes(22);
    case Waiting(k, _) =>
      ShiftOnes(k);
  }

  // ----- runs -----

  /** The state at clock t; input t is applied at the edge that ends it. */
  function StateAt(s0: State, ins: seq<Input>, t: nat): (s: State)
    requires |s0.busy| == WIDTH && t <= |ins|
    ensures |s.busy| == WIDTH
  {
    if t == 0 then s0 else Next(StateAt(s0, ins, t - 1), ins[t - 1])
  }

  /** The bus cycle is held, start-up happens once, and the master is polite. */
  ghost predicate Session(s0: State, ins: seq<Input>)
    requires |s0.busy| == WIDTH
  {
    forall t | 0 <= t < |ins| :: GoodClock(s0, ins, t)
  }

  ghost predicate GoodClock(s0: State, ins: seq<Input>, t: nat)
    requires |s0.busy| == WIDTH && t < |ins|
  {
    && ins[t].cyc
    && (t > 0 ==>
          && (ins[t].maintenance ==> ins[t - 1].maintenance)
          && Polite(StateAt(s0, ins, t - 1), ins[t - 1], ins[t]))
  }

  function PhaseAt(s0: State, ins: seq<Input>, t: nat): Phase
    requires |s0.busy| == WIDTH && t <= |ins|
  {
    if t == 0 then Starting(0) else PhaseNext(StateAt(s0, ins, t - 1), PhaseAt(s0, ins, t - 1), ins[t - 1])
  }

  /** When a read accepted now, at clock t, is due: 23 clocks later, or 9 for a pipelined one. */
  function NewDue(s: State, i: Input, t: nat): seq<nat> {
    if Takes(s, i) then [t + if s.pipeReq then 9 else 23] else []
  }

  /** The clocks at which the reads accepted before clock t are due. */
  function Due(s0: State, ins: seq<Input>, t: nat): seq<nat>
    requires |s0.busy| == WIDTH && t <= |ins|
  {
    if t == 0 then [] else Due(s0, ins, t - 1) + NewDue(StateAt(s0, ins, t - 1), ins[t - 1], t - 1)
  }

  function AckAt(s: State, t: nat): seq<nat> {
    if s.ack then [t] else []
  }

  /** The clocks up to and including t on which o_wb_ack is high. */
  function Acked(s0: State, ins: seq<Input>, t: nat): seq<nat>
    requires |s0.busy| == WIDTH && t <= |ins|
  {
    (if t == 0 then [] else Acked(s0, ins, t - 1)) + AckAt(StateAt(s0, ins, t), t)
  }

  /** What is still to be acknowledged after clock t. */
  function Pending(ph: Phase, t: nat): seq<nat> {
    if ph.Waiting? && ph.k < 22 then [t + 22 - ph.k] else []
  }

  /** One clock of a session, with everything it is known to obey. */
  lemma {:induction false} OneClock(s: State, ph: Phase, i: Input, i': Input, t: nat)
    requires |s.busy| == WIDTH && Matches(s, ph, i) && i.cyc && Polite(s, i, i')
    requires i.maintenance ==> ph == Starting(0)
    ensures Matches(Next(s, i), PhaseNext(s, ph, i), i')
    ensures Pending(ph, t) + NewDue(s, i, t) == AckAt(Next(s, i), t + 1) + Pending(PhaseNext(s, ph, i), t + 1)
    ensures i.maintenance ==> PhaseNext(s, ph, i) == Starting(0)
  {
    Step(s, ph, i, i');
  }

  ghost predicate InPhase(s0: State, ins: seq<Input>, t: nat)
    requires |s0.busy| == WIDTH && t < |ins|
  {
    && Matches(StateAt(s0, ins, t), PhaseAt(s0, ins, t), ins[t])
    && (ins[t].maintenance ==> PhaseAt(s0, ins, t) == Starting(0))
  }

  /** One clock of a run. */
  lemma {:induction false} OneClockOfRun(s0: State, ins: seq<Input>, t: nat, s: State, ph: Phase, i: Input)
    requires |s0.busy| == WIDTH && Session(s0, ins) && 0 < t < |ins| && InPhase(s0, ins, t - 1)
    requires s == StateAt(s0, ins, t - 1) && ph == PhaseAt(s0, ins, t - 1) && i == ins[t - 1]
    ensures Matches(Next(s, i), PhaseNext(s, ph, i), ins[t]) && (i.maintenance ==> PhaseNext(s, ph, i) == Starting(0))
    ensures Pending(ph, t - 1) + NewDue(s, i, t - 1) == AckAt(Next(s, i), t) + Pending(PhaseNext(s, ph, i), t)
  {
    assert GoodClock(s0, ins, t - 1) && GoodClock(s0, ins, t);
    OneClock(s, ph, i, ins[t], t - 1);
  }

  lemma RunNext(s0: State, ins: seq<Input>, t: nat, s: State, ph: Phase, i: Input)
    requires |s0.busy| == WIDTH && 0 < t <= |ins|
    requires s == StateAt(s0, ins, t - 1) && ph == PhaseAt(s0, ins, t - 1) && i == ins[t - 1]
    ensures StateAt(s0, ins, t) == Next(s, i) && PhaseAt(s0, ins, t) == PhaseNext(s, ph, i)
    ensures Due(s0, ins, t) == Due(s0, ins, t - 1) + NewDue(s, i, t - 1)
    ensures Acked(s0, ins, t) == Acked(s0, ins, t - 1) + AckAt(Next(s, i), t)
  {
  }

  lemma {:induction false} AlwaysInPhase(s0: State, ins: seq<Input>, t: nat)
    requires |s0.busy| == WIDTH && t < |ins| && InPhase(s0, ins, 0) && Session(s0, ins)
    ensures InPhase(s0, ins, t)
  {
    if t > 0 {
      AlwaysInPhase(s0, ins, t - 1);
      var s, ph, i := StateAt(s0, ins, t - 1), PhaseAt(s0, ins, t - 1), ins[t - 1];
      assert GoodClock(s0, ins, t);
      OneClockOfRun(s0, ins, t, s, ph, i);
      RunNext(s0, ins, t, s, ph, i);
    }
  }

  lemma {:induction false} Regroup(due: seq<nat>, acked: seq<nat>, p: seq<nat>, more: seq<nat>, a: seq<nat>,
                                   p': seq<nat>)
    requires due == acked + p && p + more == a + p'
    ensures due + more == acked + a + p'
  {
    assert due + more == acked + (p + more);
  }

  /** What one clock adds to both sides, and what is pending around it. */
  lemma {:induction false} TallyOfClock(s0: State, ins: seq<Input>, t: nat, s: State, ph: Phase, i: Input, p: seq<nat>)
    requires |s0.busy| == WIDTH && Session(s0, ins) && 0 < t < |ins| && InPhase(s0, ins, t - 1)
    requires s == StateAt(s0, ins, t - 1) && ph == PhaseAt(s0, ins, t - 1) && i == ins[t - 1] && p == Pending(ph, t - 1)
    requires Due(s0, ins, t - 1) == Acked(s0, ins, t - 1) + p
    ensures Due(s0, ins, t) == Acked(s0, ins, t) + Pending(PhaseNext(s, ph, i), t)
  {
    OneClockOfRun(s0, ins, t, s, ph, i);
    RunNext(s0, ins, t, s, ph, i);
    Regroup(Due(s0, ins, t - 1), Acked(s0, ins, t - 1), p, NewDue(s, i, t - 1),
            AckAt(Next(s, i), t), Pending(PhaseNext(s, ph, i), t));
  }

  lemma {:induction false} Tally(s0: State, ins: seq<Input>, t: nat)
    requires |s0.busy| == WIDTH && !s0.ack && t < |ins| && InPhase(s0, ins, 0) && Session(s0, ins)
    ensures Due(s0, ins, t) == Acked(s0, ins, t) + Pending(PhaseAt(s0, ins, t), t)
  {
    if t > 0 {
      var before := t - 1;
      var s, ph, i := StateAt(s0, ins, before), PhaseAt(s0, ins, before), ins[before];
      Tally(s0, ins, before);
      AlwaysInPhase(s0, ins, before);
      TallyOfClock(s0, ins, t, s, ph, i, Pending(ph, before));
      RunNext(s0, ins, t, s, ph, i);
    }
  }

  /** Every accepted read is acknowledged once, in order, on exactly the clock it is due. */
  lemma {:induction false} AckedWhenDue(s0: State, ins: seq<Input>, t: nat)
    requires Reset(s0) && Session(s0, ins) && t < |ins|
    ensures Due(s0, ins, t) == Acked(s0, ins, t) + Pending(PhaseAt(s0, ins, t), t)
  {
    assert InPhase(s0, ins, 0);
    Tally(s0, ins, t);
  }

  /** Without the pipelining option every read takes the full 23 clocks. */
  lemma {:induction false} UnpipelinedDues(s0: State, ins: seq<Input>, t: nat)
    requires Reset(s0) && !s0.pipelined && t < |ins|
    ensures !StateAt(s0, ins, t).pipelined && !StateAt(s0, ins, t).pipeReq
    ensures Takes(StateAt(s0, ins, t), ins[t]) ==> NewDue(StateAt(s0, ins, t), ins[t], t) == [t + 23]
  {
    if t > 0 {
      UnpipelinedDues(s0, ins, t - 1);
    }
  }

  /** So the acknowledgements are exactly the dues that have come, and never more
      than two accepted reads have not yet had theirs on an earlier clock. */
  lemma {:induction false} AtMostTwoOutstanding(s0: State, ins: seq<Input>, t: nat)
    requires Reset(s0) && Session(s0, ins) && 0 < t < |ins|
    ensures Acked(s0, ins, t - 1) <= Acked(s0, ins, t) <= Due(s0, ins, t)
    ensures |Due(s0, ins, t)| <= |Acked(s0, ins, t - 1)| + 2
  {
    AckedWhenDue(s0, ins, t);
  }

  // ----- which reads are pipelined -----

  /** The address of the last read accepted before clock t. */
  function LastAccepted(s0: State, ins: seq<Input>, t: nat): nat
    requires |s0.busy| == WIDTH && t <= |ins|
  {
    if t == 0 then s0.last
    else if Takes(StateAt(s0, ins, t - 1), ins[t - 1]) then ins[t - 1].addr
    else LastAccepted(s0, ins, t - 1)
  }

  lemma {:induction false} LastIsAccepted(s0: State, ins: seq<Input>, t: nat)
    requires |s0.busy| == WIDTH && t <= |ins|
    ensures StateAt(s0, ins, t).last == LastAccepted(s0, ins, t)
    ensures StateAt(s0, ins, t).pipelined == s0.pipelined
  {
    if t > 0 {
      LastIsAccepted(s0, ins, t - 1);
    }
  }

  /** Some read accepted before clock t had not been acknowledged before it. */
  predicate Unfinished(s0: State, ins: seq<Input>, t: nat)
    requires |s0.busy| == WIDTH && 0 < t <= |ins|
  {
    |Acked(s0, ins, t - 1)| < |Due(s0, ins, t)|
  }

  /** On clock t - 1 the master was asking for the word after the last one accepted. */
  predicate AskedForNext(s0: State, ins: seq<Input>, t: nat)
    requires |s0.busy| == WIDTH && 0 < t <= |ins|
  {
    ins[t - 1].stb && ins[t - 1].addr == (LastAccepted(s0, ins, t) + 1) % 0x40_0000
  }

  /** A read accepted at clock t is due nine clocks later exactly when the core is
      pipelined, the read before it was unfinished, and the next word was being
      asked for on the clock before; otherwise it is due twenty-three later. */
  lemma {:induction false} PipelinedExactly(s0: State, ins: seq<Input>, t: nat)
    requires Reset(s0) && Session(s0, ins) && 0 < t < |ins| && Takes(StateAt(s0, ins, t), ins[t])
    ensures var quick := s0.pipelined && Unfinished(s0, ins, t) && AskedForNext(s0, ins, t);
            Due(s0, ins, t + 1) == Due(s0, ins, t) + [t + if quick then 9 else 23]
  {
    LastIsAccepted(s0, ins, t);
    UnfinishedExactly(s0, ins, t);
    RecognisedExactly(s0, ins, t, StateAt(s0, ins, t), PhaseAt(s0, ins, t), ins[t - 1], ins[t]);
    DueNext(s0, ins, t, StateAt(s0, ins, t));
  }

  lemma DueNext(s0: State, ins: seq<Input>, t: nat, s: State)
    requires |s0.busy| == WIDTH && t < |ins| && s == StateAt(s0, ins, t)
    ensures Due(s0, ins, t + 1) == Due(s0, ins, t) + NewDue(s, ins[t], t)
  {
  }

  /** What is known of each clock of a session. */
  lemma {:induction false} ClockFacts(s0: State, ins: seq<Input>, t: nat, s: State, ph: Phase, i: Input)
    requires Reset(s0) && Session(s0, ins) && t < |ins|
    requires s == StateAt(s0, ins, t) && ph == PhaseAt(s0, ins, t) && i == ins[t]
    ensures Matches(s, ph, i) && i.cyc && (i.maintenance ==> ph == Starting(0))
  {
    assert GoodClock(s0, ins, t);
    AlwaysInPhase(s0, ins, t);
  }

  lemma {:induction false} RecognisedExactly(s0: State, ins: seq<Input>, t: nat, s': State, ph': Phase,
                                             i: Input, j: Input)
    requires Reset(s0) && Session(s0, ins) && 0 < t < |ins| && Takes(s', j)
    requires s' == StateAt(s0, ins, t) && ph' == PhaseAt(s0, ins, t) && i == ins[t - 1] && j == ins[t]
    ensures s'.pipeReq <==> s'.pipelined && ph'.Waiting? && i.stb && i.addr == (s'.last + 1) % 0x40_0000
  {
    var s, ph := StateAt(s0, ins, t - 1), PhaseAt(s0, ins, t - 1);
    ClockFacts(s0, ins, t - 1, s, ph, i);
    ClockFacts(s0, ins, t, s', ph', j);
    RunNext(s0, ins, t, s, ph, i);
    TakenLater(s, ph, i, s', ph', j);
  }

  lemma {:induction false} UnfinishedExactly(s0: State, ins: seq<Input>, t: nat)
    requires Reset(s0) && Session(s0, ins) && 0 < t < |ins|
    ensures Unfinished(s0, ins, t) <==> PhaseAt(s0, ins, t).Waiting?
  {
    AckedWhenDue(s0, ins, t);
    AlwaysInPhase(s0, ins, t);
  }

  /** The clock before an acceptance was not one itself, so a recognised request is
      the one that was there then. */
  lemma {:induction false} TakenLater(s: State, ph: Phase, i: Input, s': State, ph': Phase, j: Input)
    requires |s.busy| == WIDTH && Matches(s, ph, i) && i.cyc && (i.maintenance ==> ph == Starting(0))
    requires s' == Next(s, i) && ph' == PhaseNext(s, ph, i) && Matches(s', ph', j) && Takes(s', j)
    ensures s'.pipeReq <==> s'.pipelined && ph'.Waiting? && i.stb && i.addr == (s'.last + 1) % 0x40_0000
  {
  }

  /** Two words in a row, asked for back to back of a pipelined core that was idle, are
      due twenty-three and thirty-one clocks after the first was accepted. */
  lemma {:induction false} BackToBack(s0: State, ins: seq<Input>, t: nat)
    requires Reset(s0) && s0.pipelined && Session(s0, ins) && 0 < t && t + 22 < |ins|
    requires Takes(StateAt(s0, ins, t), ins[t]) && !Unfinished(s0, ins, t)
    requires Asking(ins, t + 1, t + 23, ins[t].addr)
    ensures Due(s0, ins, t + 23) == Due(s0, ins, t) + [t + 23, t + 31]
  {
    QueueForms(s0, ins, t, StateAt(s0, ins, t), PhaseAt(s0, ins, t), ins[t]);
    QueueWaits(s0, ins, t + 1, ins[t].addr);
    DueUnmoved(s0, ins, t + 1, t + 22);
    TurnComes(s0, ins, t + 22, StateAt(s0, ins, t + 22), PhaseAt(s0, ins, t + 22), ins[t + 22], ins[t].addr);
    Join(Due(s0, ins, t), t + 23, t + 31);
  }

  lemma {:induction false} QueueWaits(s0: State, ins: seq<Input>, t: nat, a: nat)
    requires Reset(s0) && Session(s0, ins) && t + 21 < |ins| && Asking(ins, t, t + 22, a)
    requires Queued(StateAt(s0, ins, t), PhaseAt(s0, ins, t), a, 1)
    ensures forall k | t <= k < t + 21 :: TakesNone(s0, ins, k)
    ensures Queued(StateAt(s0, ins, t + 21), PhaseAt(s0, ins, t + 21), a, 22) && ins[t + 21].stb
  {
    forall k | t <= k < t + 21
      ensures TakesNone(s0, ins, k)
    {
      QueuedUntil(s0, ins, t, k, a);
    }
    QueuedUntil(s0, ins, t, t + 21, a);
  }

  lemma {:induction false} TurnComes(s0: State, ins: seq<Input>, u: nat, s: State, ph: Phase, i: Input, a: nat)
    requires |s0.busy| == WIDTH && u < |ins| && s == StateAt(s0, ins, u) && i == ins[u]
    requires Queued(s, ph, a, 22) && i.stb
    ensures Due(s0, ins, u + 1) == Due(s0, ins, u) + [u + 9]
  {
    DueNext(s0, ins, u, s);
  }

  lemma Join(due: seq<nat>, x: nat, y: nat)
    ensures due + [x] + [y] == due + [x, y]
  {
  }

  /** n clocks into that: the second request has been recognised and waits its turn,
      which comes at the twenty-second. */
  predicate Queued(s: State, ph: Phase, a: nat, n: nat) {
    && n > 0 && ph == Waiting(n - 1, n == 1)
    && s.last == a && s.pipelined && (s.pipeReq <==> n >= 2) && (s.stall <==> n < 22)
  }

  /** The request for the next word is there from clock t up to clock u. */
  ghost predicate Asking(ins: seq<Input>, t: nat, u: nat, a: nat)
    requires u <= |ins|
  {
    forall k | t <= k < u :: ins[k].stb && ins[k].addr == (a + 1) % 0x40_0000
  }

  lemma {:induction false} QueuedUntil(s0: State, ins: seq<Input>, t: nat, u: nat, a: nat)
    requires Reset(s0) && Session(s0, ins) && t <= u < |ins| && u <= t + 21 && Asking(ins, t, u, a)
    requires Queued(StateAt(s0, ins, t), PhaseAt(s0, ins, t), a, 1)
    ensures Queued(StateAt(s0, ins, u), PhaseAt(s0, ins, u), a, u - t + 1)
  {
    if u > t {
      QueuedUntil(s0, ins, t, u - 1, a);
      QueueStays(s0, ins, u, StateAt(s0, ins, u - 1), PhaseAt(s0, ins, u - 1), ins[u - 1], a, u - t);
    }
  }

  predicate TakesNone(s0: State, ins: seq<Input>, t: nat)
    requires |s0.busy| == WIDTH && t < |ins|
  {
    !Takes(StateAt(s0, ins, t), ins[t])
  }

  /** Nothing becomes due while nothing is accepted. */
  lemma {:induction false} DueUnmoved(s0: State, ins: seq<Input>, t: nat, u: nat)
    requires |s0.busy| == WIDTH && t <= u <= |ins| && forall k | t <= k < u :: TakesNone(s0, ins, k)
    ensures Due(s0, ins, u) == Due(s0, ins, t)
  {
    if u > t {
      DueUnmoved(s0, ins, t, u - 1);
      DueNext(s0, ins, u - 1, StateAt(s0, ins, u - 1));
      assert TakesNone(s0, ins, u - 1);
      assert Due(s0, ins, u - 1) + [] == Due(s0, ins, u - 1);
    }
  }

  lemma {:induction false} QueueForms(s0: State, ins: seq<Input>, t: nat, s: State, ph: Phase, i: Input)
    requires Reset(s0) && s0.pipelined && Session(s0, ins) && 0 < t && t + 1 < |ins|
    requires s == StateAt(s0, ins, t) && ph == PhaseAt(s0, ins, t) && i == ins[t]
    requires Takes(s, i) && !Unfinished(s0, ins, t)
    ensures Queued(StateAt(s0, ins, t + 1), PhaseAt(s0, ins, t + 1), i.addr, 1)
    ensures Due(s0, ins, t + 1) == Due(s0, ins, t) + [t + 23]
  {
    ClockFacts(s0, ins, t, s, ph, i);
    LastIsAccepted(s0, ins, t);
    UnfinishedExactly(s0, ins, t);
    RunNext(s0, ins, t + 1, s, ph, i);
    FirstQueued(s, ph, i);
  }

  lemma {:induction false} QueueStays(s0: State, ins: seq<Input>, u: nat, s: State, ph: Phase, i: Input, a: nat, n: nat)
    requires Reset(s0) && Session(s0, ins) && 0 < u < |ins| && n < 22 && Queued(s, ph, a, n)
    requires s == StateAt(s0, ins, u - 1) && ph == PhaseAt(s0, ins, u - 1) && i == ins[u - 1]
    requires i.stb && i.addr == (a + 1) % 0x40_0000
    ensures Queued(StateAt(s0, ins, u), PhaseAt(s0, ins, u), a, n + 1)
  {
    ClockFacts(s0, ins, u - 1, s, ph, i);
    RunNext(s0, ins, u, s, ph, i);
    NextQueued(s, ph, i, a, n);
  }

  lemma FirstQueued(s: State, ph: Phase, i: Input)
    requires |s.busy| == WIDTH && Matches(s, ph, i) && !ph.Waiting? && Takes(s, i) && i.cyc && s.pipelined
    ensures Queued(Next(s, i), PhaseNext(s, ph, i), i.addr, 1) && !s.pipeReq
  {
  }

  lemma NextQueued(s: State, ph: Phase, i: Input, a: nat, n: nat)
    requires |s.busy| == WIDTH && Matches(s, ph, i) && Queued(s, ph, a, n) && n < 22
    requires i.cyc && (i.maintenance ==> ph == Starting(0)) && i.stb && i.addr == (a + 1) % 0x40_0000
    ensures Queued(Next(s, i), PhaseNext(s, ph, i), a, n + 1) && !Takes(s, i)
  {
  }

  // ----- dropping the bus cycle -----

  /** No read is accepted while the cycle is held, from clock t up to clock u. */
  ghost predicate NothingAsked(s0: State, ins: seq<Input>, t: nat, u: nat)
    requires |s0.busy| == WIDTH && u <= |ins|
  {
    forall k | t <= k < u :: TakesNone(s0, ins, k) || !ins[k].cyc
  }

  /** Whatever was outstanding when the master drops the cycle is forgotten: from two
      clocks later no acknowledgement comes until another read is accepted. */
  lemma {:induction false} DroppedIsForgotten(s0: State, ins: seq<Input>, t: nat, u: nat)
    requires |s0.busy| == WIDTH && t < u <= |ins| && !ins[t].cyc && NothingAsked(s0, ins, t, u)
    ensures !StateAt(s0, ins, u).preAck && (u >= t + 2 ==> !StateAt(s0, ins, u).ack)
  {
    if u > t + 1 {
      DroppedIsForgotten(s0, ins, t, u - 1);
      assert TakesNone(s0, ins, u - 1) || !ins[u - 1].cyc;
    }
  }
}
