/** rtl/wbscope.v with SYNCHRONOUS = 1: a logic analyser that records into a
    circular buffer until some time after a trigger and is then read out, oldest
    sample first, through a prefetching read port. */
module WbScope {
  import opened Bits

  type Word = bv32

  /** What the bus master does on one clock; Idle leaves the address line anywhere. */
  datatype BusOp =
    | Idle(addr: bool)
    | ReadControl
    | WriteControl(run: bool, manual: bool, disable: bool, word: nat)
    | ReadData
    | WriteData

  datatype Input = Input(ce: bool, trigger: bool, data: Word, bus: BusOp)

  /** o_wb_data: the status word's fields, or a sample. */
  datatype BusData =
    | Status(reset: bool, stopped: bool, triggered: bool, primed: bool, manual: bool, disable: bool,
      start: bool, holdoff: nat)
    | Sample(word: Word)

  /** The parameters: a memory of 2^lg words and a hold-off counter that wraps at span,
      which is 2^HOLDOFFBITS. */
  datatype Geometry = Geometry(lg: nat, span: nat)

  /** HOLDOFFBITS is from 1 to 20, what the status word has room for. */
  ghost predicate ValidGeometry(g: Geometry) {
    g.lg >= 1 && exists bits :: 1 <= bits <= 20 && g.span == Pow2(bits)
  }

  /** br_config and br_holdoff. */
  datatype Config = Config(resetRequest: bool, manual: bool, disable: bool, holdoff: nat)

  /** dr_triggered, dr_primed, dr_stopped, counter, waddr and the memory. */
  datatype Recorder = Recorder(triggered: bool, primed: bool, stopped: bool, counter: nat, waddr: nat, mem: seq<Word>)

  /** raddr, nxt_mem, o_wb_data and br_wb_ack. */
  datatype Port = Port(raddr: nat, nxt: Word, out: BusData, ack: bool)

  datatype ScopeState = ScopeState(cfg: Config, rec: Recorder, port: Port)

  predicate DataAddress(op: BusOp) {
    op.ReadData? || op.WriteData? || (op.Idle? && op.addr)
  }

  predicate Fires(c: Config, r: Recorder, i: Input) {
    r.primed && ((i.trigger && !c.disable) || c.manual)
  }

  function Count(n: nat, span: nat): (r: nat)
    requires n < span
    ensures r < span
  {
    if n + 1 == span then 0 else n + 1
  }

  function Wrap(n: nat, size: nat): (r: nat)
    requires size > 0
    ensures r < size
  {
    n % size
  }

  predicate Sized(g: Geometry, s: ScopeState) {
    && g.lg >= 1 && g.span >= 2
    && |s.rec.mem| == Pow2(g.lg) && s.rec.waddr < |s.rec.mem| && s.port.raddr < |s.rec.mem|
    && s.rec.counter < g.span && s.cfg.holdoff < g.span
  }

  function ConfigNext(span: nat, c: Config, op: BusOp): (c': Config)
    requires span > 0
    ensures c.holdoff < span ==> c'.holdoff < span
  {
    match op
    case WriteControl(run, m, d, word) => Config(!run, m, d, Wrap(word, span))
    case ReadControl => c
    case _ => c.(resetRequest := false)
  }

  function RecorderNext(span: nat, c: Config, r: Recorder, i: Input): (r': Recorder)
    requires r.waddr < |r.mem| && r.counter < span
    ensures r'.counter < span && r'.waddr < |r'.mem| == |r.mem|
  {
    var size := |r.mem|;
    var writes := i.ce && !r.stopped;
    Recorder(
      triggered := !c.resetRequest && (r.triggered || (i.ce && Fires(c, r, i))),
      primed := !c.resetRequest && (r.primed || (writes && r.waddr == size - 1)),
      stopped := r.triggered && !c.resetRequest && r.counter >= c.holdoff,
      counter :=
        if c.resetRequest then 0
        else if i.ce && r.triggered && !r.stopped then Count(r.counter, span) else r.counter,
      waddr := if c.resetRequest then 0 else if writes then Wrap(r.waddr + 1, size) else r.waddr,
      mem := if writes then r.mem[r.waddr := i.data] else r.mem)
  }

  function PortNext(c: Config, r: Recorder, p: Port, i: Input): (p': Port)
    requires r.mem != [] && p.raddr < |r.mem|
    ensures p'.raddr < |r.mem|
  {
    var op, size := i.bus, |r.mem|;
    Port(
      raddr :=
        if c.resetRequest || op.WriteData? then 0
        else if op.ReadData? && r.stopped then Wrap(p.raddr + 1, size)
        else p.raddr,
      nxt := r.mem[Wrap(p.raddr + r.waddr + (if op.ReadData? then 1 else 0), size)],
      out :=
        if !DataAddress(op) then
          Status(c.resetRequest, r.stopped, r.triggered, r.primed, c.manual, c.disable, p.raddr == 0, c.holdoff)
        else if !r.stopped then Sample(i.data)
        else Sample(p.nxt),
      ack := !op.Idle?)
  }

  /** The register values after one clock edge. */
  function ScopeNext(g: Geometry, s: ScopeState, i: Input): (s': ScopeState)
    requires Sized(g, s)
    ensures Sized(g, s')
  {
    ScopeState(
      ConfigNext(g.span, s.cfg, i.bus),
      RecorderNext(g.span, s.cfg, s.rec, i),
      PortNext(s.cfg, s.rec, s.port, i))
  }

  class Scope {
    const g: Geometry
    const mem: array<Word>
    var resetRequest: bool
    var manual: bool
    var disable: bool
    var holdoff: nat
    var triggered: bool
    var primed: bool
    var stopped: bool
    var counter: nat
    var waddr: nat
    var raddr: nat
    var nxt: Word
    var out: BusData
    var ack: bool

    ghost function View(): ScopeState
      reads this, mem
    {
      ScopeState(
        Config(resetRequest, manual, disable, holdoff),
        Recorder(triggered, primed, stopped, counter, waddr, mem[..]),
        Port(raddr, nxt, out, ack))
    }

    /** Power-up: the read side and the memory hold anything. */
    constructor (g: Geometry, mem: array<Word>, holdoff: nat, raddr: nat, nxt: Word, out: BusData)
      requires ValidGeometry(g) && mem.Length == Pow2(g.lg) && holdoff < g.span && raddr < mem.Length
      ensures this.g == g && this.mem == mem && Sized(g, View()) && PowerUp(View())
    {
      ghost var bits :| 1 <= bits <= 20 && g.span == Pow2(bits);
      Pow2Monotone(1, bits);
      this.g, this.mem, this.holdoff, this.raddr, this.nxt, this.out := g, mem, holdoff, raddr, nxt, out;
      resetRequest, manual, disable := true, false, false;
      triggered, primed, stopped, counter, waddr, ack := false, false, false, 0, 0, false;
    }

    /** One rising clock edge.  No part reads a register that an earlier part
        writes, so each sees only old values. */
    method Tick(i: Input)
      requires Sized(g, View())
      modifies this, mem
      ensures View() == ScopeNext(g, old(View()), i)
    {
      ReadPort(i);
      Record(i);
      Configure(i.bus);
    }

    /** raddr, nxt_mem, o_wb_data and the acknowledgement. */
    method ReadPort(i: Input)
      requires Sized(g, View())
      modifies `raddr, `nxt, `out, `ack
      ensures View().port == old(PortNext(View().cfg, View().rec, View().port, i))
    {
      var raddr' := NextAddress(i.bus);
      var nxt' := mem[Wrap(raddr + waddr + (if i.bus.ReadData? then 1 else 0), mem.Length)];
      var out' := Output(i);
      raddr, nxt, out, ack := raddr', nxt', out', !i.bus.Idle?;
    }

    method NextAddress(op: BusOp) returns (a: nat)
      requires raddr < mem.Length
      ensures a == if resetRequest || op.WriteData? then 0
                   else if op.ReadData? && stopped then Wrap(raddr + 1, mem.Length)
                   else raddr
    {
      a := raddr;
      if resetRequest || op.WriteData? {
        a := 0;
      } else if op.ReadData? && stopped {
        a := Wrap(raddr + 1, mem.Length);
      }
    }

    method Output(i: Input) returns (o: BusData)
      ensures o == if !DataAddress(i.bus) then
                     Status(resetRequest, stopped, triggered, primed, manual, disable, raddr == 0, holdoff)
                   else if !stopped then Sample(i.data)
                   else Sample(nxt)
    {
      if !DataAddress(i.bus) {
        o := Status(resetRequest, stopped, triggered, primed, manual, disable, raddr == 0, holdoff);
      } else if !stopped {
        o := Sample(i.data);
      } else {
        o := Sample(nxt);
      }
    }

    /** br_config and br_holdoff. */
    method Configure(op: BusOp)
      requires g.span > 0
      modifies `resetRequest, `manual, `disable, `holdoff
      ensures View().cfg == ConfigNext(g.span, old(View().cfg), op)
    {
      match op
      case WriteControl(run, m, d, word) =>
        resetRequest, manual, disable, holdoff := !run, m, d, Wrap(word, g.span);
      case ReadControl =>
      case _ =>
        if resetRequest {
          resetRequest := false;
        }
    }

    /** The trigger, the hold-off counter, the write address and the memory. */
    method Record(i: Input)
      requires Sized(g, View())
      modifies `triggered, `primed, `stopped, `counter, `waddr, mem
      ensures View().rec == old(RecorderNext(g.span, View().cfg, View().rec, i))
    {
      var trigger := primed && ((i.trigger && !disable) || manual);
      var triggered', counter', stopped' := triggered, counter, counter >= holdoff;
      if resetRequest {
        triggered' := false;
      } else if i.ce && trigger {
        triggered' := true;
      }
      if resetRequest {
        counter' := 0;
      } else if i.ce && triggered && !stopped {
        counter' := Count(counter, g.span);
      }
      if !triggered || resetRequest {
        stopped' := false;
      }
      var waddr', primed' := waddr, primed;
      if resetRequest {
        waddr', primed' := 0, false;
      } else if i.ce && !stopped {
        waddr', primed' := Wrap(waddr + 1, mem.Length), primed || waddr == mem.Length - 1;
      }
      if i.ce && !stopped {
        mem[waddr] := i.data;
      }
      triggered, counter, stopped, waddr, primed := triggered', counter', stopped', waddr', primed';
    }
  }

  predicate PowerUp(s: ScopeState) {
    && s.cfg.resetRequest && !s.cfg.manual && !s.cfg.disable
    && !s.rec.triggered && !s.rec.primed && !s.rec.stopped && s.rec.counter == 0 && s.rec.waddr == 0
  }

  // ----- the buffer against the plain sample history -----

  /** The samples recorded since the last reset, oldest first. */
  function HistoryNext(s: ScopeState, h: seq<Word>, i: Input): seq<Word> {
    if s.cfg.resetRequest then [] else if i.ce && !s.rec.stopped then h + [i.data] else h
  }

  /** The memory holds the most recent samples, each at its number modulo the
      size; and it is known to be full before the trigger can fire. */
  ghost predicate Captures(r: Recorder, h: seq<Word>) {
    && r.mem != []
    && r.waddr == |h| % |r.mem|
    && (r.primed <==> |h| >= |r.mem|)
    && (forall k {:trigger h[k]} | 0 <= k < |h| && |h| - |r.mem| <= k :: r.mem[k % |r.mem|] == h[k])
    && (r.triggered ==> r.primed)
    && (r.stopped ==> r.triggered)
    && (!r.triggered ==> r.counter == 0)
  }

  lemma {:induction false} CapturesStep(g: Geometry, s: ScopeState, h: seq<Word>, i: Input)
    requires Sized(g, s) && Captures(s.rec, h)
    ensures Captures(ScopeNext(g, s, i).rec, HistoryNext(s, h, i))
  {
    var r', h' := ScopeNext(g, s, i).rec, HistoryNext(s, h, i);
    var size := |s.rec.mem|;
    if !s.cfg.resetRequest && i.ce && !s.rec.stopped {
      SuccMod(|h|, size);
      forall k | 0 <= k < |h'| && |h'| - size <= k
        ensures r'.mem[k % size] == h'[k]
      {
        if k < |h| {
          assert h'[k] == h[k];
          ModDistinct(k, |h|, size);
        }
      }
    }
  }

  lemma {:induction false} SuccMod(n: nat, m: nat)
    requires m > 0
    ensures (n + 1) % m == (n % m + 1) % m
    ensures n % m == m - 1 && n < m ==> n + 1 == m
    ensures n + 1 >= m && n < m ==> n % m == m - 1
  {
    DivModFacts(n, m);
    if n % m + 1 < m {
      DivModUnique(n + 1, m, n / m, n % m + 1);
      DivModUnique(n % m + 1, m, 0, n % m + 1);
    } else {
      DivModUnique(n + 1, m, n / m + 1, 0);
      DivModUnique(m, m, 1, 0);
    }
    if n < m {
      DivModUnique(n, m, 0, n);
    }
  }

  /** Fewer than m apart means different places. */
  lemma {:induction false} ModDistinct(k: nat, n: nat, m: nat)
    requires m > 0 && k < n < k + m
    ensures k % m != n % m
  {
    DivModFacts(k, m);
    DivModFacts(n, m);
    if k % m == n % m {
      var d := n / m - k / m;
      assert n - k == d * m;
      if d >= 1 {
        MulLess(0, d, m);
      }
    }
  }

  function ScopeRun(g: Geometry, s: ScopeState, ins: seq<Input>): (s': ScopeState)
    requires Sized(g, s)
    ensures Sized(g, s')
    decreases |ins|
  {
    if ins == [] then s else ScopeNext(g, ScopeRun(g, s, ins[..|ins| - 1]), ins[|ins| - 1])
  }

  function HistoryRun(g: Geometry, s: ScopeState, h: seq<Word>, ins: seq<Input>): seq<Word>
    requires Sized(g, s)
    decreases |ins|
  {
    if ins == [] then h
    else
      var n := |ins| - 1;
      HistoryNext(ScopeRun(g, s, ins[..n]), HistoryRun(g, s, h, ins[..n]), ins[n])
  }

  /** Whatever is recorded, triggered, configured or read, after any run. */
  lemma {:induction false} AlwaysCaptures(g: Geometry, s: ScopeState, h: seq<Word>, ins: seq<Input>)
    requires Sized(g, s) && Captures(s.rec, h)
    ensures Captures(ScopeRun(g, s, ins).rec, HistoryRun(g, s, h, ins))
    decreases |ins|
  {
    if ins != [] {
      var n := |ins| - 1;
      AlwaysCaptures(g, s, h, ins[..n]);
      CapturesStep(g, ScopeRun(g, s, ins[..n]), HistoryRun(g, s, h, ins[..n]), ins[n]);
    }
  }

  lemma {:induction false} PowerUpCaptures(g: Geometry, s: ScopeState)
    requires Sized(g, s) && PowerUp(s)
    ensures Captures(s.rec, [])
  {
    DivModUnique(0, |s.rec.mem|, 0, 0);
  }

  // ----- the control register and the trigger -----

  /** A control write takes effect on the next clock; with the run bit clear it asks
      for a reset. */
  lemma ControlWritten(g: Geometry, s: ScopeState, i: Input)
    requires Sized(g, s) && i.bus.WriteControl?
    ensures var c := ScopeNext(g, s, i).cfg;
            && (c.resetRequest <==> !i.bus.run) && (c.manual <==> i.bus.manual) && (c.disable <==> i.bus.disable)
            && c.holdoff == i.bus.word % g.span
  {
  }

  /** Nothing else changes it, except that a reset is asked for once: any clock that
      does not read the control register withdraws the request. */
  lemma ControlKept(g: Geometry, s: ScopeState, i: Input)
    requires Sized(g, s) && !i.bus.WriteControl?
    ensures var c := ScopeNext(g, s, i).cfg;
            && c.manual == s.cfg.manual && c.disable == s.cfg.disable && c.holdoff == s.cfg.holdoff
            && (c.resetRequest <==> s.cfg.resetRequest && i.bus.ReadControl?)
  {
  }

  /** Clearing the run bit restarts the scope, whatever state it is in: two clocks
      later trigger, primed flag, stop, counter, addresses and history are clear. */
  lemma {:induction false} ResetRestarts(g: Geometry, s: ScopeState, h: seq<Word>, i: Input, j: Input)
    requires Sized(g, s) && i.bus.WriteControl? && !i.bus.run
    ensures var asked := ScopeNext(g, s, i);
            var s' := ScopeNext(g, asked, j);
            && !s'.rec.triggered && !s'.rec.primed && !s'.rec.stopped
            && s'.rec.counter == 0 && s'.rec.waddr == 0 && s'.port.raddr == 0
            && HistoryNext(asked, HistoryNext(s, h, i), j) == []
  {
  }

  /** While it is not being reset the scope triggers on an enabled clock, once it is
      primed: on the external trigger unless that is disabled, or on the manual
      one.  And it never loses a trigger. */
  lemma TriggersExactly(g: Geometry, s: ScopeState, i: Input)
    requires Sized(g, s) && !s.cfg.resetRequest
    ensures var t' := ScopeNext(g, s, i).rec.triggered;
            && (s.rec.triggered ==> t')
            && (!s.rec.triggered ==>
                  (t' <==> i.ce && s.rec.primed && (s.cfg.manual || (i.trigger && !s.cfg.disable))))
  {
  }

  /** A control read returns the registers as they are, and every strobe is
      acknowledged on the next clock. */
  lemma ControlRead(g: Geometry, s: ScopeState, i: Input)
    requires Sized(g, s)
    ensures var p := ScopeNext(g, s, i).port;
            && (p.ack <==> i.bus.ReadControl? || i.bus.WriteControl? || i.bus.ReadData? || i.bus.WriteData?)
            && (i.bus.ReadControl? ==>
                  && p.out.Status? && p.out.reset == s.cfg.resetRequest && p.out.stopped == s.rec.stopped
                  && p.out.triggered == s.rec.triggered && p.out.primed == s.rec.primed
                  && p.out.manual == s.cfg.manual && p.out.disable == s.cfg.disable
                  && (p.out.start <==> s.port.raddr == 0) && p.out.holdoff == s.cfg.holdoff)
            && (i.bus.ReadData? && !s.rec.stopped ==> p.out == Sample(i.data))
  {
  }

  /** So what was written is what is read back. */
  lemma {:induction false} WrittenReadsBack(g: Geometry, s: ScopeState, i: Input, j: Input)
    requires Sized(g, s) && i.bus.WriteControl? && j.bus.ReadControl?
    ensures var out := ScopeNext(g, ScopeNext(g, s, i), j).port.out;
            && out.Status? && (out.reset <==> !i.bus.run) && out.manual == i.bus.manual
            && out.disable == i.bus.disable && out.holdoff == i.bus.word % g.span
  {
    ControlWritten(g, s, i);
    ControlRead(g, ScopeNext(g, s, i), j);
  }

  // ----- from the trigger to the stop -----

  /** The read address is still at the start when the trigger comes, as the lemmas
      about readout below ask. */
  predicate Rewound(s: ScopeState) {
    && (!s.rec.triggered && !s.cfg.resetRequest ==> s.port.raddr == 0)
    && (s.rec.stopped ==> s.rec.triggered)
  }

  lemma {:induction false} RewoundUntilTriggered(g: Geometry, s: ScopeState, ins: seq<Input>)
    requires Sized(g, s) && PowerUp(s)
    ensures Rewound(ScopeRun(g, s, ins))
    decreases |ins|
  {
    if ins != [] {
      var n := |ins| - 1;
      RewoundUntilTriggered(g, s, ins[..n]);
      RewoundStep(g, ScopeRun(g, s, ins[..n]), ins[n]);
    }
  }

  lemma RewoundStep(g: Geometry, s: ScopeState, i: Input)
    requires Sized(g, s) && Rewound(s)
    ensures Rewound(ScopeNext(g, s, i))
  {
  }

  predicate NoControlWrite(ins: seq<Input>) {
    forall j | 0 <= j < |ins| :: !ins[j].bus.WriteControl?
  }

  /** The data of the clocks on which i_ce is high. */
  function Sampled(ins: seq<Input>): (d: seq<Word>)
    ensures |d| <= |ins|
  {
    if ins == [] then []
    else
      var last := ins[|ins| - 1];
      Sampled(ins[..|ins| - 1]) + if last.ce then [last.data] else []
  }

  /** Stopped for good: the counter has reached the hold-off and no longer moves. */
  predicate Halted(s: ScopeState) {
    s.rec.stopped && s.rec.triggered && !s.cfg.resetRequest && s.rec.counter >= s.cfg.holdoff
  }

  lemma {:induction false} HaltedStep(g: Geometry, s: ScopeState, i: Input)
    requires Sized(g, s) && Halted(s) && !i.bus.WriteControl?
    ensures var s' := ScopeNext(g, s, i); Halted(s') && s'.rec == s.rec && s'.cfg == s.cfg
  {
  }

  /** Armed, recording or stopped under a hold-off that is not all ones. */
  predicate Guarded(g: Geometry, s: ScopeState) {
    && !s.cfg.resetRequest && s.cfg.holdoff < g.span - 1
    && (!s.rec.stopped ==> s.port.raddr == 0)
    && (!s.rec.triggered ==> s.rec.counter == 0 && !s.rec.stopped)
    && (s.rec.triggered && !s.rec.stopped ==> s.rec.counter <= s.cfg.holdoff)
    && (s.rec.stopped ==> s.rec.triggered && s.cfg.holdoff <= s.rec.counter <= s.cfg.holdoff + 1)
  }

  /** One clock, whatever i_ce, the trigger and the bus do short of a control write. */
  lemma {:induction false} GuardedStep(g: Geometry, s: ScopeState, i: Input)
    requires Sized(g, s) && Guarded(g, s) && !i.bus.WriteControl?
    ensures var s' := ScopeNext(g, s, i);
            && Guarded(g, s') && s'.cfg == s.cfg
            && (s'.rec.stopped ==> Halted(s'))
            && (!s.rec.stopped ==> s'.port.raddr == 0)
  {
  }

  lemma {:induction false} GuardedRun(g: Geometry, s: ScopeState, ins: seq<Input>)
    requires Sized(g, s) && Guarded(g, s) && NoControlWrite(ins)
    ensures Guarded(g, ScopeRun(g, s, ins)) && ScopeRun(g, s, ins).cfg == s.cfg
    decreases |ins|
  {
    if ins != [] {
      var n := |ins| - 1;
      GuardedRun(g, s, ins[..n]);
      GuardedStep(g, ScopeRun(g, s, ins[..n]), ins[n]);
    }
  }

  /** The clock after a reset was requested leaves the scope so. */
  lemma {:induction false} ResetGuards(g: Geometry, s: ScopeState, i: Input)
    requires Sized(g, s) && s.cfg.resetRequest && s.cfg.holdoff < g.span - 1
    requires !i.bus.WriteControl? && !i.bus.ReadControl?
    ensures Guarded(g, ScopeNext(g, s, i))
  {
  }

  /** So does a control write that arms it anew without a reset, as for a manual
      trigger, as long as nothing has triggered yet. */
  lemma {:induction false} ArmingGuards(g: Geometry, s: ScopeState, i: Input)
    requires Sized(g, s) && Guarded(g, s) && !s.rec.triggered
    requires i.bus.WriteControl? && i.bus.run && Wrap(i.bus.word, g.span) < g.span - 1
    ensures var s' := ScopeNext(g, s, i);
            && Guarded(g, s') && !s'.rec.stopped
            && s'.cfg == Config(false, i.bus.manual, i.bus.disable, Wrap(i.bus.word, g.span))
  {
  }

  /** However it came about, the stop of such a run is final and finds the read
      address at the start. */
  lemma {:induction false} StopIsFinal(g: Geometry, s: ScopeState, ins: seq<Input>)
    requires Sized(g, s) && Guarded(g, s) && NoControlWrite(ins) && ins != []
    requires !ScopeRun(g, s, ins[..|ins| - 1]).rec.stopped && ScopeRun(g, s, ins).rec.stopped
    ensures Halted(ScopeRun(g, s, ins)) && ScopeRun(g, s, ins).port.raddr == 0
  {
    var n := |ins| - 1;
    GuardedRun(g, s, ins[..n]);
    GuardedStep(g, ScopeRun(g, s, ins[..n]), ins[n]);
  }

  /** Of a run that begins with the trigger clock: the hold-off has not run out
      before its last clock. */
  predicate Running(holdoff: nat, ins: seq<Input>) {
    |ins| <= 1 || |Sampled(ins[..|ins| - 1])| <= holdoff
  }

  /** k samples after the one that triggered under configuration c. */
  predicate Counting(g: Geometry, s: ScopeState, c: Config, k: nat) {
    && s.cfg == c && s.rec.triggered && s.port.raddr == 0
    && s.rec.counter == (if k == g.span then 0 else k)
  }

  lemma CountingStep(g: Geometry, s: ScopeState, c: Config, k: nat, i: Input)
    requires Sized(g, s) && !c.resetRequest && Counting(g, s, c, k) && !s.rec.stopped && k <= c.holdoff
    requires !i.bus.WriteControl?
    ensures var s' := ScopeNext(g, s, i);
            && Counting(g, s', c, if i.ce then k + 1 else k)
            && (s'.rec.stopped <==> k == c.holdoff)
  {
  }

  /** Up to and with the stop every clock that is enabled records a sample, whatever
      gaps there are, and the counter counts those after the trigger. */
  lemma {:induction false} AfterTrigger(g: Geometry, s: ScopeState, h: seq<Word>, ins: seq<Input>)
    requires Sized(g, s) && Captures(s.rec, h) && !s.cfg.resetRequest && !s.rec.triggered && s.port.raddr == 0
    requires ins != [] && NoControlWrite(ins) && ins[0].ce && Fires(s.cfg, s.rec, ins[0])
    requires |ins| == 1 || Running(s.cfg.holdoff, ins[..|ins| - 1])
    ensures |Sampled(ins)| >= 1
    ensures Counting(g, ScopeRun(g, s, ins), s.cfg, |Sampled(ins)| - 1)
    ensures ScopeRun(g, s, ins).rec.stopped <==> !Running(s.cfg.holdoff, ins)
    ensures Running(s.cfg.holdoff, ins) ==> |Sampled(ins)| - 1 <= s.cfg.holdoff
    ensures HistoryRun(g, s, h, ins) == h + Sampled(ins)
    decreases |ins|
  {
    var n := |ins| - 1;
    if n == 0 {
      TriggerClock(g, s, h, ins);
    } else {
      var before := ins[..n];
      if n > 1 {
        SampledGrows(before);
      }
      AfterTrigger(g, s, h, before);
      CountingStep(g, ScopeRun(g, s, before), s.cfg, |Sampled(before)| - 1, ins[n]);
      LastSample(h, Sampled(before), Sampled(ins), ins[n]);
    }
  }

  lemma {:induction false} TriggerClock(g: Geometry, s: ScopeState, h: seq<Word>, ins: seq<Input>)
    requires Sized(g, s) && Captures(s.rec, h) && !s.cfg.resetRequest && !s.rec.triggered && s.port.raddr == 0
    requires |ins| == 1 && !ins[0].bus.WriteControl? && ins[0].ce && Fires(s.cfg, s.rec, ins[0])
    ensures Sampled(ins) == [ins[0].data] && HistoryRun(g, s, h, ins) == h + Sampled(ins)
    ensures Counting(g, ScopeRun(g, s, ins), s.cfg, 0) && !ScopeRun(g, s, ins).rec.stopped
  {
    assert ins[..0] == [];
    assert ScopeRun(g, s, ins[..0]) == s && HistoryRun(g, s, h, ins[..0]) == h && Sampled(ins[..0]) == [];
  }

  lemma LastSample(h: seq<Word>, before: seq<Word>, after: seq<Word>, i: Input)
    requires after == before + if i.ce then [i.data] else []
    ensures h + after == if i.ce then h + before + [i.data] else h + before
  {
  }

  /** A run that was still running at the end was so one clock earlier. */
  lemma {:induction false} SampledGrows(ins: seq<Input>)
    requires |ins| > 1
    ensures |Sampled(ins[..|ins| - 2])| <= |Sampled(ins[..|ins| - 1])|
    ensures ins[..|ins| - 1][..|ins| - 2] == ins[..|ins| - 2]
  {
    assert ins[..|ins| - 1][..|ins| - 2] == ins[..|ins| - 2];
  }

  /** The stopping clock: its run is the first on which the hold-off has run out. */
  predicate Stopping(holdoff: nat, ins: seq<Input>) {
    |ins| >= 2 && Running(holdoff, ins[..|ins| - 1]) && !Running(holdoff, ins)
  }

  /** The samples after the trigger number the hold-off plus one when the clock is
      enabled on the stopping clock and the hold-off otherwise.  The stop holds
      exactly when the hold-off is not all ones or that clock is not enabled:
      otherwise the counter has wrapped to zero and recording resumes. */
  lemma {:induction false} StopHoldsExactly(g: Geometry, s: ScopeState, h: seq<Word>, ins: seq<Input>, more: seq<Input>)
    requires Sized(g, s) && Captures(s.rec, h) && !s.cfg.resetRequest && !s.rec.triggered && s.port.raddr == 0
    requires NoControlWrite(ins) && Stopping(s.cfg.holdoff, ins) && ins[0].ce && Fires(s.cfg, s.rec, ins[0])
    requires more != [] && NoControlWrite(more)
    ensures var stop, ce := ScopeRun(g, s, ins), ins[|ins| - 1].ce;
            var holds := s.cfg.holdoff < g.span - 1 || !ce;
            && |Sampled(ins)| == 1 + s.cfg.holdoff + (if ce then 1 else 0)
            && stop.rec.stopped && stop.port.raddr == 0
            && (Halted(stop) <==> holds)
            && (ScopeNext(g, stop, more[0]).rec.stopped <==> holds)
            && (holds ==> ScopeRun(g, stop, more).rec == stop.rec)
  {
    AfterTrigger(g, s, h, ins[..|ins| - 1]);
    AfterTrigger(g, s, h, ins);
    var stop := ScopeRun(g, s, ins);
    if Halted(stop) {
      StaysHalted(g, stop, more);
      HaltedStep(g, stop, more[0]);
    }
  }

  /** The nine-bit instance of rtl/busmaster.v under its largest hold-off, enabled on
      every clock: it stops, and on the next clock it no longer is. */
  lemma {:induction false} AllOnesResumes(word: Word) returns (s: ScopeState, ins: seq<Input>)
    ensures var g := Geometry(6, 0x200);
            && Sized(g, s) && Captures(s.rec, seq(64, _ => word)) && s.cfg.holdoff == 0x1ff
            && ins != [] && NoControlWrite(ins)
            && ScopeRun(g, s, ins).rec.stopped
            && !ScopeNext(g, ScopeRun(g, s, ins), ins[0]).rec.stopped
  {
    var g, h := Geometry(6, 0x200), seq(64, _ => word);
    var i := Input(true, true, word, Idle(false));
    s := ScopeState(
      Config(false, false, false, 0x1ff),
      Recorder(false, true, false, 0, 0, h),
      Port(0, word, Sample(word), false));
    ins := seq(0x201, _ => i);
    assert Pow2(6) == 64;
    SteadySamples(i, 0x201);
    SteadySamples(i, 0x200);
    SteadySamples(i, 0x1ff);
    assert ins[..0x200] == seq(0x200, _ => i) && ins[..0x200][..0x1ff] == seq(0x1ff, _ => i);
    StopHoldsExactly(g, s, h, ins, [i]);
  }

  lemma {:induction false} SteadySamples(i: Input, n: nat)
    requires i.ce
    ensures |Sampled(seq(n, _ => i))| == n
  {
    if n > 0 {
      SteadySamples(i, n - 1);
      assert seq(n, _ => i)[..n - 1] == seq(n - 1, _ => i);
    }
  }

  lemma {:induction false} StaysHalted(g: Geometry, s: ScopeState, ins: seq<Input>)
    requires Sized(g, s) && Halted(s) && NoControlWrite(ins)
    ensures var s' := ScopeRun(g, s, ins); Halted(s') && s'.rec == s.rec && s'.cfg == s.cfg
    decreases |ins|
  {
    if ins != [] {
      var n := |ins| - 1;
      StaysHalted(g, s, ins[..n]);
      HaltedStep(g, ScopeRun(g, s, ins[..n]), ins[n]);
    }
  }

  // ----- reading out -----

  /** The prefetched word is the one the next data read is due. */
  predicate Aligned(s: ScopeState)
    requires s.rec.mem != []
  {
    s.port.nxt == s.rec.mem[Wrap(s.port.raddr + s.rec.waddr, |s.rec.mem|)]
  }

  predicate Reading(op: BusOp) {
    op.Idle? || op.ReadControl? || op.ReadData?
  }

  predicate AllReading(ins: seq<Input>) {
    forall j | 0 <= j < |ins| :: Reading(ins[j].bus)
  }

  /** Sample number |h| - size + j: the j-th oldest still held, going round. */
  function Oldest(h: seq<Word>, size: nat, j: nat): BusData
    requires 0 < size <= |h|
  {
    Sample(h[|h| - size + Wrap(j, size)])
  }

  /** What o_wb_data shows after each data read of a run. */
  function Reads(g: Geometry, s: ScopeState, ins: seq<Input>): seq<BusData>
    requires Sized(g, s)
    decreases |ins|
  {
    if ins == [] then []
    else
      var n := |ins| - 1;
      Reads(g, s, ins[..n]) + if ins[n].bus.ReadData? then [ScopeRun(g, s, ins).port.out] else []
  }

  function OldestFirst(h: seq<Word>, size: nat, m: nat): (r: seq<BusData>)
    requires 0 < size <= |h|
    ensures |r| == m
  {
    if m == 0 then [] else OldestFirst(h, size, m - 1) + [Oldest(h, size, m - 1)]
  }

  lemma {:induction false} PortStep(c: Config, r: Recorder, p: Port, i: Input)
    requires r.mem != [] && p.raddr < |r.mem| && !c.resetRequest && r.stopped && Reading(i.bus)
    ensures var p', size := PortNext(c, r, p, i), |r.mem|;
            && p'.raddr == (if i.bus.ReadData? then Wrap(p.raddr + 1, size) else p.raddr)
            && p'.nxt == r.mem[Wrap(p'.raddr + r.waddr, size)]
            && (i.bus.ReadData? ==> p'.out == Sample(p.nxt))
  {
    if i.bus.ReadData? {
      WrapSum(p.raddr + 1, r.waddr, |r.mem|);
    }
  }

  /** A clock without a rewind lines the prefetch up, and it stays lined up. */
  lemma {:induction false} ReadStep(g: Geometry, s: ScopeState, i: Input)
    requires Sized(g, s) && Halted(s) && Reading(i.bus)
    ensures var s' := ScopeNext(g, s, i);
            && Aligned(s')
            && s'.port.raddr == (if i.bus.ReadData? then Wrap(s.port.raddr + 1, |s.rec.mem|) else s.port.raddr)
            && (i.bus.ReadData? ==> s'.port.out == Sample(s.port.nxt))
  {
    HaltedStep(g, s, i);
    PortStep(s.cfg, s.rec, s.port, i);
  }

  lemma {:induction false} WrapSum(x: nat, y: nat, size: nat)
    requires size > 0
    ensures Wrap(Wrap(x, size) + y, size) == Wrap(x + y, size)
  {
    DivModFacts(x, size);
    DivModFacts(x % size + y, size);
    assert x + y == (x / size + (x % size + y) / size) * size + (x % size + y) % size by {
      MulDistributes(x / size, (x % size + y) / size, size);
    }
    DivModUnique(x + y, size, x / size + (x % size + y) / size, (x % size + y) % size);
  }

  /** Where the read address points is the sample that many places from the oldest. */
  lemma {:induction false} AlignedIsOldest(s: ScopeState, h: seq<Word>, j: nat)
    requires Captures(s.rec, h) && s.rec.primed && Aligned(s) && s.port.raddr == Wrap(j, |s.rec.mem|)
    ensures Sample(s.port.nxt) == Oldest(h, |s.rec.mem|, j)
  {
    var size, r := |s.rec.mem|, s.port.raddr;
    var k := |h| - size + r;
    DivModFacts(|h|, size);
    WrapSum(|h|, r, size);
    assert Wrap(r + s.rec.waddr, size) == Wrap(|h| + r, size);
    DivModFacts(|h| + r, size);
    DivModUnique(k, size, (|h| + r) / size - 1, (|h| + r) % size);
    assert s.rec.mem[k % size] == h[k];
  }

  /** With j reads behind it the port delivers the j-th oldest sample next. */
  lemma {:induction false} ReadDelivers(g: Geometry, s: ScopeState, h: seq<Word>, j: nat, i: Input)
    requires Sized(g, s) && Halted(s) && Reading(i.bus)
    requires Captures(s.rec, h) && s.rec.primed && Aligned(s) && s.port.raddr == Wrap(j, |s.rec.mem|)
    ensures var s' := ScopeNext(g, s, i);
            && Aligned(s')
            && s'.port.raddr == Wrap(if i.bus.ReadData? then j + 1 else j, |s.rec.mem|)
            && (i.bus.ReadData? ==> s'.port.out == Oldest(h, |s.rec.mem|, j))
  {
    AlignedIsOldest(s, h, j);
    ReadStep(g, s, i);
    WrapSum(j, 1, |s.rec.mem|);
  }

  /** Once halted, lined up and rewound, the j-th data read returns the j-th oldest
      sample of the buffer, whatever idle clocks and control reads come between. */
  lemma {:induction false} ReadsOldestFirst(g: Geometry, s: ScopeState, h: seq<Word>, ins: seq<Input>)
    requires Sized(g, s) && Captures(s.rec, h) && Halted(s) && Aligned(s) && s.port.raddr == 0
    requires AllReading(ins)
    ensures |h| >= |s.rec.mem|
    ensures Reads(g, s, ins) == OldestFirst(h, |s.rec.mem|, |Reads(g, s, ins)|)
    decreases |ins|
  {
    if ins != [] {
      var n := |ins| - 1;
      ReadsOldestFirst(g, s, h, ins[..n]);
      ReadPointer(g, s, h, ins[..n]);
      OneRead(g, s, h, ins, ins[..n], ScopeRun(g, s, ins[..n]), |Reads(g, s, ins[..n])|);
    }
  }

  lemma {:induction false} OneRead(g: Geometry, s: ScopeState, h: seq<Word>, ins: seq<Input>, before: seq<Input>,
                                   s1: ScopeState, j: nat)
    requires Sized(g, s) && AllReading(ins) && ins != [] && before == ins[..|ins| - 1]
    requires s1 == ScopeRun(g, s, before) && Halted(s1) && Aligned(s1) && s1.rec == s.rec
    requires Captures(s.rec, h) && |h| >= |s.rec.mem| && s1.port.raddr == Wrap(j, |s.rec.mem|)
    requires j == |Reads(g, s, before)| && Reads(g, s, before) == OldestFirst(h, |s.rec.mem|, j)
    ensures Reads(g, s, ins) == OldestFirst(h, |s.rec.mem|, |Reads(g, s, ins)|)
  {
    ReadDelivers(g, s1, h, j, ins[|ins| - 1]);
  }

  /** The read address counts the data reads. */
  lemma {:induction false} ReadPointer(g: Geometry, s: ScopeState, h: seq<Word>, ins: seq<Input>)
    requires Sized(g, s) && Captures(s.rec, h) && Halted(s) && Aligned(s) && s.port.raddr == 0
    requires AllReading(ins)
    ensures var s' := ScopeRun(g, s, ins);
            Halted(s') && s'.rec == s.rec && Aligned(s') && s'.port.raddr == Wrap(|Reads(g, s, ins)|, |s.rec.mem|)
    decreases |ins|
  {
    StaysHalted(g, s, ins);
    if ins == [] {
      DivModUnique(0, |s.rec.mem|, 0, 0);
    } else {
      var n := |ins| - 1;
      ReadPointer(g, s, h, ins[..n]);
      ReadDelivers(g, ScopeRun(g, s, ins[..n]), h, |Reads(g, s, ins[..n])|, ins[n]);
    }
  }

  /** One idle clock after a rewind lines the port up at the oldest sample again. */
  lemma {:induction false} RewindThenIdle(g: Geometry, s: ScopeState, rewind: Input, idle: Input)
    requires Sized(g, s) && Halted(s) && rewind.bus.WriteData? && idle.bus.Idle?
    ensures var s' := ScopeNext(g, ScopeNext(g, s, rewind), idle);
            Aligned(s') && s'.port.raddr == 0 && Halted(s') && s'.rec == s.rec
  {
    HaltedStep(g, s, rewind);
    ReadStep(g, ScopeNext(g, s, rewind), idle);
    HaltedStep(g, ScopeNext(g, s, rewind), idle);
  }

  /** Stopped, however it came about, with one idle clock after the stop: what is read
      is the last 2^lg of the samples taken, oldest first. */
  lemma {:induction false} OnceStopped(g: Geometry, s: ScopeState, h: seq<Word>, ins: seq<Input>, idle: Input,
                                       polls: seq<Input>)
    requires Sized(g, s) && Captures(s.rec, h) && Guarded(g, s) && NoControlWrite(ins) && ins != []
    requires !ScopeRun(g, s, ins[..|ins| - 1]).rec.stopped && ScopeRun(g, s, ins).rec.stopped
    requires idle.bus.Idle? && AllReading(polls)
    ensures |s.rec.mem| <= |HistoryRun(g, s, h, ins)|
    ensures var ready := ScopeNext(g, ScopeRun(g, s, ins), idle);
            Reads(g, ready, polls) == OldestFirst(HistoryRun(g, s, h, ins), |s.rec.mem|, |Reads(g, ready, polls)|)
  {
    StopIsFinal(g, s, ins);
    AlwaysCaptures(g, s, h, ins);
    FromTheStop(g, ScopeRun(g, s, ins), HistoryRun(g, s, h, ins), idle, polls);
  }

  lemma {:induction false} FromTheStop(g: Geometry, stop: ScopeState, h: seq<Word>, idle: Input, polls: seq<Input>)
    requires Sized(g, stop) && Captures(stop.rec, h) && Halted(stop) && stop.port.raddr == 0
    requires idle.bus.Idle? && AllReading(polls)
    ensures |stop.rec.mem| <= |h|
    ensures var ready := ScopeNext(g, stop, idle);
            Reads(g, ready, polls) == OldestFirst(h, |stop.rec.mem|, |Reads(g, ready, polls)|)
  {
    ReadStep(g, stop, idle);
    HaltedStep(g, stop, idle);
    ReadsOldestFirst(g, ScopeNext(g, stop, idle), h, polls);
  }

  /** The whole story: armed, triggered, hold-off run out with whatever gaps in
      i_ce, one idle clock, read.  The words read are the last 2^lg samples, the
      newest of them being that of the last enabled clock up to the stop. */
  lemma {:induction false} TriggerToReadout(g: Geometry, s: ScopeState, h: seq<Word>, ins: seq<Input>, idle: Input,
                                            polls: seq<Input>)
    requires Sized(g, s) && Captures(s.rec, h) && !s.cfg.resetRequest && !s.rec.triggered && s.port.raddr == 0
    requires NoControlWrite(ins) && Stopping(s.cfg.holdoff, ins) && ins[0].ce && Fires(s.cfg, s.rec, ins[0])
    requires s.cfg.holdoff < g.span - 1 || !ins[|ins| - 1].ce
    requires idle.bus.Idle? && AllReading(polls)
    ensures |s.rec.mem| <= |h|
    ensures var ready := ScopeNext(g, ScopeRun(g, s, ins), idle);
            Reads(g, ready, polls) == OldestFirst(h + Sampled(ins), |s.rec.mem|, |Reads(g, ready, polls)|)
  {
    StopHoldsExactly(g, s, h, ins, [idle]);
    AfterTrigger(g, s, h, ins);
    AlwaysCaptures(g, s, h, ins);
    FromTheStop(g, ScopeRun(g, s, ins), h + Sampled(ins), idle, polls);
  }

}
