# Verified models of the S6SoC's clocked cores and low-level software

The S6SoC is a small system on a chip: a CPU with a handful of bus peripherals, a
tiny operating system, and host programs that drive the board over a serial line.
This project models the parts of it in which state, timing or word arithmetic make a
claim hard to believe by reading, and proves those claims for all inputs, runs and
interleavings.

| part | modules | what is proved |
|---|---|---|
| UART link | `Frame8N1`, `TxUartLite`, `RxUartLite`, `UartLink` | transmitter and receiver, coupled by one wire and three flip-flops, deliver every accepted byte once, intact and in order, with exact latency, if and only if a bit lasts at least six clocks and the receiver's strobe powers up low |
| ZipOS pipes | `Tasks`, `Ring`, `SysPipe` | a ring filled by a task and drained by interrupts stays first-in first-out wherever the interrupts fall, and no wake-up is lost |
| ZipOS kernel | `Kernel` | the scheduler is fair; a timeout expires on exactly one known tick, also across the rebasing of the millisecond counter |
| logic analyser | `WbScope` | the circular buffer agrees with the plain sample history; hold-off, stop and readout are exact, whatever gaps the clock enable has |
| 64-bit division, high word of a product | `Bits`, `LongDivision`, `HighMultiply` | shift-subtract and limb arithmetic equal integer division, remainder and multiplication |
| PWM audio | `PwmAudio` | bit reversal spreads the duty cycle evenly over every aligned window |
| flash driver | `FlashDriver` | programming NOR flash leaves the data in place and bystanders alone unless a sector must be erased |
| flash read controller | `FlashXpress` | every accepted read is acknowledged once, in order, on a known clock |
| host bus codec | `TtyCode`, `TtyAddress`, `TtyWrite` | what the far end makes of any session of calls, exactly: every word, in order, at the right address if and only if every address arrives |
| fixed-point helpers | `TwosComplement` | `rndbits` rounds half to even |

## How it is modelled

A Verilog module is a class whose fields are its registers.  Its `Tick` method is one
rising clock edge; its contract equates the new register values with a next-state
function of the old ones, and the theorems are about runs of that function.  C and C++
code that loops over or updates state is a method with the same loops, proved against a
specification function or an outright property.  Words are naturals below their size,
and every wrap-around is written out.

An interrupt is a step that may happen between any two steps of the interrupted task:
`SysPipe.Pipe.Interrupts` pops any number of bytes and posts any events, and is called
between the steps of a write and before each byte of a copy.

Lemmas with a body turn Dafny's automatic induction off, so every induction is the one
written out. `dafny verify dfyconfig.toml` checks the whole project.

## What turned out not to hold everywhere

* The UART link needs at least six clocks per bit. Below that the zeros in which the
  receiver's synchroniser starts look like a start bit, and a byte nobody sent is
  delivered (`UartLink.SpuriousByte`). It also needs `o_wr` to power up low, for which
  `rtl/rxuartlite.v` gives no initial value: otherwise a byte nobody sent is strobed out
  at once (`UartLink.PowerUpStrobe`). With both it is faithful
  (`UartLink.FaithfulExactly`).
* The logic analyser stops for good if and only if the hold-off is not all ones or the
  clock enable is low on the stopping clock. Otherwise the counter wraps and recording
  resumes (`WbScope.StopHoldsExactly`; `WbScope.AllOnesResumes` for the nine-bit instance
  in `rtl/busmaster.v`).
* A deadline that falls exactly where the millisecond counter is rebased is kept one
  tick longer than any other (`Kernel.Slack`), and a timeout left pending by an earlier
  wait ends the next one at once (`Kernel.StaleTimeoutCutsShort`).
* `encode_address` gives its 24-bit difference form the code of the 18-bit one. For word
  addresses below 2^24 an absolute form always replaces it; above, the address is lost
  (`TtyAddress.AddressReachedExactly`, `TtyAddress.HighStepLost`).
* `encode_address` computes its difference unsigned, although the range
  comparisons that follow treat it as signed, so it never steps backwards and what it
  sends is shortest if and only if no step back is strictly shorter
  (`TtyAddress.ShortestExactly`, `TtyAddress.StepBackMissed`).
* `writev` with no words records an address that it never sends. A later call to that
  address, or one sent as a difference from it, then writes in the wrong place
  (`TtyWrite.SessionExactly`, `TtyWrite.StrayWrite`); the words themselves always
  arrive (`TtyWrite.WordsSurvive`).
* `readcmd` for eight words without stepping makes the character that the far end takes
  for the end of a run of writes, and nothing is read (`TtyCode.ReadCmdExactly`,
  `TtyCode.EightWordsUnread`).
* `__divdi3` divides as C does except in the one case where C overflows, in which it
  returns the dividend (`LongDivision.SignedDivision`).
* `rndbits` rounds the uppermost half unit to a value one past the range of the bits
  asked for (`TwosComplement.RndBitsOverflows`, `TwosComplement.TopRoundsOut`).

## Model

| member | source | states |
|---|---|---|
| TxUartLite.TxUart.Tick | rtl/txuartlite.v:81-203 | one clock edge of all transmitter registers equals the next-state function |
| TxUartLite.TxStep | rtl/txuartlite.v:81-203 | in every phase of a frame the register contents are exactly known and carry over each clock edge, whatever is strobed in; a strobe is accepted exactly between frames |
| TxUartLite.TxReachable | rtl/txuartlite.v:81-203 | every run from reset ends in one of those phases |
| TxUartLite.TxWaveform | rtl/txuartlite.v:81-203 | from each accepted strobe the line is a 0, the eight bits LSB first and a 1, each exactly CLOCKS_PER_BAUD clocks; busy for exactly ten bits and two clocks, so no later strobe shortens a stop bit |
| RxUartLite.RxUart.Tick | rtl/rxuartlite.v:76-192 | one clock edge of all receiver registers equals the next-state function |
| RxUartLite.CountStep | rtl/rxuartlite.v:118-192 | once started, whatever is on the line, nine bit times are counted and then exactly one strobe is given |
| RxUartLite.CaptureStep | rtl/rxuartlite.v:141-150 | each shift takes the middle of the next data bit, seen through the three flip-flops |
| RxUartLite.StartsExactly | rtl/rxuartlite.v:85-127 | from rest, a low stretch of the line starts a byte, half a bit and four clocks after it began, if and only if it is longer than half a bit |
| RxUartLite.BreakRepeats | rtl/rxuartlite.v:108-139 | on a line that stays low a byte is strobed out every nine bit times and a clock |
| RxUartLite.RxStep | rtl/rxuartlite.v:76-192 | listening to a frame the receiver's registers are exactly known on every clock, and the strobe comes once, with the frame's byte |
| UartLink.Link.Tick | rtl/txuartlite.v:81-203 | transmitter and receiver clocked together, the receiver sampling the line as it was before the edge |
| UartLink.LinkStep | rtl/rxuartlite.v:76-192 | the product invariant over both machines is kept by every clock, from power-up on |
| UartLink.Conservation | rtl/rxuartlite.v:76-192 | after every run, the power-up clock included, what `o_wr` strobes at power-up followed by the bytes accepted = bytes delivered followed by the one in flight: none lost, doubled, altered, reordered or otherwise invented |
| UartLink.ExactLatency | rtl/rxuartlite.v:161-192 | a byte is delivered nine and a half bit times plus four clocks after it was accepted, not a clock sooner or later |
| UartLink.SpuriousByte | rtl/rxuartlite.v:85-115 | with two to five clocks per bit a silent line makes the receiver deliver a byte nobody sent |
| UartLink.PowerUpStrobe | rtl/rxuartlite.v:158-167 | a power-up state from which, at any baud setting, a byte nobody sent is delivered at once |
| UartLink.FaithfulExactly | rtl/rxuartlite.v:85-192 | for all baud settings and power-up states, the link is faithful on every run if and only if a bit is at least six clocks and `o_wr` powers up low |
| Ring.PushContents | sw/zipos/syspipe.c:56-59 | storing at head and advancing it appends one byte |
| Ring.StoreFree | sw/zipos/syspipe.c:341-349 | bytes written into free slots ahead of head do not disturb the live contents |
| Ring.AdvanceContents | sw/zipos/syspipe.c:352-352 | moving head over freshly written slots appends exactly those bytes, also when it wraps |
| Ring.FreeCount | sw/zipos/syspipe.c:110-119 | (tail - head - 1) modulo the size is the number of free slots |
| SysPipe.Pipe.constructor | sw/zipos/pipesetup.c:54-104 | the buffer is the least power of two of at least 16 that holds the length asked for, the mask is one less, and the pipe starts empty and unclaimed |
| SysPipe.Pipe.NumAvail | sw/zipos/syspipe.c:110-119 | the masked difference is the number of free slots |
| SysPipe.Pipe.KPush | sw/zipos/syspipe.c:55-63 | appends one byte and readies a reading task, or refuses and sets the error flag exactly when no slot is free |
| SysPipe.Pipe.KPop | sw/zipos/syspipe.c:71-82 | takes the oldest byte and readies the writing task, or reports an empty pipe and changes nothing |
| SysPipe.Pipe.KWrite | sw/zipos/syspipe.c:426-460 | claims the pipe or says why not; with a reading task that task is readied and the writer waits, otherwise a writer is left waiting only before a full, hence non-empty, pipe |
| SysPipe.Pipe.WaitTrap | sw/zipos/kernel.c:241-288 | the pop on the way into the kernel and the sleep after it cannot lose the wake-up: the ring is not empty and the task waits for no event, so a pop, and only a pop, readies it |
| SysPipe.Pipe.Interrupts | sw/zipos/kernel.c:445-454 | pops and posts of any events in any order keep the pipe first-in first-out, and ready a task that waits for no event only by a pop |
| SysPipe.Pipe.UntilReady | sw/zipos/syspipe.c:71-82 | a task waiting before a non-empty pipe is readied, by the next pop or by a post that matches what it waits for |
| SysPipe.Pipe.CopyIn | sw/zipos/syspipe.c:345-349 | the copy, interrupted anywhere, fills free slots only and keeps first-in first-out |
| SysPipe.Pipe.FillOnce | sw/zipos/syspipe.c:329-357 | one trip writes a prefix of what is left, and a non-empty one whenever a slot is free |
| SysPipe.Pipe.UWrite | sw/zipos/syspipe.c:272-379 | under every interleaving the call ends, returns len, releases the pipe, and the bytes written are those before it followed by all of src |
| SysPipe.Pipe.Write | sw/zipos/syspipe.c:272-460 | the whole system call: refused with the right error, or every byte goes in, in order |
| Kernel.ChooseIsNearest | sw/zipos/kernel.c:387-417 | the choice is the ready task first reached going round from the last one, and the idle task only when none is ready |
| Kernel.KSchedule | sw/zipos/kernel.c:387-417 | the task returned is SCHED_READY or the idle task; no other SCHED_READY task lies nearer going round from the slot after the last task, and it is the idle one only if there is none |
| Kernel.SlotAfterChosen | sw/zipos/kernel.c:391-398 | handing the chosen task back in resumes the round just after its slot |
| Kernel.Fairness | sw/zipos/kernel.c:387-417 | a task ready at every call is chosen before the round has come back to it, whatever the others do |
| Kernel.FairWithinOneRound | sw/zipos/kernel.c:387-417 | in particular within LAST_TASK successive calls |
| Kernel.KPost | sw/zipos/kernel.c:419-455 | the counter, and for every task its events, state, answer and wait mask after a post: those pending, posted or timed out, with just the ones it waits for as its answer if it waits for any |
| Kernel.PostWakes | sw/zipos/kernel.c:445-453 | a waiting task is readied by any posted event it waits for, is told of it, and loses no event it was not told of |
| Kernel.PostLeavesWaiting | sw/zipos/kernel.c:445-453 | it goes on waiting if nothing it waits for is pending, posted or timed out |
| Kernel.ClockAdvances | sw/zipos/kernel.c:421-424 | the counter counts timer ticks modulo 2^31 |
| Kernel.WaitTrap | sw/zipos/kernel.c:270-289 | a wait is answered at once from pending events or put to sleep with its deadline |
| Kernel.AnsweredAtOnce | sw/zipos/kernel.c:275-278 | a wait for something pending returns exactly that, uses up exactly that, and leaves the task ready |
| Kernel.PutToSleep | sw/zipos/kernel.c:279-288 | otherwise the task sleeps unless the timeout is zero, for what it asked for and, with a positive timeout, until its deadline |
| Kernel.TimeoutExact | sw/zipos/kernel.c:419-444 | over any run of posts a timeout stays stored for exactly the delay (one tick more when the deadline is the rebase itself) and is cleared on the next tick, so at most two ticks after the deadline |
| Kernel.TimeoutRaised | sw/zipos/kernel.c:419-444 | the post that clears it raises SWINT_TIMEOUT |
| Kernel.WaitSleepsExactly | sw/zipos/kernel.c:270-289 | an undisturbed waiting task sleeps exactly that long and is then ready with the timeout as its answer |
| Kernel.StaleTimeoutCutsShort | sw/zipos/kernel.c:445-454 | if none of its events occurs, the first post ends the wait exactly when a timeout was already pending |
| LongDivision.ZipBitrev | sw/zlib/udiv.c:48-55 | the loop computes the bit reversal |
| Bits.AndBits | sw/zlib/udiv.c:101-119 | the model's & acts bit by bit |
| Bits.OrBits | sw/zlib/udiv.c:52-163 | and so does its | |
| LongDivision.LowBitsOfReversal | sw/zlib/udiv.c:101-119 | the low bits of a reversal are clear exactly when the high bits of the word are, and dropping them reverses the narrower word |
| LongDivision.Cltz | sw/zlib/udiv.c:90-121 | the number of leading zeros of every nonzero 64-bit word |
| LongDivision.TopHalves | sw/zlib/udiv.c:143-153 | when the aligned divisor's low half is clear, the quotient of the high halves is the quotient |
| LongDivision.ShiftSubtract | sw/zlib/udiv.c:154-169 | the shift-subtract loop leaves the quotient |
| LongDivision.UDivDi3 | sw/zlib/udiv.c:124-170 | floor(a / b) for all 64-bit a and all b > 0, by every path |
| LongDivision.UModDi3 | sw/zlib/umod.c:53-61 | the matching remainder, though the product and difference wrap |
| LongDivision.DivDi3 | sw/zlib/udiv.c:211-227 | the magnitude's quotient with the sign put back, through the wrapping negations |
| LongDivision.SignedDivision | sw/zlib/udiv.c:211-227 | that is C's truncating quotient for all longs except the one overflowing division |
| HighMultiply.LowNext | sw/dev/cputest.c:656-657 | testing bit i of the multiplier decides whether 2^i belongs to it |
| HighMultiply.ShiftLimbs | sw/dev/cputest.c:658-664 | the shifted multiplicand cut into limbs, or-ing the carry in being an addition |
| HighMultiply.AddLow | sw/dev/cputest.c:666-674 | adding it below 2^16 keeps the limb invariant without overflow |
| HighMultiply.AddHigh | sw/dev/cputest.c:688-693 | and sixteen places further up |
| HighMultiply.SoftMpyUHi | sw/dev/cputest.c:645-698 | floor(a * b / 2^32) for all unsigned a and b |
| HighMultiply.SoftMpySHi | sw/dev/cputest.c:700-719 | the high word of the signed 64-bit product for all ints, INT_MIN and zero included |
| WbScope.Scope.Tick | rtl/wbscope.v:112-335 | one clock edge of configuration, recorder and read port equals the next-state function, for every memory size and hold-off width |
| WbScope.ControlWritten | rtl/wbscope.v:119-133 | a control write sets trigger options and hold-off, and asks for a reset if and only if its run bit is clear |
| WbScope.ControlKept | rtl/wbscope.v:119-133 | nothing else changes them, and a reset asked for is withdrawn on the next clock that does not read the control register |
| WbScope.ResetRestarts | rtl/wbscope.v:190-238 | two clocks after such a write trigger, primed flag, stop, counter, both addresses and the history are clear, whatever the scope was doing |
| WbScope.TriggersExactly | rtl/wbscope.v:184-194 | the scope triggers on an enabled clock once primed, if and only if the manual trigger is set or the external one comes and is not disabled |
| WbScope.ControlRead | rtl/wbscope.v:289-335 | a control read returns every status field, and exactly the strobes are acknowledged |
| WbScope.WrittenReadsBack | rtl/wbscope.v:119-331 | what is written to the control register is what is read back |
| WbScope.CapturesStep | rtl/wbscope.v:231-247 | memory, write address and primed flag agree with the plain sample history after every clock |
| WbScope.AlwaysCaptures | rtl/wbscope.v:184-247 | and after every run, whatever is triggered, configured or read |
| WbScope.PowerUpCaptures | rtl/wbscope.v:117-233 | from power-up, with an empty history |
| WbScope.RewoundUntilTriggered | rtl/wbscope.v:289-295 | whatever the bus does, the read address is at the start when the trigger comes |
| WbScope.GuardedRun | rtl/wbscope.v:184-295 | under a hold-off that is not all ones, whatever the clock enable, the trigger and the bus do short of a control write, counter and flags stay consistent and the read address stays at the start until the stop |
| WbScope.ResetGuards | rtl/wbscope.v:117-133 | the clock after a requested reset establishes that |
| WbScope.ArmingGuards | rtl/wbscope.v:120-128 | and so does a control write that arms the scope anew without a reset before anything has triggered |
| WbScope.StopIsFinal | rtl/wbscope.v:215-219 | so every stop, however reached, is final and finds the read address at the start |
| WbScope.AfterTrigger | rtl/wbscope.v:184-219 | from the trigger to the stop, with any gaps in the clock enable, every enabled clock is recorded and counted, and the scope stops on a clock known from their number |
| WbScope.StopHoldsExactly | rtl/wbscope.v:203-247 | the samples after the trigger number hold-off plus one if the stopping clock is enabled and hold-off otherwise; the stop then holds, with buffer and addresses frozen, if and only if the hold-off is not all ones or that clock is not enabled |
| WbScope.AllOnesResumes | rtl/wbscope.v:206-219 | a concrete run of the nine-bit instance that stops and resumes on the next clock |
| WbScope.HaltedStep | rtl/wbscope.v:184-247 | a stopped recorder changes nothing until the control register is written |
| WbScope.ReadStep | rtl/wbscope.v:289-335 | one clock without a rewind lines the prefetched word up with the read address, and every read keeps it so |
| WbScope.ReadsOldestFirst | rtl/wbscope.v:289-335 | the i-th data read returns the i-th oldest of the last 2^LGMEM samples, with any idle clocks and status reads between |
| WbScope.RewindThenIdle | rtl/wbscope.v:291-293 | a rewind and one idle clock line the port up at the oldest sample again |
| WbScope.OnceStopped | rtl/wbscope.v:184-335 | from any guarded state: once stopped, one idle clock, read, and what comes out is the end of the history of samples taken |
| WbScope.TriggerToReadout | rtl/wbscope.v:184-335 | armed, triggered, stopped under any gaps in the clock enable, one idle clock, read: what comes out is the end of the whole history |
| PwmAudio.Pwm.Tick | rtl/wbpwmaudio.v:106-172 | one clock edge of rate, timer, samples, auxiliary outputs, counter and output equals the next-state function, in both builds and for every timer width and number of auxiliary outputs |
| PwmAudio.SampleWritten | rtl/wbpwmaudio.v:142-149 | a sample x written in two's complement waits to be played as x + 2^15 |
| PwmAudio.AuxWritten | rtl/wbpwmaudio.v:150-151 | the auxiliary outputs take the bits from 20 up of a sample if and only if its bit 16 is set |
| PwmAudio.RateWritten | rtl/wbpwmaudio.v:110-118 | the rate is set by writes to the upper address of the variable-rate build, and never changes otherwise |
| PwmAudio.TimerRunsOut | rtl/wbpwmaudio.v:120-130 | a loaded timer runs out after exactly as many clocks as were loaded |
| PwmAudio.TimerReloads | rtl/wbpwmaudio.v:126-135 | on the clock after it is reloaded, and the waiting sample starts to play |
| PwmAudio.SampleStillValid | rtl/wbpwmaudio.v:142-157 | from a sample's write until it is played no interrupt asks for another |
| PwmAudio.SampleAskedFor | rtl/wbpwmaudio.v:142-157 | from then on the interrupt asks until another is written |
| PwmAudio.WrittenSampleSounds | rtl/wbpwmaudio.v:126-172 | a sample x written, loaded and not replaced keeps the output high on exactly x + 2^15 + 1 of any 2^16 clocks from then on |
| PwmAudio.Pwm.BitReversal | rtl/wbpwmaudio.v:164-169 | the wired loop computes the bit reversal of the counter |
| PwmAudio.AlignedWindow | rtl/wbpwmaudio.v:164-172 | the exact number of high clocks in any aligned window of 2^k: as many as there are numbers up to the sample congruent to the window's reversed position modulo 2^(16-k) |
| PwmAudio.FullCycle | rtl/wbpwmaudio.v:159-172 | any 2^16 consecutive counter values, aligned or not, give sample + 1 highs |
| PwmAudio.WindowShare | rtl/wbpwmaudio.v:159-172 | an aligned window has its share to within one clock |
| PwmAudio.DutyCycle | rtl/wbpwmaudio.v:159-172 | on every run of the core that holds a sample s for 2^16 clocks, exactly s + 1 clocks are high |
| PwmAudio.ShortTermDuty | rtl/wbpwmaudio.v:159-172 | and every aligned 2^k clocks have that share to within one |
| FlashDriver.Flash.EraseSector | sim/verilator/qspiflashsim.cpp:159-161 | sets exactly the sector's bytes to all ones |
| FlashDriver.ProgramBits | sim/verilator/qspiflashsim.cpp:143-151 | a bit is set after programming if and only if it was set and is to be |
| FlashDriver.Flash.PageProgram | sw/host/flashdrvr.cpp:121-173 | and-s the data over the page, blank pages skipped soundly; verification passes exactly when the data is there |
| FlashDriver.Flash.Compare | sw/host/flashdrvr.cpp:184-209 | an erase is asked for exactly when some bit must be set; otherwise everything before newv matches, and newv stays 0 only if all does |
| FlashDriver.Flash.ProgramPages | sw/host/flashdrvr.cpp:225-238 | the page loop writes the rest of the sector's share and nothing else |
| FlashDriver.Flash.WriteSector | sw/host/flashdrvr.cpp:184-239 | one sector reaches its goal, the others are untouched |
| FlashDriver.Flash.Write | sw/host/flashdrvr.cpp:175-245 | every byte reaches its goal: requested bytes hold the data, another byte is all ones if its sector had to be erased and unchanged otherwise; the call succeeds |
| FlashDriver.GoalMeans | sw/host/flashdrvr.cpp:181-223 | that goal bit by bit: another byte is all ones if and only if, in its sector of 64 KB, some requested bit has to go from 0 to 1 |
| FlashDriver.BystandersKept | sw/host/flashdrvr.cpp:214-223 | where only bits are cleared every other byte of the sector survives |
| FlashDriver.WriteIsIdempotent | sw/host/flashdrvr.cpp:211-212 | writing the same data again changes nothing |
| FlashXpress.Controller.Tick | rtl/qflashxpress.v:193-260 | one clock edge of the handshake registers equals the next-state function |
| FlashXpress.Step | rtl/qflashxpress.v:193-260 | in every phase the busy register, stall, acknowledgement and pipelining flags are exactly known, and the phase steps on |
| FlashXpress.AlwaysInPhase | rtl/qflashxpress.v:193-260 | on every session of a polite master the controller is in one of those phases |
| FlashXpress.AckedWhenDue | rtl/qflashxpress.v:186-260 | each accepted read is acknowledged once, in order, 23 clocks after acceptance, or 9 if pipelined |
| FlashXpress.PipelinedExactly | rtl/qflashxpress.v:188-208 | an accepted read is due 9 clocks later if and only if the core is pipelined, the read before is unfinished and the clock before strobed the address after it, and 23 otherwise |
| FlashXpress.BackToBack | rtl/qflashxpress.v:188-260 | two consecutive words asked for back to back are due 23 and 31 clocks after the first was accepted |
| FlashXpress.DroppedIsForgotten | rtl/qflashxpress.v:211-218 | dropping the bus cycle forgets what was outstanding: no acknowledgement until another read is accepted |
| FlashXpress.UnpipelinedDues | rtl/qflashxpress.v:206-208 | in the build without pipelining always 23 |
| FlashXpress.AtMostTwoOutstanding | rtl/qflashxpress.v:323-333 | acknowledgements never run ahead and never more than two reads are outstanding |
| TtyCode.AlphabetIs | sw/host/ttybus.cpp:103-133 | the alphabet: digits, capitals, small letters, @ and %, and nothing else |
| TtyCode.CharRoundTrip | sw/host/ttybus.cpp:103-133 | every six-bit value survives its character |
| TtyCode.CharUnique | sw/host/ttybus.cpp:103-133 | and no other character decodes to it |
| TtyCode.PrefixCode | rtl/wbubus.v:160-176 | a complete command is recognised whatever follows it |
| TtyCode.DecodeAppend | rtl/wbubus.v:160-176 | so streams can be concatenated without changing their meaning |
| TtyCode.CodeRoundTrip | sw/host/ttybus.cpp:161-168 | a command spelled in six-bit digits reads back as its code and argument |
| TtyCode.ReadCmdExactly | sw/host/ttybus.cpp:416-433 | a read command asks for exactly the length and increment it was made for, if and only if it is not for eight words without stepping |
| TtyCode.EightWordsUnread | rtl/wbubus.v:74-74 | that one is a single character which the far end passes over |
| TtyAddress.Encode | sw/host/ttybus.cpp:161-168 | a whole word in six characters |
| TtyAddress.EncodeAddress | sw/host/ttybus.cpp:330-414 | the two-stage encoder, difference first and absolute over it, computes the address code |
| TtyAddress.AddressLandsExactly | sw/host/ttybus.cpp:330-414 | wherever the far end is, the characters sent take it where they should from there, and do nothing else, if and only if the miscoded branch is not taken |
| TtyAddress.ArrivesExactly | sw/host/ttybus.cpp:339-341 | that is the address asked for if and only if the driver claims no knowledge, or is right about the far end, or sends an absolute form |
| TtyAddress.AddressReachedExactly | sw/host/ttybus.cpp:330-414 | from the address the driver believes in, for every aligned address and last address the far end arrives there, and does nothing else, if and only if the miscoded branch is not taken |
| TtyAddress.HighStepLost | sw/host/ttybus.cpp:358-364 | a concrete step for which it is taken |
| TtyAddress.LowAddressReached | sw/host/ttybus.cpp:372-407 | in particular for every word address below 2^24 |
| TtyAddress.StreamWithin | rtl/wbubus.v:65-72 | how far any stream without bus traffic, of any number of commands, can take the address |
| TtyAddress.NoShorter | sw/host/ttybus.cpp:342-406 | no stream at all sets an address anew in fewer characters than the best form |
| TtyAddress.BestExists | sw/host/ttybus.cpp:342-406 | and that many suffice |
| TtyAddress.EmittedLength | sw/host/ttybus.cpp:342-406 | off the miscoded branch, what is sent is as long as the better of an absolute form and a step ahead |
| TtyAddress.ShortestExactly | sw/host/ttybus.cpp:342-406 | off the miscoded branch, it is a shortest of all streams that would do if and only if no step back, from the last address or from zero, would be strictly shorter |
| TtyAddress.UnknownShortestExactly | sw/host/ttybus.cpp:372-407 | with nothing known about the far end, what is sent works from everywhere, and is a shortest such stream if and only if the address is zero or not among the uppermost 2048 |
| TtyAddress.UppermostReached | sw/host/ttybus.cpp:402-406 | those are reached from everywhere in five characters, for which six are sent |
| TtyAddress.StepBackMissed | sw/host/ttybus.cpp:344-348 | a concrete step back for which five characters are sent where two would do |
| TtyWrite.LookupFinds | sw/host/ttybus.cpp:230-241 | a table hit is the latest copy of the word in a slot already filled; a miss means no usable slot holds it |
| TtyWrite.LookupExactly | sw/host/ttybus.cpp:230-241 | the search finds a word if and only if it is among the last 255 sent in full, and then how long ago that last was |
| TtyWrite.WordCost | sw/host/ttybus.cpp:250-268 | such a word takes two characters, and any other six and joins them |
| TtyWrite.Tty.EncodeWord | sw/host/ttybus.cpp:227-270 | the search, the two forms and the table update for one word |
| TtyWrite.Tty.WriteV | sw/host/ttybus.cpp:200-297 | what a call sends in chunks and the state it leaves; a misaligned address is refused with nothing changed |
| TtyWrite.WordDecodes | sw/host/ttybus.cpp:250-268 | the far end writes that word, by table or in full, and steps as asked |
| TtyWrite.WordSync | sw/host/ttybus.cpp:263-270 | and the tables stay in step |
| TtyWrite.NextSlotOpen | rtl/wbubus.v:60-61 | whatever the receiver leaves in the slot at its write pointer, the tables are still in step |
| TtyWrite.WordsDecode | sw/host/ttybus.cpp:227-271 | the words of a call become exactly that many writes, at the right addresses |
| TtyWrite.CallDecodes | sw/host/ttybus.cpp:200-297 | one call, address and newline included, whatever was sent before and wherever the far end is: its words are written in order from where the address has taken it; with no words nothing happens |
| TtyWrite.EmptyCallKeepsStepExactly | sw/host/ttybus.cpp:218-221 | a call with no words sends nothing, and leaves the driver right about the far end if and only if the far end was already at that address |
| TtyWrite.SessionDecodes | sw/host/ttybus.cpp:200-297 | over any sequence of calls, empty and misaligned ones included, in which the miscoded branch is not taken, the far end makes exactly the writes that land where the addresses sent have taken it |
| TtyWrite.WordsSurvive | sw/host/ttybus.cpp:221-271 | the words written are the words of the aligned calls, in order, whatever the addresses |
| TtyWrite.LandedAsAskedExactly | sw/host/ttybus.cpp:218-219 | what lands is what was asked for if and only if every call that sends anything arrives |
| TtyWrite.SessionExactly | sw/host/ttybus.cpp:200-297 | so a session recovers every word, address and increment if and only if every address arrives |
| TtyWrite.CarefulArrives | sw/host/ttybus.cpp:218-219 | which they all do if no empty call is made except to the address already held |
| TtyWrite.StrayWrite | sw/host/ttybus.cpp:218-221 | a concrete session, an empty call and a write to the same address, that writes elsewhere |
| TtyWrite.StartInSync | sw/host/ttybus.h:70-83 | at start-up both ends are in step whatever their tables hold and wherever the far end is |
| TwosComplement.FieldRoundTrip | sw/host/twoc.cpp:43-60 | signed and unsigned readings of a field determine each other |
| TwosComplement.UBitsIs | sw/host/twoc.cpp:57-60 | ubits is the one number below 2^bits congruent to the word |
| TwosComplement.FieldOfShifted | sw/host/twoc.cpp:88-88 | shifting the word and reading the narrower field is reading the field and shifting |
| TwosComplement.RoundingUnique | sw/host/twoc.cpp:80-87 | there is one round-half-to-even value |
| TwosComplement.RndBitsRounds | sw/host/twoc.cpp:62-103 | rndbits is round-half-to-even of the signed field, in every branch and for either sign |
| TwosComplement.RndBitsOverflows | sw/host/twoc.cpp:62-103 | the result exceeds the bits asked for exactly in the top half unit, the half itself included unless one bit is asked for |
| TwosComplement.TopRoundsOut | sw/host/twoc.cpp:88-94 | a concrete value that does |

## Left out

- UartLink.FaithfulExactly: bit times of one clock and of 2^24 clocks or more are outside the counters' range and are not modelled.
- SysPipe.Pipe.UWrite: covers interrupt-drained pipes; the rendezvous with a reading task, and reads, are not modelled.
- SysPipe.Pipe.Write: the same.
- SysPipe.Pipe.constructor: lengths above 2^30 are excluded: up to 2^31 they give a buffer whose size is negative as an int (sw/zipos/syspipe.c:345), and above that the doubling loop never ends.
- SysPipe.Pipe.UntilReady: takes it that the transmit interrupt keeps coming; the hardware's side of that is not modelled.
- FlashDriver.Flash.Write: an ideal device; waiting for it, the byte order on the wire and reading an erased sector back are not modelled.
- FlashDriver.Flash.ProgramPages: takes the page length as the bytes remaining, the evident intent of line 228, whose initialiser names the variable being declared.
- FlashXpress.Controller.Tick: the handshake registers only; the reset input acts on the start-up sequencer.
- FlashXpress.AckedWhenDue: the start-up sequencer is an input that is high for a stretch at first and never again; the data path is not modelled, and dropping the bus cycle only as far as `FlashXpress.DroppedIsForgotten` goes.
- PwmAudio.Pwm.Tick: reading the registers back is not modelled.
- WbScope.Scope.Tick: one clock domain only; the hold-off register, assigned in blocking style, is taken to change with the others.
- TwosComplement.RndBitsRounds: at most 31 bits dropped and fields of at most 63 bits, beyond which the C shifts are undefined.
- TtyWrite.SessionDecodes: calls on the miscoded branch are excluded; what they do to the stream is stated for the address alone (`TtyAddress.AddressLandsExactly`). The far end is a decoder after `rtl/wbubus.v`; its bus cycles, its acknowledgements and the stale digits it leaves in the slot at its write pointer are not modelled.
- TtyAddress.AddressReachedExactly: word addresses are taken modulo 2^30, all that a 32-bit byte address has and more than the boards' buses decode; the receiver's register in `rtl/wbubus.v` has 32 bits, so a step past either end of the address space leaves its two top bits different, in single calls and in sessions.
- TtyAddress.UppermostReached: the same; the register holds the address with its two top bits set.
- TtyCode.ReadCmdExactly: only for the lengths that the driver asserts.
- Event masks are sets of bit numbers.
- The kernel's loop, its other traps and interrupt arms, and the clear trap, which takes its timeout from the event register.
- Popping two bytes at a time, which can pass the head when an odd number is in the pipe.
- The assembly version of `cltz`.
- The full-featured UART pair, the compressed scope, the clock and date code, and the other flash controllers.
- Sockets, terminals, file loading, host user interfaces and simulator plumbing.
