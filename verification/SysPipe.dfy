/** sw/zipos/syspipe.c and sw/zipos/pipesetup.c: the byte pipe between a writing
    task and an interrupt that drains it.  The interrupt may strike between any
    two steps of the write, also between the bytes of a copy. */
module SysPipe {
  import opened Bits
  import opened Ring
  import opened Tasks
  import Kernel

  datatype ReadTask = NoReader | InterruptReadTask | UserReader(task: Task)

  datatype PopResult = Popped(value: char) | PipeEmpty

  class Pipe {
    const mask: nat
    const buf: array<char>
    var head: nat
    var tail: nat
    var rdtask: ReadTask
    var wrtask: Task?
    var nwritten: nat
    var error: bool

    /** log2 of the buffer's size. */
    ghost const lg: nat
    /** Every byte ever put in, and every byte an interrupt has taken out, in order. */
    ghost var written: seq<char>
    ghost var popped: seq<char>
    /** The bytes in the pipe, oldest first. */
    ghost var live: seq<char>

    /** First in, first out: what came out and then what is still inside is what went in. */
    ghost predicate Valid()
      reads this, buf
    {
      && lg <= 30 && mask == Pow2(lg) - 1 && 15 <= mask
      && buf.Length == mask + 1
      && head <= mask && tail <= mask
      && live == Contents(buf[..], head, tail) && |live| <= mask
      && popped + live == written
    }

    /** Slots still free: one is always left empty. */
    ghost function Room(): int
      reads this
    {
      mask - |live|
    }

    /** new_syspipe: the size is rounded up to a power of two of at least 16.
        A buffer of 2^31 bytes could not be copied into, its size being negative as
        an int, and beyond that the doubling would wrap to zero and never end. */
    constructor (len: nat)
      requires len <= 0x4000_0000
      ensures Valid() && fresh(buf) && rdtask == NoReader && wrtask == null
      ensures len <= mask + 1 && (mask == 15 || mask + 1 < 2 * len)
      ensures written == [] && popped == [] && !error && nwritten == 0
    {
      var msk;
      ghost var k;
      msk, k := SizeFor(len);
      mask := msk - 1;
      lg := k;
      buf := new char[msk](_ => 0 as char);
      rdtask, wrtask := NoReader, null;
      head, tail, error, nwritten := 0, 0, false, 0;
      popped, written, live := [], [], [];
    }

    /** The least power of two of at least 16 that is not below len. */
    static method SizeFor(len: nat) returns (msk: nat, ghost k: nat)
      requires len <= 0x4000_0000
      ensures 4 <= k <= 30 && msk == Pow2(k) && 16 <= msk && len <= msk && (msk == 16 || msk < 2 * len)
    {
      msk, k := 16, 4;
      Pow2Values();
      assert 2 * Pow2(30) == Pow2(31);
      while msk < len
        invariant 4 <= k <= 30 && msk == Pow2(k) && 16 <= msk
        invariant msk == 16 || msk < 2 * len
        decreases 2 * len - msk
      {
        if k == 30 {
          assert false;
        }
        msk, k := 2 * msk, k + 1;
      }
    }

    /** (i + 1) & mask */
    method Succ(i: nat) returns (j: nat)
      requires Valid() && i <= mask
      ensures j == Next(i, buf.Length)
    {
      j := And(i + 1, mask);
      AndMask(i + 1, lg);
    }

    /** num_avail_syspipe: one read of each index, the difference masked. */
    method NumAvail() returns (n: nat)
      requires Valid()
      ensures n == Room()
    {
      n := And(U32(tail - head - 1), mask);
      AndMask(U32(tail - head - 1), lg);
      WrapMod(tail - head - 1, lg);
      FreeCount(buf[..], head, tail);
    }

    /** kpush_syspipe: refused with the error flag set when no slot is free. */
    method KPush(val: char)
      requires Valid()
      modifies this`head, this`error, this`written, this`live, buf,
               match rdtask case UserReader(task) => {task} case _ => {}
      ensures Valid()
      ensures old(Room()) > 0 ==> live == old(live) + [val] && written == old(written) + [val] && error == old(error)
      ensures old(Room()) > 0 && rdtask.UserReader? ==> rdtask.task.state == SchedReady
      ensures old(Room()) == 0 ==> live == old(live) && written == old(written) && error
    {
      FullContents(buf[..], head, tail);
      var tst := Succ(head);
      if tst != tail {
        Store(val, tst);
        if rdtask.UserReader? {
          rdtask.task.state := SchedReady;
        }
      } else {
        error := true;
      }
    }

    method Store(val: char, tst: nat)
      requires Valid() && tst == Next(head, buf.Length) && tst != tail
      modifies this`head, this`written, this`live, buf
      ensures Valid() && live == old(live) + [val] && written == old(written) + [val]
    {
      PushContents(buf[..], head, tail, val);
      FullContents(buf[..], head, tail);
      buf[head] := val;
      assert buf[..] == old(buf[..])[head := val];
      head := tst;
      written, live := written + [val], live + [val];
    }

    static lemma MoveOne(out: seq<char>, live: seq<char>)
      requires live != []
      ensures out + [live[0]] + live[1..] == out + live
    {
    }

    /** kpop_syspipe, from the interrupt: a pop readies the writing task, an
        attempt on an empty pipe does nothing. */
    method KPop() returns (r: PopResult)
      requires Valid()
      modifies this`tail, this`popped, this`live, wrtask
      ensures Valid()
      ensures old(live) == [] ==>
                && r == PipeEmpty && popped == old(popped) && live == []
                && (wrtask != null ==> wrtask.state == old(wrtask.state))
      ensures old(live) != [] ==>
                && r == Popped(old(live)[0]) && popped == old(popped) + [r.value]
                && live == old(live)[1..]
                && (wrtask != null ==> wrtask.state == SchedReady)
      ensures wrtask != null ==> wrtask.waitsig == old(wrtask.waitsig)
    {
      FullContents(buf[..], head, tail);
      if head != tail {
        PopContents(buf[..], head, tail);
        var vl := buf[tail];
        MoveOne(popped, live);
        assert buf[..][tail] == vl;
        tail := Succ(tail);
        popped, live := popped + [vl], live[1..];
        if wrtask != null {
          wrtask.state := SchedReady;
        }
        return Popped(vl);
      }
      return PipeEmpty;
    }

    /** kwrite_syspipe, in the kernel: claim the pipe for tsk or refuse.  `regionOk` is
        the kernel's check of the caller's buffer.  A reading task is woken and
        the writer waits for it; otherwise a writer left waiting faces a full pipe. */
    method KWrite(tsk: Task, len: int, regionOk: bool) returns (claimed: bool)
      requires Valid()
      modifies this`wrtask, this`nwritten, tsk, match rdtask case UserReader(task) => {task} case _ => {}
      ensures Valid() && Room() == old(Room())
      ensures claimed <==> old(wrtask) == null && len > 0 && regionOk
      ensures claimed ==> wrtask == tsk && nwritten == 0
      ensures claimed && !rdtask.UserReader? ==> tsk.state == if Room() == 0 then SchedWaiting else old(tsk.state)
      ensures claimed && rdtask.UserReader? ==>
                && rdtask.task.state == SchedReady
                && (tsk != rdtask.task ==> tsk.state == SchedWaiting)
      ensures !claimed ==> wrtask == old(wrtask) && tsk.state == old(tsk.state)
      ensures !claimed ==> tsk.ret == Code(if old(wrtask) != null then -EBUSY else -EFAULT)
      ensures !claimed && rdtask.UserReader? ==> rdtask.task.state == old(rdtask.task.state)
    {
      if wrtask != null {
        tsk.ret := Code(-EBUSY);
        return false;
      } else if len <= 0 {
        tsk.ret := Code(-EFAULT);
        return false;
      } else if !regionOk {
        tsk.ret := Code(-EFAULT);
        return false;
      }
      wrtask := tsk;
      nwritten := 0;
      if rdtask.UserReader? {
        tsk.state := SchedWaiting;
        rdtask.task.state := SchedReady;
      } else {
        FullContents(buf[..], head, tail);
        var nxt := Succ(head);
        if nxt == tail {
          tsk.state := SchedWaiting;
        }
      }
      return true;
    }

    /** Any number of interrupts, in any order: the transmitter's, each popping a byte,
        and others, whose events the kernel posts.  A post can ready a waiting task
        only if the task waits for some event. */
    method Interrupts()
      requires Valid() && wrtask != null
      modifies this`tail, this`popped, this`live, wrtask
      ensures Valid() && Room() >= old(Room())
      ensures wrtask.state == old(wrtask.state) || wrtask.state == SchedReady
      ensures Room() > old(Room()) ==> wrtask.state == SchedReady
      ensures old(wrtask.waitsig) == {} ==>
                wrtask.waitsig == {} && (wrtask.state != old(wrtask.state) ==> Room() > old(Room()))
    {
      var n: nat := *;
      while n > 0
        invariant Valid() && Room() >= old(Room())
        invariant wrtask.state == old(wrtask.state) || wrtask.state == SchedReady
        invariant Room() > old(Room()) ==> wrtask.state == SchedReady
        invariant old(wrtask.waitsig) == {} ==>
                    wrtask.waitsig == {} && (wrtask.state != old(wrtask.state) ==> Room() > old(Room()))
      {
        var transmitter, events: Events := *, *;
        if transmitter {
          var _ := KPop();
        } else {
          Kernel.Deliver(wrtask, events);
        }
        n := n - 1;
      }
    }

    /** A task that is not ready does not run: time passes until a pop has readied it,
        or a post that matches what it waits for.  As long as it waits the pipe is
        not empty, so the next pop readies it: no wake-up is lost. */
    method UntilReady()
      requires Valid() && wrtask != null
      requires wrtask.state in {SchedReady, SchedWaiting}
      requires wrtask.state == SchedWaiting ==> live != []
      modifies this`tail, this`popped, this`live, wrtask
      ensures Valid() && Room() >= old(Room())
      ensures wrtask.state == SchedReady
      ensures old(wrtask.state) == SchedWaiting && old(wrtask.waitsig) == {} ==> Room() > old(Room())
    {
      Interrupts();
      if wrtask.state == SchedWaiting {
        var _ := KPop();
      }
    }

    /** wait(0, -1) with interrupts off.  On its way to the trap handler the kernel
        polls the transmitter and may pop one byte, readying the task; only then
        does the handler put the task to sleep.  As it waits for no event, only a
        pop can wake it. */
    method WaitTrap(ms: int)
      requires Valid() && wrtask != null && wrtask.state == SchedReady && Room() == 0
      modifies this`tail, this`popped, this`live, wrtask
      ensures Valid()
      ensures wrtask.state == SchedReady && Room() > 0
    {
      var transmitterIdle: bool := *;
      if transmitterIdle {
        var _ := KPop();
      }
      var _ := Kernel.WaitTrap(wrtask, {}, -1, ms);
      UntilReady();
    }

    /** memcpy into the n slots from head on: the interrupt may strike before
        every byte, and none of the bytes written is live until head moves. */
    method CopyIn(src: seq<char>, n: nat)
      requires Valid() && wrtask != null && wrtask.state == SchedReady
      requires n <= |src| && head + n <= buf.Length && n <= Room()
      modifies this`tail, this`popped, this`live, wrtask, buf
      ensures Valid() && Room() >= old(Room())
      ensures wrtask.state == SchedReady
      ensures buf[head..head + n] == src[..n]
    {
      var k := 0;
      while k < n
        invariant k <= n && Valid() && Room() >= old(Room())
        invariant wrtask.state == SchedReady
        invariant buf[head..head + k] == src[..k]
      {
        Interrupts();
        StoreFree(buf[..], head, tail, k, src[k]);
        ghost var before := buf[..];
        buf[head + k] := src[k];
        assert buf[..] == before[head + k := src[k]];
        k := k + 1;
      }
    }

    static lemma AppendRest(base: seq<char>, src: seq<char>, off: nat, ln: nat)
      requires off + ln <= |src|
      ensures base + src[..off] + src[off..][..ln] == base + src[..off + ln]
    {
    }

    /** uwrite_syspipe, in the task, on an interrupt-drained pipe. */
    method UWrite(src: seq<char>) returns (nw: nat)
      requires Valid() && rdtask == InterruptReadTask
      requires wrtask != null && wrtask.state == SchedReady && nwritten == 0
      requires |src| < TWO31
      modifies this`head, this`tail, this`popped, this`live, this`written, this`nwritten, this`wrtask, buf, wrtask
      ensures Valid() && rdtask == InterruptReadTask
      ensures written == old(written) + src
      ensures nw == |src| && wrtask == null && old(wrtask).state == SchedReady
    {
      var nleft: nat, off: nat := |src|, 0;
      while true
        invariant Valid() && rdtask == InterruptReadTask
        invariant wrtask == old(wrtask) && wrtask.state == SchedReady
        invariant off + nleft == |src| && nwritten == off
        invariant written == old(written) + src[..off]
        decreases nleft, if Room() == 0 then 1 else 0
      {
        var ln, navail := FillOnce(src[off..]);
        AppendRest(old(written), src, off, ln);
        off := off + ln;
        nleft := nleft - ln;
        if nleft > 0 && navail == 0 {
          SleepIfFull();
        }
        if nleft == 0 { break; }
      }
      assert src[..off] == src;
      Interrupts();
      nw := nwritten;
      wrtask := null;
    }

    /** Interrupts up to here; with them off, look again and sleep only if the pipe is still full. */
    method SleepIfFull()
      requires Valid() && wrtask != null && wrtask.state == SchedReady
      modifies this`tail, this`popped, this`live, wrtask
      ensures Valid() && wrtask.state == SchedReady && Room() > 0
    {
      Interrupts();
      var navail := NumAvail();
      if navail == 0 {
        var ms: int := *;
        WaitTrap(ms);
      }
    }

    /** num_avail_syspipe among the interrupts: a count that was true when it was
        read and that later pops can only make pessimistic. */
    method Probe() returns (navail: nat)
      requires Valid() && wrtask != null && wrtask.state == SchedReady
      modifies this`tail, this`popped, this`live, wrtask
      ensures Valid() && wrtask.state == SchedReady
      ensures old(Room()) <= navail <= Room()
    {
      Interrupts();
      navail := NumAvail();
      Interrupts();
    }

    /** One trip through the copying half of the loop: the first ln bytes of what
        is left went in, and the task believes navail slots are still free. */
    method FillOnce(rest: seq<char>) returns (ln: nat, navail: nat)
      requires Valid() && wrtask != null && wrtask.state == SchedReady
      requires nwritten + |rest| < TWO31
      modifies this`head, this`tail, this`popped, this`live, this`written, this`nwritten, buf, wrtask
      ensures Valid() && wrtask.state == SchedReady
      ensures ln <= |rest| && nwritten == old(nwritten) + ln
      ensures written == old(written) + rest[..ln]
      ensures rest != [] && old(Room()) > 0 ==> ln > 0
      ensures ln == 0 ==> Room() >= old(Room())
      ensures ln == 0 && rest != [] ==> navail == 0
    {
      navail := Probe();
      ln := 0;
      if |rest| <= navail || navail > 0 {
        ln := Least3(mask + 1 - head, |rest|, navail);
        FillSlots(rest[..ln]);
        nwritten := nwritten + ln;
        navail := navail - ln;
      }
    }

    /** The three limits on a copy: the end of the buffer, what is left to write,
        and the free slots counted. */
    static method Least3(toEnd: nat, nleft: nat, navail: nat) returns (ln: nat)
      ensures ln <= toEnd && ln <= nleft && ln <= navail
      ensures ln == toEnd || ln == nleft || ln == navail
    {
      ln := toEnd;
      if ln > nleft { ln := nleft; }
      if ln > navail { ln := navail; }
    }

    /** Copy, and only then p->m_head = (p->m_head + ln) & p->m_mask: the copied
        bytes become live all at once. */
    method FillSlots(chunk: seq<char>)
      requires Valid() && wrtask != null && wrtask.state == SchedReady
      requires head + |chunk| <= buf.Length && |chunk| <= Room()
      modifies this`head, this`tail, this`popped, this`live, this`written, buf, wrtask
      ensures Valid() && wrtask.state == SchedReady
      ensures written == old(written) + chunk && Room() + |chunk| >= old(Room())
    {
      CopyIn(chunk, |chunk|);
      Interrupts();
      Publish(chunk, |chunk|);
      Interrupts();
    }

    method Publish(ghost chunk: seq<char>, ln: nat)
      requires Valid() && ln == |chunk| && head + ln <= buf.Length && ln <= Room()
      requires buf[head..head + ln] == chunk
      modifies this`head, this`written, this`live
      ensures Valid() && written == old(written) + chunk && Room() + ln == old(Room())
    {
      AdvanceContents(buf[..], head, tail, ln);
      assert buf[..][head..head + ln] == buf[head..head + ln];
      head := Masked(ln);
      written, live := written + chunk, live + chunk;
    }

    /** (head + ln) & mask */
    method Masked(ln: nat) returns (j: nat)
      requires Valid() && head + ln <= buf.Length
      ensures j == if head + ln < buf.Length then head + ln else 0
    {
      j := And(head + ln, mask);
      AndMask(head + ln, lg);
      var wrap := head + ln == buf.Length;
      DivModUnique(head + ln, buf.Length, if wrap then 1 else 0, if wrap then 0 else head + ln);
    }

    /** The whole write system call.  Nothing has cleared what the task last waited for,
        so between the claim and the write a post may ready it with the pipe still
        full; the loop of the write puts up with that.  The call is refused, or every
        byte goes in behind what was there, in order, however the interrupts fall. */
    method Write(tsk: Task, src: seq<char>, regionOk: bool)
      requires Valid() && rdtask == InterruptReadTask && tsk.state == SchedReady && |src| < TWO31
      modifies this`head, this`tail, this`popped, this`live, this`written, this`nwritten, this`wrtask, buf, tsk
      ensures Valid() && rdtask == InterruptReadTask
      ensures old(wrtask) == null && src != [] && regionOk ==>
                tsk.ret == Code(|src|) && wrtask == null && written == old(written) + src
      ensures !(old(wrtask) == null && src != [] && regionOk) ==>
                && tsk.ret == Code(if old(wrtask) != null then -EBUSY else -EFAULT)
                && wrtask == old(wrtask) && written == old(written)
      ensures tsk.state == SchedReady
    {
      var claimed := KWrite(tsk, |src|, regionOk);
      if claimed {
        UntilReady();
        var nw := UWrite(src);
        tsk.ret := Code(nw);
      }
    }
  }
}
