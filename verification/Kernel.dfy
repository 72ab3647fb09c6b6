/** sw/zipos/kernel.c: the round-robin scheduler, the posting of events and
    timeouts, and the wait system call. */
module Kernel {
  import opened Bits
  import opened Tasks

  // ----- kschedule -----

  /** The first ready slot at or after `from`, or the idle task's slot. */
  function FirstReady(ready: seq<bool>, from: nat): (i: nat)
    ensures i <= |ready|
    ensures i < |ready| ==> from <= i && ready[i]
    ensures forall j | from <= j < i :: !ready[j]
    decreases |ready| - from
  {
    if from >= |ready| then |ready|
    else if ready[from] then from
    else FirstReady(ready, from + 1)
  }

  function Choose(ready: seq<bool>, from: nat): nat {
    var i := FirstReady(ready, from);
    if i < |ready| then i else FirstReady(ready, 0)
  }

  /** Slots passed over when going round from `from` to i. */
  function Distance(n: nat, from: nat, i: nat): int {
    if from <= i then i - from else i + n - from
  }

  /** The choice is the ready task reached first going round, and the idle task
      only when nobody is ready. */
  lemma {:induction false} ChooseIsNearest(ready: seq<bool>, from: nat)
    requires from <= |ready|
    ensures var c := Choose(ready, from);
            if c < |ready| then
              && ready[c]
              && forall j | 0 <= j < |ready| && ready[j] :: Distance(|ready|, from, c) <= Distance(|ready|, from, j)
            else
              c == |ready| && forall j | 0 <= j < |ready| :: !ready[j]
  {
    if FirstReady(ready, from) == |ready| {
      assert forall j | from <= j < |ready| :: !ready[j];
    }
  }

  /** The slots chosen by successive calls, each starting after the last one's choice. */
  function Schedule(rounds: seq<seq<bool>>, from: nat): (slots: seq<nat>)
    ensures |slots| == |rounds|
    decreases |rounds|
  {
    if rounds == [] then []
    else
      var c := Choose(rounds[0], from);
      [c] + Schedule(rounds[1..], c + 1)
  }

  /** Either t is chosen or the round moves on to a slot nearer to it. */
  lemma {:induction false} NearestWins(ready: seq<bool>, n: nat, from: nat, t: nat)
    requires |ready| == n && t < n && ready[t] && from <= n + 1
    ensures var c, start := Choose(ready, from), if from <= n then from else 0;
            c < n && (c != t ==> Distance(n, c + 1, t) < Distance(n, start, t))
  {
    var start := if from <= n then from else 0;
    assert Choose(ready, from) == Choose(ready, start);
    ChooseIsNearest(ready, start);
  }

  /** A task that is ready at every call is chosen before the scheduler has gone
      once round, whatever the other tasks do. */
  lemma {:induction false} Fairness(rounds: seq<seq<bool>>, n: nat, from: nat, t: nat) returns (k: nat)
    requires t < n && from <= n + 1 && AlwaysReady(rounds, n, t)
    requires |rounds| > Distance(n, if from <= n then from else 0, t)
    ensures k <= Distance(n, if from <= n then from else 0, t) && Schedule(rounds, from)[k] == t
    decreases |rounds|
  {
    var c := Choose(rounds[0], from);
    NearestWins(rounds[0], n, from, t);
    if c == t {
      k := 0;
    } else {
      var later := Fairness(rounds[1..], n, c + 1, t);
      k := later + 1;
    }
  }

  /** Of n tasks besides the idle one, task t is ready at every call. */
  predicate AlwaysReady(rounds: seq<seq<bool>>, n: nat, t: nat)
    requires t < n
  {
    forall i | 0 <= i < |rounds| :: |rounds[i]| == n && rounds[i][t]
  }

  /** Within LAST_TASK calls, in particular. */
  lemma {:induction false} FairWithinOneRound(rounds: seq<seq<bool>>, n: nat, from: nat, t: nat)
    requires t < n && from <= n + 1 && |rounds| >= n && AlwaysReady(rounds, n, t)
    ensures t in Schedule(rounds, from)[..n]
  {
    var k := Fairness(rounds, n, from, t);
    assert Schedule(rounds, from)[..n][k] == t;
  }

  ghost predicate Distinct(tasks: seq<Task>) {
    forall i, j | 0 <= i < j < |tasks| :: tasks[i] != tasks[j]
  }

  /** Which of the non-idle tasks are ready. */
  ghost function Ready(tasks: seq<Task>): (r: seq<bool>)
    requires tasks != []
    reads tasks
    ensures |r| == |tasks| - 1
  {
    seq(|tasks| - 1, i requires 0 <= i < |tasks| - 1 reads tasks => tasks[i].state == SchedReady)
  }

  /** The slot after `last`, or the first one when it is not in the list. */
  function SlotAfter(tasks: seq<Task>, last: Task): (s: nat)
    ensures s <= |tasks| && (s > 0 <==> last in tasks)
    ensures s > 0 ==> tasks[s - 1] == last && last !in tasks[..s - 1]
  {
    if tasks == [] then 0
    else if tasks[0] == last then 1
    else
      var s := SlotAfter(tasks[1..], last);
      assert s > 0 ==> tasks[..s] == [tasks[0]] + tasks[1..][..s - 1];
      if s == 0 then 0 else s + 1
  }

  /** Where the round begins: after the last task, or at the front. */
  function RoundStart(tasks: seq<Task>, last: Task): (from: nat)
    requires tasks != []
    ensures from < |tasks|
  {
    var s := SlotAfter(tasks, last);
    if s < |tasks| then s else 0
  }

  /** Slot c holds the ready task reached first going round from `from`, or it is the
      idle task's and nobody else is ready. */
  ghost predicate Nearest(tasks: seq<Task>, from: nat, c: nat)
    requires tasks != []
    reads tasks
  {
    var idle := |tasks| - 1;
    if c < idle then
      && tasks[c].state == SchedReady
      && forall j | 0 <= j < idle && tasks[j].state == SchedReady :: Distance(idle, from, c) <= Distance(idle, from, j)
    else
      c == idle && forall j | 0 <= j < idle :: tasks[j].state != SchedReady
  }

  method FindAfter(tasks: seq<Task>, last: Task) returns (nxtid: nat)
    ensures nxtid == SlotAfter(tasks, last)
  {
    nxtid := 0;
    var i := 0;
    while i < |tasks|
      invariant i <= |tasks| && nxtid == 0
      invariant SlotAfter(tasks, last) ==
                if SlotAfter(tasks[i..], last) == 0 then 0 else i + SlotAfter(tasks[i..], last)
    {
      assert tasks[i..][1..] == tasks[i + 1..];
      if last == tasks[i] {
        return i + 1;
      }
      i := i + 1;
    }
  }

  /** kschedule.  The idle task is the last in the list. */
  method KSchedule(tasks: seq<Task>, last: Task) returns (current: Task)
    requires tasks != []
    ensures current == tasks[|tasks| - 1] || current.state == SchedReady
    ensures exists c: nat | c < |tasks| :: Nearest(tasks, RoundStart(tasks, last), c) && current == tasks[c]
    ensures current == tasks[Choose(Ready(tasks), SlotAfter(tasks, last))]
  {
    var idle := |tasks| - 1;
    current := tasks[idle];
    var nxtid := FindAfter(tasks, last);
    ghost var ready, from := Ready(tasks), nxtid;

    while nxtid < idle
      invariant from <= nxtid
      invariant FirstReady(ready, from) == FirstReady(ready, nxtid)
      invariant current == tasks[idle]
    {
      if tasks[nxtid].state == SchedReady {
        current := tasks[nxtid];
        break;
      }
      nxtid := nxtid + 1;
    }
    if nxtid >= idle {
      nxtid := 0;
      while nxtid < idle
        invariant nxtid <= idle
        invariant FirstReady(ready, 0) == FirstReady(ready, nxtid)
      {
        if tasks[nxtid].state == SchedReady {
          break;
        }
        nxtid := nxtid + 1;
      }
      current := tasks[nxtid];
    }
    ghost var c := Choose(ready, from);
    ChosenIsNearest(tasks, last, ready, c);
  }

  lemma {:induction false} ChosenIsNearest(tasks: seq<Task>, last: Task, ready: seq<bool>, c: nat)
    requires tasks != [] && |ready| == |tasks| - 1 && c == Choose(ready, SlotAfter(tasks, last))
    requires forall i | 0 <= i < |ready| :: ready[i] <==> tasks[i].state == SchedReady
    ensures Nearest(tasks, RoundStart(tasks, last), c)
  {
    var from := RoundStart(tasks, last);
    assert Choose(ready, SlotAfter(tasks, last)) == Choose(ready, from);
    ChooseIsNearest(ready, from);
    assert forall j | 0 <= j < |ready| && tasks[j].state == SchedReady :: ready[j];
    assert forall j | 0 <= j < |ready| && !ready[j] :: tasks[j].state != SchedReady;
  }

  /** Handing the chosen task back in as `last` resumes the round after its slot. */
  lemma {:induction false} SlotAfterChosen(tasks: seq<Task>, c: nat)
    requires Distinct(tasks) && c < |tasks|
    ensures SlotAfter(tasks, tasks[c]) == c + 1
  {
    if c > 0 {
      SlotAfterChosen(tasks[1..], c - 1);
    }
  }

  // ----- kpost -----

  /** The bit numbers of INT_TIMER and SWINT_TIMEOUT. */
  const TIMER: nat := 4
  const TIMEOUT: nat := 16

  /** A task's record as a value. */
  datatype TaskState = TaskState(state: SchedState, ret: Answer, waitsig: Events, pending: Events, timeout: nat)

  ghost function View(t: Task): TaskState
    reads t
  {
    TaskState(t.state, t.ret, t.waitsig, t.pending, t.timeout)
  }

  predicate IsTick(events: Events) {
    TIMER in events
  }

  /** The counter after the tick, still to be rebased when negative. */
  function Ticked(events: Events, ms: int): int {
    if IsTick(events) then S32(ms + 1) else ms
  }

  function Rebased(ms: int): int {
    if ms < 0 then S32(ms - TWO31) else ms
  }

  /** What becomes of a task's timeout; `ms` is the counter before it is rebased. */
  function Expire(t: TaskState, ms: int): TaskState {
    if t.timeout == 0 then t
    else if ms < 0 then
      var moved := U32(t.timeout - TWO31);
      var kept := if moved == 0 then 1 else moved;
      if S32(kept) < Rebased(ms) then t.(pending := t.pending + {TIMEOUT}, timeout := 0)
      else t.(timeout := kept)
    else if t.timeout < ms then t.(pending := t.pending + {TIMEOUT}, timeout := 0)
    else t
  }

  /** Deliver the events, and ready a task waiting for one of them. */
  function Wake(t: TaskState, events: Events): TaskState {
    var pending := t.pending + events;
    var got := t.waitsig * pending;
    if t.state == SchedWaiting && got != {} then
      TaskState(SchedReady, Got(got), {}, pending - got, t.timeout)
    else t.(pending := pending)
  }

  function PostTask(t: TaskState, events: Events, ms: int): TaskState {
    Wake(Expire(t, Ticked(events, ms)), events)
  }

  /** A task's record before and after a post.  Its events are those it had, those
      posted, and the timeout if its deadline was struck out; if it waits for any
      of them it becomes ready, with just those as its answer, and otherwise they
      stay pending. */
  predicate Posted(t: TaskState, t': TaskState, events: Events) {
    var expired := t.timeout != 0 && t'.timeout == 0;
    var all := t.pending + events + if expired then {TIMEOUT} else {};
    && (t.timeout == 0 ==> t'.timeout == 0)
    && if t.state == SchedWaiting && t.waitsig * all != {} then
         && t'.state == SchedReady && t'.ret == Got(t.waitsig * all)
         && t'.waitsig == {} && t'.pending == all - t.waitsig
       else
         t'.state == t.state && t'.ret == t.ret && t'.waitsig == t.waitsig && t'.pending == all
  }

  lemma {:induction false} PostOutcome(t: TaskState, events: Events, ms: int)
    ensures Posted(t, PostTask(t, events, ms), events)
  {
    var x := Expire(t, Ticked(events, ms));
    assert x.pending == t.pending + if t.timeout != 0 && x.timeout == 0 then {TIMEOUT} else {};
    var all := x.pending + events;
    assert all == t.pending + events + if t.timeout != 0 && x.timeout == 0 then {TIMEOUT} else {};
    assert all - t.waitsig * all == all - t.waitsig;
  }

  /** The counter counts timer ticks modulo 2^31. */
  lemma ClockAdvances(events: Events, ms: int)
    requires 0 <= ms < TWO31
    ensures PostClock(events, ms) == if TIMER !in events then ms else if ms + 1 < TWO31 then ms + 1 else 0
  {
  }

  /** A waiting task is woken by any event it waits for, is told of it, and has no
      event taken away that it was not told of. */
  lemma {:induction false} PostWakes(t: TaskState, events: Events, ms: int)
    requires t.state == SchedWaiting && t.waitsig * events != {}
    ensures var t' := PostTask(t, events, ms);
            && t'.state == SchedReady && t'.ret.Got? && t'.waitsig == {}
            && t.waitsig * events <= t'.ret.events <= t.waitsig
            && t'.ret.events !! t'.pending && t.pending + events <= t'.pending + t'.ret.events
  {
    PostOutcome(t, events, ms);
  }

  /** It goes on waiting if nothing it waits for is pending, posted or timed out. */
  lemma {:induction false} PostLeavesWaiting(t: TaskState, events: Events, ms: int)
    requires t.state == SchedWaiting && t.waitsig !! t.pending + events + {TIMEOUT}
    ensures var t' := PostTask(t, events, ms);
            && t'.state == SchedWaiting && t'.waitsig == t.waitsig && t'.ret == t.ret
            && t.pending + events <= t'.pending <= t.pending + events + {TIMEOUT}
  {
    PostOutcome(t, events, ms);
  }

  function PostClock(events: Events, ms: int): int {
    Rebased(Ticked(events, ms))
  }

  /** kpost, over the whole task list. */
  method KPost(tasks: seq<Task>, events: Events, ms: int) returns (ms': int)
    requires Distinct(tasks)
    requires forall i | 0 <= i < |tasks| :: tasks[i].timeout < TWO32
    modifies tasks
    ensures ms' == PostClock(events, ms)
    ensures forall i | 0 <= i < |tasks| :: View(tasks[i]) == PostTask(old(View(tasks[i])), events, ms)
    ensures forall i | 0 <= i < |tasks| :: Posted(old(View(tasks[i])), View(tasks[i]), events)
  {
    ms' := ms;
    if TIMER in events {
      ms' := S32(ms' + 1);
    }
    ghost var ticked := ms';
    if ms' < 0 {
      ms' := S32(ms' - TWO31);
      for i := 0 to |tasks|
        invariant forall j | 0 <= j < i :: View(tasks[j]) == Expire(old(View(tasks[j])), ticked)
        invariant forall j | i <= j < |tasks| :: View(tasks[j]) == old(View(tasks[j]))
      {
        RebaseTimeout(tasks[i], ms', ticked);
      }
    } else {
      for i := 0 to |tasks|
        invariant forall j | 0 <= j < i :: View(tasks[j]) == Expire(old(View(tasks[j])), ticked)
        invariant forall j | i <= j < |tasks| :: View(tasks[j]) == old(View(tasks[j]))
      {
        CheckTimeout(tasks[i], ms');
      }
    }
    for i := 0 to |tasks|
      invariant forall j | 0 <= j < i :: View(tasks[j]) == PostTask(old(View(tasks[j])), events, ms)
      invariant forall j | i <= j < |tasks| :: View(tasks[j]) == Expire(old(View(tasks[j])), ticked)
    {
      Deliver(tasks[i], events);
    }
    forall i | 0 <= i < |tasks|
      ensures Posted(old(View(tasks[i])), View(tasks[i]), events)
    {
      PostOutcome(old(View(tasks[i])), events, ms);
    }
  }

  method RebaseTimeout(t: Task, ms: int, ghost ticked: int)
    requires ticked < 0 && ms == Rebased(ticked)
    modifies t
    ensures View(t) == Expire(old(View(t)), ticked)
  {
    if t.timeout != 0 {
      t.timeout := U32(t.timeout - TWO31);
      if t.timeout == 0 {
        t.timeout := t.timeout + 1;
      }
      if S32(t.timeout) < ms {
        t.pending := t.pending + {TIMEOUT};
        t.timeout := 0;
      }
    }
  }

  method CheckTimeout(t: Task, ms: int)
    requires 0 <= ms
    modifies t
    ensures View(t) == Expire(old(View(t)), ms)
  {
    if t.timeout != 0 {
      if t.timeout < ms {
        t.pending := t.pending + {TIMEOUT};
        t.timeout := 0;
      }
    }
  }

  method Deliver(t: Task, events: Events)
    modifies t
    ensures View(t) == Wake(old(View(t)), events)
  {
    t.pending := t.pending + events;
    var got := t.waitsig * t.pending;
    if t.state == SchedWaiting && got != {} {
      t.state := SchedReady;
      t.ret := Got(got);
      t.pending := t.pending - got;
      t.waitsig := {};
    }
  }

  // ----- the TRAPID_WAIT arm -----

  /** wait(ilist, timeout): answered at once, or put to sleep (unless timeout is zero). */
  function WaitTask(t: TaskState, ilist: Events, timeout: int, ms: int): TaskState {
    var got := ilist * t.pending;
    if got != {} then t.(ret := Got(got), pending := t.pending - got)
    else if timeout == 0 then t.(ret := Got({}), waitsig := ilist)
    else if timeout < 0 then t.(ret := Got({}), waitsig := ilist, state := SchedWaiting)
    else t.(ret := Got({}), waitsig := ilist + {TIMEOUT}, state := SchedWaiting, timeout := U32(ms + timeout))
  }

  method WaitTrap(current: Task, ilist: Events, timeout: int, ms: int) returns (needResched: bool)
    modifies current
    ensures View(current) == WaitTask(old(View(current)), ilist, timeout, ms)
    ensures needResched <==> ilist * old(current.pending) == {} && timeout != 0
  {
    needResched := false;
    var got := ilist * current.pending;
    current.ret := Got(got);
    if got != {} {
      current.pending := current.pending - got;
    } else {
      current.waitsig := ilist;
      if timeout != 0 {
        current.state := SchedWaiting;
        needResched := true;
        if timeout > 0 {
          current.timeout := U32(ms + timeout);
          current.waitsig := current.waitsig + {TIMEOUT};
        }
      }
    }
  }

  /** A wait for something already pending is answered at once with exactly that,
      which is used up; the task stays ready and keeps its other events. */
  lemma {:induction false} AnsweredAtOnce(t: TaskState, ilist: Events, timeout: int, ms: int)
    requires ilist * t.pending != {}
    ensures var t' := WaitTask(t, ilist, timeout, ms);
            && t'.ret.Got? && (forall e :: e in t'.ret.events <==> e in ilist && e in t.pending)
            && (forall e :: e in t'.pending <==> e in t.pending && e !in ilist)
            && t'.state == t.state && t'.waitsig == t.waitsig && t'.timeout == t.timeout
  {
  }

  /** Otherwise the task sleeps unless the timeout is zero, for the events it asked
      for and, with a positive one, for the timeout at its deadline. */
  lemma {:induction false} PutToSleep(t: TaskState, ilist: Events, timeout: int, ms: int)
    requires ilist * t.pending == {}
    ensures var t' := WaitTask(t, ilist, timeout, ms);
            && t'.ret == Got({}) && t'.pending == t.pending
            && t'.state == (if timeout == 0 then t.state else SchedWaiting)
            && (forall e :: e in t'.waitsig <==> e in ilist || (timeout > 0 && e == TIMEOUT))
            && t'.timeout == if timeout > 0 then (ms + timeout) % 0x1_0000_0000 else t.timeout
  {
  }

  // ----- when a timeout is posted -----

  /** The task and the counter after a run of posts. */
  function PostRun(t: TaskState, ms: int, posts: seq<Events>): (TaskState, int) {
    if posts == [] then (t, ms)
    else
      var n := |posts| - 1;
      var (t', ms') := PostRun(t, ms, posts[..n]);
      (PostTask(t', posts[n], ms'), PostClock(posts[n], ms'))
  }

  /** How many of the posts are timer ticks. */
  function Ticks(posts: seq<Events>): nat {
    if posts == [] then 0
    else Ticks(posts[..|posts| - 1]) + if IsTick(posts[|posts| - 1]) then 1 else 0
  }

  /** A deadline that falls exactly where the counter is rebased is stored as one
      instead of zero, and so runs one tick late. */
  function Slack(ms: int, delay: nat): nat {
    if ms + delay == TWO31 then 1 else 0
  }

  predicate ValidDelay(ms: int, delay: nat) {
    0 <= ms < TWO31 && 0 < delay < TWO31
  }

  /** k ticks after arming at counter value ms0 with that delay, and not yet
      expired.  Below 2^31 ticks the counter has been rebased at most once. */
  ghost predicate Armed(ms0: int, delay: nat, k: nat, timeout: nat, ms: int) {
    && k <= delay + Slack(ms0, delay)
    && if ms0 + k < TWO31 then ms == ms0 + k && timeout == ms0 + delay
       else ms == ms0 + k - TWO31 && timeout == ms0 + delay - TWO31 + Slack(ms0, delay)
  }

  lemma RebaseArithmetic(timeout: nat)
    requires timeout < TWO32
    ensures timeout < TWO31 ==> U32(timeout - TWO31) == timeout + TWO31 && S32(timeout + TWO31) < 0
    ensures timeout >= TWO31 ==> U32(timeout - TWO31) == timeout - TWO31 && S32(timeout - TWO31) == timeout - TWO31
    ensures S32(TWO31) == 0 - TWO31 && S32(0 - TWO32) == 0
  {
  }

  lemma {:induction false} ArmedStep(ms0: int, delay: nat, k: nat, t: TaskState, ms: int, events: Events)
    requires ValidDelay(ms0, delay) && Armed(ms0, delay, k, t.timeout, ms)
    ensures var k' := k + if IsTick(events) then 1 else 0;
            var t' := PostTask(t, events, ms);
            if k' <= delay + Slack(ms0, delay) then
              Armed(ms0, delay, k', t'.timeout, PostClock(events, ms)) && t'.timeout != 0
            else
              t'.timeout == 0 && Expire(t, Ticked(events, ms)).pending == t.pending + {TIMEOUT}
  {
    RebaseArithmetic(t.timeout);
    assert 0 <= ms < TWO31;
    if IsTick(events) && ms + 1 == TWO31 {
      assert Ticked(events, ms) == 0 - TWO31 && PostClock(events, ms) == 0;
    } else {
      assert 0 <= Ticked(events, ms) == PostClock(events, ms);
    }
  }

  /** The timeout stays stored for exactly `delay` ticks (one more when the
      deadline is the rebase itself) and is posted on the tick after, on either
      side of a rebase: never before the deadline has passed, and at most two
      ticks after it. */
  lemma {:induction false} TimeoutExact(t: TaskState, ms0: int, delay: nat, posts: seq<Events>)
    requires ValidDelay(ms0, delay) && t.timeout == ms0 + delay
    ensures var (t', ms') := PostRun(t, ms0, posts);
            && (t'.timeout != 0 <==> Ticks(posts) <= delay + Slack(ms0, delay))
            && (t'.timeout != 0 ==> Armed(ms0, delay, Ticks(posts), t'.timeout, ms'))
            && 0 <= ms' < TWO31
  {
    if posts != [] {
      var n := |posts| - 1;
      TimeoutExact(t, ms0, delay, posts[..n]);
      var (t', ms') := PostRun(t, ms0, posts[..n]);
      if t'.timeout != 0 {
        ArmedStep(ms0, delay, Ticks(posts[..n]), t', ms', posts[n]);
      }
    }
  }

  /** On the post that clears the timeout the event is raised for the task. */
  lemma {:induction false} TimeoutRaised(t: TaskState, ms0: int, delay: nat, posts: seq<Events>)
    requires ValidDelay(ms0, delay) && t.timeout == ms0 + delay && posts != []
    requires var n := |posts| - 1;
             Ticks(posts[..n]) <= delay + Slack(ms0, delay) < Ticks(posts)
    ensures var n := |posts| - 1;
            var (t', ms') := PostRun(t, ms0, posts[..n]);
            Expire(t', Ticked(posts[n], ms')).pending == t'.pending + {TIMEOUT}
  {
    var n := |posts| - 1;
    TimeoutExact(t, ms0, delay, posts[..n]);
    var (t', ms') := PostRun(t, ms0, posts[..n]);
    ArmedStep(ms0, delay, Ticks(posts[..n]), t', ms', posts[n]);
  }

  /** Nothing this task waits for has happened, and nothing does. */
  ghost predicate Undisturbed(t: TaskState, ilist: Events, posts: seq<Events>) {
    && t.pending !! ilist + {TIMEOUT}
    && forall e | e in posts :: e !! ilist + {TIMEOUT}
  }

  ghost predicate Sleeping(t: TaskState, ilist: Events) {
    t.state == SchedWaiting && t.waitsig == ilist + {TIMEOUT} && t.pending !! ilist + {TIMEOUT}
  }

  predicate TimedOut(t: TaskState) {
    t.state == SchedReady && t.ret == Got({TIMEOUT})
  }

  /** A task that calls wait(ilist, delay) sleeps through exactly delay ticks (plus
      the slack) and is then ready with the timeout as its answer, whenever no
      stale timeout is pending and none of its events occurs. */
  lemma {:induction false} WaitSleepsExactly(t: TaskState, ilist: Events, delay: nat, ms: int, posts: seq<Events>)
    requires ValidDelay(ms, delay) && Undisturbed(t, ilist, posts)
    ensures var after := PostRun(WaitTask(t, ilist, delay, ms), ms, posts).0;
            if Ticks(posts) <= delay + Slack(ms, delay) then Sleeping(after, ilist) else TimedOut(after)
  {
    var asleep := WaitTask(t, ilist, delay, ms);
    if posts == [] {
      assert ilist * t.pending == {};
    } else {
      var n := |posts| - 1;
      assert posts[n] in posts && forall e | e in posts[..n] :: e in posts;
      WaitSleepsExactly(t, ilist, delay, ms, posts[..n]);
      Deadline(t, ilist, delay, ms);
      TimeoutExact(asleep, ms, delay, posts[..n]);
      var (t', ms') := PostRun(asleep, ms, posts[..n]);
      SleepStep(t', ilist, ms, delay, Ticks(posts[..n]), ms', posts[n]);
    }
  }

  lemma {:induction false} Deadline(t: TaskState, ilist: Events, delay: nat, ms: int)
    requires ValidDelay(ms, delay) && t.pending !! ilist + {TIMEOUT}
    ensures WaitTask(t, ilist, delay, ms).timeout == ms + delay
  {
    assert ilist * t.pending == {};
  }

  /** One post, k ticks into the wait. */
  lemma {:induction false} SleepStep(t: TaskState, ilist: Events, ms0: int, delay: nat, k: nat, ms: int, events: Events)
    requires ValidDelay(ms0, delay) && events !! ilist + {TIMEOUT}
    requires if k <= delay + Slack(ms0, delay) then Sleeping(t, ilist) && Armed(ms0, delay, k, t.timeout, ms)
             else TimedOut(t)
    ensures var k', t' := k + (if IsTick(events) then 1 else 0), PostTask(t, events, ms);
            if k' <= delay + Slack(ms0, delay) then Sleeping(t', ilist) else TimedOut(t')
  {
    if k <= delay + Slack(ms0, delay) {
      ArmedStep(ms0, delay, k, t, ms, events);
      SleeperStep(t, ilist, events, Ticked(events, ms));
    }
  }

  lemma {:induction false} SleeperStep(t: TaskState, ilist: Events, events: Events, ms: int)
    requires t.state == SchedWaiting && t.waitsig == ilist + {TIMEOUT}
    requires t.pending !! ilist + {TIMEOUT} && events !! ilist + {TIMEOUT}
    ensures var x, w := Expire(t, ms), Wake(Expire(t, ms), events);
            && (x.pending == t.pending ==>
                  w.state == SchedWaiting && w.waitsig == t.waitsig && w.pending !! ilist + {TIMEOUT})
            && (x.pending == t.pending + {TIMEOUT} ==> w.state == SchedReady && w.ret == Got({TIMEOUT}))
  {
    var x := Expire(t, ms);
    if x.pending == t.pending {
      assert t.waitsig * (x.pending + events) == {};
    } else {
      assert t.waitsig * (x.pending + events) == {TIMEOUT};
    }
  }

  /** Otherwise the sleep is cut short: a timeout left pending by an earlier wait
      ends the next one at the very first post, tick or not, and nothing else does. */
  lemma {:induction false} StaleTimeoutCutsShort(t: TaskState, ilist: Events, delay: nat, ms: int, events: Events)
    requires ValidDelay(ms, delay) && ilist !! t.pending && events !! ilist + {TIMEOUT}
    ensures PostTask(WaitTask(t, ilist, delay, ms), events, ms).state == SchedReady <==> TIMEOUT in t.pending
  {
    var asleep := WaitTask(t, ilist, delay, ms);
    assert ilist * t.pending == {};
    ArmedStep(ms, delay, 0, asleep, ms, events);
    var x := Expire(asleep, Ticked(events, ms));
    if TIMEOUT in t.pending {
      assert TIMEOUT in x.waitsig * (x.pending + events);
    } else {
      assert x.waitsig * (x.pending + events) == {};
    }
  }
}
