/** The scheduling part of the kernel's task record (sw/zipos/taskp.h, sw/zipos/ksched.h). */
module Tasks {
  datatype SchedState = SchedReady | SchedWaiting | SchedErr | SchedExit

  /** An event mask as the set of its bits. */
  type Events = set<nat>

  /** What a system call leaves in context[1]: a count or error code, or the events that ended a wait. */
  datatype Answer = Code(code: int) | Got(events: Events)

  const EFAULT: int := 14
  const EBUSY: int := 16

  class Task {
    var state: SchedState
    var ret: Answer      // context[1], what the system call will return
    var waitsig: Events  // the events the task waits for
    var pending: Events  // the events it has not yet seen
    var timeout: nat     // the millisecond count to be woken at, 0 for none

    constructor ()
      ensures state == SchedReady && ret == Code(0) && waitsig == {} && pending == {} && timeout == 0
    {
      state, ret, waitsig, pending, timeout := SchedReady, Code(0), {}, {}, 0;
    }
  }
}
