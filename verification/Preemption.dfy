/** The way of a user program off the processor and back: stack frame, process table, and restore. */
module Preemption {
  import opened ContextSwitch
  import opened Processes
  import opened Scheduler
  import opened KernelDriver

  /** The running system as the machine and the kernel's tables hold it. */
  ghost predicate Holds(m: Machine, t: ProcessTable, s: System)
    reads m, t, t.pages, t.procs, t.pages.frameMap, t.pages.dirUsed, t.pages.dirs
  {
    t.Valid() && t.State() == s.k && m.User() == s.user
  }

  /**
   * A timer interrupt of a user program: the frame is laid out, the handler saves it to the current
   * process's block and switches, and the next process's block is loaded; or, with no other active
   * process, the handler returns. Machine and kernel go where a tick takes the system.
   */
  method TimerInterrupt(m: Machine, t: ProcessTable, vector: Word, kernelEsp: Word,
                        directory: Word, returnAddress: Word, ghost s: System)
    requires Holds(m, t, s) && Inv(s.k) && s.k.cur >= 0
    modifies m, t`cur, t`cr3, t.procs
    ensures var e := Tick(old(m.r));
      Privilege(old(m.r.ds)) != 0 || kernelEsp == s.user.esp || s.k.activeCount <= 1 ==> Holds(m, t, Step(s, e))
    ensures var e := Tick(old(m.r)); t.Valid() && t.State() == Step(s.(user := Resumed(old(m.Seen(kernelEsp)))), e).k
    ensures s.k.activeCount <= 1 ==>
      m.r == old(m.r) && m.cs == old(m.cs) && m.ss == old(m.ss) && m.stack == old(m.stack)
    ensures s.k.activeCount > 1 ==>
      m.User() == Step(s.(user := Resumed(old(m.Seen(kernelEsp)))), Tick(old(m.r))).user && Privilege(m.r.ds) != 0
  {
    FrameHoldsContext(m.Seen(kernelEsp), m.r.esp, vector, m.cs, m.ss, m.stack);
    m.EnterHandler(vector, kernelEsp);
    if t.activeCount > 1 {
      var ctx := t.Tick(FrameContext(m.stack));
      m.SwitchTo(ctx, directory, returnAddress);
    } else {
      m.LeaveHandler();
    }
  }
}
