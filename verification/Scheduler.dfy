/** Runs of creations, destructions and timer ticks: who runs, how long one waits, and what preemption keeps. */
module Scheduler {
  import opened ContextSwitch
  import opened Paging
  import opened Processes

  // ----- one switch

  /** scheduler_save_context_to_current_running_pcb. */
  function Save(k: Kernel, ctx: Context): Kernel
    requires 0 <= k.cur < PROCESS_COUNT
  {
    k.(procs := k.procs[k.cur := k.procs[k.cur].(ctx := ctx)])
  }

  /** scheduler_switch_to_next_process, up to the jump; the first switch has no process to set back to Ready. */
  function Switch(k: Kernel): Kernel
    requires -1 <= k.cur < PROCESS_COUNT
  {
    var p := NextIndex(k);
    var procs := if k.cur >= 0 then k.procs[k.cur := k.procs[k.cur].(state := Ready)] else k.procs;
    k.(procs := procs[p := procs[p].(state := Running)], cur := p, cr3 := procs[p].dir)
  }

  lemma SaveKeeps(k: Kernel, ctx: Context)
    requires Inv(k) && k.cur >= 0
    ensures Inv(Save(k, ctx))
    ensures var w := Save(k, ctx);
      && w.mem == k.mem && w.cur == k.cur && w.cr3 == k.cr3 && w.procs[k.cur].ctx == ctx
      && (forall q | 0 <= q < PROCESS_COUNT && q != k.cur :: w.procs[q] == k.procs[q])
  {
    var w := Save(k, ctx);
    assert Active(w) == Active(k);
    forall q | 0 <= q < PROCESS_COUNT
      ensures ProcOk(w, q)
    {
      assert ProcOk(k, q);
    }
    SameOwners(k, w);
  }

  /** Directories stay with their processes when no slot changes its directory or whether it is active. */
  lemma SameOwners(k: Kernel, w: Kernel)
    requires w.mem == k.mem
    requires forall q | 0 <= q < PROCESS_COUNT ::
      w.procs[q].active == k.procs[q].active && w.procs[q].dir == k.procs[q].dir
    requires forall d | 0 <= d < DIRECTORY_COUNT :: DirectoryOk(k, d)
    ensures forall d | 0 <= d < DIRECTORY_COUNT :: DirectoryOk(w, d)
  {
    forall d | 0 <= d < DIRECTORY_COUNT
      ensures DirectoryOk(w, d)
    {
      assert DirectoryOk(k, d);
      if k.mem.dirUsed[d] {
        var q :| Owns(k, q, d);
        assert Owns(w, q, d);
      }
      forall q, q' | Owns(w, q, d) && Owns(w, q', d)
        ensures q == q'
      {
        assert Owns(k, q, d) && Owns(k, q', d);
      }
    }
  }

  /**
   * After a switch exactly one active process is Running, it is the current one, and its directory,
   * which maps the kernel, is loaded.
   */
  lemma SwitchKeeps(k: Kernel)
    requires Inv(k) && k.activeCount > 0
    ensures var w := Switch(k);
      && Inv(w) && w.cur == NextIndex(k) && w.procs[w.cur].active && w.procs[w.cur].state.Running?
      && (forall q | 0 <= q < PROCESS_COUNT && w.procs[q].active && w.procs[q].state.Running? :: q == w.cur)
      && w.cr3 == w.procs[w.cur].dir && 0 <= w.cr3 < DIRECTORY_COUNT && w.mem.dirUsed[w.cr3] && MapsKernel(w.mem, w.cr3)
      && (forall q | 0 <= q < PROCESS_COUNT :: w.procs[q].ctx == k.procs[q].ctx)
  {
    var w := Switch(k);
    NextFound(k);
    assert Active(w) == Active(k);
    forall q | 0 <= q < PROCESS_COUNT
      ensures ProcOk(w, q) && (w.procs[q].active && w.procs[q].state.Running? ==> q == w.cur)
    {
      assert ProcOk(k, q);
    }
    SameOwners(k, w);
  }

  /** A switch changes no block but by the states of the process it leaves and the one it goes to. */
  lemma SwitchedBlocks(k: Kernel, w: Kernel)
    requires -1 <= k.cur < PROCESS_COUNT && w == Switch(k)
    ensures w.mem == k.mem && w.activeCount == k.activeCount && w.totalPid == k.totalPid
    ensures 0 <= w.cur < PROCESS_COUNT && w.procs[w.cur].state.Running?
    ensures forall q | 0 <= q < PROCESS_COUNT :: w.procs[q].(state := k.procs[q].state) == k.procs[q]
    ensures forall q | 0 <= q < PROCESS_COUNT && q != w.cur ::
      w.procs[q].state == if q == k.cur then Ready else k.procs[q].state
  {
    hide NextIndex;
  }

  // ----- runs

  /**
   * The kernel; the registers of the program on the processor and the id of its process; and for
   * each process the registers it had when it last left the processor, or was created with.
   */
  datatype System = System(k: Kernel, user: UserState, running: nat, saved: map<nat, UserState>)

  /** The program computes, a process is created or destroyed, or the timer fires with these segment registers. */
  datatype Event = Compute(user: UserState) | Start(r: Program) | Kill(pid: nat) | Tick(segments: Registers)

  /** What the handler finds of the running program. */
  function ContextOf(u: UserState, s: Registers): Context {
    Context(s.(edi := u.edi, esi := u.esi, ebp := u.ebp, esp := u.esp,
               ebx := u.ebx, edx := u.edx, ecx := u.ecx, eax := u.eax), u.eip, u.eflags)
  }

  /** The registers that a program created next starts with. */
  function FirstState(k: Kernel, r: Program): UserState
    requires -1 <= k.cur < PROCESS_COUNT && (k.cur >= 0 || k.activeCount == 0)
  {
    Resumed(StartContext(k.procs[InactiveIndex(k)].ctx, r.buf))
  }

  /**
   * Creation finds its resources, and some slot other than that of a current process that has died;
   * the last process is not killed.
   */
  ghost predicate Possible(s: System, e: Event)
    requires 0 <= s.k.cur < PROCESS_COUNT
  {
    match e
    case Compute(_) => true
    case Start(r) => Fits(s.k, r) && !OnlyCurrentFree(s.k)
    case Kill(pid) => Alive(s.k, pid) && s.k.activeCount > 1
    case Tick(_) => true
  }

  predicate Switches(s: System, e: Event) {
    e.Tick? && s.k.activeCount > 1
  }

  /** A creation, wherever the new process goes. */
  ghost function Started(s: System, r: Program): System
    requires Inv(s.k) && s.k.cur >= 0 && Fits(s.k, r)
  {
    CreateKeeps(s.k, r);
    s.(k := Create(s.k, r),
       saved := if CreateCode(s.k, r) == 0 then s.saved[s.k.totalPid + 1 := FirstState(s.k, r)] else s.saved)
  }

  /** A tick with another process to go to: the registers leave the processor with the process that ran. */
  function Ticked(s: System, segments: Registers): System
    requires 0 <= s.k.cur < PROCESS_COUNT
  {
    var w := Switch(Save(s.k, ContextOf(s.user, segments)));
    System(w, Resumed(w.procs[w.cur].ctx), w.procs[w.cur].pid, s.saved[s.running := s.user])
  }

  ghost function Step(s: System, e: Event): System
    requires Inv(s.k) && s.k.cur >= 0 && Possible(s, e)
  {
    match e
    case Compute(u) => s.(user := u)
    case Start(r) => Started(s, r)
    case Kill(pid) => AliveSlot(s.k, pid); s.(k := Destroy(s.k, pid))
    case Tick(segments) => if s.k.activeCount > 1 then Ticked(s, segments) else s
  }

  /** Slot p holds, in its block, the registers that its process is to go on with. */
  predicate Keeps(s: System, p: nat)
    requires p < PROCESS_COUNT
  {
    s.k.procs[p].pid in s.saved && Resumed(s.k.procs[p].ctx) == s.saved[s.k.procs[p].pid]
  }

  /** The current block is that of the process on the processor, and all other blocks keep their registers. */
  ghost predicate Faithful(s: System) {
    && 0 <= s.k.cur < PROCESS_COUNT && s.running == s.k.procs[s.k.cur].pid
    && (forall p | 0 <= p < PROCESS_COUNT && p != s.k.cur && s.k.procs[p].active :: Keeps(s, p))
  }

  lemma StepKeeps(s: System, e: Event)
    requires Inv(s.k) && s.k.cur >= 0 && Possible(s, e)
    ensures Inv(Step(s, e).k) && Step(s, e).k.cur >= 0
    ensures !Switches(s, e) ==> Step(s, e).k.cur == s.k.cur
  {
    match e
    case Compute(_) =>
    case Start(r) => CreateKeeps(s.k, r);
    case Kill(pid) => DestroyKeeps(s.k, pid);
    case Tick(segments) =>
      if s.k.activeCount > 1 {
        SaveKeeps(s.k, ContextOf(s.user, segments));
        SwitchKeeps(Save(s.k, ContextOf(s.user, segments)));
      }
  }

  /** The events, each possible where it happens, lead from s to t. */
  ghost predicate Run(s: System, es: seq<Event>, t: System)
    decreases |es|
  {
    if es == [] then t == s
    else Inv(s.k) && s.k.cur >= 0 && Possible(s, es[0]) && Run(Step(s, es[0]), es[1..], t)
  }

  /** Frames, directories and processes stay in order on every run, and the directory loaded maps the kernel. */
  lemma {:induction false} RunKeeps(s: System, es: seq<Event>, t: System)
    requires Inv(s.k) && s.k.cur >= 0 && Run(s, es, t)
    ensures Inv(t.k) && t.k.cur >= 0 && (t.k.cr3 >= 0 ==> MapsKernel(t.k.mem, t.k.cr3))
    decreases |es|
  {
    if es != [] {
      StepKeeps(s, es[0]);
      RunKeeps(Step(s, es[0]), es[1..], t);
    }
  }

  /** The creations along a run that return 0. */
  ghost function Creations(s: System, es: seq<Event>): nat
    decreases |es|
  {
    if es == [] || !(Inv(s.k) && s.k.cur >= 0 && Possible(s, es[0])) then 0
    else (if es[0].Start? && CreateCode(s.k, es[0].r) == 0 then 1 else 0) + Creations(Step(s, es[0]), es[1..])
  }

  /** Every creation costs a page directory for good, so no run has more of them than there were to hand out. */
  lemma {:induction false} DirectoriesHandedOut(s: System, es: seq<Event>, t: System)
    requires Inv(s.k) && s.k.cur >= 0 && Run(s, es, t)
    ensures t.k.mem.dirFree == s.k.mem.dirFree - Creations(s, es) && Creations(s, es) <= s.k.mem.dirFree
    decreases |es|
  {
    if es != [] {
      var u := Step(s, es[0]);
      StepKeeps(s, es[0]);
      if es[0].Start? && CreateCode(s.k, es[0].r) == 0 {
        CreateMemory(s.k, es[0].r);
      } else if es[0].Kill? {
        DestroyMemory(s.k, es[0].pid);
      }
      DirectoriesHandedOut(u, es[1..], t);
    }
  }

  // ----- preemption is transparent

  /** The process that a tick puts on the processor goes on where it was. */
  lemma TickFaithful(s: System, segments: Registers)
    requires Inv(s.k) && Faithful(s) && s.k.activeCount > 1
    ensures var t := Ticked(s, segments);
      && Faithful(t) && t.k.procs[t.k.cur].active && t.running in t.saved && t.user == t.saved[t.running]
  {
    var k, t := s.k, Ticked(s, segments);
    var ctx := ContextOf(s.user, segments);
    SaveKeeps(k, ctx);
    SwitchKeeps(Save(k, ctx));
    forall p | 0 <= p < PROCESS_COUNT && t.k.procs[p].active
      ensures Keeps(t, p)
    {
      assert t.k.procs[p].ctx == Save(k, ctx).procs[p].ctx;
      assert ProcOk(k, p) && ProcOk(k, k.cur);
      if p == k.cur {
        assert Resumed(ctx) == s.user;
      } else {
        assert Keeps(s, p);
      }
    }
  }

  /**
   * A creation leaves every block right exactly if some slot other than a dead current one is free.
   * Otherwise the new process lies in the slot that the next tick saves a dead program's registers to.
   */
  lemma StartFaithful(s: System, r: Program)
    requires Inv(s.k) && s.k.activeCount > 0 && Faithful(s) && Fits(s.k, r) && CreateCode(s.k, r) == 0
    ensures Faithful(Started(s, r)) <==> !OnlyCurrentFree(s.k)
  {
    var k, t := s.k, Started(s, r);
    CreateKeeps(k, r);
    CurrentSlotTaken(k);
    assert ProcOk(k, k.cur);
    forall p | 0 <= p < PROCESS_COUNT && p != k.cur && t.k.procs[p].active
      ensures Keeps(t, p)
    {
      assert ProcOk(k, p);
      assert p != InactiveIndex(k) ==> Keeps(s, p);
    }
  }

  lemma StepFaithful(s: System, e: Event)
    requires Inv(s.k) && s.k.cur >= 0 && s.k.activeCount > 0 && Possible(s, e) && Faithful(s)
    ensures Faithful(Step(s, e)) && Step(s, e).k.activeCount > 0
  {
    match e
    case Compute(_) =>
      assert forall p | 0 <= p < PROCESS_COUNT && Keeps(s, p) :: Keeps(Step(s, e), p);
    case Start(r) =>
      if CreateCode(s.k, r) == 0 {
        StartFaithful(s, r);
      }
    case Kill(pid) =>
      AliveSlot(s.k, pid);
      assert forall p | 0 <= p < PROCESS_COUNT && Keeps(s, p) :: Keeps(Step(s, e), p);
    case Tick(segments) =>
      if s.k.activeCount > 1 {
        TickFaithful(s, segments);
        SaveKeeps(s.k, ContextOf(s.user, segments));
        SwitchKeeps(Save(s.k, ContextOf(s.user, segments)));
      }
  }

  /**
   * Preemption is transparent: on every run, the ten registers that a switch puts on the processor
   * are those its process had when it last left the processor, or, the first time, was created with.
   */
  lemma {:induction false} PreemptionTransparent(s: System, es: seq<Event>, t: System, segments: Registers)
    requires Inv(s.k) && s.k.activeCount > 0 && Faithful(s) && Run(s, es, t) && t.k.activeCount > 1
    ensures Inv(t.k) && t.k.cur >= 0
    ensures var u := Step(t, Tick(segments));
      && u.k.procs[u.k.cur].active && u.running == u.k.procs[u.k.cur].pid
      && u.running in u.saved && u.user == u.saved[u.running]
    decreases |es|
  {
    if es == [] {
      TickFaithful(t, segments);
    } else {
      StepKeeps(s, es[0]);
      StepFaithful(s, es[0]);
      PreemptionTransparent(Step(s, es[0]), es[1..], t, segments);
    }
  }

  /** The registers in slot p once a program was created while `user` computes, and the timer fires. */
  function AfterStartAndTick(k: Kernel, r: Program, p: nat, user: UserState, segments: Registers): UserState
    requires 0 <= k.cur < PROCESS_COUNT && 0 <= k.mem.nextFree < FRAME_COUNT && p < PROCESS_COUNT
    requires UnusedFrom(k.mem.dirUsed) < DIRECTORY_COUNT
  {
    Resumed(Switch(Save(Create(k, r), ContextOf(user, segments))).procs[p].ctx)
  }

  /**
   * Whatever computes meanwhile, a new process keeps its starting registers through the next tick
   * exactly if it did not take a dead current process's slot. If it did, it goes on as the dead program.
   */
  lemma StartOverwritten(k: Kernel, r: Program, segments: Registers)
    requires Inv(k) && k.cur >= 0 && k.activeCount > 0 && Fits(k, r) && CreateCode(k, r) == 0
    ensures UnusedFrom(k.mem.dirUsed) < DIRECTORY_COUNT
    ensures (forall user :: AfterStartAndTick(k, r, InactiveIndex(k), user, segments) == FirstState(k, r))
       <==> !OnlyCurrentFree(k)
    ensures OnlyCurrentFree(k) ==> forall user :: AfterStartAndTick(k, r, k.cur, user, segments) == user
  {
    CreateKeeps(k, r);
    CurrentSlotTaken(k);
    forall user
      ensures AfterStartAndTick(k, r, InactiveIndex(k), user, segments)
           == if OnlyCurrentFree(k) then user else FirstState(k, r)
    {
      SaveKeeps(Create(k, r), ContextOf(user, segments));
      SwitchKeeps(Save(Create(k, r), ContextOf(user, segments)));
    }
    var first := FirstState(k, r);
    var other := first.(eip := if first.eip == 0 then 1 else 0);
    assert other != first;
    assert AfterStartAndTick(k, r, InactiveIndex(k), other, segments) == if OnlyCurrentFree(k) then other else first;
  }

  // ----- bounded waiting

  /** How many places above cur slot p is, going round: between 1 and 16. */
  function Distance(cur: int, p: nat): nat
    requires 0 <= cur < PROCESS_COUNT && p < PROCESS_COUNT
  {
    if p > cur then p - cur else p - cur + 16
  }

  /** A switch schedules p or comes closer to it. */
  lemma SwitchApproaches(k: Kernel, p: nat)
    requires Inv(k) && k.cur >= 0 && p < PROCESS_COUNT && k.procs[p].active
    ensures Switch(k).cur != p ==> Distance(Switch(k).cur, p) < Distance(k.cur, p)
  {
    Everywhere(k.cur, p);
    assert p in Active(k);
    NextFound(k);
  }

  /** p is active in every state of the run, and no state after the first has it on the processor. */
  ghost predicate Waits(s: System, es: seq<Event>, p: nat)
    requires p < PROCESS_COUNT
    decreases |es|
  {
    && s.k.procs[p].active
    && (es != [] ==>
        Inv(s.k) && s.k.cur >= 0 && Possible(s, es[0])
        && Step(s, es[0]).k.cur != p && Waits(Step(s, es[0]), es[1..], p))
  }

  ghost function SwitchCount(s: System, es: seq<Event>): nat
    decreases |es|
  {
    if es == [] || !(Inv(s.k) && s.k.cur >= 0 && Possible(s, es[0])) then 0
    else (if Switches(s, es[0]) then 1 else 0) + SwitchCount(Step(s, es[0]), es[1..])
  }

  /** Whatever is created and destroyed meanwhile, a process that stays active waits for fewer than 16 switches. */
  lemma {:induction false} BoundedWaiting(s: System, es: seq<Event>, p: nat)
    requires Inv(s.k) && s.k.cur >= 0 && p < PROCESS_COUNT && Waits(s, es, p)
    ensures SwitchCount(s, es) < Distance(s.k.cur, p) <= 16
    decreases |es|
  {
    if es != [] {
      var t := Step(s, es[0]);
      StepKeeps(s, es[0]);
      BoundedWaiting(t, es[1..], p);
      if Switches(s, es[0]) {
        var saved := Save(s.k, ContextOf(s.user, es[0].segments));
        SaveKeeps(s.k, ContextOf(s.user, es[0].segments));
        SwitchApproaches(saved, p);
      }
    }
  }

  /** Only computations and ticks. */
  predicate Quiet(es: seq<Event>) {
    forall e | e in es :: e.Tick? || e.Compute?
  }

  function TickCount(es: seq<Event>): nat {
    if es == [] then 0 else (if es[0].Tick? then 1 else 0) + TickCount(es[1..])
  }

  /** Some state of the run after the first has slot p on the processor. */
  ghost predicate Gets(s: System, es: seq<Event>, p: nat)
    decreases |es|
  {
    && es != [] && Inv(s.k) && s.k.cur >= 0 && Possible(s, es[0])
    && (Step(s, es[0]).k.cur == p || Gets(Step(s, es[0]), es[1..], p))
  }

  /** With one active process ticks and computations leave the kernel as it is. */
  lemma {:induction false} LoneProcessWaits(s: System, es: seq<Event>, t: System, p: nat)
    requires Inv(s.k) && s.k.cur >= 0 && s.k.activeCount <= 1 && Run(s, es, t) && Quiet(es) && p != s.k.cur
    ensures t.k == s.k && !Gets(s, es, p)
    decreases |es|
  {
    if es != [] {
      LoneProcessWaits(Step(s, es[0]), es[1..], t, p);
    }
  }

  lemma QuietStep(s: System, e: Event, p: nat)
    requires Inv(s.k) && s.k.cur >= 0 && Possible(s, e) && (e.Tick? || e.Compute?) && p < PROCESS_COUNT
    ensures var t := Step(s, e);
      Inv(t.k) && t.k.cur >= 0 && t.k.activeCount == s.k.activeCount && t.k.procs[p].active == s.k.procs[p].active
  {
    StepKeeps(s, e);
  }

  /** With more than one every tick is a switch. */
  lemma {:induction false} TicksSwitch(s: System, es: seq<Event>, t: System, p: nat)
    requires Inv(s.k) && s.k.cur >= 0 && s.k.activeCount > 1 && Run(s, es, t) && Quiet(es)
    requires p < PROCESS_COUNT && s.k.procs[p].active && !Gets(s, es, p)
    ensures Waits(s, es, p) && SwitchCount(s, es) == TickCount(es)
    decreases |es|
  {
    hide Inv, Possible;
    if es != [] {
      QuietStep(s, es[0], p);
      TicksSwitch(Step(s, es[0]), es[1..], t, p);
    }
  }

  /**
   * An active process that is not on the processor gets it within 16 ticks exactly if more than one
   * process is active. A process left alone by a current one that died is never scheduled by the timer.
   */
  lemma TimerDispatches(s: System, es: seq<Event>, t: System, p: nat)
    requires Inv(s.k) && s.k.cur >= 0 && Run(s, es, t) && Quiet(es) && TickCount(es) >= 16
    requires p < PROCESS_COUNT && s.k.procs[p].active && p != s.k.cur
    ensures Gets(s, es, p) <==> s.k.activeCount > 1
  {
    if s.k.activeCount <= 1 {
      LoneProcessWaits(s, es, t, p);
    } else if !Gets(s, es, p) {
      TicksSwitch(s, es, t, p);
      BoundedWaiting(s, es, p);
      assert false;
    }
  }

  // ----- booting

  /** The kernel's data as it is linked. */
  function Linked(): Kernel {
    Kernel(Memory(seq(32, f => f == 0), 31, 1, seq(32, f => if f == 0 then Reserved else Nobody),
                  seq(32, _ => false), 32, seq(32, _ => seq(1024, _ => NO_ENTRY))),
           seq(16, _ => EMPTY_PCB), 0, -1, 0, -1)
  }

  lemma {:induction false} CountFrom(m: Memory, n: nat)
    requires n < FRAME_COUNT && m.frameMap[0] && forall f | 1 <= f < FRAME_COUNT :: !m.frameMap[f]
    ensures |set f | 0 <= f <= n && !m.frameMap[f]| == n
  {
    if n == 0 {
      assert (set f | 0 <= f <= 0 && !m.frameMap[f]) == {};
    } else {
      CountFrom(m, n - 1);
      assert (set f | 0 <= f <= n && !m.frameMap[f]) == (set f | 0 <= f <= n - 1 && !m.frameMap[f]) + {n};
    }
  }

  lemma {:induction false} CountUnused(m: Memory, n: nat)
    requires n <= DIRECTORY_COUNT && forall d | 0 <= d < DIRECTORY_COUNT :: !m.dirUsed[d]
    ensures |set d | 0 <= d < n && !m.dirUsed[d]| == n
  {
    if n > 0 {
      CountUnused(m, n - 1);
      assert (set d | 0 <= d < n && !m.dirUsed[d]) == (set d | 0 <= d < n - 1 && !m.dirUsed[d]) + {n - 1};
    }
  }

  lemma LinkedInOrder()
    ensures Inv(Linked())
  {
    var k := Linked();
    CountFrom(k.mem, 31);
    assert FreeFrames(k.mem) == set f | 0 <= f <= 31 && !k.mem.frameMap[f];
    CountUnused(k.mem, 32);
    assert Active(k) == {};
    forall f | 0 <= f < FRAME_COUNT
      ensures FrameOk(k.mem, f)
    {
    }
    forall d, j | 0 <= d < DIRECTORY_COUNT && 0 <= j < ENTRY_COUNT
      ensures EntryOk(k.mem, d, j)
    {
    }
  }

  /** Starting the first program and switching to it gives a state from which runs start. */
  lemma Booted(r: Program, user: UserState)
    requires Fits(Linked(), r) && CreateCode(Linked(), r) == 0
    ensures UnusedFrom(Linked().mem.dirUsed) < DIRECTORY_COUNT
    ensures var k := Switch(Create(Linked(), r));
      && Inv(k) && k.cur == 0 && k.procs[0].active && k.procs[0].state.Running?
      && Resumed(k.procs[0].ctx) == UserState(r.buf, 0x40_0000, 0x202, 0, 0, 0, 0, 0, 0, 0)
      && k.activeCount == 1 && k.mem.freeCount == 31 - FramesNeeded(r.size) && k.mem.dirFree == 31
      && Faithful(System(k, user, 1, map[]))
  {
    LinkedInOrder();
    CreateKeeps(Linked(), r);
    CreateMemory(Linked(), r);
    SwitchKeeps(Create(Linked(), r));
  }
}
