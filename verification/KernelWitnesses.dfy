/** Runs from the kernel as linked to states in which the code misbehaves. */
module KernelWitnesses {
  import opened ContextSwitch
  import opened Paging
  import opened Processes
  import opened Scheduler

  // ----- creations

  /** A program that starts below the kernel, ends there, and takes no more frames than a process may. */
  predicate Modest(r: Program) {
    && FramesNeeded(r.size) <= FRAMES_PER_PROCESS
    && r.buf < KERNEL_BASE && r.buf as int + 0x40_0000 * FramesNeeded(r.size) <= KERNEL_BASE
  }

  /** A running system in order, whose current process is active. */
  ghost predicate Going(s: System) {
    Inv(s.k) && s.k.cur >= 0 && s.k.procs[s.k.cur].active && Faithful(s)
  }

  lemma StartOne(s: System, r: Program, t: System) returns (p: nat)
    requires Going(s) && Modest(r) && s.k.activeCount < PROCESS_COUNT
    requires s.k.mem.dirFree > 0 && s.k.mem.freeCount > FramesNeeded(r.size)
    requires t == Started(s, r)
    ensures Possible(s, Start(r)) && Scheduler.Step(s, Start(r)) == t && Going(t)
    ensures t.k.cur == s.k.cur && t.k.procs[t.k.cur] == s.k.procs[s.k.cur] && t.k.activeCount == s.k.activeCount + 1
    ensures t.k.mem.freeCount == s.k.mem.freeCount - FramesNeeded(r.size) && t.k.mem.dirFree == s.k.mem.dirFree - 1
    ensures p < PROCESS_COUNT && p != t.k.cur && t.k.procs[p].active
  {
    CheckIsWeak(s.k, r);
    CreateKeeps(s.k, r);
    CreateMemory(s.k, r);
    assert s.k.cur in Active(s.k);
    InactiveFound(s.k);
    StartFaithful(s, r);
    p := InactiveIndex(s.k);
  }

  lemma OneMore(s: System, e: Event, u: System, es: seq<Event>, t: System)
    requires Inv(s.k) && s.k.cur >= 0 && Possible(s, e) && u == Scheduler.Step(s, e) && Run(u, es, t)
    ensures Run(s, [e] + es, t)
  {
    assert ([e] + es)[1..] == es;
  }

  lemma NoMore(s: System)
    ensures Run(s, [], s)
  {
  }

  lemma RunOfTwo(s: System, a: Event, u: System, b: Event, t: System)
    requires Inv(s.k) && s.k.cur >= 0 && Possible(s, a) && u == Scheduler.Step(s, a)
    requires Inv(u.k) && u.k.cur >= 0 && Possible(u, b) && t == Scheduler.Step(u, b)
    ensures Run(s, [a, b], t)
  {
    hide Inv, Possible, Run;
    assert [b] + [] == [b] && [a] + [b] == [a, b];
    NoMore(t);
    OneMore(u, b, t, [], t);
    OneMore(s, a, u, [b], t);
  }

  /** n programs of one frame each. */
  lemma {:induction false} StartMany(s: System, r: Program, n: nat, es: seq<Event>) returns (t: System)
    requires Going(s) && Modest(r) && FramesNeeded(r.size) == 1
    requires s.k.activeCount + n <= PROCESS_COUNT && s.k.mem.dirFree >= n && s.k.mem.freeCount > n
    ensures Going(t) && t.k.cur == s.k.cur && t.k.procs[t.k.cur] == s.k.procs[s.k.cur]
    ensures t.k.activeCount == s.k.activeCount + n
    ensures t.k.mem.freeCount == s.k.mem.freeCount - n && t.k.mem.dirFree == s.k.mem.dirFree - n
    ensures forall u :: Run(t, es, u) ==> Run(s, seq(n, _ => Start(r)) + es, u)
    decreases n
  {
    hide Inv, Faithful, Possible, Create, Run;
    if n == 0 {
      t := s;
      assert seq(0, _ => Start(r)) + es == es;
    } else {
      var u := Started(s, r);
      var p := StartOne(s, r, u);
      t := StartMany(u, r, n - 1, es);
      assert seq(n, _ => Start(r)) + es == [Start(r)] + (seq(n - 1, _ => Start(r)) + es);
      forall w | Run(t, es, w)
        ensures Run(s, seq(n, _ => Start(r)) + es, w)
      {
        OneMore(s, Start(r), u, seq(n - 1, _ => Start(r)) + es, w);
      }
    }
  }

  /** The system once the first program was created and switched to. */
  function First(r: Program, user: UserState): System
    requires UnusedFrom(Linked().mem.dirUsed) < DIRECTORY_COUNT
  {
    System(Switch(Create(Linked(), r)), user, 1, map[])
  }

  lemma FirstGoes(r: Program, user: UserState)
    requires Modest(r)
    ensures UnusedFrom(Linked().mem.dirUsed) < DIRECTORY_COUNT
    ensures var s := First(r, user);
      && Going(s) && s.running == 1 && s.k.procs[s.k.cur].pid == 1 && s.k.activeCount == 1
      && s.k.mem.freeCount == 31 - FramesNeeded(r.size) && s.k.mem.dirFree == 31
  {
    LinkedInOrder();
    CheckIsWeak(Linked(), r);
    Booted(r, user);
  }

  // ----- the lone process

  lemma KillFirst(s: System, t: System)
    requires Going(s) && s.k.procs[s.k.cur].pid == 1 && s.k.activeCount > 1
    requires Possible(s, Kill(1)) && t == Scheduler.Step(s, Kill(1))
    ensures Inv(t.k) && t.k.cur == s.k.cur && !t.k.procs[t.k.cur].active && t.k.activeCount == s.k.activeCount - 1
    ensures t.k.mem.freeCount >= s.k.mem.freeCount && t.k.mem.dirFree == s.k.mem.dirFree
    ensures forall p | 0 <= p < PROCESS_COUNT && p != t.k.cur :: t.k.procs[p].active == s.k.procs[p].active
  {
    AliveSlot(s.k, 1);
    DestroyKeeps(s.k, 1);
    DestroyMemory(s.k, 1);
  }

  /** Two programs are started and the running one ends: the other is active and no tick will ever switch to it. */
  lemma LoneProcessReached(r: Program, user: UserState) returns (t: System, p: nat)
    requires Modest(r)
    ensures UnusedFrom(Linked().mem.dirUsed) < DIRECTORY_COUNT
    ensures Run(First(r, user), [Start(r), Kill(1)], t) && Inv(t.k) && t.k.cur >= 0
    ensures t.k.activeCount == 1 && p < PROCESS_COUNT && p != t.k.cur && t.k.procs[p].active
    ensures forall es, w | Run(t, es, w) && Quiet(es) :: !Gets(t, es, p)
  {
    FirstGoes(r, user);
    hide Inv, Faithful, Create, First, Run, Destroy, Modest, Started;
    var s := First(r, user);
    var u := Started(s, r);
    p := StartOne(s, r, u);
    assert u.k.procs[u.k.cur].active && u.k.procs[u.k.cur].pid == 1;
    t := Scheduler.Step(u, Kill(1));
    KillFirst(u, t);
    RunOfTwo(s, Start(r), u, Kill(1), t);
    forall es, w | Run(t, es, w) && Quiet(es)
      ensures !Gets(t, es, p)
    {
      LoneProcessWaits(t, es, w, p);
    }
  }

  // ----- the dead process's id

  /** The first program's slot is 0 and its directory 0; all else is unused. */
  lemma FirstPlace(r: Program, user: UserState)
    requires Modest(r)
    ensures UnusedFrom(Linked().mem.dirUsed) < DIRECTORY_COUNT
    ensures var k := First(r, user).k;
      && k.procs[0].dir == 0 && k.procs[0].active && k.cur == 0
      && (forall p | 1 <= p < PROCESS_COUNT :: !k.procs[p].active && k.procs[p].pid == 0)
  {
    LinkedInOrder();
    CheckIsWeak(Linked(), r);
    CreateKeeps(Linked(), r);
    Booted(r, user);
    assert UnusedFrom(Linked().mem.dirUsed) == 0;
  }

  /** With all other slots free the one below the current slot is taken, going round. */
  lemma TakenBelow(k: Kernel)
    requires Inv(k) && k.cur >= 0 && k.activeCount > 0 && !k.procs[Below(k.cur, 1)].active
    ensures InactiveIndex(k) == Below(k.cur, 1)
  {
  }

  /** The switch from slot 0 with slot 15 as the only other active one. */
  lemma SwitchToLast(k: Kernel)
    requires Inv(k) && k.cur == 0 && k.activeCount > 0 && k.procs[15].active
    requires forall p | 1 <= p < 15 :: !k.procs[p].active
    ensures NextIndex(k) == 15
  {
    NextFound(k);
    assert Above(0, 15) == 15 && Above(0, 16) == 0;
  }

  /** Only slots 0 and 15 are active, the first program lies in slot 0 and maps directory 0. */
  ghost predicate TwoPrograms(s: System) {
    && Going(s) && s.k.activeCount == 2 && s.k.procs[0].active && s.k.procs[15].active
    && (forall p | 1 <= p < 15 :: !s.k.procs[p].active)
    && s.k.procs[0].pid == 1 && s.k.procs[0].dir == 0
    && s.k.mem.dirFree > 0 && s.k.mem.freeCount >= 15
  }

  /** Slot 0 holds the dead first process, slot 15 the running second one, and directory 0 is unused. */
  ghost predicate FirstDied(s: System) {
    && Going(s) && s.k.cur == 15 && s.k.activeCount == 1 && s.k.procs[0].pid == 1 && s.k.procs[0].dir == 0
    && (forall p | 0 <= p < 15 :: !s.k.procs[p].active) && !s.k.mem.dirUsed[0]
    && s.k.mem.dirFree > 0 && s.k.mem.freeCount >= 15
  }

  lemma SecondStarts(r: Program, user: UserState, u: System)
    requires Modest(r) && UnusedFrom(Linked().mem.dirUsed) < DIRECTORY_COUNT
    requires var s := First(r, user); Inv(s.k) && s.k.cur >= 0 && Fits(s.k, r) && u == Started(s, r)
    ensures var s := First(r, user);
      Going(s) && Possible(s, Start(r)) && u == Scheduler.Step(s, Start(r)) && TwoPrograms(u) && u.k.cur == 0
  {
    var s := First(r, user);
    FirstGoes(r, user);
    FirstPlace(r, user);
    hide First, Linked, Faithful, Consistent;
    TakenBelow(s.k);
    CheckIsWeak(s.k, r);
    var p := StartOne(s, r, u);
  }

  lemma SecondRuns(u: System, segments: Registers, v: System)
    requires TwoPrograms(u) && u.k.cur == 0 && v == Ticked(u, segments)
    ensures Possible(u, Tick(segments)) && v == Scheduler.Step(u, Tick(segments)) && TwoPrograms(v) && v.k.cur == 15
  {
    var ctx := ContextOf(u.user, segments);
    SaveKeeps(u.k, ctx);
    SwitchKeeps(Save(u.k, ctx));
    SwitchToLast(Save(u.k, ctx));
    TickFaithful(u, segments);
  }

  lemma FirstDies(v: System, w: System)
    requires TwoPrograms(v) && v.k.cur == 15 && Possible(v, Kill(1)) && w == Scheduler.Step(v, Kill(1))
    ensures FirstDied(w)
  {
    assert v.k.procs[0].pid == 1;
    AliveSlot(v.k, 1);
    DestroyKeeps(v.k, 1);
    DestroyMemory(v.k, 1);
    StepFaithful(v, Kill(1));
  }

  lemma ThirdStarts(w: System, r: Program, t: System)
    requires FirstDied(w) && Modest(r) && Fits(w.k, r) && t == Started(w, r)
    ensures Possible(w, Start(r)) && t == Scheduler.Step(w, Start(r)) && Inv(t.k)
    ensures t.k.procs[0] == w.k.procs[0] && Owns(t.k, 14, 0)
  {
    TakenBelow(w.k);
    CheckIsWeak(w.k, r);
    CreateKeeps(w.k, r);
    assert UnusedFrom(w.k.mem.dirUsed) == 0;
  }

  lemma DeadId(t: System)
    requires Inv(t.k) && t.k.procs[0].pid == 1 && !t.k.procs[0].active
    ensures SlotOf(t.k.procs, 1) == 0 && !Alive(t.k, 1)
  {
  }

  /**
   * A second program is started and switched to, the first one ends, and a third gets its directory:
   * destroying by the first one's id now takes the third one's memory.
   */
  lemma DeadIdReached(r: Program, user: UserState, segments: Registers) returns (t: System, d: nat)
    requires Modest(r)
    ensures UnusedFrom(Linked().mem.dirUsed) < DIRECTORY_COUNT
    ensures Run(First(r, user), [Start(r), Tick(segments), Kill(1), Start(r)], t) && Inv(t.k)
    ensures SlotOf(t.k.procs, 1) < PROCESS_COUNT && !Alive(t.k, 1)
    ensures d == t.k.procs[SlotOf(t.k.procs, 1)].dir && d < DIRECTORY_COUNT
    ensures Owns(t.k, 14, d) && forall j :: !Mapped(Destroy(t.k, 1).mem, d, j)
  {
    FirstGoes(r, user);
    var s := First(r, user);
    var u := Started(s, r);
    SecondStarts(r, user, u);
    var v := Ticked(u, segments);
    SecondRuns(u, segments, v);
    assert v.k.procs[0].active && v.k.procs[0].pid == 1;
    var w := Scheduler.Step(v, Kill(1));
    FirstDies(v, w);
    t, d := Started(w, r), 0;
    ThirdStarts(w, r, t);
    DeadId(t);
    DestroyDead(t.k, 1, 0);
    hide Inv, Possible, Run, Destroy;
    RunOfFour(s, Start(r), u, Tick(segments), v, Kill(1), w, Start(r), t);
  }

  lemma RunOfFour(s: System, a: Event, u: System, b: Event, v: System, c: Event, w: System, d: Event, t: System)
    requires Inv(s.k) && s.k.cur >= 0 && Possible(s, a) && u == Scheduler.Step(s, a)
    requires Inv(u.k) && u.k.cur >= 0 && Possible(u, b) && v == Scheduler.Step(u, b)
    requires Inv(v.k) && v.k.cur >= 0 && Possible(v, c) && w == Scheduler.Step(v, c)
    requires Inv(w.k) && w.k.cur >= 0 && Possible(w, d) && t == Scheduler.Step(w, d)
    ensures Run(s, [a, b, c, d], t)
  {
    hide Inv, Possible, Run;
    assert [d] + [] == [d] && [c] + [d] == [c, d] && [b] + [c, d] == [b, c, d] && [a] + [b, c, d] == [a, b, c, d];
    NoMore(t);
    OneMore(w, d, t, [], t);
    OneMore(v, c, w, [d], t);
    OneMore(u, b, v, [c, d], t);
    OneMore(s, a, u, [b, c, d], t);
  }

  /** Sixteen programs are started and the running one ends: a program created now gets the slot of the dead one. */
  lemma DeadSlotReached(r: Program, user: UserState) returns (t: System)
    requires Modest(r) && FramesNeeded(r.size) == 1
    ensures UnusedFrom(Linked().mem.dirUsed) < DIRECTORY_COUNT
    ensures Run(First(r, user), seq(15, _ => Start(r)) + [Kill(1)], t) && Inv(t.k) && t.k.cur >= 0
    ensures OnlyCurrentFree(t.k) && Fits(t.k, r) && CreateCode(t.k, r) == 0
  {
    FirstGoes(r, user);
    var s := First(r, user);
    var u := StartMany(s, r, 15, [Kill(1)]);
    assert u.k.procs[u.k.cur].active && u.k.procs[u.k.cur].pid == 1;
    t := Scheduler.Step(u, Kill(1));
    KillFirst(u, t);
    NoMore(t);
    OneMore(u, Kill(1), t, [], t);
    assert [Kill(1)] + [] == [Kill(1)];
    CheckIsWeak(t.k, r);
  }

  // ----- the memory check

  /** Three programs of eight frames leave seven; a fourth is accepted, and one of its pages stays unmapped. */
  lemma WeakCheckReached(r: Program, user: UserState) returns (t: System, j: Page)
    requires Modest(r) && FramesNeeded(r.size) == 8
    ensures UnusedFrom(Linked().mem.dirUsed) < DIRECTORY_COUNT
    ensures Run(First(r, user), [Start(r), Start(r)], t) && Inv(t.k) && t.k.cur >= 0 && CreateCode(t.k, r) == 0
    ensures UnusedFrom(t.k.mem.dirUsed) < DIRECTORY_COUNT
    ensures j in PagesOf(Addresses(r.buf, 8)) && !Mapped(Create(t.k, r).mem, UnusedFrom(t.k.mem.dirUsed), j)
  {
    FirstGoes(r, user);
    hide Inv, Faithful, Create, First, Run, Mapped, Addresses, PagesOf, Started;
    var s := First(r, user);
    var u := Started(s, r);
    var p := StartOne(s, r, u);
    t := Started(u, r);
    p := StartOne(u, r, t);
    RunOfTwo(s, Start(r), u, Start(r), t);
    CheckIsWeak(t.k, r);
    CreatedFullyMapped(t.k, r);
    j :| j in PagesOf(Addresses(r.buf, 8)) && !Mapped(Create(t.k, r).mem, UnusedFrom(t.k.mem.dirUsed), j);
  }

  /** A program whose size wraps the 32-bit sum to 0 is accepted right away and gets no frame at all. */
  lemma NoFrameReached(name: string)
    ensures var r := Program(name, 0, 0xFFC0_0000); FramesNeeded(r.size) == 0 && CreateCode(Linked(), r) == 0
  {
    LinkedInOrder();
    CheckIsWeak(Linked(), Program(name, 0, 0xFFC0_0000));
  }

  // ----- the hint

  lemma {:induction false} PageRuns(m: Memory, a: seq<PageOp>, u: Memory, b: seq<PageOp>, w: Memory)
    requires PageRun(m, a, u) && PageRun(u, b, w)
    ensures PageRun(m, a + b, w)
    decreases |a|
  {
    if a == [] {
      assert a + b == b;
    } else {
      assert (a + b)[1..] == a[1..] + b;
      PageRuns(Paging.Step(m, a[0]), a[1..], u, b, w);
    }
  }

  lemma OneOp(m: Memory, op: PageOp)
    requires Consistent(m) && Sound(m, op) && !Misleads(m, op)
    ensures PageRun(m, [op], Paging.Step(m, op))
  {
    assert [op][1..] == [] && PageRun(Paging.Step(m, op), [], Paging.Step(m, op));
  }

  /** Allocations for fresh pages are a run, and they do not lower the hint. */
  lemma {:induction false} AllocationsRun(m: Memory, d: nat, pages: seq<Page>)
    requires Consistent(m) && Lowest(m) && d < DIRECTORY_COUNT && m.dirUsed[d] && DistinctPages(pages)
    requires (forall j | j in pages :: !Mapped(m, d, j) && j != KERNEL_ENTRY) && |pages| <= m.freeCount
    ensures PageRun(m, seq(|pages|, i requires 0 <= i < |pages| => Alloc(d, pages[i])), AllocateAll(m, d, pages))
    ensures AllocateAll(m, d, pages).nextFree >= m.nextFree
    ensures AllocateAll(m, d, pages).dirUsed == m.dirUsed
  {
    var ops := seq(|pages|, i requires 0 <= i < |pages| => Alloc(d, pages[i]));
    if pages == [] {
      assert ops == [];
    } else {
      var front, j := pages[..|pages| - 1], pages[|pages| - 1];
      assert pages == front + [j];
      AllocationsRun(m, d, front);
      AllocateAllEffect(m, d, front);
      var u := AllocateAll(m, d, front);
      OneOp(u, Alloc(d, j));
      var opsFront := seq(|front|, i requires 0 <= i < |front| => Alloc(d, front[i]));
      assert ops == opsFront + [Alloc(d, j)];
      PageRuns(m, opsFront, u, [Alloc(d, j)], AllocateAll(m, d, pages));
    }
  }

  /** With no frame free, giving back the lowest user frame and taking it again leaves the hint at it. */
  lemma HintAtFirst(m: Memory, d: nat, j: nat, w: Memory)
    requires Consistent(m) && m.freeCount == 0 && m.nextFree >= 1 && m.users[1] == Maps(d, j)
    requires Mapped(m, d, j) && w == Allocate(Release(m, d, j), d, j)
    ensures PageRun(m, [Free(d, j), Alloc(d, j)], w)
    ensures Consistent(w) && w.freeCount == 0 && w.nextFree == 1 && w.dirUsed == m.dirUsed
    ensures forall e: nat, i: nat :: Mapped(w, e, i) <==> Mapped(m, e, i)
  {
    var u := Release(m, d, j);
    assert Lowest(m);
    assert FrameOk(m, 1) && EntryOk(m, d, j);
    UsedDirectory(m, d, j);
    ReleaseKeeps(m, d, j);
    assert FrameOk(u, 0);
    AllocateKeeps(u, d, j);
    SomeFree(w);
    OneOp(m, Free(d, j));
    OneOp(u, Alloc(d, j));
    PageRuns(m, [Free(d, j)], u, [Alloc(d, j)], w);
    assert [Free(d, j)] + [Alloc(d, j)] == [Free(d, j), Alloc(d, j)];
  }

  lemma UsedDirectory(m: Memory, d: nat, j: nat)
    requires Consistent(m) && Mapped(m, d, j)
    ensures m.dirUsed[d]
  {
    if !m.dirUsed[d] {
      UnusedMapsNothing(m, d, j);
    }
  }

  /** The allocations for the first n pages of directory d. */
  function Allocations(d: nat, n: nat): seq<PageOp> {
    seq(n, i requires 0 <= i < n => Alloc(d, i))
  }

  /** A first directory is created, and every frame but the kernel's is allocated to it. */
  lemma FullMemory() returns (start: Memory, full: Memory)
    ensures start == CreateDirectory(Linked().mem, 0) && PageRun(start, Allocations(0, 31), full)
    ensures Consistent(full) && full.freeCount == 0 && full.nextFree >= 1 && full.dirUsed[0] && !Mapped(full, 0, 31)
  {
    LinkedInOrder();
    CreateDirectoryKeeps(Linked().mem);
    start := CreateDirectory(Linked().mem, 0);
    assert UnusedFrom(Linked().mem.dirUsed) == 0;
    var pages := seq(31, i requires 0 <= i < 31 => i as Page);
    assert Allocations(0, 31) == seq(|pages|, i requires 0 <= i < |pages| => Alloc(0, pages[i]));
    hide Consistent, Lowest, CreateDirectory, Linked, PageRun;
    AllocationsRun(start, 0, pages);
    AllocateAllEffect(start, 0, pages);
    full := AllocateAll(start, 0, pages);
  }

  /** With no frame free every frame above the kernel's is mapped by the entry recorded for it. */
  lemma TakenFrame(m: Memory, f: nat)
    requires Consistent(m) && m.freeCount == 0 && 0 < f < FRAME_COUNT
    ensures m.users[f].Maps? && Mapped(m, m.users[f].dir, m.users[f].page)
    ensures m.dirs[m.users[f].dir][m.users[f].page].frame == f
  {
    SomeFree(m);
    assert FrameOk(m, f);
  }

  /**
   * All frames are taken, the first is given back and taken again, and then the second is given
   * back: the next allocation hands out the first one once more.
   */
  lemma MisleadingReleaseReached() returns (start: Memory, ops: seq<PageOp>, m: Memory, op: PageOp)
    ensures start == CreateDirectory(Linked().mem, 0) && PageRun(start, ops, m)
    ensures Consistent(m) && Sound(m, op) && Misleads(m, op) && !Mapped(m, 0, 31)
    ensures var w := Allocate(Paging.Step(m, op), 0, 31);
      exists d: nat, j: nat ::
        (d, j) != (0, 31) && Mapped(w, 0, 31) && Mapped(w, d, j) && w.dirs[d][j].frame == w.dirs[0][31].frame
  {
    var full;
    start, full := FullMemory();
    hide Consistent, CreateDirectory, Linked, PageRun;
    TakenFrame(full, 1);
    var d, j := full.users[1].dir, full.users[1].page;
    m := Allocate(Release(full, d, j), d, j);
    HintAtFirst(full, d, j, m);
    ops := Allocations(0, 31) + [Free(d, j), Alloc(d, j)];
    PageRuns(start, Allocations(0, 31), full, [Free(d, j), Alloc(d, j)], m);
    TakenFrame(m, 2);
    op := Free(m.users[2].dir, m.users[2].page);
    StaleHintSharesFrame(m, op.dir, op.page, 0, 31);
  }
}
