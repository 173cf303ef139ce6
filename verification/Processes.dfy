/** Processes: creation, destruction and switching over frames, page directories and process control blocks. */
module Processes {
  import opened ContextSwitch
  import opened Paging
  import opened Arithmetic

  const PROCESS_COUNT := 16
  const FRAME_SIZE := 0x40_0000        // PAGE_FRAME_SIZE
  const FRAMES_PER_PROCESS := 8        // PROCESS_PAGE_FRAME_COUNT_MAX
  const KERNEL_BASE := 0xC000_0000     // KERNEL_VIRTUAL_ADDRESS_BASE

  datatype State = Ready | Running | Blocked

  /** A process control block; `used` are the virtual addresses its frames were allocated for. */
  datatype Pcb = Pcb(pid: nat, state: State, active: bool, name: string, ctx: Context, dir: int, used: seq<Word>)

  type Procs = s: seq<Pcb> | |s| == PROCESS_COUNT witness seq(16, _ => EMPTY_PCB)

  const EMPTY_PCB := Pcb(0, Ready, false, "", Context(Registers(0, 0, 0, 0, 0, 0, 0, 0, 0, 0, 0, 0), 0, 0), -1, [])

  /** The kernel; cur is -1 until the first switch, and cr3 the directory in use, -1 for the kernel's own. */
  datatype Kernel = Kernel(mem: Memory, procs: Procs, activeCount: int, cur: int, totalPid: nat, cr3: int)

  /** What a request to start a program brings: its name, the load address and the file's size. */
  datatype Program = Program(name: string, buf: Word, size: Word)

  function Active(k: Kernel): set<nat> {
    set p | 0 <= p < PROCESS_COUNT && k.procs[p].active
  }

  /** The directory entry that an address belongs to. */
  function PageOf(address: Word): Page {
    address / 0x40_0000
  }

  function PagesOf(addresses: seq<Word>): seq<Page> {
    seq(|addresses|, i requires 0 <= i < |addresses| => PageOf(addresses[i]))
  }

  // ----- the invariant

  predicate Owns(k: Kernel, p: nat, d: int) {
    p < PROCESS_COUNT && k.procs[p].active && k.procs[p].dir == d
  }

  /**
   * An active process has a directory in use, which maps exactly the pages of its addresses; only
   * the current one runs. A dead process keeps its directory's number and no addresses.
   */
  ghost predicate ProcOk(k: Kernel, p: nat)
    requires p < PROCESS_COUNT
  {
    var b := k.procs[p];
    && b.pid <= k.totalPid && (b.pid > 0 ==> 0 <= b.dir < DIRECTORY_COUNT) && (!b.active ==> b.used == [])
    && (b.active ==>
      && b.pid > 0 && k.mem.dirUsed[b.dir]
      && DistinctPages(PagesOf(b.used))
      && (forall j | 0 <= j < ENTRY_COUNT :: Mapped(k.mem, b.dir, j) <==> j in PagesOf(b.used))
      && (b.state.Running? ==> p == k.cur))
  }

  ghost predicate DirectoryOk(k: Kernel, d: nat)
    requires d < DIRECTORY_COUNT
  {
    && (k.mem.dirUsed[d] ==> exists p :: Owns(k, p, d))
    && (forall p, q | Owns(k, p, d) && Owns(k, q, d) :: p == q)
  }

  /** The kernel is mapped in every directory in use and in the one that is loaded. */
  predicate KernelMapped(k: Kernel) {
    && -1 <= k.cr3 < DIRECTORY_COUNT
    && forall d | 0 <= d < DIRECTORY_COUNT && (k.mem.dirUsed[d] || d == k.cr3) :: MapsKernel(k.mem, d)
  }

  ghost predicate Inv(k: Kernel) {
    && Consistent(k.mem) && Lowest(k.mem) && k.mem.freeCount > 0
    && k.activeCount == |Active(k)| && -1 <= k.cur < PROCESS_COUNT
    && (forall p | 0 <= p < PROCESS_COUNT :: ProcOk(k, p))
    && (forall d | 0 <= d < DIRECTORY_COUNT :: DirectoryOk(k, d))
    && DistinctPids(k) && KernelMapped(k)
  }

  /** Process ids are never given twice; 0 marks slots that were never used. */
  predicate DistinctPids(k: Kernel) {
    forall p, q | 0 <= p < q < PROCESS_COUNT && k.procs[p].pid == k.procs[q].pid :: k.procs[p].pid == 0
  }

  /**
   * Isolation: every frame above the kernel's is in use exactly when a present user entry of a
   * directory maps it; then one entry does, and its directory belongs to exactly one active process.
   * Such entries are writable 4 MiB pages of user level, and none of them maps the kernel's frame.
   */
  lemma Isolation(k: Kernel)
    requires Inv(k)
    ensures forall f | 1 <= f < FRAME_COUNT ::
      k.mem.frameMap[f] <==> exists d: nat, j: nat :: Mapped(k.mem, d, j) && k.mem.dirs[d][j].frame == f
    ensures forall d: nat, j: nat, e: nat, i: nat | Mapped(k.mem, d, j) && Mapped(k.mem, e, i) && (d, j) != (e, i) ::
      k.mem.dirs[d][j].frame != k.mem.dirs[e][i].frame
    ensures forall d: nat, j: nat | Mapped(k.mem, d, j) ::
      k.mem.dirUsed[d] && exists p :: Owns(k, p, d) && forall q | Owns(k, q, d) :: q == p
    ensures forall d: nat, j: nat | Mapped(k.mem, d, j) ::
      var e := k.mem.dirs[d][j]; e.write && e.user && e.large && 1 <= e.frame < FRAME_COUNT
  {
    forall d: nat, j: nat | Mapped(k.mem, d, j)
      ensures var e := k.mem.dirs[d][j]; e.write && e.user && e.large && 1 <= e.frame < FRAME_COUNT
    {
      assert EntryOk(k.mem, d, j) && FrameOk(k.mem, k.mem.dirs[d][j].frame);
    }
    forall f | 1 <= f < FRAME_COUNT
      ensures k.mem.frameMap[f] <==> exists d: nat, j: nat :: Mapped(k.mem, d, j) && k.mem.dirs[d][j].frame == f
    {
      assert FrameOk(k.mem, f);
      if k.mem.frameMap[f] {
        var u := k.mem.users[f];
        assert Mapped(k.mem, u.dir, u.page) && k.mem.dirs[u.dir][u.page].frame == f;
      }
      forall d: nat, j: nat | Mapped(k.mem, d, j) && k.mem.dirs[d][j].frame == f
        ensures k.mem.frameMap[f]
      {
        assert EntryOk(k.mem, d, j);
      }
    }
    forall d: nat, j: nat, e: nat, i: nat | Mapped(k.mem, d, j) && Mapped(k.mem, e, i) && (d, j) != (e, i)
      ensures k.mem.dirs[d][j].frame != k.mem.dirs[e][i].frame
    {
      assert EntryOk(k.mem, d, j) && EntryOk(k.mem, e, i);
    }
    forall d: nat, j: nat | Mapped(k.mem, d, j)
      ensures k.mem.dirUsed[d] && exists p :: Owns(k, p, d) && forall q | Owns(k, q, d) :: q == p
    {
      if !k.mem.dirUsed[d] {
        UnusedMapsNothing(k.mem, d, j);
      }
      assert DirectoryOk(k, d);
    }
  }

  // ----- searches over the process list

  /** The slot n places below cur, going round. */
  function Below(cur: int, n: nat): (p: nat)
    requires 0 <= cur < PROCESS_COUNT && n <= PROCESS_COUNT
    ensures p < PROCESS_COUNT
  {
    if n <= cur then cur - n else cur - n + 16
  }

  /** The slot n places above cur, going round; cur is -1 before the first switch. */
  function Above(cur: int, n: nat): (p: nat)
    requires -1 <= cur < PROCESS_COUNT && 1 <= n <= PROCESS_COUNT
    ensures p < PROCESS_COUNT
  {
    if cur + n < 16 then cur + n else cur + n - 16
  }

  /** How far below cur the next inactive slot is, from distance n on; the whole round if there is none before. */
  function InactiveDistance(procs: Procs, cur: int, n: nat): (m: nat)
    requires n <= |procs| && 0 <= cur < PROCESS_COUNT
    ensures n <= m <= PROCESS_COUNT && (m < PROCESS_COUNT ==> !procs[Below(cur, m)].active)
    ensures forall l | n <= l < m :: procs[Below(cur, l)].active
    decreases |procs| - n
  {
    if n == |procs| || !procs[Below(cur, n)].active then n else InactiveDistance(procs, cur, n + 1)
  }

  /** How far above cur the next active slot is, from distance n on; the whole round if there is none before. */
  function ActiveDistance(procs: Procs, cur: int, n: nat): (m: nat)
    requires 1 <= n <= |procs| && -1 <= cur < PROCESS_COUNT
    ensures n <= m <= PROCESS_COUNT && (m < PROCESS_COUNT ==> procs[Above(cur, m)].active)
    ensures forall l | n <= l < m :: !procs[Above(cur, l)].active
    decreases |procs| - n
  {
    if n == |procs| || procs[Above(cur, n)].active then n else ActiveDistance(procs, cur, n + 1)
  }

  /** process_list_get_inactive_index. */
  function InactiveIndex(k: Kernel): (p: nat)
    requires -1 <= k.cur < PROCESS_COUNT && (k.cur >= 0 || k.activeCount == 0)
    ensures p < PROCESS_COUNT
  {
    if k.activeCount == 0 then 0 else Below(k.cur, InactiveDistance(k.procs, k.cur, 1))
  }

  /** The slot that scheduler_switch_to_next_process chooses. */
  function NextIndex(k: Kernel): (p: nat)
    requires -1 <= k.cur < PROCESS_COUNT
    ensures p < PROCESS_COUNT
  {
    Above(k.cur, ActiveDistance(k.procs, k.cur, 1))
  }

  lemma Everywhere(cur: int, p: nat)
    requires -1 <= cur < PROCESS_COUNT && p < PROCESS_COUNT
    ensures cur >= 0 ==> var n := if p < cur then cur - p else cur - p + 16; 1 <= n <= 16 && Below(cur, n) == p
    ensures var n := if p > cur then p - cur else p - cur + 16; 1 <= n <= 16 && Above(cur, n) == p
  {
  }

  /** With a slot to spare the search finds one, and takes the current one only if all others are active. */
  lemma InactiveFound(k: Kernel)
    requires Inv(k) && k.activeCount < PROCESS_COUNT && (k.cur >= 0 || k.activeCount == 0)
    ensures !k.procs[InactiveIndex(k)].active
    ensures k.activeCount > 0 && InactiveIndex(k) == k.cur ==>
      forall p | 0 <= p < PROCESS_COUNT && p != k.cur :: k.procs[p].active
  {
    if k.activeCount == 0 {
      assert Active(k) == {};
      assert 0 in Active(k) <==> k.procs[0].active;
    } else {
      SomeInactive(k);
      var q :| 0 <= q < PROCESS_COUNT && !k.procs[q].active;
      Everywhere(k.cur, q);
      forall p | 0 <= p < PROCESS_COUNT && p != k.cur && InactiveIndex(k) == k.cur
        ensures k.procs[p].active
      {
        Everywhere(k.cur, p);
      }
    }
  }

  lemma SomeInactive(k: Kernel)
    requires |Active(k)| < PROCESS_COUNT
    ensures exists q :: 0 <= q < PROCESS_COUNT && !k.procs[q].active
  {
    if forall q | 0 <= q < PROCESS_COUNT :: k.procs[q].active {
      AllActive(k, PROCESS_COUNT);
    }
  }

  lemma {:induction false} AllActive(k: Kernel, n: nat)
    requires n <= PROCESS_COUNT && forall q | 0 <= q < n :: k.procs[q].active
    ensures |set p | 0 <= p < n && k.procs[p].active| == n
  {
    if n > 0 {
      AllActive(k, n - 1);
      assert (set p | 0 <= p < n && k.procs[p].active) == (set p | 0 <= p < n - 1 && k.procs[p].active) + {n - 1};
    }
  }

  /** The current process has died and all 15 others are active. */
  predicate OnlyCurrentFree(k: Kernel)
    requires 0 <= k.cur < PROCESS_COUNT
  {
    !k.procs[k.cur].active && k.activeCount == PROCESS_COUNT - 1
  }

  lemma TwoMissing(a: set<nat>, all: set<nat>, c: nat, p: nat)
    requires a <= all && c in all && p in all && c !in a && p !in a && c != p
    ensures |a| <= |all| - 2
  {
    assert all == a + (all - a);
    assert all - a == {c, p} + (all - a - {c, p});
  }

  /** Then, and only then, a new process takes the current slot. */
  lemma CurrentSlotTaken(k: Kernel)
    requires Inv(k) && k.cur >= 0 && 0 < k.activeCount < PROCESS_COUNT
    ensures InactiveIndex(k) == k.cur <==> OnlyCurrentFree(k)
  {
    InactiveFound(k);
    AllActive(Crowded(k), PROCESS_COUNT);
    hide Inv, InactiveIndex, Crowded;
    var p, c, all := InactiveIndex(k), k.cur, Active(Crowded(k));
    CrowdedIsAll(k);
    if p == c {
      assert Active(k) == all - {c};
    } else if !k.procs[c].active {
      TwoMissing(Active(k), all, c, p);
    }
  }

  lemma CrowdedIsAll(k: Kernel)
    ensures Active(k) <= Active(Crowded(k)) && forall p: nat :: p in Active(Crowded(k)) <==> p < PROCESS_COUNT
  {
  }

  function Crowded(k: Kernel): Kernel {
    k.(procs := seq(16, p requires 0 <= p < 16 => k.procs[p].(active := true)))
  }

  /** With an active process the search finds one. */
  lemma NextFound(k: Kernel)
    requires Inv(k) && k.activeCount > 0
    ensures k.procs[NextIndex(k)].active
  {
    var q :| q in Active(k);
    Everywhere(k.cur, q);
  }

  // ----- creating a process

  /** ceil_div. */
  function CeilDiv(a: nat, b: nat): (q: nat)
    ensures b > 0 ==> q * b >= a && (q > 0 ==> (q - 1) * b < a)
  {
    if b == 0 then 0 else a / b + if a % b != 0 then 1 else 0
  }

  /** The frames for a file of this size and a user stack, in 32-bit arithmetic. */
  function FramesNeeded(size: Word): nat {
    CeilDiv((size as int + 0x40_0000) % 0x1_0000_0000, 0x40_0000)
  }

  /** The frames are those of the file and one more for the stack, unless the 32-bit sum wraps. */
  lemma FramesForFileAndStack(size: Word)
    ensures FramesNeeded(size) == CeilDiv(size, 0x40_0000) + 1 <==> size < 0xFFC0_0000
    ensures size >= 0xFFC0_0000 ==> FramesNeeded(size) <= 1
  {
    if size < 0xFFC0_0000 {
      assert (size as int + 0x40_0000) / 0x40_0000 == size as int / 0x40_0000 + 1;
      assert (size as int + 0x40_0000) % 0x40_0000 == size as int % 0x40_0000;
    }
  }

  /** paging_allocate_check: the amount is meant in bytes. */
  predicate AllocateCheck(m: Memory, amount: nat) {
    CeilDiv(amount, 0x40_0000) <= m.freeCount
  }

  /** The first n addresses of a program's frames. */
  function Addresses(buf: Word, n: nat): (s: seq<Word>)
    ensures |s| == n
  {
    seq(n, i requires 0 <= i < n => (buf as int + 0x40_0000 * i) % 0x1_0000_0000)
  }

  /** A word with bits 1 and 9 set: CPU_EFLAGS_BASE_FLAG and CPU_EFLAGS_FLAG_INTERRUPT_ENABLE. */
  function StartFlags(w: Word): Word {
    w as int + (if w / 2 % 2 == 0 then 2 else 0) + if w / 512 % 2 == 0 then 512 else 0
  }

  /** The context of a new process; the registers it does not name keep what the slot held. */
  function StartContext(c: Context, buf: Word): Context {
    Context(c.cpu.(ds := 0x20, es := 0x20, fs := 0x20, gs := 0x20, esp := 0x40_0000), buf, StartFlags(c.eflags))
  }

  function CreateCode(k: Kernel, r: Program): int {
    if k.activeCount >= PROCESS_COUNT then 1
    else if r.buf >= KERNEL_BASE then 2
    else if !AllocateCheck(k.mem, FramesNeeded(r.size)) || FramesNeeded(r.size) > FRAMES_PER_PROCESS then 3
    else 0
  }

  /** process_create_user_process. */
  function Create(k: Kernel, r: Program): Kernel
    requires 0 <= k.mem.nextFree < FRAME_COUNT && -1 <= k.cur < PROCESS_COUNT
    requires CreateCode(k, r) == 0 ==> UnusedFrom(k.mem.dirUsed) < DIRECTORY_COUNT && (k.cur >= 0 || k.activeCount == 0)
  {
    if CreateCode(k, r) != 0 then k
    else
      var p, d := InactiveIndex(k), UnusedFrom(k.mem.dirUsed);
      var used := Addresses(r.buf, FramesNeeded(r.size));
      k.(mem := AllocateAll(CreateDirectory(k.mem, d), d, PagesOf(used)),
         procs := k.procs[p := Pcb(k.totalPid + 1, Ready, true, r.name, StartContext(k.procs[p].ctx, r.buf), d, used)],
         activeCount := k.activeCount + 1, totalPid := k.totalPid + 1)
  }

  /** A word's bits 0, 1, 2 to 8, 9, and those from 10 on. */
  lemma Digits(w: nat, a: nat, b: nat, c: nat, d: nat, e: nat)
    requires a < 2 && b < 2 && c < 128 && d < 2 && w == a + 2 * b + 4 * c + 512 * d + 1024 * e
    ensures w % 2 == a && w / 2 % 2 == b && w / 4 % 128 == c && w / 512 % 2 == d && w / 1024 == e
  {
    Quotient(w, 2, b + 2 * c + 256 * d + 512 * e, a);
    Quotient(w / 2, 2, c + 128 * d + 256 * e, b);
    Quotient(w, 4, c + 128 * d + 256 * e, a + 2 * b);
    Quotient(w / 4, 128, d + 2 * e, c);
    Quotient(w, 512, d + 2 * e, a + 2 * b + 4 * c);
    Quotient(w / 512, 2, e, d);
    Quotient(w, 1024, e, a + 2 * b + 4 * c + 512 * d);
  }

  lemma DigitsOf(w: nat)
    ensures w == w % 2 + 2 * (w / 2 % 2) + 4 * (w / 4 % 128) + 512 * (w / 512 % 2) + 1024 * (w / 1024)
  {
    var b, c, d := w / 2, w / 2 / 2, w / 2 / 2 / 128;
    Digits(w, w % 2, b % 2, c % 128, d % 2, d / 2);
  }

  /** Bits 1 and 9 are set, and no other bit changes. */
  lemma FlagBits(w: Word)
    ensures var f := StartFlags(w);
      f / 2 % 2 == 1 && f / 512 % 2 == 1 && f % 2 == w % 2 && f / 4 % 128 == w / 4 % 128 && f / 1024 == w / 1024
  {
    DigitsOf(w);
    Digits(StartFlags(w), w % 2, 1, w / 4 % 128, 1, w / 1024);
  }

  /**
   * What a new process starts with: the load address, the top of its stack's page and interrupts
   * enabled, whatever the slot held before; the seven general registers stay as they were in the slot.
   */
  lemma NewProcess(k: Kernel, r: Program, b: Pcb, was: Context)
    requires 0 <= k.mem.nextFree < FRAME_COUNT && -1 <= k.cur < PROCESS_COUNT && CreateCode(k, r) == 0
    requires UnusedFrom(k.mem.dirUsed) < DIRECTORY_COUNT && (k.cur >= 0 || k.activeCount == 0)
    requires b == Create(k, r).procs[InactiveIndex(k)] && was == k.procs[InactiveIndex(k)].ctx
    ensures Create(k, r).procs == k.procs[InactiveIndex(k) := b]
    ensures var w := Create(k, r);
      w.totalPid == k.totalPid + 1 && w.activeCount == k.activeCount + 1 && w.cur == k.cur && w.cr3 == k.cr3
    ensures b.pid == k.totalPid + 1 && b.state.Ready? && b.active && b.name == r.name
    ensures |b.used| == FramesNeeded(r.size)
    ensures forall i | 0 <= i < |b.used| :: b.used[i] == (r.buf as int + 0x40_0000 * i) % 0x1_0000_0000
    ensures b.ctx.eip == r.buf && b.ctx.cpu.esp == 0x40_0000
    ensures b.ctx.cpu.ds == b.ctx.cpu.es == b.ctx.cpu.fs == b.ctx.cpu.gs == 0x20
    ensures var new', old' := b.ctx.cpu, was.cpu;
      && new'.eax == old'.eax && new'.ebx == old'.ebx && new'.ecx == old'.ecx && new'.edx == old'.edx
      && new'.esi == old'.esi && new'.edi == old'.edi && new'.ebp == old'.ebp
    ensures var f, g := b.ctx.eflags, was.eflags;
      f / 2 % 2 == 1 && f / 512 % 2 == 1 && f % 2 == g % 2 && f / 4 % 128 == g / 4 % 128 && f / 1024 == g / 1024
  {
    hide StartFlags, FramesNeeded;
    FlagBits(was.eflags);
  }

  /** A directory can still be handed out, more frames are free than the program takes, and it ends below the kernel. */
  predicate Fits(k: Kernel, r: Program) {
    && k.mem.dirFree > 0 && FramesNeeded(r.size) < k.mem.freeCount
    && r.buf as int + 0x40_0000 * FramesNeeded(r.size) <= KERNEL_BASE
    && (k.cur >= 0 || k.activeCount == 0)
  }

  /** Below the kernel base a program's frames get pages of their own. */
  lemma PagesDistinct(buf: Word, n: nat)
    requires buf as int + 0x40_0000 * n <= KERNEL_BASE
    ensures DistinctPages(PagesOf(Addresses(buf, n)))
    ensures forall i | 0 <= i < n :: PagesOf(Addresses(buf, n))[i] == buf / 0x40_0000 + i
  {
    var pages := PagesOf(Addresses(buf, n));
    forall i | 0 <= i < n
      ensures pages[i] == buf / 0x40_0000 + i && pages[i] < KERNEL_ENTRY
    {
      assert (buf as int + 0x40_0000 * i) / 0x40_0000 == buf / 0x40_0000 + i;
    }
  }

  /** What creation does to the memory: one directory more, and as many frames less as the program needs. */
  lemma CreateMemory(k: Kernel, r: Program)
    requires Inv(k) && Fits(k, r) && CreateCode(k, r) == 0
    ensures UnusedFrom(k.mem.dirUsed) < DIRECTORY_COUNT && !k.mem.dirUsed[UnusedFrom(k.mem.dirUsed)]
    ensures var d, m, w := UnusedFrom(k.mem.dirUsed), k.mem, Create(k, r).mem;
      && Consistent(w) && Lowest(w) && w.freeCount == m.freeCount - FramesNeeded(r.size)
      && w.dirUsed == m.dirUsed[d := true] && w.dirFree == m.dirFree - 1
      && (forall e | 0 <= e < DIRECTORY_COUNT && e != d :: w.dirs[e] == m.dirs[e])
      && (forall f | 0 <= f < FRAME_COUNT ::
            w.users[f] == m.users[f] || (m.users[f].Nobody? && w.users[f].Maps? && w.users[f].dir == d))
      && (forall j | 0 <= j < ENTRY_COUNT :: Mapped(w, d, j) <==> j in PagesOf(Addresses(r.buf, FramesNeeded(r.size))))
      && MapsKernel(w, d)
  {
    var d, n := UnusedFrom(k.mem.dirUsed), FramesNeeded(r.size);
    CreateDirectoryKeeps(k.mem);
    PagesDistinct(r.buf, n);
    AllocateAllEffect(CreateDirectory(k.mem, d), d, PagesOf(Addresses(r.buf, n)));
    forall f | 0 <= f < FRAME_COUNT
      ensures !(k.mem.users[f].Maps? && k.mem.users[f].dir == d)
    {
      assert FrameOk(k.mem, f);
    }
  }

  lemma CreateProcOk(k: Kernel, r: Program, q: nat)
    requires Inv(k) && Fits(k, r) && CreateCode(k, r) == 0 && UnusedFrom(k.mem.dirUsed) < DIRECTORY_COUNT
    requires q < PROCESS_COUNT
    ensures ProcOk(Create(k, r), q)
  {
    CreateMemory(k, r);
    PagesDistinct(r.buf, FramesNeeded(r.size));
    assert ProcOk(k, q);
  }

  lemma CreateCounts(k: Kernel, r: Program)
    requires Inv(k) && Fits(k, r) && CreateCode(k, r) == 0 && UnusedFrom(k.mem.dirUsed) < DIRECTORY_COUNT
    ensures Create(k, r).activeCount == |Active(Create(k, r))| && DistinctPids(Create(k, r))
  {
    var w, p := Create(k, r), InactiveIndex(k);
    InactiveFound(k);
    assert Active(w) == Active(k) + {p};
    NewPid(k, p, w.procs[p]);
  }

  lemma NewPid(k: Kernel, p: nat, b: Pcb)
    requires (forall q | 0 <= q < PROCESS_COUNT :: ProcOk(k, q)) && DistinctPids(k)
    requires p < PROCESS_COUNT && b.pid == k.totalPid + 1
    ensures DistinctPids(k.(procs := k.procs[p := b]))
  {
    forall q | 0 <= q < PROCESS_COUNT
      ensures k.procs[q].pid <= k.totalPid
    {
      assert ProcOk(k, q);
    }
  }

  /** Creating a process keeps the invariant, also when it is refused. */
  lemma CreateKeeps(k: Kernel, r: Program)
    requires Inv(k) && Fits(k, r)
    ensures UnusedFrom(k.mem.dirUsed) < DIRECTORY_COUNT && Inv(Create(k, r))
  {
    CreateDirectoryKeeps(k.mem);
    if CreateCode(k, r) == 0 {
      var w := Create(k, r);
      CreateMemory(k, r);
      CreateCounts(k, r);
      forall q | 0 <= q < PROCESS_COUNT
        ensures ProcOk(w, q)
      {
        CreateProcOk(k, r, q);
      }
      forall e | 0 <= e < DIRECTORY_COUNT
        ensures DirectoryOk(w, e)
      {
        CreateDirectoryOk(k, r, e);
      }
    }
  }

  lemma CreateDirectoryOk(k: Kernel, r: Program, e: nat)
    requires Inv(k) && Fits(k, r) && CreateCode(k, r) == 0 && UnusedFrom(k.mem.dirUsed) < DIRECTORY_COUNT
    requires e < DIRECTORY_COUNT
    ensures DirectoryOk(Create(k, r), e)
  {
    var w, p, d := Create(k, r), InactiveIndex(k), UnusedFrom(k.mem.dirUsed);
    CreateMemory(k, r);
    InactiveFound(k);
    assert DirectoryOk(k, e) && DirectoryOk(k, d);
    forall q | 0 <= q < PROCESS_COUNT
      ensures !Owns(k, q, d)
    {
      assert ProcOk(k, q);
    }
    assert Owns(w, p, d);
    if w.mem.dirUsed[e] && e != d {
      var q :| Owns(k, q, e);
      assert Owns(w, q, e);
    }
    forall q, q' | Owns(w, q, e) && Owns(w, q', e)
      ensures q == q'
    {
      assert q != p ==> Owns(k, q, e);
      assert q' != p ==> Owns(k, q', e);
    }
  }

  // ----- when memory is short

  /** Once the frames are used up the remaining allocations do nothing. */
  lemma {:induction false} AllocateAllExhausts(m: Memory, d: nat, pages: seq<Page>)
    requires Consistent(m) && Lowest(m) && d < DIRECTORY_COUNT && m.dirUsed[d] && DistinctPages(pages)
    requires (forall j | j in pages :: !Mapped(m, d, j)) && |pages| >= m.freeCount
    ensures AllocateAll(m, d, pages) == AllocateAll(m, d, pages[..m.freeCount])
  {
    if |pages| == m.freeCount {
      assert pages[..m.freeCount] == pages;
    } else {
      var front := pages[..|pages| - 1];
      AllocateAllExhausts(m, d, front);
      assert front[..m.freeCount] == pages[..m.freeCount];
      AllocateAllEffect(m, d, pages[..m.freeCount]);
    }
  }

  /**
   * The code of a refusal: 1 if no slot is free; else 2 if the load address is the kernel's; else 3 if
   * more than 8 frames are needed, or any with none free. A refusal changes nothing.
   */
  lemma CreateCodes(k: Kernel, r: Program)
    requires k.activeCount == |Active(k)| && k.mem.freeCount >= 0
    requires 0 <= k.mem.nextFree < FRAME_COUNT && -1 <= k.cur < PROCESS_COUNT
    ensures CreateCode(k, r) in {0, 1, 2, 3}
    ensures CreateCode(k, r) == 1 <==> forall p | 0 <= p < PROCESS_COUNT :: k.procs[p].active
    ensures CreateCode(k, r) == 2 <==> CreateCode(k, r) != 1 && r.buf >= 0xC000_0000
    ensures CreateCode(k, r) == 3 <==>
      CreateCode(k, r) !in {1, 2} && (FramesNeeded(r.size) > 8 || (FramesNeeded(r.size) > 0 && k.mem.freeCount == 0))
    ensures CreateCode(k, r) != 0 ==> Create(k, r) == k
  {
    hide FramesNeeded;
    if k.activeCount < PROCESS_COUNT {
      SomeInactive(k);
    } else if q :| 0 <= q < PROCESS_COUNT && !k.procs[q].active {
      FewerActive(k, q);
    }
  }

  lemma FewerActive(k: Kernel, q: nat)
    requires q < PROCESS_COUNT && !k.procs[q].active
    ensures |Active(k)| < PROCESS_COUNT
  {
    AllActive(Crowded(k), PROCESS_COUNT);
    CrowdedIsAll(k);
    hide Crowded;
    Missing(Active(k), Active(Crowded(k)), q);
  }

  lemma Missing(a: set<nat>, all: set<nat>, q: nat)
    requires a <= all && q in all && q !in a
    ensures |a| < |all|
  {
    assert all == a + (all - a) && q in all - a;
  }

  /** The memory check compares a page count with a size in bytes, so one free frame satisfies it. */
  lemma CheckIsWeak(k: Kernel, r: Program)
    requires Inv(k)
    ensures CreateCode(k, r) == 0 <==>
      k.activeCount < PROCESS_COUNT && r.buf < KERNEL_BASE && FramesNeeded(r.size) <= FRAMES_PER_PROCESS
  {
  }

  /** Pages of a fresh directory all get frames exactly when there are enough. */
  lemma AllMappedIff(m: Memory, d: nat, pages: seq<Page>)
    requires Consistent(m) && Lowest(m) && d < DIRECTORY_COUNT && m.dirUsed[d] && DistinctPages(pages)
    requires forall j | 0 <= j < ENTRY_COUNT :: !Mapped(m, d, j)
    ensures (forall j | j in pages :: Mapped(AllocateAll(m, d, pages), d, j)) <==> |pages| <= m.freeCount
  {
    if |pages| <= m.freeCount {
      AllocateAllEffect(m, d, pages);
    } else {
      var n := |pages|;
      AllocateAllExhausts(m, d, pages);
      AllocateAllEffect(m, d, pages[..m.freeCount]);
      assert pages[n - 1] in pages && pages[n - 1] !in pages[..m.freeCount];
    }
  }

  /** A process that is created has all its pages mapped exactly when there were frames for all. */
  lemma CreatedFullyMapped(k: Kernel, r: Program)
    requires Inv(k) && k.mem.dirFree > 0 && CreateCode(k, r) == 0 && (k.cur >= 0 || k.activeCount == 0)
    requires r.buf as int + 0x40_0000 * FramesNeeded(r.size) <= KERNEL_BASE
    ensures var d := UnusedFrom(k.mem.dirUsed);
      d < DIRECTORY_COUNT &&
      ((forall j | j in PagesOf(Addresses(r.buf, FramesNeeded(r.size))) :: Mapped(Create(k, r).mem, d, j))
       <==> FramesNeeded(r.size) <= k.mem.freeCount)
  {
    var d := UnusedFrom(k.mem.dirUsed);
    CreateDirectoryKeeps(k.mem);
    PagesDistinct(r.buf, FramesNeeded(r.size));
    AllMappedIff(CreateDirectory(k.mem, d), d, PagesOf(Addresses(r.buf, FramesNeeded(r.size))));
  }

  // ----- destroying a process

  /** The first slot with this process id from p on, or PROCESS_COUNT. */
  function SlotOf(procs: Procs, pid: nat, p: nat := 0): (q: nat)
    requires p <= |procs|
    ensures p <= q <= PROCESS_COUNT && (q < PROCESS_COUNT ==> procs[q].pid == pid)
    ensures forall i | p <= i < q :: procs[i].pid != pid
    decreases |procs| - p
  {
    if p == |procs| || procs[p].pid == pid then p else SlotOf(procs, pid, p + 1)
  }

  /** process_destroy, up to the machine's exit on the last process. */
  function Destroy(k: Kernel, pid: nat): Kernel
    requires SlotOf(k.procs, pid) < PROCESS_COUNT ==> 0 <= k.procs[SlotOf(k.procs, pid)].dir < DIRECTORY_COUNT
  {
    var p := SlotOf(k.procs, pid);
    if p == PROCESS_COUNT then k
    else
      var b := k.procs[p];
      k.(mem := FreeDirectory(ReleaseAll(k.mem, b.dir, PagesOf(b.used)), b.dir),
         procs := k.procs[p := b.(active := false, used := [])], activeCount := k.activeCount - 1)
  }

  /** The process id names an active process, as `kill` makes sure. */
  predicate Alive(k: Kernel, pid: nat) {
    exists p :: 0 <= p < PROCESS_COUNT && k.procs[p].active && k.procs[p].pid == pid
  }

  lemma AliveSlot(k: Kernel, pid: nat)
    requires Inv(k) && Alive(k, pid)
    ensures var p := SlotOf(k.procs, pid); p < PROCESS_COUNT && k.procs[p].active && ProcOk(k, p)
  {
    var p :| 0 <= p < PROCESS_COUNT && k.procs[p].active && k.procs[p].pid == pid;
    assert ProcOk(k, p);
  }

  /** Destroying a process takes exactly its frames and its directory, and nothing of any other's. */
  lemma DestroyMemory(k: Kernel, pid: nat)
    requires Inv(k) && Alive(k, pid)
    ensures var p := SlotOf(k.procs, pid); p < PROCESS_COUNT && 0 <= k.procs[p].dir < DIRECTORY_COUNT
    ensures var d, m, w := k.procs[SlotOf(k.procs, pid)].dir, k.mem, Destroy(k, pid).mem;
      && Consistent(w) && Lowest(w) && w.freeCount >= m.freeCount
      && w.dirUsed == m.dirUsed[d := false] && w.dirFree == m.dirFree
      && (forall e | 0 <= e < DIRECTORY_COUNT && e != d :: w.dirs[e] == m.dirs[e])
      && (forall f | 0 <= f < FRAME_COUNT ::
            w.users[f] == if m.users[f].Maps? && m.users[f].dir == d then Nobody else m.users[f])
      && w.dirs[d][KERNEL_ENTRY] == m.dirs[d][KERNEL_ENTRY]
  {
    AliveSlot(k, pid);
    var b := k.procs[SlotOf(k.procs, pid)];
    ReleaseAllEffect(k.mem, b.dir, PagesOf(b.used));
    FreeDirectoryEffect(ReleaseAll(k.mem, b.dir, PagesOf(b.used)), b.dir);
  }

  /** The block of a destroyed process is dead and has no pages; all else in it, and every other block, is as before. */
  lemma DestroyedBlock(k: Kernel, pid: nat, p: nat, w: Kernel)
    requires p == SlotOf(k.procs, pid) < PROCESS_COUNT && 0 <= k.procs[p].dir < DIRECTORY_COUNT && w == Destroy(k, pid)
    ensures w.cur == k.cur && w.cr3 == k.cr3 && w.totalPid == k.totalPid && w.activeCount == k.activeCount - 1
    ensures forall q | 0 <= q < PROCESS_COUNT && q != p :: w.procs[q] == k.procs[q]
    ensures !w.procs[p].active && w.procs[p].used == []
    ensures w.procs[p].(active := k.procs[p].active, used := k.procs[p].used) == k.procs[p]
  {
    hide SlotOf, FreeDirectory, ReleaseAll;
  }

  lemma DestroyKeeps(k: Kernel, pid: nat)
    requires Inv(k) && Alive(k, pid)
    ensures var p := SlotOf(k.procs, pid); p < PROCESS_COUNT && 0 <= k.procs[p].dir < DIRECTORY_COUNT
    ensures Inv(Destroy(k, pid))
  {
    hide DirectoryOk, Consistent, Lowest;
    AliveSlot(k, pid);
    DestroyMemory(k, pid);
    var w, p := Destroy(k, pid), SlotOf(k.procs, pid);
    var d := k.procs[p].dir;
    assert Active(w) == Active(k) - {p};
    assert p in Active(k);
    forall q | 0 <= q < PROCESS_COUNT
      ensures ProcOk(w, q)
    {
      DestroyProcOk(k, pid, q);
    }
    forall e | 0 <= e < DIRECTORY_COUNT
      ensures DirectoryOk(w, e)
    {
      DestroyDirectoryOk(k, pid, e);
    }
    KernelStays(k, w);
  }

  /** No other active process owns the directory of one. */
  lemma OneOwner(k: Kernel, p: nat, q: nat)
    requires Inv(k) && p < PROCESS_COUNT && q < PROCESS_COUNT && k.procs[p].active && k.procs[q].active && p != q
    ensures k.procs[q].dir != k.procs[p].dir
  {
    assert ProcOk(k, p) && DirectoryOk(k, k.procs[p].dir);
    assert Owns(k, p, k.procs[p].dir);
    assert Owns(k, q, k.procs[q].dir);
  }

  /** Directories that are given back keep mapping the kernel. */
  lemma KernelStays(k: Kernel, w: Kernel)
    requires KernelMapped(k) && w.cr3 == k.cr3
    requires forall e | 0 <= e < DIRECTORY_COUNT :: w.mem.dirUsed[e] ==> k.mem.dirUsed[e]
    requires forall e | 0 <= e < DIRECTORY_COUNT :: w.mem.dirs[e][KERNEL_ENTRY] == k.mem.dirs[e][KERNEL_ENTRY]
    ensures KernelMapped(w)
  {
    assert forall e | 0 <= e < DIRECTORY_COUNT && MapsKernel(k.mem, e) :: MapsKernel(w.mem, e);
  }

  lemma DestroyProcOk(k: Kernel, pid: nat, q: nat)
    requires Inv(k) && Alive(k, pid) && q < PROCESS_COUNT && SlotOf(k.procs, pid) < PROCESS_COUNT
    requires 0 <= k.procs[SlotOf(k.procs, pid)].dir < DIRECTORY_COUNT
    ensures ProcOk(Destroy(k, pid), q)
  {
    AliveSlot(k, pid);
    DestroyMemory(k, pid);
    assert ProcOk(k, q);
    var p := SlotOf(k.procs, pid);
    if q != p && k.procs[q].active {
      OneOwner(k, p, q);
    }
  }

  lemma DestroyDirectoryOk(k: Kernel, pid: nat, e: nat)
    requires Inv(k) && Alive(k, pid) && e < DIRECTORY_COUNT && SlotOf(k.procs, pid) < PROCESS_COUNT
    requires 0 <= k.procs[SlotOf(k.procs, pid)].dir < DIRECTORY_COUNT
    ensures DirectoryOk(Destroy(k, pid), e)
  {
    AliveSlot(k, pid);
    DestroyMemory(k, pid);
    assert DirectoryOk(k, e);
    var w := Destroy(k, pid);
    forall q | Owns(w, q, e)
      ensures Owns(k, q, e)
    {
    }
    if w.mem.dirUsed[e] {
      var q :| Owns(k, q, e);
      assert Owns(w, q, e);
    }
  }

  lemma GivenId(k: Kernel, pid: nat)
    requires Inv(k) && pid > 0 && SlotOf(k.procs, pid) < PROCESS_COUNT
    ensures 0 <= k.procs[SlotOf(k.procs, pid)].dir < DIRECTORY_COUNT
    ensures Alive(k, pid) <==> k.procs[SlotOf(k.procs, pid)].active
  {
    assert ProcOk(k, SlotOf(k.procs, pid));
    if Alive(k, pid) {
      AliveSlot(k, pid);
    }
  }

  /** Destroying by an id that was given out keeps everything in order exactly if its process is alive. */
  lemma DestroyKeepsOnlyAlive(k: Kernel, pid: nat)
    requires Inv(k) && pid > 0 && SlotOf(k.procs, pid) < PROCESS_COUNT
    ensures 0 <= k.procs[SlotOf(k.procs, pid)].dir < DIRECTORY_COUNT
    ensures Inv(Destroy(k, pid)) <==> Alive(k, pid)
  {
    GivenId(k, pid);
    if Alive(k, pid) {
      DestroyKeeps(k, pid);
    } else {
      assert Active(Destroy(k, pid)) == Active(k);
    }
  }

  /**
   * Destroying by the id of a dead process leaves the memory as it is exactly if its directory was not
   * handed out again. If it was, its new owner keeps its block and loses the directory and every frame.
   */
  lemma DestroyDead(k: Kernel, pid: nat, d: nat)
    requires Inv(k) && pid > 0 && SlotOf(k.procs, pid) < PROCESS_COUNT && !Alive(k, pid)
    requires d == k.procs[SlotOf(k.procs, pid)].dir
    ensures d < DIRECTORY_COUNT
    ensures Destroy(k, pid).mem == k.mem <==> forall q: nat :: !Owns(k, q, d)
    ensures forall q: nat | Owns(k, q, d) ::
      && Owns(Destroy(k, pid), q, d) && Destroy(k, pid).procs[q].used == k.procs[q].used
      && !Destroy(k, pid).mem.dirUsed[d] && forall j | 0 <= j < ENTRY_COUNT :: !Mapped(Destroy(k, pid).mem, d, j)
  {
    GivenId(k, pid);
    assert ProcOk(k, SlotOf(k.procs, pid)) && DirectoryOk(k, d);
    var w := Destroy(k, pid).mem;
    assert w == FreeDirectory(k.mem, d);
    if k.mem.dirUsed[d] {
      var q :| Owns(k, q, d);
      FreeDirectoryEffect(k.mem, d);
      forall j | 0 <= j < ENTRY_COUNT
        ensures !Mapped(w, d, j)
      {
        UnusedMapsNothing(w, d, j);
      }
      assert forall q: nat | Owns(k, q, d) :: q != SlotOf(k.procs, pid) && Owns(Destroy(k, pid), q, d);
    } else {
      forall j | 0 <= j < ENTRY_COUNT
        ensures !Mapped(k.mem, d, j)
      {
        UnusedMapsNothing(k.mem, d, j);
      }
      SweepOfNothing(k.mem, d, ENTRY_COUNT);
      assert k.mem.dirUsed[d := false] == k.mem.dirUsed;
      forall q: nat
        ensures !Owns(k, q, d)
      {
        assert q < PROCESS_COUNT ==> ProcOk(k, q);
      }
    }
  }

  // ----- create, then destroy

  /** The lowest free frame is one particular frame. */
  lemma SameHint(m: Memory, w: Memory)
    requires Lowest(m) && Lowest(w) && m.frameMap == w.frameMap && m.freeCount == w.freeCount > 0
    ensures m.nextFree == w.nextFree
  {
  }

  /** The new process is found by its id in the slot that was chosen for it. */
  lemma CreatedSlot(k: Kernel, r: Program)
    requires Inv(k) && Fits(k, r) && CreateCode(k, r) == 0
    ensures UnusedFrom(k.mem.dirUsed) < DIRECTORY_COUNT
    ensures var w, p := Create(k, r), InactiveIndex(k);
      && Alive(w, k.totalPid + 1) && SlotOf(w.procs, k.totalPid + 1) == p
      && w.procs[p].dir == UnusedFrom(k.mem.dirUsed)
  {
    var w, p := Create(k, r), InactiveIndex(k);
    CreateKeeps(k, r);
    assert w.procs[p].active && w.procs[p].pid == k.totalPid + 1;
    AliveSlot(w, k.totalPid + 1);
  }

  /**
   * Destroying a process that was just created gives back exactly what it took: a frame for each
   * 4 MiB begun of its file and one for its stack, exactly if the size does not wrap.
   */
  lemma CreateThenDestroy(k: Kernel, r: Program)
    requires Inv(k) && Fits(k, r) && CreateCode(k, r) == 0
    ensures UnusedFrom(k.mem.dirUsed) < DIRECTORY_COUNT
    ensures var w := Create(k, r);
      && (w.mem.freeCount == k.mem.freeCount - (CeilDiv(r.size, 0x40_0000) + 1) <==> r.size < 0xFFC0_0000)
      && Alive(w, k.totalPid + 1) && SlotOf(w.procs, k.totalPid + 1) == InactiveIndex(k)
      && 0 <= w.procs[InactiveIndex(k)].dir < DIRECTORY_COUNT
      && var u := Destroy(w, k.totalPid + 1);
         && u.mem.frameMap == k.mem.frameMap && u.mem.freeCount == k.mem.freeCount && u.mem.nextFree == k.mem.nextFree
         && u.mem.users == k.mem.users && u.mem.dirUsed == k.mem.dirUsed && u.activeCount == k.activeCount
  {
    hide FramesNeeded, CeilDiv, DirectoryOk, DistinctPids, ProcOk, KernelMapped, Alive;
    hide SlotOf, InactiveIndex, MapsKernel;
    var w, pid, d := Create(k, r), k.totalPid + 1, UnusedFrom(k.mem.dirUsed);
    CreateMemory(k, r);
    CreateKeeps(k, r);
    CreatedSlot(k, r);
    FramesForFileAndStack(r.size);
    DestroyMemory(w, pid);
    var u := Destroy(w, pid);
    forall f | 0 <= f < FRAME_COUNT
      ensures u.mem.users[f] == k.mem.users[f] && u.mem.frameMap[f] == k.mem.frameMap[f]
    {
      assert FrameOk(k.mem, f) && FrameOk(u.mem, f);
    }
    assert u.mem.users == k.mem.users && u.mem.frameMap == k.mem.frameMap;
    assert FreeFrames(u.mem) == FreeFrames(k.mem);
    SameHint(k.mem, u.mem);
  }
}
