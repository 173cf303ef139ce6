/** The kernel's procedures over their arrays, with their loops. */
module KernelDriver {
  import opened ContextSwitch
  import opened Paging
  import opened Processes
  import opened Scheduler

  const NULL := -1

  class PageManager {
    const frameMap: array<bool>
    var freeCount: int
    var nextFree: int
    const dirUsed: array<bool>
    var dirFree: int
    const dirs: array<Directory>
    ghost var users: Users

    ghost predicate Valid()
      reads this
    {
      && frameMap.Length == FRAME_COUNT && dirUsed.Length == DIRECTORY_COUNT && dirs.Length == DIRECTORY_COUNT
      && frameMap != dirUsed && 0 <= nextFree < FRAME_COUNT
    }

    ghost function State(): Memory
      requires Valid()
      reads this, frameMap, dirUsed, dirs
    {
      Memory(frameMap[..], freeCount, nextFree, users, dirUsed[..], dirFree, dirs[..])
    }

    constructor ()
      ensures Valid() && State() == Linked().mem
      ensures fresh(frameMap) && fresh(dirUsed) && fresh(dirs)
    {
      frameMap := new bool[32](f => f == 0);
      freeCount, nextFree := 31, 1;
      dirUsed := new bool[32](_ => false);
      dirFree := 32;
      dirs := new Directory[32](_ => seq(1024, _ => NO_ENTRY));
      users := Linked().mem.users;
      new;
      assert frameMap[..] == Linked().mem.frameMap;
      assert dirUsed[..] == Linked().mem.dirUsed;
      assert dirs[..] == Linked().mem.dirs;
    }

    method UpdatePageDirectoryEntry(d: nat, frame: nat, address: Word, flag: Entry)
      requires Valid() && d < DIRECTORY_COUNT
      modifies dirs
      ensures dirs[..] == old(dirs[..])[d := old(dirs[d])[PageOf(address) := flag.(frame := frame)]]
    {
      dirs[d] := dirs[d][address / 0x40_0000 := flag.(frame := frame)];
    }

    method AllocateUserPageFrame(d: nat, address: Word) returns (ok: bool)
      requires Valid() && d < DIRECTORY_COUNT
      modifies this, frameMap, dirs
      ensures Valid() && State() == Allocate(old(State()), d, PageOf(address)) && ok == (old(freeCount) != 0)
      ensures !ok ==> State() == old(State())
    {
      if freeCount == 0 {
        return false;
      }
      var f := nextFree;
      freeCount := freeCount - 1;
      frameMap[f] := true;
      users := users[f := Maps(d, PageOf(address))];
      ghost var found := false;
      for i := f + 1 to FRAME_COUNT
        invariant Valid() && nextFree == f
        invariant NextFree(frameMap[..], f + 1, f) == NextFree(frameMap[..], i, f)
        invariant frameMap[..] == old(frameMap[..])[f := true] && freeCount == old(freeCount) - 1
        invariant dirs[..] == old(dirs[..]) && dirUsed[..] == old(dirUsed[..]) && dirFree == old(dirFree)
        invariant users == old(users)[f := Maps(d, PageOf(address))]
      {
        if !frameMap[i] {
          nextFree := i;
          break;
        }
      }
      UpdatePageDirectoryEntry(d, f, address, UserMapping(0));
      return true;
    }

    method FreeUserPageFrame(d: nat, address: Word) returns (ok: bool)
      requires Valid() && d < DIRECTORY_COUNT
      requires dirs[d][PageOf(address)].present ==> dirs[d][PageOf(address)].frame < FRAME_COUNT
      modifies this, frameMap, dirs
      ensures Valid() && State() == Release(old(State()), d, PageOf(address))
      ensures ok == old(dirs[d][PageOf(address)].present) && (!ok ==> State() == old(State()))
    {
      var e := dirs[d][address / 0x40_0000];
      if !e.present {
        return false;
      }
      freeCount := freeCount + 1;
      frameMap[e.frame] := false;
      users := users[e.frame := Nobody];
      if nextFree > e.frame {
        nextFree := e.frame;
      }
      UpdatePageDirectoryEntry(d, 0, address, FREED_ENTRY);
      return true;
    }

    method CreateNewPageDirectory() returns (d: int)
      requires Valid() && (dirFree != 0 ==> UnusedFrom(dirUsed[..]) < DIRECTORY_COUNT)
      modifies this`dirFree, dirUsed, dirs
      ensures Valid()
      ensures old(dirFree) == 0 ==> d == NULL && State() == old(State())
      ensures old(dirFree) != 0 ==> d == UnusedFrom(old(dirUsed[..])) && State() == CreateDirectory(old(State()), d)
      ensures old(dirFree) != 0 ==> MapsKernel(State(), d) && OnlyEntry(old(State()), State(), d, 0x300)
    {
      if dirFree == 0 {
        return NULL;
      }
      var idx := 0;
      for i := 0 to DIRECTORY_COUNT
        invariant UnusedFrom(dirUsed[..]) == UnusedFrom(dirUsed[..], i)
        invariant i < DIRECTORY_COUNT
      {
        if !dirUsed[i] {
          idx := i;
          break;
        }
      }
      dirUsed[idx] := true;
      dirFree := dirFree - 1;
      dirs[idx] := dirs[idx][KERNEL_ENTRY := KERNEL_MAPPING];
      return idx;
    }

    /** Present user entries of directory d name frames that exist. */
    ghost predicate FramesExist(d: nat)
      requires Valid() && d < DIRECTORY_COUNT
      reads this, dirs
    {
      forall j | 0 <= j < ENTRY_COUNT && j != KERNEL_ENTRY && dirs[d][j].present :: dirs[d][j].frame < FRAME_COUNT
    }

    method FreePageDirectory(d: nat)
      requires Valid() && d < DIRECTORY_COUNT && FramesExist(d)
      modifies this, frameMap, dirUsed, dirs
      ensures Valid() && State() == FreeDirectory(old(State()), d)
    {
      ghost var m := State();
      dirUsed[d] := false;
      for j := 0 to ENTRY_COUNT
        invariant Valid() && FramesExist(d)
        invariant State() == Sweep(m, d, j).(dirUsed := m.dirUsed[d := false])
      {
        if j == KERNEL_ENTRY {
          continue;
        }
        if dirs[d][j].present {
          var freed := FreeUserPageFrame(d, j * 0x40_0000);
        }
      }
      SweepLeavesMap(m, d, ENTRY_COUNT);
    }
  }

  class ProcessTable {
    const pages: PageManager
    const procs: array<Pcb>
    var activeCount: int
    var cur: int
    var totalPid: nat
    var cr3: int

    ghost predicate Valid()
      reads this, pages
    {
      pages.Valid() && procs.Length == PROCESS_COUNT && -1 <= cur < PROCESS_COUNT
    }

    ghost function State(): Kernel
      requires Valid()
      reads this, procs, pages, pages.frameMap, pages.dirUsed, pages.dirs
    {
      Kernel(pages.State(), procs[..], activeCount, cur, totalPid, cr3)
    }

    constructor ()
      ensures Valid() && State() == Linked()
      ensures fresh(pages) && fresh(procs) && fresh(pages.frameMap) && fresh(pages.dirUsed) && fresh(pages.dirs)
    {
      pages := new PageManager();
      procs := new Pcb[16](_ => EMPTY_PCB);
      activeCount, cur, totalPid, cr3 := 0, -1, 0, -1;
      new;
      assert procs[..] == Linked().procs;
    }

    method GetInactiveIndex() returns (idx: nat)
      requires Valid() && Inv(State()) && activeCount < PROCESS_COUNT && (cur >= 0 || activeCount == 0)
      ensures idx == InactiveIndex(State())
    {
      InactiveFound(State());
      if activeCount == 0 {
        return 0;
      }
      var i := cur - 1;
      if i == -1 {
        i := PROCESS_COUNT - 1;
      }
      ghost var n := 1;
      while procs[i].active
        invariant 1 <= n <= PROCESS_COUNT && i == Below(cur, n)
        invariant InactiveDistance(procs[..], cur, 1) == InactiveDistance(procs[..], cur, n)
        decreases PROCESS_COUNT - n
      {
        i := i - 1;
        if i == -1 {
          i := PROCESS_COUNT - 1;
        }
        n := n + 1;
      }
      idx := i;
    }

    method CreateUserProcess(r: Program) returns (code: int)
      requires Valid() && Inv(State())
      requires CreateCode(State(), r) == 0 ==> pages.dirFree > 0 && (cur >= 0 || activeCount == 0)
      modifies this, procs, pages, pages.frameMap, pages.dirUsed, pages.dirs
      ensures CreateCode(old(State()), r) == 0 ==> UnusedFrom(old(pages.dirUsed[..])) < DIRECTORY_COUNT
      ensures Valid() && code == CreateCode(old(State()), r) && State() == Create(old(State()), r)
      ensures code != 0 ==> State() == old(State())
    {
      hide Consistent, Lowest, ProcOk, DirectoryOk, DistinctPids;
      hide AllocateAll, InactiveIndex, UnusedFrom, Addresses, PagesOf, StartContext;
      if activeCount >= PROCESS_COUNT {
        return 1;
      }
      if r.buf >= KERNEL_BASE {
        return 2;
      }
      var needed := CeilDiv((r.size as int + 0x40_0000) % 0x1_0000_0000, 0x40_0000);
      if !(CeilDiv(needed, 0x40_0000) <= pages.freeCount) || needed > FRAMES_PER_PROCESS {
        return 3;
      }
      CreateDirectoryKeeps(pages.State());
      var index := GetInactiveIndex();
      var d := pages.CreateNewPageDirectory();
      var used := AllocateFrames(d, r.buf, needed);
      FillBlock(index, r, d, used);
      activeCount := activeCount + 1;
      code := 0;
    }

    /** The fields of the new process's control block, and its process id. */
    method FillBlock(index: nat, r: Program, d: int, used: seq<Word>)
      requires Valid() && index < PROCESS_COUNT
      modifies this`totalPid, procs
      ensures totalPid == old(totalPid) + 1
      ensures procs[..] == old(procs[..])
        [index := Pcb(totalPid, Ready, true, r.name, StartContext(old(procs[index]).ctx, r.buf), d, used)]
    {
      procs[index] := procs[index].(name := r.name, dir := d, used := used);
      procs[index] := procs[index].(ctx := StartContext(procs[index].ctx, r.buf));
      totalPid := totalPid + 1;
      procs[index] := procs[index].(pid := totalPid, active := true, state := Ready);
    }

    /** The allocation loop of process creation. */
    method AllocateFrames(d: nat, buf: Word, n: nat) returns (used: seq<Word>)
      requires Valid() && d < DIRECTORY_COUNT
      modifies pages, pages.frameMap, pages.dirs
      ensures Valid() && used == Addresses(buf, n)
      ensures pages.State() == AllocateAll(old(pages.State()), d, PagesOf(Addresses(buf, n)))
    {
      used := [];
      for i := 0 to n
        invariant Valid() && used == Addresses(buf, i)
        invariant pages.State() == AllocateAll(old(pages.State()), d, PagesOf(Addresses(buf, i)))
      {
        var address := (buf as int + 0x40_0000 * i) % 0x1_0000_0000;
        used := used + [address];
        assert Addresses(buf, i + 1) == Addresses(buf, i) + [address];
        assert PagesOf(Addresses(buf, i + 1)) == PagesOf(Addresses(buf, i)) + [PageOf(address)];
        assert PagesOf(Addresses(buf, i + 1))[..i] == PagesOf(Addresses(buf, i));
        var ok := pages.AllocateUserPageFrame(d, address);
      }
    }

    /** scheduler_save_context_to_current_running_pcb. */
    method SaveContext(ctx: Context)
      requires Valid() && cur >= 0
      modifies procs
      ensures Valid() && State() == Save(old(State()), ctx)
    {
      procs[cur] := procs[cur].(ctx := ctx);
    }

    /** The search of scheduler_switch_to_next_process. */
    method NextActive() returns (idx: nat)
      requires Valid() && Inv(State()) && activeCount > 0
      ensures idx == NextIndex(State())
    {
      hide Consistent, Lowest, ProcOk, DirectoryOk, DistinctPids;
      NextFound(State());
      idx := (cur + 1) % PROCESS_COUNT;
      ghost var n := 1;
      while !procs[idx].active
        invariant 1 <= n <= PROCESS_COUNT && idx == Above(cur, n)
        invariant ActiveDistance(procs[..], cur, 1) == ActiveDistance(procs[..], cur, n)
        decreases PROCESS_COUNT - n
      {
        idx := (idx + 1) % PROCESS_COUNT;
        n := n + 1;
      }
    }

    /** scheduler_switch_to_next_process; the context to be resumed is returned. */
    method SwitchToNextProcess() returns (ctx: Context)
      requires Valid() && Inv(State()) && activeCount > 0
      modifies this`cur, this`cr3, procs
      ensures Valid() && cur >= 0 && State() == Switch(old(State())) && ctx == procs[cur].ctx
    {
      var idx := NextActive();
      if cur >= 0 {
        procs[cur] := procs[cur].(state := Ready);
      }
      cr3 := procs[idx].dir;
      cur := idx;
      procs[idx] := procs[idx].(state := Running);
      ctx := procs[idx].ctx;
    }

    /** The timer branch of main_interrupt_handler; without a switch the interrupted context goes on. */
    method Tick(frame: Context) returns (ctx: Context)
      requires Valid() && Inv(State()) && cur >= 0
      modifies this`cur, this`cr3, procs
      ensures Valid() && State() == if old(activeCount) > 1 then Switch(Save(old(State()), frame)) else old(State())
      ensures ctx == if old(activeCount) > 1 then procs[cur].ctx else frame
    {
      ctx := frame;
      if activeCount > 1 {
        SaveKeeps(State(), frame);
        SaveContext(frame);
        ctx := SwitchToNextProcess();
      }
    }

    /** release_memory for the block in slot p. */
    method ReleaseMemory(p: nat)
      requires Valid() && Inv(State()) && p < PROCESS_COUNT && procs[p].pid > 0
      modifies pages, pages.frameMap, pages.dirUsed, pages.dirs, procs
      ensures Valid() && procs[..] == old(procs[..])[p := old(procs[p]).(used := [])]
      ensures ProcOk(old(State()), p)
      ensures var b := old(procs[p]);
        pages.State() == FreeDirectory(ReleaseAll(old(pages.State()), b.dir, PagesOf(b.used)), b.dir)
    {
      assert ProcOk(State(), p);
      var b := procs[p];
      BlockPages(State(), p);
      hide Processes.Inv, ProcOk;
      ghost var m := pages.State();
      for i := 0 to |b.used|
        invariant Valid() && procs[..] == old(procs[..]) && pages.State() == ReleaseAll(m, b.dir, PagesOf(b.used)[..i])
      {
        ReleaseAllEffect(m, b.dir, PagesOf(b.used)[..i]);
        FramesOfDirectory(pages.State(), b.dir);
        assert PagesOf(b.used)[..i + 1] == PagesOf(b.used)[..i] + [PageOf(b.used[i])];
        assert PagesOf(b.used)[..i + 1][..i] == PagesOf(b.used)[..i];
        assert PageOf(b.used[i]) == PagesOf(b.used)[i];
        var ok := pages.FreeUserPageFrame(b.dir, b.used[i]);
      }
      assert PagesOf(b.used)[..|b.used|] == PagesOf(b.used);
      ReleaseAllEffect(m, b.dir, PagesOf(b.used));
      FramesOfDirectory(pages.State(), b.dir);
      pages.FreePageDirectory(b.dir);
      procs[p] := procs[p].(used := []);
    }

    /** process_destroy, unless it makes the machine exit with the last active process. */
    method DestroyProcess(pid: nat) returns (ok: bool)
      requires Valid() && Inv(State()) && pid > 0 && (SlotOf(procs[..], pid) < PROCESS_COUNT ==> activeCount != 1)
      modifies this`activeCount, pages, pages.frameMap, pages.dirUsed, pages.dirs, procs
      ensures var p := SlotOf(old(procs[..]), pid); p < PROCESS_COUNT ==> 0 <= old(procs[..])[p].dir < DIRECTORY_COUNT
      ensures Valid() && ok == (SlotOf(old(procs[..]), pid) < PROCESS_COUNT) && State() == Destroy(old(State()), pid)
      ensures !ok ==> State() == old(State())
    {
      if SlotOf(procs[..], pid) < PROCESS_COUNT {
        GivenId(State(), pid);
      }
      for i := 0 to PROCESS_COUNT
        invariant SlotOf(procs[..], pid) == SlotOf(procs[..], pid, i)
        invariant State() == old(State()) && Valid()
      {
        if procs[i].pid == pid {
          ReleaseMemory(i);
          procs[i] := procs[i].(active := false);
          activeCount := activeCount - 1;
          return true;
        }
      }
      return false;
    }
  }

  /** The addresses in a block are those of user pages. */
  lemma BlockPages(k: Kernel, p: nat)
    requires Inv(k) && p < PROCESS_COUNT && k.procs[p].pid > 0
    ensures 0 <= k.procs[p].dir < DIRECTORY_COUNT && KERNEL_ENTRY !in PagesOf(k.procs[p].used)
    ensures Consistent(k.mem) && Lowest(k.mem) && k.mem.freeCount > 0
  {
    assert ProcOk(k, p);
    if k.procs[p].active {
      assert !Mapped(k.mem, k.procs[p].dir, KERNEL_ENTRY);
    }
  }

  /** Present user entries of a directory name frames that exist. */
  lemma FramesOfDirectory(m: Memory, d: nat)
    requires Consistent(m) && d < DIRECTORY_COUNT
    ensures forall j | 0 <= j < ENTRY_COUNT && j != KERNEL_ENTRY && m.dirs[d][j].present ::
      m.dirs[d][j].frame < FRAME_COUNT
  {
    forall j | 0 <= j < ENTRY_COUNT && j != KERNEL_ENTRY && m.dirs[d][j].present
      ensures m.dirs[d][j].frame < FRAME_COUNT
    {
      assert EntryOk(m, d, j);
    }
  }
}
