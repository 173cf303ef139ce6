/** Page frames and page directories: who maps which frame, and what allocation and release change. */
module Paging {

  const FRAME_COUNT := 32        // PAGE_FRAME_MAX_COUNT
  const DIRECTORY_COUNT := 32    // PAGING_DIRECTORY_TABLE_MAX_COUNT
  const ENTRY_COUNT := 1024
  const KERNEL_ENTRY := 0x300

  /** A page directory entry: its flags, and the frame number in its lower address bits. */
  datatype Entry = Entry(present: bool, write: bool, user: bool, large: bool, frame: nat)

  const NO_ENTRY := Entry(false, false, false, false, 0)
  const KERNEL_MAPPING := Entry(true, true, false, true, 0)
  const FREED_ENTRY := Entry(false, true, true, true, 0)

  function UserMapping(f: nat): Entry {
    Entry(true, true, true, true, f)
  }

  type Page = j: nat | j < ENTRY_COUNT

  type Directory = t: seq<Entry> | |t| == ENTRY_COUNT witness seq(1024, _ => NO_ENTRY)

  /** The one user entry that maps a frame. */
  datatype User = Nobody | Reserved | Maps(dir: nat, page: nat)

  type FrameMap = s: seq<bool> | |s| == FRAME_COUNT witness seq(32, _ => false)
  type Users = s: seq<User> | |s| == FRAME_COUNT witness seq(32, _ => Nobody)
  type Directories = s: seq<Directory> | |s| == DIRECTORY_COUNT witness seq(32, _ => seq(1024, _ => NO_ENTRY))
  type DirectoryMap = s: seq<bool> | |s| == DIRECTORY_COUNT witness seq(32, _ => false)

  /** The page manager's state; `users` says which entry maps each frame. */
  datatype Memory = Memory(frameMap: FrameMap, freeCount: int, nextFree: int, users: Users,
                           dirUsed: DirectoryMap, dirFree: int, dirs: Directories)

  function FreeFrames(m: Memory): set<nat> {
    set f | 0 <= f < FRAME_COUNT && !m.frameMap[f]
  }

  function UnusedDirs(m: Memory): set<nat> {
    set d | 0 <= d < DIRECTORY_COUNT && !m.dirUsed[d]
  }

  /** Entry j of directory d is a present user entry. */
  predicate Mapped(m: Memory, d: nat, j: nat) {
    d < DIRECTORY_COUNT && j < ENTRY_COUNT && j != KERNEL_ENTRY && m.dirs[d][j].present
  }

  predicate FrameOk(m: Memory, f: nat)
    requires f < FRAME_COUNT
  {
    match m.users[f]
    case Nobody => !m.frameMap[f] && f > 0
    case Reserved => m.frameMap[f] && f == 0
    case Maps(d, j) => f > 0 && m.frameMap[f] && Mapped(m, d, j) && m.dirUsed[d] && m.dirs[d][j].frame == f
  }

  /** A present user entry is a writable 4 MiB page of user level, for a frame that counts it as its user. */
  predicate EntryOk(m: Memory, d: nat, j: nat)
    requires d < DIRECTORY_COUNT && j < ENTRY_COUNT
  {
    var e := m.dirs[d][j];
    Mapped(m, d, j) ==> e.write && e.user && e.large && e.frame < FRAME_COUNT && m.users[e.frame] == Maps(d, j)
  }

  /** Entry 0x300 of directory d is present and writable, a 4 MiB page of kernel level, and maps frame 0. */
  predicate MapsKernel(m: Memory, d: nat)
    requires d < DIRECTORY_COUNT
  {
    var e := m.dirs[d][0x300];
    e.present && e.write && !e.user && e.large && e.frame == 0
  }

  /** Frames and entries agree, and the counters count. */
  ghost predicate Consistent(m: Memory) {
    && (forall f | 0 <= f < FRAME_COUNT :: FrameOk(m, f))
    && (forall d, j | 0 <= d < DIRECTORY_COUNT && 0 <= j < ENTRY_COUNT :: EntryOk(m, d, j))
    && m.freeCount == |FreeFrames(m)|
    && 0 <= m.dirFree <= |UnusedDirs(m)|
    && 0 <= m.nextFree < FRAME_COUNT
  }

  /** While there is a free frame, next_free_frame is the lowest one. */
  predicate Lowest(m: Memory) {
    m.freeCount > 0 ==>
      0 <= m.nextFree < FRAME_COUNT && !m.frameMap[m.nextFree] && forall f | 0 <= f < m.nextFree :: m.frameMap[f]
  }

  // ----- allocating and freeing a frame

  /** The first free frame from i on, or `otherwise`. */
  function NextFree(taken: FrameMap, i: nat, otherwise: int): (f: int)
    requires i <= |taken|
    ensures (f == otherwise && forall k | i <= k < FRAME_COUNT :: taken[k])
         || (i <= f < FRAME_COUNT && !taken[f] && forall k | i <= k < f :: taken[k])
    decreases |taken| - i
  {
    if i == |taken| then otherwise else if !taken[i] then i else NextFree(taken, i + 1, otherwise)
  }

  /** paging_allocate_user_page_frame for entry j of directory d. */
  function Allocate(m: Memory, d: nat, j: nat): Memory
    requires d < DIRECTORY_COUNT && j < ENTRY_COUNT && 0 <= m.nextFree < FRAME_COUNT
  {
    if m.freeCount == 0 then m
    else
      var f := m.nextFree;
      var taken := m.frameMap[f := true];
      m.(frameMap := taken, freeCount := m.freeCount - 1, nextFree := NextFree(taken, f + 1, f),
         users := m.users[f := Maps(d, j)], dirs := m.dirs[d := m.dirs[d][j := UserMapping(f)]])
  }

  /** paging_free_user_page_frame for entry j of directory d. */
  function Release(m: Memory, d: nat, j: nat): Memory
    requires d < DIRECTORY_COUNT && j < ENTRY_COUNT
  {
    if !m.dirs[d][j].present || m.dirs[d][j].frame >= FRAME_COUNT then m
    else
      var f := m.dirs[d][j].frame;
      m.(frameMap := m.frameMap[f := false], freeCount := m.freeCount + 1,
         nextFree := if m.nextFree > f then f else m.nextFree,
         users := m.users[f := Nobody], dirs := m.dirs[d := m.dirs[d][j := FREED_ENTRY]])
  }

  lemma CountTaken(m: Memory, w: Memory, f: nat)
    requires f < FRAME_COUNT && !m.frameMap[f] && w.frameMap == m.frameMap[f := true]
    ensures FreeFrames(w) == FreeFrames(m) - {f} && |FreeFrames(w)| == |FreeFrames(m)| - 1
  {
    assert FreeFrames(w) == FreeFrames(m) - {f};
  }

  lemma CountFreed(m: Memory, w: Memory, f: nat)
    requires f < FRAME_COUNT && m.frameMap[f] && w.frameMap == m.frameMap[f := false]
    ensures FreeFrames(w) == FreeFrames(m) + {f} && |FreeFrames(w)| == |FreeFrames(m)| + 1
  {
    assert FreeFrames(w) == FreeFrames(m) + {f};
  }

  lemma SomeFree(m: Memory)
    ensures |FreeFrames(m)| > 0 <==> exists f :: 0 <= f < FRAME_COUNT && !m.frameMap[f]
  {
    if f :| 0 <= f < FRAME_COUNT && !m.frameMap[f] {
      assert f in FreeFrames(m);
    } else {
      assert FreeFrames(m) == {};
    }
  }

  /** No entry but that of page j in directory d differs between m and w. */
  predicate OnlyEntry(m: Memory, w: Memory, d: nat, j: nat) {
    forall e, i | 0 <= e < DIRECTORY_COUNT && 0 <= i < ENTRY_COUNT && (e, i) != (d, j) :: w.dirs[e][i] == m.dirs[e][i]
  }

  /** Allocation takes the lowest free frame, maps it at that page and keeps everything in order. */
  lemma AllocateKeeps(m: Memory, d: nat, j: nat)
    requires Consistent(m) && Lowest(m) && m.freeCount > 0
    requires d < DIRECTORY_COUNT && m.dirUsed[d] && j < ENTRY_COUNT && j != KERNEL_ENTRY && !Mapped(m, d, j)
    ensures Consistent(Allocate(m, d, j)) && Lowest(Allocate(m, d, j))
    ensures Allocate(m, d, j).freeCount == m.freeCount - 1
    ensures var w := Allocate(m, d, j);
      && Mapped(w, d, j) && OnlyEntry(m, w, d, j)
      && var f := w.dirs[d][j].frame;
         && f < FRAME_COUNT && !m.frameMap[f] && (forall g | 0 <= g < f :: m.frameMap[g])
         && w.frameMap == m.frameMap[f := true]
  {
    var w, f := Allocate(m, d, j), m.nextFree;
    assert FrameOk(m, f);
    CountTaken(m, w, f);
    SomeFree(w);
    forall g | 0 <= g < FRAME_COUNT
      ensures FrameOk(w, g)
    {
      assert FrameOk(m, g);
    }
    forall e, i | 0 <= e < DIRECTORY_COUNT && 0 <= i < ENTRY_COUNT
      ensures EntryOk(w, e, i)
    {
      assert EntryOk(m, e, i);
    }
    assert UnusedDirs(w) == UnusedDirs(m);
  }

  /**
   * Releasing a user entry keeps frames and entries in order. The hint still names the lowest free
   * frame exactly when the release does not end an exhausted spell above it.
   */
  lemma ReleaseKeeps(m: Memory, d: nat, j: nat)
    requires Consistent(m) && Lowest(m) && Mapped(m, d, j)
    ensures m.dirs[d][j].frame < FRAME_COUNT && Consistent(Release(m, d, j))
    ensures Release(m, d, j).freeCount == m.freeCount + 1
    ensures var w := Release(m, d, j);
      && w.dirs[d][j] == Entry(false, true, true, true, 0) && OnlyEntry(m, w, d, j)
      && w.frameMap == m.frameMap[m.dirs[d][j].frame := false]
    ensures Lowest(Release(m, d, j)) <==> !(m.freeCount == 0 && m.dirs[d][j].frame > m.nextFree)
  {
    assert EntryOk(m, d, j);
    var w, f := Release(m, d, j), m.dirs[d][j].frame;
    assert FrameOk(m, f);
    CountFreed(m, w, f);
    SomeFree(m);
    forall g | 0 <= g < FRAME_COUNT
      ensures FrameOk(w, g)
    {
      assert FrameOk(m, g);
    }
    forall e, i | 0 <= e < DIRECTORY_COUNT && 0 <= i < ENTRY_COUNT
      ensures EntryOk(w, e, i)
    {
      assert EntryOk(m, e, i);
    }
    assert UnusedDirs(w) == UnusedDirs(m);
  }

  /**
   * After such a release the next allocation hands out a frame that another entry still maps.
   */
  lemma StaleHintSharesFrame(m: Memory, d: nat, j: nat, e: nat, i: nat)
    requires Consistent(m) && Mapped(m, d, j) && m.freeCount == 0 && m.dirs[d][j].frame > m.nextFree > 0
    requires e < DIRECTORY_COUNT && i < ENTRY_COUNT && i != KERNEL_ENTRY && !Mapped(m, e, i)
    ensures m.dirs[d][j].frame < FRAME_COUNT
    ensures var w := Allocate(Release(m, d, j), e, i);
      exists d': nat, j': nat ::
        (d', j') != (e, i) && Mapped(w, e, i) && Mapped(w, d', j') && w.dirs[d'][j'].frame == w.dirs[e][i].frame
  {
    assert EntryOk(m, d, j);
    SomeFree(m);
    assert FrameOk(m, m.nextFree) && FrameOk(m, m.dirs[d][j].frame);
    var u := m.users[m.nextFree];
    var w := Allocate(Release(m, d, j), e, i);
    assert Mapped(w, e, i) && Mapped(w, u.dir, u.page) && w.dirs[u.dir][u.page].frame == w.dirs[e][i].frame;
  }

  // ----- runs of allocations and releases

  datatype PageOp = Alloc(dir: nat, page: nat) | Free(dir: nat, page: nat)

  /** Allocation goes to an unmapped user entry of a directory in use, a release to a mapped one. */
  predicate Sound(m: Memory, op: PageOp) {
    match op
    case Alloc(d, j) => d < DIRECTORY_COUNT && m.dirUsed[d] && j < ENTRY_COUNT && j != KERNEL_ENTRY && !Mapped(m, d, j)
    case Free(d, j) => Mapped(m, d, j)
  }

  /** The release ends an exhausted spell with a frame above the hint. */
  predicate Misleads(m: Memory, op: PageOp) {
    op.Free? && m.freeCount == 0 && Mapped(m, op.dir, op.page) && m.dirs[op.dir][op.page].frame > m.nextFree
  }

  ghost function Step(m: Memory, op: PageOp): Memory
    requires Consistent(m) && Sound(m, op)
  {
    match op
    case Alloc(d, j) => Allocate(m, d, j)
    case Free(d, j) => Release(m, d, j)
  }

  /** ops lead from m to w, and no release along the way misleads. */
  ghost predicate PageRun(m: Memory, ops: seq<PageOp>, w: Memory)
    decreases |ops|
  {
    if ops == [] then w == m
    else Consistent(m) && Sound(m, ops[0]) && !Misleads(m, ops[0]) && PageRun(Step(m, ops[0]), ops[1..], w)
  }

  lemma StepKeeps(m: Memory, op: PageOp)
    requires Consistent(m) && Lowest(m) && Sound(m, op)
    ensures Consistent(Step(m, op)) && (Lowest(Step(m, op)) <==> !Misleads(m, op))
  {
    match op
    case Alloc(d, j) =>
      SomeFree(m);
      if m.freeCount > 0 {
        AllocateKeeps(m, d, j);
      }
    case Free(d, j) => ReleaseKeeps(m, d, j);
  }

  /** The free count is right and the hint is the lowest free frame, on every such run. */
  lemma {:induction false} HintOnRuns(m: Memory, ops: seq<PageOp>, w: Memory)
    requires Consistent(m) && Lowest(m) && PageRun(m, ops, w)
    ensures Consistent(w) && Lowest(w)
    decreases |ops|
  {
    if ops != [] {
      StepKeeps(m, ops[0]);
      HintOnRuns(Step(m, ops[0]), ops[1..], w);
    }
  }

  // ----- page directories

  /** The lowest unused directory from i on, or DIRECTORY_COUNT. */
  function UnusedFrom(used: DirectoryMap, i: nat := 0): (d: nat)
    requires i <= |used|
    ensures i <= d <= DIRECTORY_COUNT && (d < DIRECTORY_COUNT ==> !used[d])
    ensures forall k | i <= k < d :: used[k]
    decreases |used| - i
  {
    if i == |used| || !used[i] then i else UnusedFrom(used, i + 1)
  }

  /** paging_create_new_page_directory when it finds directory d. */
  function CreateDirectory(m: Memory, d: nat): Memory
    requires d < DIRECTORY_COUNT
  {
    m.(dirUsed := m.dirUsed[d := true], dirFree := m.dirFree - 1,
       dirs := m.dirs[d := m.dirs[d][KERNEL_ENTRY := KERNEL_MAPPING]])
  }

  /** While directories are to be had, the search finds one, and it maps the kernel and nothing else. */
  lemma CreateDirectoryKeeps(m: Memory)
    requires Consistent(m) && Lowest(m) && m.dirFree > 0
    ensures var d := UnusedFrom(m.dirUsed);
      && d < DIRECTORY_COUNT && !m.dirUsed[d]
      && (forall j | 0 <= j < ENTRY_COUNT :: !Mapped(CreateDirectory(m, d), d, j))
      && Consistent(CreateDirectory(m, d)) && Lowest(CreateDirectory(m, d))
      && MapsKernel(CreateDirectory(m, d), d) && OnlyEntry(m, CreateDirectory(m, d), d, 0x300)
      && CreateDirectory(m, d).dirUsed == m.dirUsed[d := true]
  {
    var d := UnusedFrom(m.dirUsed);
    assert d == DIRECTORY_COUNT ==> UnusedDirs(m) == {};
    var w := CreateDirectory(m, d);
    forall j | 0 <= j < ENTRY_COUNT
      ensures !Mapped(w, d, j)
    {
      UnusedMapsNothing(m, d, j);
    }
    forall f | 0 <= f < FRAME_COUNT
      ensures FrameOk(w, f)
    {
      assert FrameOk(m, f);
    }
    forall e, j | 0 <= e < DIRECTORY_COUNT && 0 <= j < ENTRY_COUNT
      ensures EntryOk(w, e, j)
    {
      assert EntryOk(m, e, j);
    }
    assert FreeFrames(w) == FreeFrames(m);
    assert UnusedDirs(w) == UnusedDirs(m) - {d};
  }

  lemma UnusedMapsNothing(m: Memory, d: nat, j: nat)
    requires Consistent(m) && d < DIRECTORY_COUNT && !m.dirUsed[d]
    ensures !Mapped(m, d, j)
  {
    if j < ENTRY_COUNT {
      assert EntryOk(m, d, j);
      assert m.dirs[d][j].frame < FRAME_COUNT ==> FrameOk(m, m.dirs[d][j].frame);
    }
  }

  // ----- whole directories

  /** The allocations for a sequence of pages, in order. */
  function AllocateAll(m: Memory, d: nat, pages: seq<Page>): (w: Memory)
    requires d < DIRECTORY_COUNT && 0 <= m.nextFree < FRAME_COUNT
    ensures 0 <= w.nextFree < FRAME_COUNT
  {
    if pages == [] then m
    else Allocate(AllocateAll(m, d, pages[..|pages| - 1]), d, pages[|pages| - 1])
  }

  /** The releases of a sequence of pages, in order. */
  function ReleaseAll(m: Memory, d: nat, pages: seq<Page>): Memory
    requires d < DIRECTORY_COUNT
  {
    if pages == [] then m
    else Release(ReleaseAll(m, d, pages[..|pages| - 1]), d, pages[|pages| - 1])
  }

  /** The release of every present user entry below i of directory d. */
  function Sweep(m: Memory, d: nat, i: nat): Memory
    requires d < DIRECTORY_COUNT && i <= ENTRY_COUNT
  {
    if i == 0 then m
    else
      var w := Sweep(m, d, i - 1);
      if i - 1 == KERNEL_ENTRY then w else Release(w, d, i - 1)
  }

  /** paging_free_page_directory for directory d. */
  function FreeDirectory(m: Memory, d: nat): Memory
    requires d < DIRECTORY_COUNT
  {
    var w := Sweep(m, d, ENTRY_COUNT);
    w.(dirUsed := w.dirUsed[d := false])
  }

  lemma {:induction false} SweepLeavesMap(m: Memory, d: nat, i: nat)
    requires d < DIRECTORY_COUNT && i <= ENTRY_COUNT
    ensures Sweep(m, d, i).dirUsed == m.dirUsed
  {
    if i > 0 {
      SweepLeavesMap(m, d, i - 1);
    }
  }

  lemma {:induction false} SweepOfNothing(m: Memory, d: nat, i: nat)
    requires d < DIRECTORY_COUNT && i <= ENTRY_COUNT && forall j | 0 <= j < ENTRY_COUNT :: !Mapped(m, d, j)
    ensures Sweep(m, d, i) == m
  {
    if i > 0 {
      SweepOfNothing(m, d, i - 1);
      assert !Mapped(m, d, i - 1);
    }
  }

  predicate DistinctPages(pages: seq<Page>) {
    && KERNEL_ENTRY !in pages
    && (forall i, j | 0 <= i < j < |pages| :: pages[i] != pages[j])
  }

  /** From m to w only user entries of directory d came or went. */
  predicate OnlyDirectory(m: Memory, w: Memory, d: nat) {
    && w.dirUsed == m.dirUsed && w.dirFree == m.dirFree
    && (d < DIRECTORY_COUNT ==> w.dirs[d][KERNEL_ENTRY] == m.dirs[d][KERNEL_ENTRY])
    && (forall e | 0 <= e < DIRECTORY_COUNT && e != d :: w.dirs[e] == m.dirs[e])
    && (forall f | 0 <= f < FRAME_COUNT ::
          w.users[f] == m.users[f]
          || ((m.users[f].Nobody? || m.users[f].Maps?) && (w.users[f].Nobody? || w.users[f].Maps?)
            && (m.users[f].Maps? ==> m.users[f].dir == d) && (w.users[f].Maps? ==> w.users[f].dir == d)))
  }

  /** Allocating for fresh pages of a directory uses exactly that many frames, and maps exactly those pages. */
  lemma {:induction false} AllocateAllEffect(m: Memory, d: nat, pages: seq<Page>)
    requires Consistent(m) && Lowest(m) && d < DIRECTORY_COUNT && m.dirUsed[d] && DistinctPages(pages)
    requires (forall j | j in pages :: !Mapped(m, d, j)) && |pages| <= m.freeCount
    ensures var w := AllocateAll(m, d, pages);
      && Consistent(w) && Lowest(w) && w.freeCount == m.freeCount - |pages| && OnlyDirectory(m, w, d)
      && (forall j | 0 <= j < ENTRY_COUNT :: Mapped(w, d, j) <==> Mapped(m, d, j) || j in pages)
  {
    if pages != [] {
      var front, j := pages[..|pages| - 1], pages[|pages| - 1];
      assert pages == front + [j];
      AllocateAllEffect(m, d, front);
      var u := AllocateAll(m, d, front);
      AllocateKeeps(u, d, j);
      assert FrameOk(u, u.nextFree);
    }
  }

  /** Releasing pages of a directory unmaps exactly those, as long as the memory is not exhausted. */
  lemma {:induction false} ReleaseAllEffect(m: Memory, d: nat, pages: seq<Page>)
    requires Consistent(m) && Lowest(m) && m.freeCount > 0 && d < DIRECTORY_COUNT
    requires KERNEL_ENTRY !in pages
    ensures var w := ReleaseAll(m, d, pages);
      && Consistent(w) && Lowest(w) && w.freeCount >= m.freeCount && OnlyDirectory(m, w, d)
      && (forall j | 0 <= j < ENTRY_COUNT :: Mapped(w, d, j) <==> Mapped(m, d, j) && j !in pages)
  {
    if pages != [] {
      var front, j := pages[..|pages| - 1], pages[|pages| - 1];
      assert pages == front + [j];
      ReleaseAllEffect(m, d, front);
      ReleaseOne(ReleaseAll(m, d, front), d, j);
    }
  }

  lemma ReleaseOne(m: Memory, d: nat, j: nat)
    requires Consistent(m) && Lowest(m) && m.freeCount > 0
    requires d < DIRECTORY_COUNT && j < ENTRY_COUNT && j != KERNEL_ENTRY
    ensures var w := Release(m, d, j);
      && Consistent(w) && Lowest(w) && w.freeCount >= m.freeCount && OnlyDirectory(m, w, d)
      && (forall i | 0 <= i < ENTRY_COUNT :: Mapped(w, d, i) <==> Mapped(m, d, i) && i != j)
  {
    if Mapped(m, d, j) {
      assert EntryOk(m, d, j);
      ReleaseKeeps(m, d, j);
    }
  }

  lemma {:induction false} SweepEffect(m: Memory, d: nat, i: nat)
    requires Consistent(m) && Lowest(m) && m.freeCount > 0 && d < DIRECTORY_COUNT && i <= ENTRY_COUNT
    ensures var w := Sweep(m, d, i);
      && Consistent(w) && Lowest(w) && w.freeCount >= m.freeCount && OnlyDirectory(m, w, d)
      && (forall j | 0 <= j < ENTRY_COUNT :: Mapped(w, d, j) <==> Mapped(m, d, j) && j >= i)
  {
    if i > 0 {
      SweepEffect(m, d, i - 1);
      if i - 1 != KERNEL_ENTRY {
        ReleaseOne(Sweep(m, d, i - 1), d, i - 1);
      }
    }
  }

  /** A directory that is given back maps nothing but the kernel any more, and no other entry changes. */
  lemma FreeDirectoryEffect(m: Memory, d: nat)
    requires Consistent(m) && Lowest(m) && m.freeCount > 0 && d < DIRECTORY_COUNT && m.dirUsed[d]
    ensures var w := FreeDirectory(m, d);
      && Consistent(w) && Lowest(w) && w.freeCount >= m.freeCount
      && w.dirUsed == m.dirUsed[d := false] && w.dirFree == m.dirFree
      && (forall e | 0 <= e < DIRECTORY_COUNT && e != d :: w.dirs[e] == m.dirs[e])
      && w.dirs[d][KERNEL_ENTRY] == m.dirs[d][KERNEL_ENTRY]
      && (forall f | 0 <= f < FRAME_COUNT ::
            w.users[f] == if m.users[f].Maps? && m.users[f].dir == d then Nobody else m.users[f])
  {
    SweepEffect(m, d, ENTRY_COUNT);
    var u, w := Sweep(m, d, ENTRY_COUNT), FreeDirectory(m, d);
    forall f | 0 <= f < FRAME_COUNT
      ensures FrameOk(w, f) && w.users[f] == if m.users[f].Maps? && m.users[f].dir == d then Nobody else m.users[f]
    {
      assert FrameOk(u, f) && FrameOk(m, f);
    }
    forall e, j | 0 <= e < DIRECTORY_COUNT && 0 <= j < ENTRY_COUNT
      ensures EntryOk(w, e, j)
    {
      assert EntryOk(u, e, j);
    }
    assert FreeFrames(w) == FreeFrames(u);
    assert UnusedDirs(w) == UnusedDirs(u) + {d};
  }
}
