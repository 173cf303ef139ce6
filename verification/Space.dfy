/** Free space told from the tree: what its folders and files take, and the return code of `write`. */
module Space {
  import opened Layout
  import opened Volumes
  import opened VolumeInvariant
  import opened Chains
  import opened Operations
  import opened Tree
  import opened Refinement
  import opened Runs
  import opened Directories

  // ----- no file has more clusters than its size needs

  predicate TightAt(v: Volume, p: Path) {
    Present(v, p) && Lookup(v, p).File? ==> Backing(v, p) < Lookup(v, p).size + 2048
  }

  ghost predicate Tight(v: Volume) {
    forall p :: TightAt(v, p)
  }

  lemma FlushTight(v: Volume)
    requires Inv(v) && Tight(v)
    ensures Tight(Flush(v))
  {
    forall p
      ensures TightAt(Flush(v), p)
    {
      SameLookup(v, Flush(v), p);
      assert TightAt(v, p);
    }
  }

  lemma FolderTight(v: Volume, d: nat, i: nat, k: Key, c: nat)
    requires Inv(v) && Tight(v) && CanAdd(v, d, i, k, c) && i == FindEmptySlot(v.disk[d].table)
    ensures Tight(Flush(AddFolder(v, d, i, k, c)))
  {
    var w := Flush(AddFolder(v, d, i, k, c));
    hide Inv, CanAdd, Backing;
    forall p
      ensures TightAt(w, p)
    {
      FolderAddedAt(v, d, i, k, c, p);
      assert TightAt(v, p);
    }
  }

  lemma FileTight(v: Volume, r: Request, w: Volume, code: int)
    requires Inv(v) && Tight(v) && CanWriteFile(v, r) && (w, code) == Write(v, r)
    ensures Tight(w)
  {
    var m := Min(BlocksNeeded(r.size), |Free(v.fat)|);
    WriteFileEffect(v, r, w, code);
    WriteFileBytes(v, r, w, m);
    hide Inv, Backing, Content, Write, FirstBlock, CanWriteFile;
    forall p
      ensures TightAt(w, p)
    {
      FileAddedAt(v, r, w, p);
      assert TightAt(v, p);
      if p == PathOf(r) {
        NewFileIsThere(v, r, w);
      }
    }
  }

  lemma RemovalTight(v: Volume, u: Volume, d: nat, i: nat, h: nat)
    requires Inv(v) && Tight(v) && Inv(u) && Names(v, d, i, h) && OnlyRemoved(v, u, d, i, h)
    requires IsDir(v, h) ==> EmptyTable(v.disk[h].table)
    ensures Tight(Flush(u))
  {
    hide Inv, Backing, OnlyRemoved;
    forall p
      ensures TightAt(u, p)
    {
      EntryRemovedAt(v, u, d, i, h, p);
      assert TightAt(v, p);
    }
    FlushTight(u);
  }

  lemma WriteTight(v: Volume, r: Request, w: Volume, code: int)
    requires Inv(v) && Tight(v) && Admissible(v, r) && !Misfiles(v, r) && (w, code) == Write(v, r)
    ensures Tight(w)
  {
    WriteRejected(v, r);
    if CanFill(v, r) {
      WriteCanAdd(v, r);
      if r.size == 0 {
        LiveParent(v, r.parent);
        FoundIsPresent(v, r.parent, r.key);
        FolderTight(v, r.parent, FindEmptySlot(TableAt(v, r.parent)), r.key, FindEmptySpace(v.fat));
      } else {
        FileTight(v, r, w, code);
      }
    }
  }

  lemma DeleteTight(v: Volume, r: Request, w: Volume, code: int)
    requires Inv(v) && Tight(v) && TableAt?(v, r.parent) && r.key != NO_KEY && (w, code) == Delete(v, r)
    ensures Tight(w)
  {
    var d, i := r.parent, FindEntry(TableAt(v, r.parent), r.key);
    if i < TABLE_SIZE {
      FoundEntry(v, d, r.key);
      var h := Slot(v, d, i).cluster;
      if code == 0 {
        if v.own[h].FolderIn? {
          RemoveFolderEffect(v, d, i, h);
          RemovalTight(v, Remove(v, d, i, h), d, i, h);
        } else {
          RemoveFileEffect(v, d, i, h);
          RemovalTight(v, RemoveFile(v, d, i, h), d, i, h);
        }
      }
    }
  }

  /** On every run from a new file system no file has more clusters than its size needs. */
  lemma {:induction false} RunTight(v: Volume, ops: seq<Op>, w: Volume)
    requires Inv(v) && Tight(v) && Run(v, ops, w)
    ensures Tight(w)
    decreases |ops|
  {
    if ops != [] {
      var (u, code) := Apply(v, ops[0]);
      ApplyKeeps(v, ops[0]);
      match ops[0] {
        case WriteOp(r) => WriteTight(v, r, u, code);
        case DeleteOp(r) => DeleteTight(v, r, u, code);
      }
      RunTight(u, ops[1..], w);
    }
  }

  lemma CreatedTight()
    ensures Inv(Created()) && Tight(Created())
  {
    CreatedIsWellFormed();
    forall p
      ensures TightAt(Created(), p)
    {
      assert p in TreeOf(Created()).objs <==> Present(Created(), p);
    }
  }

  // ----- what the tree takes

  /** The clusters for a file's bytes. */
  function ClustersOf(o: Obj): nat {
    if o.File? then (|o.bytes| + 2047) / 2048 else 1
  }

  /** The clusters for the files in a set of names. */
  ghost function Taken(objs: imap<Path, Obj>, files: set<Path>): nat
    requires forall p | p in files :: p in objs
  {
    if files == {} then 0
    else
      var p :| p in files;
      ClustersOf(objs[p]) + Taken(objs, files - {p})
  }

  /** dirs and files are the directories and the names of files of a tree. */
  ghost predicate Describes(t: Tree, dirs: set<nat>, files: set<Path>) {
    && (forall d: nat :: d in dirs <==> d in t.dirs)
    && (forall p :: p in files <==> p in t.objs && t.objs[p].File?)
  }

  /** Every well-formed volume's tree is finite. */
  lemma Described(v: Volume) returns (dirs: set<nat>, files: set<Path>)
    requires Inv(v)
    ensures Describes(TreeOf(v), dirs, files)
  {
    dirs := LiveDirs(v);
    files := set d, i | d in LiveDirs(v) && 2 <= i < TABLE_SIZE && IsFileEntry(v, d, i) :: Path(d, Slot(v, d, i).key);
    forall p
      ensures p in files <==> p in TreeOf(v).objs && TreeOf(v).objs[p].File?
    {
      InTree(v, p);
      if Present(v, p) {
        FoundEntry(v, p.dir, p.key);
        assert p.dir in dirs && Slot(v, p.dir, FindEntry(v.disk[p.dir].table, p.key)) == EntryAt(v, p);
      }
      forall d, i | d in LiveDirs(v) && 2 <= i < TABLE_SIZE && IsFileEntry(v, d, i) && p == Path(d, Slot(v, d, i).key)
        ensures Present(v, p) && EntryAt(v, p) == Slot(v, d, i)
      {
        assert Holds(v, d, i, Slot(v, d, i).cluster);
        NamedSlot(v, d, i, Slot(v, d, i).cluster);
      }
    }
  }

  predicate IsFileEntry(v: Volume, d: nat, i: nat) {
    IsDir(v, d) && i < TABLE_SIZE && Used(Slot(v, d, i)) && Slot(v, d, i).attribute != ATTR_SUBDIRECTORY
  }

  // ----- one file's clusters

  /** The clusters on the chain from c on, as a set. */
  function CellsFrom(v: Volume, c: nat): set<nat> {
    set x | x in Chain(v.fat, c)
  }

  lemma {:induction false} CellsCount(v: Volume, c: nat)
    requires Inv(v) && IsFileCell(v, c)
    ensures 2048 * |CellsFrom(v, c)| == |Content(v, c)| && |CellsFrom(v, c)| > 0
    decreases CLUSTER_MAP_SIZE - c
  {
    NextCell(v, c);
    if Continues(v.fat, c) {
      var n: nat := v.fat[c];
      CellsCount(v, n);
      forall x | x in Chain(v.fat, n)
        ensures x > c
      {
        ChainCells(v, n, x);
      }
      assert CellsFrom(v, c) == {c} + CellsFrom(v, n);
    } else {
      assert CellsFrom(v, c) == {c};
    }
  }

  /** The clusters of what a name stands for. */
  ghost function CellsOf(v: Volume, p: Path): set<nat> {
    if Present(v, p) then CellsFrom(v, EntryAt(v, p).cluster) else {}
  }

  /** A file that is no longer than its size needs has as many clusters as its bytes need. */
  lemma FileCount(v: Volume, p: Path)
    requires Inv(v) && TightAt(v, p) && Present(v, p) && Lookup(v, p).File?
    ensures |CellsOf(v, p)| == ClustersOf(Lookup(v, p))
  {
    FoundEntry(v, p.dir, p.key);
    CellsCount(v, EntryAt(v, p).cluster);
  }

  /** A used entry is the one that its own name leads to, and its clusters are those on its chain. */
  lemma NamedSlot(v: Volume, d: nat, i: nat, x: nat)
    requires Inv(v) && Holds(v, d, i, x)
    ensures var p := Path(d, Slot(v, d, i).key);
      Present(v, p) && EntryAt(v, p) == Slot(v, d, i) && x in CellsOf(v, p)
  {
    assert DirOk(v, d) && SlotOk(v, d, i);
    forall j | 2 <= j < i
      ensures v.disk[d].table[j].key != v.disk[d].table[i].key
    {
      assert SlotOk(v, d, j);
    }
    FindEntryFirst(v.disk[d].table, v.disk[d].table[i].key, i);
  }

  lemma CellsApart(v: Volume, p: Path, q: Path, x: nat)
    requires Inv(v) && x in CellsOf(v, p) && x in CellsOf(v, q)
    ensures p == q
  {
    FoundEntry(v, p.dir, p.key);
    FoundEntry(v, q.dir, q.key);
    var i, j := FindEntry(v.disk[p.dir].table, p.key), FindEntry(v.disk[q.dir].table, q.key);
    assert Holds(v, p.dir, i, x) && Holds(v, q.dir, j, x);
    ChainsPartition(v);
  }

  // ----- all files' clusters

  ghost function AllCells(v: Volume, files: set<Path>): set<nat> {
    set x, p | p in files && x in CellsOf(v, p) :: x
  }

  lemma OneFileMore(v: Volume, files: set<Path>, p: Path)
    requires Inv(v) && p in files
    ensures AllCells(v, files) == CellsOf(v, p) + AllCells(v, files - {p})
    ensures CellsOf(v, p) !! AllCells(v, files - {p})
  {
    forall x | x in CellsOf(v, p)
      ensures x !in AllCells(v, files - {p})
    {
      forall q | q in files && x in CellsOf(v, q)
        ensures q == p
      {
        CellsApart(v, p, q, x);
      }
    }
  }

  lemma {:induction false} AllCellsCount(v: Volume, objs: imap<Path, Obj>, files: set<Path>)
    requires Inv(v) && forall p | p in files :: p in objs && |CellsOf(v, p)| == ClustersOf(objs[p])
    ensures |AllCells(v, files)| == Taken(objs, files)
    decreases files
  {
    if files == {} {
      assert AllCells(v, files) == {};
    } else {
      hide Inv, AllCells, CellsOf, ClustersOf;
      var p :| p in files && Taken(objs, files) == ClustersOf(objs[p]) + Taken(objs, files - {p});
      AllCellsCount(v, objs, files - {p});
      OneFileMore(v, files, p);
    }
  }

  // ----- all clusters

  /** A cell from 3 on is free, or a live directory's, or a file's; never two of these. */
  lemma CellIs(v: Volume, files: set<Path>, x: nat)
    requires Inv(v) && 3 <= x < CLUSTER_MAP_SIZE
    requires forall p :: p in files <==> Present(v, p) && Lookup(v, p).File?
    ensures v.fat[x] != 0 <==> IsDir(v, x) || x in AllCells(v, files)
    ensures !(IsDir(v, x) && x in AllCells(v, files))
  {
    assert CellOk(v, x);
    if v.fat[x] != 0 {
      InUseIsHeld(v, x);
      var d, i :| Holds(v, d, i, x);
      NamedSlot(v, d, i, x);
      assert DirOk(v, d) && SlotOk(v, d, i) && CellOk(v, Slot(v, d, i).cluster);
      var p := Path(d, Slot(v, d, i).key);
      assert !IsDir(v, x) ==> p in files;
    }
    forall p | p in files && x in CellsOf(v, p)
      ensures v.fat[x] != 0 && !IsDir(v, x)
    {
      FoundEntry(v, p.dir, p.key);
      ChainCells(v, EntryAt(v, p).cluster, x);
    }
  }

  lemma {:induction false} Below(n: nat, s: set<nat>)
    requires forall x: nat :: x in s <==> x < n
    ensures |s| == n
  {
    if n > 0 {
      Below(n - 1, s - {n - 1});
    } else {
      assert s == {};
    }
  }

  /**
   * The free clusters are 509 less one for each live directory below the root, and less what each
   * file's bytes need.
   */
  lemma FreeTold(v: Volume, dirs: set<nat>, files: set<Path>)
    requires Inv(v) && Tight(v) && Describes(TreeOf(v), dirs, files)
    ensures forall p | p in files :: p in TreeOf(v).objs
    ensures |Free(v.fat)| == 509 - (|dirs| - 1) - Taken(TreeOf(v).objs, files)
  {
    forall p
      ensures p in files <==> Present(v, p) && Lookup(v, p).File?
    {
      InTree(v, p);
    }
    forall p | p in files
      ensures |CellsOf(v, p)| == ClustersOf(Lookup(v, p))
    {
      assert TightAt(v, p);
      FileCount(v, p);
    }
    AllCellsCount(v, TreeOf(v).objs, files);
    CountAll(v, dirs, files, AllCells(v, files));
  }

  lemma CountAll(v: Volume, dirs: set<nat>, files: set<Path>, cells: set<nat>)
    requires Inv(v) && (forall d: nat :: d in dirs <==> IsDir(v, d)) && cells == AllCells(v, files)
    requires forall p :: p in files <==> Present(v, p) && Lookup(v, p).File?
    ensures |Free(v.fat)| == 509 - (|dirs| - 1) - |cells|
  {
    FreeCells(v);
    forall x | x in cells
      ensures 3 <= x < CLUSTER_MAP_SIZE
    {
      CellInRange(v, files, x);
    }
    forall x: nat | 3 <= x < CLUSTER_MAP_SIZE
      ensures x !in Free(v.fat) <==> x in dirs || x in cells
      ensures !(x in dirs && x in cells)
    {
      CellIs(v, files, x);
    }
    assert IsDir(v, ROOT_CLUSTER) && !IsDir(v, 0) && !IsDir(v, 1);
    AddUp(Free(v.fat), dirs, cells);
  }

  lemma CellInRange(v: Volume, files: set<Path>, x: nat)
    requires Inv(v) && x in AllCells(v, files)
    requires forall p | p in files :: Present(v, p) && Lookup(v, p).File?
    ensures 3 <= x < CLUSTER_MAP_SIZE
  {
    var p :| p in files && x in CellsOf(v, p);
    FoundEntry(v, p.dir, p.key);
    ChainCells(v, EntryAt(v, p).cluster, x);
  }

  lemma AddUp(free: set<nat>, dirs: set<nat>, cells: set<nat>)
    requires ROOT_CLUSTER in dirs && forall x | x in dirs :: 2 <= x < CLUSTER_MAP_SIZE
    requires forall x | x in free || x in cells :: 3 <= x < CLUSTER_MAP_SIZE
    requires forall x: nat | 3 <= x < CLUSTER_MAP_SIZE :: x !in free <==> x in dirs || x in cells
    requires dirs !! cells
    ensures |free| == 509 - (|dirs| - 1) - |cells|
  {
    var all := free + dirs + cells + {0, 1};
    Below(CLUSTER_MAP_SIZE, all);
    assert |free + dirs| == |free| + |dirs|;
    assert |free + dirs + cells| == |free + dirs| + |cells|;
    assert |all| == |free + dirs + cells| + |{0, 1}|;
  }

  // ----- the code of write, from the tree

  /** What `write` returns for a request, told from the tree alone. */
  ghost function CodeOf(t: Tree, r: Request, dirs: set<nat>, files: set<Path>, names: set<Key>): int
    requires Describes(t, dirs, files)
  {
    if r.parent !in t.dirs then 2
    else if PathOf(r) in t.objs then 1
    else if |names| < 62 && 509 - (|dirs| - 1) - Taken(t.objs, files) >= ClustersNeeded(r) then 0
    else -1
  }

  /**
   * The return code of `write` is a function of the tree: parent and name, the number of names in
   * the parent, and what the tree's folders and files take.
   */
  lemma WriteCodeTold(v: Volume, r: Request, dirs: set<nat>, files: set<Path>, names: set<Key>)
    requires Inv(v) && Tight(v) && Admissible(v, r) && !Misfiles(v, r)
    requires Describes(TreeOf(v), dirs, files)
    requires forall k :: k in names <==> Path(r.parent, k) in TreeOf(v).objs
    ensures Write(v, r).1 == CodeOf(TreeOf(v), r, dirs, files, names)
  {
    hide Inv, Tight, Taken, Free, Write, HasSlot;
    WriteRefines(v, r, Write(v, r).0, Write(v, r).1);
    FreeTold(v, dirs, files);
    if r.parent in TreeOf(v).dirs {
      var used := NamesUsed(TableAt(v, r.parent), TABLE_SIZE);
      SlotsTold(v, r.parent, used);
      assert used == names;
    }
  }
}
