/** `read`, `write` and `delete` are operations on the tree, with exact return codes. */
module Refinement {
  import opened Layout
  import opened Volumes
  import opened VolumeInvariant
  import opened Chains
  import opened Operations
  import opened Tree

  // ----- delete

  /** Seen at p: directories `gone` are no longer live and q names nothing; all else is as before. */
  ghost predicate RemovedAt(v: Volume, w: Volume, gone: iset<nat>, q: Path, p: Path) {
    && (IsDir(w, p.dir) <==> IsDir(v, p.dir) && p.dir !in gone)
    && (if p == q then !Present(w, p) else SameAt(v, w, p))
  }

  lemma TreeRemoved(v: Volume, w: Volume, gone: iset<nat>, q: Path)
    requires forall p :: RemovedAt(v, w, gone, q, p)
    ensures TreeOf(w) == Tree(TreeOf(v).dirs - gone, TreeOf(v).objs - {q})
  {
    forall d: nat
      ensures IsDir(w, d) <==> IsDir(v, d) && d !in gone
    {
      assert RemovedAt(v, w, gone, q, Path(d, NO_KEY));
    }
    var objs := TreeOf(v).objs - {q};
    forall p: Path
      ensures Present(w, p) <==> p in objs
      ensures p in objs ==> Lookup(w, p) == objs[p]
    {
      assert RemovedAt(v, w, gone, q, p);
    }
    TreeIs(w, TreeOf(v).dirs - gone, objs);
  }

  /** Clearing a slot, and freeing what it named, leaves every other name as it was. */
  lemma RemovedOthersKept(v: Volume, w: Volume, d: nat, i: nat, h: nat, p: Path)
    requires Inv(v) && Names(v, d, i, h) && OnlyRemoved(v, w, d, i, h) && d != h
    requires IsDir(v, p.dir) && p.dir != h && p != Path(d, Slot(v, d, i).key)
    ensures IsDir(w, p.dir) && SameAt(v, w, p)
  {
    assert DirOk(v, d) && SlotOk(v, d, i) && CellOk(v, h);
    if p.dir == d && p.key != NO_KEY {
      FindEntryUpdate(v.disk[d].table, i, w.disk[d].table[i], p.key);
    }
    if p.key != NO_KEY {
      if Present(v, p) {
        FileElsewhereKept(v, w, d, i, h, p);
      }
      SameLookup(v, w, p);
    }
  }

  /** What another name stands for keeps its clusters. */
  lemma FileElsewhereKept(v: Volume, w: Volume, d: nat, i: nat, h: nat, p: Path)
    requires Inv(v) && Names(v, d, i, h) && OnlyRemoved(v, w, d, i, h) && d != h
    requires Present(v, p) && p != Path(d, Slot(v, d, i).key)
    ensures forall y: nat | InFile(v, EntryAt(v, p).cluster, y) :: w.fat[y] == v.fat[y] && w.disk[y] == v.disk[y]
  {
    FoundEntry(v, p.dir, p.key);
    EntryElsewhere(v, d, i, h, p);
    assert CellOk(v, EntryAt(v, p).cluster);
    var c := EntryAt(v, p).cluster;
    forall y: nat | InFile(v, c, y)
      ensures w.fat[y] == v.fat[y] && w.disk[y] == v.disk[y]
    {
      assert !Goes(v, h, y);
    }
  }

  /** Another name leads to another cluster. */
  lemma EntryElsewhere(v: Volume, d: nat, i: nat, h: nat, p: Path)
    requires Inv(v) && Names(v, d, i, h) && Present(v, p) && p != Path(d, Slot(v, d, i).key)
    ensures EntryAt(v, p).cluster != h
    ensures forall y | InFile(v, EntryAt(v, p).cluster, y) :: !Goes(v, h, y)
  {
    FoundEntry(v, p.dir, p.key);
    assert DirOk(v, d) && SlotOk(v, d, i);
    assert CellOk(v, h);
    forall y | InFile(v, EntryAt(v, p).cluster, y)
      ensures y != h
    {
      HeadCell(v, y);
    }
  }

  lemma ClearedNameIsGone(v: Volume, w: Volume, d: nat, i: nat, h: nat)
    requires Inv(v) && Names(v, d, i, h) && OnlyRemoved(v, w, d, i, h) && d != h && IsDir(w, d)
    ensures !Present(w, Path(d, Slot(v, d, i).key))
  {
    assert DirOk(v, d) && SlotOk(v, d, i);
    forall j | 2 <= j < TABLE_SIZE
      ensures w.disk[d].table[j].key != Slot(v, d, i).key
    {
      assert SlotOk(v, d, j);
    }
  }

  lemma EntryRemovedAt(v: Volume, w: Volume, d: nat, i: nat, h: nat, p: Path)
    requires Inv(v) && Inv(w) && Names(v, d, i, h) && OnlyRemoved(v, w, d, i, h)
    requires IsDir(v, h) ==> EmptyTable(v.disk[h].table)
    ensures RemovedAt(v, w, iset{h}, Path(d, Slot(v, d, i).key), p)
  {
    assert DirOk(v, d) && SlotOk(v, d, i) && CellOk(v, h);
    assert d != h;
    if p.dir == h {
      if Present(v, p) {
        FoundEntry(v, h, p.key);
      }
    } else if IsDir(v, p.dir) {
      if p == Path(d, Slot(v, d, i).key) {
        ClearedNameIsGone(v, w, d, i, h);
      } else {
        RemovedOthersKept(v, w, d, i, h, p);
      }
    }
  }

  lemma RemovedTree(v: Volume, w: Volume, d: nat, i: nat, h: nat)
    requires Inv(v) && Inv(w) && Names(v, d, i, h) && OnlyRemoved(v, w, d, i, h)
    requires IsDir(v, h) ==> EmptyTable(v.disk[h].table)
    ensures TreeOf(w) == Tree(TreeOf(v).dirs - iset{h}, TreeOf(v).objs - {Path(d, Slot(v, d, i).key)})
  {
    var q := Path(d, Slot(v, d, i).key);
    forall p
      ensures RemovedAt(v, w, iset{h}, q, p)
    {
      EntryRemovedAt(v, w, d, i, h, p);
    }
    TreeRemoved(v, w, iset{h}, q);
  }

  // ----- the operations against the tree

  /** No name lies in directory c. */
  ghost predicate NothingIn(t: Tree, c: nat) {
    forall p | p in t.objs :: p.dir != c
  }

  lemma EmptyFolder(v: Volume, c: nat)
    requires Inv(v) && IsDir(v, c)
    ensures EmptyTable(v.disk[c].table) <==> NothingIn(TreeOf(v), c)
  {
    assert DirOk(v, c);
    forall p | Present(v, p) && p.dir == c
      ensures !EmptyTable(v.disk[c].table)
    {
      FoundEntry(v, c, p.key);
    }
    forall i | 2 <= i < TABLE_SIZE && Used(v.disk[c].table[i])
      ensures Present(v, Path(c, v.disk[c].table[i].key))
    {
      assert SlotOk(v, c, i);
      assert FindEntry(v.disk[c].table, v.disk[c].table[i].key) <= i;
    }
  }

  /** The tree that deleting q leaves. */
  ghost function Without(t: Tree, q: Path): Tree
    requires q in t.objs
  {
    Tree(if t.objs[q].Folder? then t.dirs - iset{t.objs[q].cluster} else t.dirs, t.objs - {q})
  }

  lemma DeleteRefines(v: Volume, r: Request, w: Volume, code: int)
    requires Inv(v) && TableAt?(v, r.parent) && r.key != NO_KEY && (w, code) == Delete(v, r)
    ensures var t, q := TreeOf(v), PathOf(r);
      code == if q !in t.objs then 1 else if t.objs[q].Folder? && !NothingIn(t, t.objs[q].cluster) then 2 else 0
    ensures if code == 0 then Inv(w) && Synced(w) && TreeOf(w) == Without(TreeOf(v), PathOf(r)) else w == v
  {
    hide Inv;
    var d, q := r.parent, PathOf(r);
    FoundIsPresent(v, d, r.key);
    if q in TreeOf(v).objs {
      var i := FindEntry(TableAt(v, d), r.key);
      FoundEntry(v, d, r.key);
      var h := Slot(v, d, i).cluster;
      if v.own[h].FolderIn? {
        EmptyFolder(v, h);
        if code == 0 {
          RemoveFolderEffect(v, d, i, h);
          RemovedTree(v, Remove(v, d, i, h), d, i, h);
          FlushTree(Remove(v, d, i, h));
        }
      } else {
        RemoveFileEffect(v, d, i, h);
        RemovedTree(v, RemoveFile(v, d, i, h), d, i, h);
        assert TreeOf(v).dirs - iset{h} == TreeOf(v).dirs;
        FlushTree(RemoveFile(v, d, i, h));
      }
    }
  }

  /** The clusters that go with an entry are those on its chain. */
  lemma GoesIsHeld(v: Volume, d: nat, i: nat, h: nat, x: nat)
    requires Inv(v) && Names(v, d, i, h) && 3 <= h < CLUSTER_MAP_SIZE
    ensures Goes(v, h, x) <==> Holds(v, d, i, x)
  {
    assert DirOk(v, d) && SlotOk(v, d, i) && CellOk(v, h);
    if InFile(v, h, x) {
      OnHeadsChain(v, x);
    }
    if v.own[h].FileIn? && x in Chain(v.fat, h) {
      ChainCells(v, h, x);
    }
  }

  /** A delete that returns 0 frees exactly the clusters on the chain of the entry, and zeroes them. */
  lemma DeleteFrees(v: Volume, r: Request, w: Volume, i: nat)
    requires Inv(v) && TableAt?(v, r.parent) && r.key != NO_KEY && Delete(v, r) == (w, 0)
    requires i == FindEntry(TableAt(v, r.parent), r.key)
    ensures forall x: nat | x < CLUSTER_MAP_SIZE :: w.fat[x] == 0 <==> v.fat[x] == 0 || Holds(v, r.parent, i, x)
    ensures forall x: nat | x < CLUSTER_MAP_SIZE && Holds(v, r.parent, i, x) :: Bytes(w.disk[x]) == ZeroBytes()
  {
    var d := r.parent;
    FoundEntry(v, d, r.key);
    var h := Slot(v, d, i).cluster;
    var u := if v.own[h].FolderIn? then Remove(v, d, i, h) else RemoveFile(v, d, i, h);
    if v.own[h].FolderIn? {
      RemoveFolderEffect(v, d, i, h);
    } else {
      RemoveFileEffect(v, d, i, h);
    }
    assert OnlyRemoved(v, u, d, i, h) && w == Flush(u);
    hide Inv, Bytes, RemoveFile, Remove, Chain;
    forall x: nat | x < CLUSTER_MAP_SIZE
      ensures Goes(v, h, x) <==> Holds(v, d, i, x)
      ensures Goes(v, h, x) ==> x != FAT_CLUSTER
    {
      GoesIsHeld(v, d, i, h, x);
      if Holds(v, d, i, x) {
        OwningSlot(v, d, i, x);
      }
    }
    ZeroedBlank();
  }

  /** Of the parent's table it clears one slot: name, mark, cluster and size, and leaves attribute and stamps. */
  lemma DeletedEntry(v: Volume, r: Request, w: Volume, t: Table, u: Table)
    requires Inv(v) && TableAt?(v, r.parent) && r.key != NO_KEY && Delete(v, r) == (w, 0)
    requires t == TableAt(v, r.parent) && TableAt?(w, r.parent) && u == TableAt(w, r.parent)
    ensures var i := FindEntry(t, r.key);
      && i < TABLE_SIZE && (forall j | 0 <= j < TABLE_SIZE && j != i :: u[j] == t[j])
      && u[i].key == Key([0, 0, 0, 0, 0, 0, 0, 0], [0, 0, 0]) && u[i].userAttribute == 0
      && u[i].cluster == 0 && u[i].filesize == 0
      && u[i].attribute == t[i].attribute && u[i].stamps == t[i].stamps && u[i].modified == t[i].modified
  {
    var d, i := r.parent, FindEntry(t, r.key);
    FoundEntry(v, d, r.key);
    var h := Slot(v, d, i).cluster;
    if v.own[h].FolderIn? {
      RemoveFolderEffect(v, d, i, h);
    } else {
      RemoveFileEffect(v, d, i, h);
    }
  }

  lemma ZeroedBlank()
    ensures Bytes(Blank) == ZeroBytes()
  {
  }

  lemma FlushTree(v: Volume)
    requires Inv(v)
    ensures Inv(Flush(v)) && Synced(Flush(v)) && TreeOf(Flush(v)) == TreeOf(v)
  {
    var w := Flush(v);
    FlushKeeps(v);
    forall p: Path
      ensures IsDir(w, p.dir) == IsDir(v, p.dir) && SameAt(v, w, p)
    {
      SameLookup(v, w, p);
    }
    forall d: nat
      ensures IsDir(w, d) == IsDir(v, d)
    {
      assert IsDir(w, Path(d, NO_KEY).dir) == IsDir(v, Path(d, NO_KEY).dir);
    }
    TreeIs(w, TreeOf(v).dirs, TreeOf(v).objs);
  }

  lemma ReadRefines(v: Volume, r: Request)
    requires Inv(v) && TableAt?(v, r.parent) && r.key != NO_KEY
    ensures var t, q := TreeOf(v), PathOf(r);
      Read(v, r).0 ==
        if q !in t.objs then 3
        else if t.objs[q].Folder? then 1
        else if r.size < t.objs[q].size then 2
        else 0
    ensures Read(v, r).0 == 0 ==>
      var o := TreeOf(v).objs[PathOf(r)]; o == File(o.size, Prefix(Read(v, r).1, o.size))
    ensures Read(v, r).0 == 0 ==>
      var c := EntryAt(v, PathOf(r)).cluster; c < CLUSTER_MAP_SIZE && Read(v, r).1 == Content(v, c)
    ensures Read(v, r).0 != 0 ==> Read(v, r).1 == []
  {
    FoundIsPresent(v, r.parent, r.key);
    if PathOf(r) in TreeOf(v).objs {
      FoundEntry(v, r.parent, r.key);
    }
  }

  /** A folder that is read lists exactly the names that lie in it. */
  lemma ReadDirectoryRefines(v: Volume, r: Request)
    requires Inv(v) && TableAt?(v, r.parent) && r.key != NO_KEY
    ensures var t, q := TreeOf(v), PathOf(r);
      ReadDirectory(v, r).0 == if q !in t.objs then 2 else if t.objs[q].File? then 1 else 0
    ensures ReadDirectory(v, r).0 == 0 ==>
      forall k | k != NO_KEY ::
        FindEntry(ReadDirectory(v, r).1, k) < TABLE_SIZE
        <==> Path(TreeOf(v).objs[PathOf(r)].cluster, k) in TreeOf(v).objs
  {
    FoundIsPresent(v, r.parent, r.key);
    if PathOf(r) in TreeOf(v).objs {
      FoundEntry(v, r.parent, r.key);
    }
  }

  /** Attribute, size and cluster of an entry are those of o, a file's bytes being what the cluster leads to. */
  ghost predicate Tells(v: Volume, e: Entry, o: Obj) {
    match o
    case Folder(c) => e.attribute == 16 && e.cluster == c && e.filesize == 0
    case File(size, bytes) =>
      && e.attribute != 16 && e.filesize == size && 3 <= e.cluster < CLUSTER_MAP_SIZE
      && bytes == Prefix(Content(v, e.cluster), size)
  }

  /** Slot j of a folder that is read: in use exactly with a name, which it is found by, and which it describes. */
  ghost predicate Lists(v: Volume, c: nat, t: Table, j: nat)
    requires j < TABLE_SIZE
  {
    var p := Path(c, t[j].key);
    && (Used(t[j]) <==> t[j].key != NO_KEY)
    && (Used(t[j]) ==> FindEntry(t, t[j].key) == j && p in TreeOf(v).objs && Tells(v, t[j], TreeOf(v).objs[p]))
  }

  lemma SlotLists(v: Volume, c: nat, j: nat)
    requires Inv(v) && IsDir(v, c) && 2 <= j < TABLE_SIZE
    ensures Lists(v, c, v.disk[c].table, j)
  {
    var t := v.disk[c].table;
    assert DirOk(v, c) && SlotOk(v, c, j);
    if Used(t[j]) {
      forall i | 2 <= i < j
        ensures t[i].key != t[j].key
      {
        assert SlotOk(v, c, i);
      }
      FindEntryFirst(t, t[j].key, j);
    }
  }

  /**
   * If the name stands for a folder its table is returned: the first entry carries the folder's own
   * name and the second the parent's cluster, and each other one describes what lies there.
   */
  lemma ReadDirectoryTells(v: Volume, r: Request, c: nat, t: Table)
    requires Inv(v) && TableAt?(v, r.parent) && r.key != NO_KEY && t == ReadDirectory(v, r).1
    requires PathOf(r) in TreeOf(v).objs && TreeOf(v).objs[PathOf(r)] == Folder(c)
    ensures ReadDirectory(v, r).0 == 0 && IsDir(v, c) && t == v.disk[c].table
    ensures t[0].key.name == r.key.name && t[0].attribute == 16 && t[1].cluster == r.parent
    ensures forall j | 2 <= j < TABLE_SIZE :: Lists(v, c, t, j)
    ensures forall k | Path(c, k) in TreeOf(v).objs ::
      FindEntry(t, k) < TABLE_SIZE && Tells(v, t[FindEntry(t, k)], TreeOf(v).objs[Path(c, k)])
  {
    FoundIsPresent(v, r.parent, r.key);
    FoundEntry(v, r.parent, r.key);
    assert IsDir(v, c) && Slot(v, c, 0).key.name == r.key.name && Parent(v, c) == r.parent;
    assert DirOk(v, c);
    hide Inv, ReadDirectory, SlotOk, Tells;
    forall j | 2 <= j < TABLE_SIZE
      ensures Lists(v, c, t, j)
    {
      SlotLists(v, c, j);
    }
    forall k | Path(c, k) in TreeOf(v).objs
      ensures FindEntry(t, k) < TABLE_SIZE && Tells(v, t[FindEntry(t, k)], TreeOf(v).objs[Path(c, k)])
    {
      var j := FindEntry(t, k);
      assert Present(v, Path(c, k)) && Lists(v, c, t, j);
    }
  }

  /** The names used in slots 2..n of a table. */
  function NamesUsed(t: Table, n: nat): set<Key>
    requires n <= TABLE_SIZE
  {
    set i | 2 <= i < n && Used(t[i]) :: t[i].key
  }

  lemma NextName(t: Table, n: nat)
    requires 2 <= n < TABLE_SIZE && DistinctKeys(t)
    ensures NamesUsed(t, n + 1) == NamesUsed(t, n) + if Used(t[n]) then {t[n].key} else {}
    ensures Used(t[n]) ==> t[n].key !in NamesUsed(t, n)
  {
  }

  predicate AllUsed(t: Table, n: nat)
    requires n <= TABLE_SIZE
  {
    forall i | 2 <= i < n :: Used(t[i])
  }

  lemma AllUsedNext(t: Table, n: nat)
    requires 2 <= n < TABLE_SIZE
    ensures AllUsed(t, n + 1) <==> AllUsed(t, n) && Used(t[n])
    ensures AllUsed(t, 2) && NamesUsed(t, 2) == {}
  {
  }

  lemma {:induction false} CountNames(t: Table, n: nat)
    requires 2 <= n <= TABLE_SIZE && DistinctKeys(t)
    ensures |NamesUsed(t, n)| <= n - 2 && (|NamesUsed(t, n)| == n - 2 <==> AllUsed(t, n))
    decreases n
  {
    hide NamesUsed, DistinctKeys, AllUsed;
    if n == 2 {
      AllUsedNext(t, 2);
    } else {
      CountNames(t, n - 1);
      NextName(t, n - 1);
      AllUsedNext(t, n - 1);
    }
  }

  /** The names that lie in a directory are 62 at most, and there is a slot exactly for fewer. */
  lemma SlotsTold(v: Volume, d: nat, names: set<Key>)
    requires Inv(v) && d in TreeOf(v).dirs && names == NamesUsed(TableAt(v, d), TABLE_SIZE)
    ensures forall k :: k in names <==> Path(d, k) in TreeOf(v).objs
    ensures |names| <= 62 && (HasSlot(v, d) <==> |names| < 62)
  {
    var t := v.disk[d].table;
    assert DirOk(v, d) && TableAt(v, d) == t;
    CountNames(t, TABLE_SIZE);
    forall k
      ensures k in names <==> Present(v, Path(d, k))
    {
      if Present(v, Path(d, k)) {
        FoundEntry(v, d, k);
      }
      forall i | 2 <= i < TABLE_SIZE && Used(t[i]) && t[i].key == k
        ensures Present(v, Path(d, k))
      {
        assert SlotOk(v, d, i) && FindEntry(t, k) <= i;
      }
    }
  }

  /** The return code of `write` told from the tree, the slots and the free space. */
  ghost function WriteCode(v: Volume, r: Request): int
    requires TableAt?(v, r.parent)
  {
    if r.parent !in TreeOf(v).dirs then 2
    else if PathOf(r) in TreeOf(v).objs then 1
    else if HasSlot(v, r.parent) && |Free(v.fat)| >= ClustersNeeded(r) then 0
    else -1
  }

  /** The tree that a write leaves when it returns 0 or runs out of space midway. */
  ghost function With(v: Volume, r: Request): Tree
    requires BufferOk(r)
  {
    var t := TreeOf(v);
    if r.size == 0 then
      Tree(t.dirs + iset{FindEmptySpace(v.fat)}, t.objs[PathOf(r) := Folder(FindEmptySpace(v.fat))])
    else
      Tree(t.dirs, t.objs[PathOf(r) := File(r.size,
        if BlocksNeeded(r.size) <= |Free(v.fat)| then r.buf[..r.size] else r.buf[..Offset(|Free(v.fat)|)])])
  }

  /** The request gets a slot and a first cluster, but the file does not fit. */
  predicate OutOfSpace(v: Volume, r: Request)
    requires TableAt?(v, r.parent)
  {
    HasSlot(v, r.parent) && 0 < |Free(v.fat)| < ClustersNeeded(r)
  }

  /**
   * `write` returns 0 exactly when the parent is live, the name unused, a slot free and the space
   * sufficient. It changes the tree when it gets as far as filling the slot, and else nothing at all.
   */
  lemma WriteRefines(v: Volume, r: Request, w: Volume, code: int)
    requires Inv(v) && Admissible(v, r) && !Misfiles(v, r) && (w, code) == Write(v, r)
    ensures code == WriteCode(v, r) && Inv(w)
    ensures code == 0 ==> Synced(w) && TreeOf(w) == With(v, r) && |Free(w.fat)| == |Free(v.fat)| - ClustersNeeded(r)
    ensures code == -1 && OutOfSpace(v, r) ==>
      TreeOf(w) == With(v, r) && |Free(w.fat)| == 0 && w.disk[FAT_CLUSTER] == v.disk[FAT_CLUSTER]
    ensures code != 0 && !(code == -1 && OutOfSpace(v, r)) ==> w == v
  {
    WriteRejected(v, r);
    if r.parent in TreeOf(v).dirs && PathOf(r) !in TreeOf(v).objs && HasSlot(v, r.parent) && |Free(v.fat)| > 0 {
      if r.size == 0 {
        WriteFolder(v, r, w, FindEmptySpace(v.fat));
      } else {
        WriteFile(v, r, w, code);
      }
    }
  }

  /**
   * First fit: the entry goes to the first slot that is not in use and names the lowest free cluster;
   * the rest of the table, and the stamps in the slot, are as before.
   */
  lemma WrittenEntry(v: Volume, r: Request, w: Volume, t: Table, u: Table)
    requires Inv(v) && Admissible(v, r) && !Misfiles(v, r) && Write(v, r) == (w, 0)
    requires t == TableAt(v, r.parent) && TableAt?(w, r.parent) && u == TableAt(w, r.parent)
    ensures var i, c := FindEmptySlot(t), FindEmptySpace(v.fat);
      && i < TABLE_SIZE && c < CLUSTER_MAP_SIZE && (forall j | 0 <= j < TABLE_SIZE && j != i :: u[j] == t[j])
      && u[i].key == r.key && u[i].userAttribute == 170 && u[i].cluster == c && u[i].filesize == r.size
      && u[i].attribute == (if r.size == 0 then 16 else t[i].attribute)
      && u[i].stamps == t[i].stamps && u[i].modified == t[i].modified
  {
    WriteRefines(v, r, w, 0);
    LiveParent(v, r.parent);
    WriteCanAdd(v, r);
    FreeCells(v);
    NoSpace(v.fat);
    if r.size > 0 {
      WriteFileEffect(v, r, w, 0);
      var v', c := FirstBlock(v, r), FindEmptySpace(v.fat);
      assert r.parent >= 3 ==> GrewAt(v', w, c, c, r.parent);
      assert w.disk[r.parent] == v'.disk[r.parent];
    }
  }

  /** A new folder's table: its own name and "..", both marked as used directories, and nothing behind them. */
  lemma NewFolderTable(v: Volume, r: Request, w: Volume, c: nat, t: Table)
    requires Inv(v) && Admissible(v, r) && r.size == 0 && Write(v, r) == (w, 0) && c == FindEmptySpace(v.fat)
    requires c < DISK_CLUSTERS && w.disk[c] == Directory(t)
    ensures t[0].key == Key(r.key.name, [0, 0, 0]) && t[0].attribute == 16 && t[0].userAttribute == 170
    ensures t[1].key == Key([46, 46, 0, 0, 0, 0, 0, 0], [0, 0, 0]) && t[1].attribute == 16 && t[1].userAttribute == 170
    ensures t[0].cluster == 0 && t[1].cluster == r.parent && forall j | 2 <= j < TABLE_SIZE :: t[j] == ZERO_ENTRY
  {
    FreeCells(v);
    NoSpace(v.fat);
  }

  /** A cell that a write takes lies below any that stays free. */
  lemma WriteLowest(v: Volume, r: Request, x: nat, y: nat)
    requires Inv(v) && TableAt?(v, r.parent) && BufferOk(r) && x < CLUSTER_MAP_SIZE && y < CLUSTER_MAP_SIZE
    requires v.fat[x] == 0 && Write(v, r).0.fat[x] != 0 && Write(v, r).0.fat[y] == 0
    ensures x < y && v.fat[y] == 0
  {
    var i, c := FindEmptySlot(TableAt(v, r.parent)), FindEmptySpace(v.fat);
    if r.size > 0 {
      var v' := AddFile(v, r.parent, i, r.key, r.size, c, Block(r.buf, 0));
      if x != c {
        GrowLowest(v', c, r.buf, 1, BlocksNeeded(r.size), x, y);
      } else if v'.fat[y] != 0 {
        GrowKeepsUsed(v', c, r.buf, 1, BlocksNeeded(r.size), y);
      }
    }
  }
}
