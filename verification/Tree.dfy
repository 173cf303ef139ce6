/** The file system as its users see it: a tree of names that leads to folders and to files' bytes. */
module Tree {
  import opened Layout
  import opened Volumes
  import opened VolumeInvariant
  import opened Chains
  import opened Operations

  datatype Path = Path(dir: nat, key: Key)

  datatype Obj = Folder(cluster: nat) | File(size: nat, bytes: seq<byte>)

  /** The live directories, and what each name in each of them stands for. */
  datatype Tree = Tree(dirs: iset<nat>, objs: imap<Path, Obj>)

  function Prefix(s: seq<byte>, n: nat): seq<byte> {
    if n <= |s| then s[..n] else s
  }

  function ObjOf(v: Volume, e: Entry): Obj {
    if e.attribute == ATTR_SUBDIRECTORY then Folder(e.cluster)
    else if e.cluster < CLUSTER_MAP_SIZE then File(e.filesize, Prefix(Content(v, e.cluster), e.filesize))
    else File(e.filesize, [])
  }

  predicate Present(v: Volume, p: Path) {
    IsDir(v, p.dir) && p.key != NO_KEY && FindEntry(v.disk[p.dir].table, p.key) < TABLE_SIZE
  }

  function EntryAt(v: Volume, p: Path): Entry
    requires Present(v, p)
  {
    v.disk[p.dir].table[FindEntry(v.disk[p.dir].table, p.key)]
  }

  function Lookup(v: Volume, p: Path): Obj
    requires Present(v, p)
  {
    ObjOf(v, EntryAt(v, p))
  }

  /** How many bytes the clusters of a file hold. */
  function Backing(v: Volume, p: Path): nat
    requires Present(v, p)
  {
    var e := EntryAt(v, p);
    if e.attribute == ATTR_SUBDIRECTORY || e.cluster >= CLUSTER_MAP_SIZE then 0 else |Content(v, e.cluster)|
  }

  ghost function TreeOf(v: Volume): Tree {
    Tree(iset d: nat | IsDir(v, d), imap p: Path | Present(v, p) :: Lookup(v, p))
  }

  /** From v to w the name p keeps its meaning, and its clusters their number. */
  predicate SameAt(v: Volume, w: Volume, p: Path) {
    && Present(w, p) == Present(v, p)
    && (Present(v, p) ==> Lookup(w, p) == Lookup(v, p) && Backing(w, p) == Backing(v, p))
  }

  /** Seen at p: directories `more` appeared and q now stands for o; all else is as before. */
  ghost predicate AddedAt(v: Volume, w: Volume, more: iset<nat>, q: Path, o: Obj, p: Path) {
    && (IsDir(w, p.dir) <==> IsDir(v, p.dir) || p.dir in more)
    && (if p == q then Present(w, p) && Lookup(w, p) == o else SameAt(v, w, p))
  }

  lemma TreeIs(v: Volume, dirs: iset<nat>, objs: imap<Path, Obj>)
    requires forall d: nat :: IsDir(v, d) <==> d in dirs
    requires forall p :: Present(v, p) <==> p in objs
    requires forall p | p in objs :: Lookup(v, p) == objs[p]
    ensures TreeOf(v) == Tree(dirs, objs)
  {
    assert TreeOf(v).dirs == dirs;
    assert TreeOf(v).objs == objs;
  }

  lemma TreeAdded(v: Volume, w: Volume, more: iset<nat>, q: Path, o: Obj)
    requires forall p :: AddedAt(v, w, more, q, o, p)
    ensures TreeOf(w) == Tree(TreeOf(v).dirs + more, TreeOf(v).objs[q := o])
  {
    forall d: nat
      ensures IsDir(w, d) <==> IsDir(v, d) || d in more
    {
      assert AddedAt(v, w, more, q, o, Path(d, NO_KEY));
    }
    var objs := TreeOf(v).objs[q := o];
    forall p: Path
      ensures Present(w, p) <==> p in objs
      ensures p in objs ==> Lookup(w, p) == objs[p]
    {
      assert AddedAt(v, w, more, q, o, p);
    }
    TreeIs(w, TreeOf(v).dirs + more, objs);
  }

  function PathOf(r: Request): Path {
    Path(r.parent, r.key)
  }

  // ----- lookups

  /** Exactly the live directories carry the subdirectory attribute in their own entry. */
  lemma LiveParent(v: Volume, d: nat)
    requires Inv(v) && TableAt?(v, d)
    ensures TableAt(v, d)[0].attribute == ATTR_SUBDIRECTORY <==> IsDir(v, d)
  {
    if v.disk[d].Directory? {
      DirectoryIsDir(v, d);
    }
  }

  lemma FoundIsPresent(v: Volume, d: nat, k: Key)
    requires Inv(v) && TableAt?(v, d) && k != NO_KEY
    ensures FindEntry(TableAt(v, d), k) < TABLE_SIZE <==> Present(v, Path(d, k))
  {
    if FindEntry(TableAt(v, d), k) < TABLE_SIZE {
      FoundEntry(v, d, k);
    }
  }

  /** What a name stands for depends on its slot and, for a file, on the file's own clusters. */
  lemma SameLookup(v: Volume, w: Volume, p: Path)
    requires Inv(v) && IsDir(w, p.dir) == IsDir(v, p.dir)
    requires IsDir(v, p.dir) ==>
      var t, u := v.disk[p.dir].table, w.disk[p.dir].table;
      var i := FindEntry(t, p.key);
      FindEntry(u, p.key) == i && (i < TABLE_SIZE ==> u[i] == t[i])
    requires Present(v, p) ==>
      forall y: nat | InFile(v, EntryAt(v, p).cluster, y) :: w.fat[y] == v.fat[y] && w.disk[y] == v.disk[y]
    ensures SameAt(v, w, p)
  {
    if Present(v, p) {
      FoundEntry(v, p.dir, p.key);
      var h := EntryAt(v, p).cluster;
      if v.own[h].FileIn? {
        forall y: nat | IsFileCell(v, y) && Head(v, y) == Head(v, h)
          ensures w.fat[y] == v.fat[y] && w.disk[y] == v.disk[y]
        {
          assert InFile(v, h, y);
        }
        ContentFrame(v, w, h);
      }
    }
  }

  // ----- write

  /** What a write request may name: a live directory or zeroed space, and a proper name. */
  predicate Admissible(v: Volume, r: Request) {
    TableAt?(v, r.parent) && r.key != NO_KEY && BufferOk(r)
  }

  /** The slot a file would go to still carries the attribute of a deleted folder. */
  predicate StaleSlot(v: Volume, r: Request)
    requires TableAt?(v, r.parent)
  {
    var i := FindEmptySlot(TableAt(v, r.parent));
    i < TABLE_SIZE && TableAt(v, r.parent)[i].attribute == ATTR_SUBDIRECTORY
  }

  predicate HasSlot(v: Volume, d: nat)
    requires TableAt?(v, d)
  {
    exists i | 2 <= i < TABLE_SIZE :: !Used(TableAt(v, d)[i])
  }

  function ClustersNeeded(r: Request): nat {
    if r.size == 0 then 1 else BlocksNeeded(r.size)
  }

  /** The parent is live, the name new, and there are a slot and a first cluster. */
  ghost predicate CanFill(v: Volume, r: Request) {
    && Admissible(v, r) && r.parent in TreeOf(v).dirs && PathOf(r) !in TreeOf(v).objs
    && HasSlot(v, r.parent) && |Free(v.fat)| > 0
  }

  /** The request puts a file into a slot that still carries the attribute of a deleted folder. */
  ghost predicate Misfiles(v: Volume, r: Request) {
    r.size > 0 && CanFill(v, r) && StaleSlot(v, r)
  }

  /** When `write` reaches the point of filling a slot. */
  lemma WriteCanAdd(v: Volume, r: Request)
    requires Inv(v) && Admissible(v, r) && PathOf(r) !in TreeOf(v).objs && r.parent in TreeOf(v).dirs
    requires HasSlot(v, r.parent) && |Free(v.fat)| > 0
    ensures CanAdd(v, r.parent, FindEmptySlot(TableAt(v, r.parent)), r.key, FindEmptySpace(v.fat))
  {
    FreeCells(v);
    NoSpace(v.fat);
    FoundIsPresent(v, r.parent, r.key);
  }

  /** A write that finds no parent, an existing name, no slot or no space changes nothing. */
  lemma WriteRejected(v: Volume, r: Request)
    requires Inv(v) && Admissible(v, r)
    ensures r.parent !in TreeOf(v).dirs ==> Write(v, r) == (v, 2)
    ensures r.parent in TreeOf(v).dirs && PathOf(r) in TreeOf(v).objs ==> Write(v, r) == (v, 1)
    ensures r.parent in TreeOf(v).dirs && PathOf(r) !in TreeOf(v).objs && (!HasSlot(v, r.parent) || Free(v.fat) == {})
      ==> Write(v, r) == (v, -1)
  {
    LiveParent(v, r.parent);
    FoundIsPresent(v, r.parent, r.key);
    NoSpace(v.fat);
  }

  /** Filling slot i of d, and taking clusters that were free, leaves every other name as it was. */
  lemma OthersKept(v: Volume, w: Volume, d: nat, i: nat, k: Key, c: nat, p: Path)
    requires Inv(v) && CanAdd(v, d, i, k, c)
    requires IsDir(w, d) && w.disk[d].table == v.disk[d].table[i := w.disk[d].table[i]] && w.disk[d].table[i].key == k
    requires forall x | 3 <= x < CLUSTER_MAP_SIZE && !v.own[x].Unused? ::
      w.own[x] == v.own[x] && w.fat[x] == v.fat[x] && (x != d ==> w.disk[x] == v.disk[x])
    requires w.disk[2] == v.disk[2] || d == 2
    requires w.own[2] == v.own[2] && w.own[0] == v.own[0] && w.own[1] == v.own[1]
    requires IsDir(v, p.dir) && p != Path(d, k)
    ensures IsDir(w, p.dir) && SameAt(v, w, p)
  {
    assert CellOk(v, c);
    assert DirOk(v, d) && SlotOk(v, d, i);
    if p.dir == d && p.key != NO_KEY {
      FindEntryUpdate(v.disk[d].table, i, w.disk[d].table[i], p.key);
    }
    forall y: nat | Present(v, p) && InFile(v, EntryAt(v, p).cluster, y)
      ensures w.fat[y] == v.fat[y] && w.disk[y] == v.disk[y]
    {
    }
    if p.key != NO_KEY {
      SameLookup(v, w, p);
    }
  }

  lemma NewFolderIsEmpty(v: Volume, d: nat, i: nat, k: Key, c: nat, p: Path)
    requires Inv(v) && CanAdd(v, d, i, k, c) && p.dir == c
    ensures !Present(Flush(AddFolder(v, d, i, k, c)), p)
  {
  }

  lemma NewFolderIsThere(v: Volume, d: nat, i: nat, k: Key, c: nat)
    requires Inv(v) && CanAdd(v, d, i, k, c) && i == FindEmptySlot(v.disk[d].table)
    ensures var w := Flush(AddFolder(v, d, i, k, c));
      Present(w, Path(d, k)) && Lookup(w, Path(d, k)) == Folder(c)
  {
    var w := Flush(AddFolder(v, d, i, k, c));
    assert CellOk(v, c);
    assert w.disk[d].table == v.disk[d].table[i := Filled(Slot(v, d, i), k, c, 0)];
    FindEntryFirst(w.disk[d].table, k, i);
  }

  lemma FolderAddedAt(v: Volume, d: nat, i: nat, k: Key, c: nat, p: Path)
    requires Inv(v) && CanAdd(v, d, i, k, c) && i == FindEmptySlot(v.disk[d].table)
    ensures AddedAt(v, Flush(AddFolder(v, d, i, k, c)), iset{c}, Path(d, k), Folder(c), p)
  {
    assert CellOk(v, c);
    if p.dir == c {
      NewFolderIsEmpty(v, d, i, k, c, p);
    } else if p == Path(d, k) {
      NewFolderIsThere(v, d, i, k, c);
    } else if IsDir(v, p.dir) {
      OthersKept(v, Flush(AddFolder(v, d, i, k, c)), d, i, k, c, p);
    }
  }

  lemma FolderTree(v: Volume, d: nat, i: nat, k: Key, c: nat)
    requires Inv(v) && CanAdd(v, d, i, k, c) && i == FindEmptySlot(v.disk[d].table)
    ensures TreeOf(Flush(AddFolder(v, d, i, k, c)))
         == Tree(TreeOf(v).dirs + iset{c}, TreeOf(v).objs[Path(d, k) := Folder(c)])
  {
    var w := Flush(AddFolder(v, d, i, k, c));
    forall p
      ensures AddedAt(v, w, iset{c}, Path(d, k), Folder(c), p)
    {
      FolderAddedAt(v, d, i, k, c, p);
    }
    TreeAdded(v, w, iset{c}, Path(d, k), Folder(c));
  }

  /** Creating a folder adds one empty directory, in the lowest free cluster, under its name. */
  lemma WriteFolder(v: Volume, r: Request, w: Volume, c: nat)
    requires Inv(v) && Admissible(v, r) && r.size == 0 && w == Write(v, r).0 && c == FindEmptySpace(v.fat)
    requires r.parent in TreeOf(v).dirs && PathOf(r) !in TreeOf(v).objs && HasSlot(v, r.parent) && |Free(v.fat)| > 0
    ensures Write(v, r).1 == 0 && Inv(w) && Synced(w)
    ensures c in Free(v.fat) && Free(w.fat) == Free(v.fat) - {c}
    ensures TreeOf(w) == Tree(TreeOf(v).dirs + iset{c}, TreeOf(v).objs[PathOf(r) := Folder(c)])
  {
    var d, k, i := r.parent, r.key, FindEmptySlot(TableAt(v, r.parent));
    WriteCanAdd(v, r);
    LiveParent(v, d);
    var v' := AddFolder(v, d, i, k, c);
    assert Write(v, r) == (Flush(v'), 0);
    AddFolderKeeps(v, d, i, k, c);
    FlushKeeps(v');
    FreeCells(v);
    TakeFree(v.fat, w.fat, c);
    FolderTree(v, d, i, k, c);
  }

  // ----- write, for a file

  /** The volume once the first block of a new file is in place. */
  function FirstBlock(v: Volume, r: Request): Volume
    requires TableAt?(v, r.parent) && BufferOk(r) && r.size > 0
    requires FindEmptySlot(TableAt(v, r.parent)) < TABLE_SIZE && FindEmptySpace(v.fat) < CLUSTER_MAP_SIZE
  {
    AddFile(v, r.parent, FindEmptySlot(TableAt(v, r.parent)), r.key, r.size, FindEmptySpace(v.fat), Block(r.buf, 0))
  }

  predicate CanWriteFile(v: Volume, r: Request) {
    && Admissible(v, r) && r.size > 0 && !StaleSlot(v, r)
    && CanAdd(v, r.parent, FindEmptySlot(TableAt(v, r.parent)), r.key, FindEmptySpace(v.fat))
  }

  lemma FirstBlockEffect(v: Volume, r: Request)
    requires Inv(v) && CanWriteFile(v, r)
    ensures var v', c := FirstBlock(v, r), FindEmptySpace(v.fat);
      && Inv(v') && Writing(v', c, c) && Free(v'.fat) == Free(v.fat) - {c} && |Free(v'.fat)| == |Free(v.fat)| - 1
      && Content(v', c) == Block(r.buf, 0)
      && Write(v, r) == Grow(v', c, r.buf, 1, BlocksNeeded(r.size))
  {
    var c := FindEmptySpace(v.fat);
    LiveParent(v, r.parent);
    AddFileKeeps(v, r.parent, FindEmptySlot(TableAt(v, r.parent)), r.key, r.size, c, Block(r.buf, 0));
    FreeCells(v);
    TakeFree(v.fat, FirstBlock(v, r).fat, c);
    assert Content(FirstBlock(v, r), c) == Block(r.buf, 0) + [];
  }

  /** The new file as it is found afterwards. */
  lemma NewFileIsThere(v: Volume, r: Request, w: Volume)
    requires Inv(v) && CanWriteFile(v, r)
    requires OnlyGrew(FirstBlock(v, r), w, FindEmptySpace(v.fat), FindEmptySpace(v.fat))
    ensures Present(w, PathOf(r))
    ensures Lookup(w, PathOf(r)) == File(r.size, Prefix(Content(w, FindEmptySpace(v.fat)), r.size))
    ensures Backing(w, PathOf(r)) == |Content(w, FindEmptySpace(v.fat))|
  {
    var d, i, c := r.parent, FindEmptySlot(TableAt(v, r.parent)), FindEmptySpace(v.fat);
    var v' := FirstBlock(v, r);
    assert CellOk(v, c);
    assert d >= 3 ==> GrewAt(v', w, c, c, d);
    assert v'.disk[d].table == v.disk[d].table[i := Filled(Slot(v, d, i), r.key, c, r.size)];
    assert w.disk[d] == v'.disk[d];
    FindEntryFirst(w.disk[d].table, r.key, i);
  }

  /** No directory appears or disappears, and every other name keeps its meaning. */
  lemma FileOthersKept(v: Volume, r: Request, w: Volume, p: Path)
    requires Inv(v) && CanWriteFile(v, r) && Inv(w)
    requires OnlyGrew(FirstBlock(v, r), w, FindEmptySpace(v.fat), FindEmptySpace(v.fat))
    ensures IsDir(w, p.dir) == IsDir(v, p.dir)
    ensures p != PathOf(r) ==> SameAt(v, w, p)
  {
    var d, i, c := r.parent, FindEmptySlot(TableAt(v, r.parent)), FindEmptySpace(v.fat);
    var v' := FirstBlock(v, r);
    assert CellOk(v, c);
    forall x | 3 <= x < CLUSTER_MAP_SIZE && !v.own[x].Unused?
      ensures w.own[x] == v.own[x] && w.fat[x] == v.fat[x] && (x != d ==> w.disk[x] == v.disk[x])
      ensures w.disk[x] == v'.disk[x]
    {
      assert GrewAt(v', w, c, c, x);
    }
    if 3 <= p.dir < CLUSTER_MAP_SIZE && v.own[p.dir].Unused? {
      assert CellOk(v, p.dir);
      assert GrewAt(v', w, c, c, p.dir) && GrewAt(v', w, c, c, c);
    } else if IsDir(v, p.dir) && p != PathOf(r) {
      OthersKept(v, w, d, i, r.key, c, p);
    }
  }

  lemma FileAddedAt(v: Volume, r: Request, w: Volume, p: Path)
    requires Inv(v) && CanWriteFile(v, r) && Inv(w)
    requires OnlyGrew(FirstBlock(v, r), w, FindEmptySpace(v.fat), FindEmptySpace(v.fat))
    ensures AddedAt(v, w, iset{}, PathOf(r), File(r.size, Prefix(Content(w, FindEmptySpace(v.fat)), r.size)), p)
  {
    FileOthersKept(v, r, w, p);
    if p == PathOf(r) {
      NewFileIsThere(v, r, w);
    }
  }

  lemma WriteFileEffect(v: Volume, r: Request, w: Volume, code: int)
    requires Inv(v) && CanWriteFile(v, r) && (w, code) == Write(v, r)
    ensures var n, m := BlocksNeeded(r.size), Min(BlocksNeeded(r.size), |Free(v.fat)|);
      && Inv(w) && code == (if n <= |Free(v.fat)| then 0 else -1) && |Free(w.fat)| == |Free(v.fat)| - m
      && (if code == 0 then Synced(w) else w.disk[FAT_CLUSTER] == v.disk[FAT_CLUSTER])
      && OnlyGrew(FirstBlock(v, r), w, FindEmptySpace(v.fat), FindEmptySpace(v.fat))
  {
    FirstBlockEffect(v, r);
    var c := FindEmptySpace(v.fat);
    GrowEffect(FirstBlock(v, r), c, c, r.buf, 1, BlocksNeeded(r.size), w, code);
  }

  lemma WriteFileBytes(v: Volume, r: Request, w: Volume, m: nat)
    requires Inv(v) && CanWriteFile(v, r) && w == Write(v, r).0
    requires m == Min(BlocksNeeded(r.size), |Free(v.fat)|)
    ensures Content(w, FindEmptySpace(v.fat)) == r.buf[..Offset(m)]
  {
    FirstBlockEffect(v, r);
    var c := FindEmptySpace(v.fat);
    GrowContent(FirstBlock(v, r), c, c, r.buf, 1, BlocksNeeded(r.size), w, m);
    assert m >= 1 by {
      assert c in Free(v.fat);
    }
    BlocksAreSlice(r.buf, 0, m);
  }

  /**
   * Writing a file adds exactly that file. With space for all its blocks the code is 0 and the file
   * holds the request's bytes; otherwise the code is -1 and the file holds the blocks that fitted.
   */
  lemma WriteFile(v: Volume, r: Request, w: Volume, code: int)
    requires Inv(v) && Admissible(v, r) && r.size > 0 && !StaleSlot(v, r) && (w, code) == Write(v, r)
    requires r.parent in TreeOf(v).dirs && PathOf(r) !in TreeOf(v).objs && HasSlot(v, r.parent) && |Free(v.fat)| > 0
    ensures Inv(w) && code == if BlocksNeeded(r.size) <= |Free(v.fat)| then 0 else -1
    ensures |Free(w.fat)| == if code == 0 then |Free(v.fat)| - BlocksNeeded(r.size) else 0
    ensures if code == 0 then Synced(w) else w.disk[FAT_CLUSTER] == v.disk[FAT_CLUSTER]
    ensures TreeOf(w) == Tree(TreeOf(v).dirs, TreeOf(v).objs
      [PathOf(r) := File(r.size, if code == 0 then r.buf[..r.size] else r.buf[..Offset(|Free(v.fat)|)])])
  {
    var m := Min(BlocksNeeded(r.size), |Free(v.fat)|);
    WriteCanAdd(v, r);
    WriteFileEffect(v, r, w, code);
    WriteFileBytes(v, r, w, m);
    var bytes := if code == 0 then r.buf[..r.size] else r.buf[..Offset(m)];
    PrefixOfBlocks(r, m);
    var o := File(r.size, bytes);
    forall p
      ensures AddedAt(v, w, iset{}, PathOf(r), o, p)
    {
      FileAddedAt(v, r, w, p);
    }
    TreeAdded(v, w, iset{}, PathOf(r), o);
    assert TreeOf(v).dirs + iset{} == TreeOf(v).dirs;
  }

  lemma PrefixOfBlocks(r: Request, m: nat)
    requires BufferOk(r) && m <= BlocksNeeded(r.size)
    ensures Prefix(r.buf[..Offset(m)], r.size)
         == if m == BlocksNeeded(r.size) then r.buf[..r.size] else r.buf[..Offset(m)]
  {
    if m == BlocksNeeded(r.size) {
      assert r.buf[..Offset(m)][..r.size] == r.buf[..r.size];
    }
  }
}