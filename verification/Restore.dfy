/** Deleting what was written, and what becomes of a file that takes a deleted folder's slot. */
module Restore {
  import opened Layout
  import opened Volumes
  import opened VolumeInvariant
  import opened Chains
  import opened Operations
  import opened Tree
  import opened Refinement
  import opened Runs

  // ----- write, then delete

  /** A cluster in use before the write is as it was once the new file is gone. */
  lemma UsedCellRestored(v: Volume, r: Request, w: Volume, u: Volume, x: nat)
    requires Inv(v) && CanWriteFile(v, r) && Inv(w) && IsDir(w, r.parent)
    requires OnlyGrew(FirstBlock(v, r), w, FindEmptySpace(v.fat), FindEmptySpace(v.fat))
    requires OnlyRemoved(w, u, r.parent, FindEmptySlot(v.disk[r.parent].table), FindEmptySpace(v.fat))
    requires 3 <= x < CLUSTER_MAP_SIZE && !v.own[x].Unused?
    ensures u.fat[x] == v.fat[x] && u.own[x] == v.own[x] && (x != r.parent ==> u.disk[x] == v.disk[x])
  {
    var c, v' := FindEmptySpace(v.fat), FirstBlock(v, r);
    assert CellOk(v, c);
    forall y: nat | 3 <= y < CLUSTER_MAP_SIZE && !v.own[y].Unused?
      ensures w.own[y] == v.own[y]
    {
      assert GrewAt(v', w, c, c, y);
    }
    assert GrewAt(v', w, c, c, x);
    HeadFrame(v, w, x);
    if IsFileCell(v, x) {
      HeadCell(v, x);
    }
    assert !Goes(w, c, x);
  }

  /** A cluster that was free before the write is free and zeroed again. */
  lemma FreeCellRestored(v: Volume, r: Request, w: Volume, u: Volume, x: nat)
    requires Inv(v) && CanWriteFile(v, r) && Inv(w) && IsDir(w, r.parent)
    requires OnlyGrew(FirstBlock(v, r), w, FindEmptySpace(v.fat), FindEmptySpace(v.fat))
    requires OnlyRemoved(w, u, r.parent, FindEmptySlot(v.disk[r.parent].table), FindEmptySpace(v.fat))
    requires 3 <= x < CLUSTER_MAP_SIZE && v.own[x].Unused?
    ensures u.fat[x] == v.fat[x] && u.own[x] == v.own[x] && u.disk[x] == v.disk[x]
  {
    var c, v' := FindEmptySpace(v.fat), FirstBlock(v, r);
    assert CellOk(v, c) && CellOk(v, x) && CellOk(w, x) && CellOk(w, c);
    assert GrewAt(v', w, c, c, x) && GrewAt(v', w, c, c, c);
    if !w.own[x].Unused? {
      assert Goes(w, c, x);
    } else if Goes(w, c, x) {
      assert x == c;
    }
  }

  /** The slot is the one that was filled, and clearing it gives back its old entry. */
  lemma SlotRestored(v: Volume, r: Request, w: Volume, u: Volume)
    requires Inv(v) && CanWriteFile(v, r) && Inv(w) && IsDir(w, r.parent)
    requires OnlyGrew(FirstBlock(v, r), w, FindEmptySpace(v.fat), FindEmptySpace(v.fat))
    requires OnlyRemoved(w, u, r.parent, FindEmptySlot(v.disk[r.parent].table), FindEmptySpace(v.fat))
    ensures u.disk[r.parent] == v.disk[r.parent]
  {
    var d, i, c := r.parent, FindEmptySlot(v.disk[r.parent].table), FindEmptySpace(v.fat);
    assert CellOk(v, c);
    assert DirOk(v, d) && SlotOk(v, d, i);
    assert d >= 3 ==> GrewAt(FirstBlock(v, r), w, c, c, d);
    assert w.disk[d].table == v.disk[d].table[i := Filled(Slot(v, d, i), r.key, c, r.size)];
    assert w.disk[d].table[i := Cleared(Slot(w, d, i))] == v.disk[d].table;
  }

  lemma NewFileFound(v: Volume, r: Request, w: Volume)
    requires Inv(v) && CanWriteFile(v, r) && Inv(w)
    requires OnlyGrew(FirstBlock(v, r), w, FindEmptySpace(v.fat), FindEmptySpace(v.fat))
    ensures IsDir(w, r.parent) && FindEntry(w.disk[r.parent].table, r.key) == FindEmptySlot(v.disk[r.parent].table)
    ensures Delete(w, r)
         == (Flush(RemoveFile(w, r.parent, FindEmptySlot(v.disk[r.parent].table), FindEmptySpace(v.fat))), 0)
    ensures w.own[FindEmptySpace(v.fat)] == FileIn(r.parent, FindEmptySlot(v.disk[r.parent].table))
  {
    var d, i, c := r.parent, FindEmptySlot(v.disk[r.parent].table), FindEmptySpace(v.fat);
    assert CellOk(v, c);
    assert GrewAt(FirstBlock(v, r), w, c, c, c);
    assert d >= 3 ==> GrewAt(FirstBlock(v, r), w, c, c, d);
    assert w.disk[d].table == v.disk[d].table[i := Filled(Slot(v, d, i), r.key, c, r.size)];
    FindEntryFirst(w.disk[d].table, r.key, i);
  }

  lemma FileRestored(v: Volume, r: Request, w: Volume)
    requires Inv(v) && Synced(v) && CanWriteFile(v, r) && Write(v, r) == (w, 0)
    ensures Inv(w) && TableAt?(w, r.parent) && Delete(w, r) == (v, 0)
  {
    var d, i, c := r.parent, FindEmptySlot(v.disk[r.parent].table), FindEmptySpace(v.fat);
    WriteFileEffect(v, r, w, 0);
    NewFileFound(v, r, w);
    RemoveFileEffect(w, d, i, c);
    SlotRestored(v, r, w, RemoveFile(w, d, i, c));
    AllRestored(v, r, w, RemoveFile(w, d, i, c));
  }

  lemma AllRestored(v: Volume, r: Request, w: Volume, u: Volume)
    requires Inv(v) && Synced(v) && CanWriteFile(v, r) && Inv(w) && Inv(u) && IsDir(w, r.parent)
    requires OnlyGrew(FirstBlock(v, r), w, FindEmptySpace(v.fat), FindEmptySpace(v.fat))
    requires OnlyRemoved(w, u, r.parent, FindEmptySlot(v.disk[r.parent].table), FindEmptySpace(v.fat))
    requires u.disk[r.parent] == v.disk[r.parent]
    ensures Flush(u) == v
  {
    forall x: nat | 3 <= x < CLUSTER_MAP_SIZE
      ensures u.fat[x] == v.fat[x] && u.own[x] == v.own[x] && u.disk[x] == v.disk[x]
    {
      if v.own[x].Unused? {
        FreeCellRestored(v, r, w, u, x);
      } else {
        UsedCellRestored(v, r, w, u, x);
      }
    }
    assert u.fat == v.fat && u.own == v.own;
    assert Flush(u).disk == v.disk;
  }

  /** The volume v, except that slot i of directory d carries the subdirectory attribute. */
  function Marked(v: Volume, d: nat, i: nat): Volume
    requires IsDir(v, d) && i < TABLE_SIZE
  {
    v.(disk := v.disk[d := Directory(v.disk[d].table[i := Slot(v, d, i).(attribute := ATTR_SUBDIRECTORY)])])
  }

  lemma FolderRemovedAgain(v: Volume, d: nat, i: nat, k: Key, c: nat, w: Volume)
    requires Inv(v) && Synced(v) && CanAdd(v, d, i, k, c) && w == Flush(AddFolder(v, d, i, k, c))
    ensures IsDir(w, d) && Flush(Remove(w, d, i, c)) == Marked(v, d, i)
  {
    assert CellOk(v, c) && DirOk(v, d) && SlotOk(v, d, i);
    var u := Remove(w, d, i, c);
    assert u.fat == v.fat && u.own == v.own;
    var back := Slot(v, d, i).(attribute := ATTR_SUBDIRECTORY);
    assert Cleared(Slot(w, d, i)) == back;
    assert w.disk[d].table[i := back] == v.disk[d].table[i := back];
    assert Flush(u).disk == Marked(v, d, i).disk;
  }

  lemma NewFolderFound(v: Volume, r: Request, i: nat, c: nat, w: Volume)
    requires Inv(v) && CanAdd(v, r.parent, i, r.key, c) && i == FindEmptySlot(v.disk[r.parent].table)
    requires w == Flush(AddFolder(v, r.parent, i, r.key, c)) && Inv(w)
    ensures TableAt?(w, r.parent) && Delete(w, r) == (Flush(Remove(w, r.parent, i, c)), 0)
  {
    assert CellOk(v, c);
    FindEntryFirst(w.disk[r.parent].table, r.key, i);
  }

  lemma FolderUndone(v: Volume, r: Request, w: Volume)
    requires Inv(v) && Synced(v) && Admissible(v, r) && r.size == 0 && Write(v, r) == (w, 0)
    ensures Inv(w) && TableAt?(w, r.parent) && IsDir(v, r.parent) && FindEmptySlot(v.disk[r.parent].table) < TABLE_SIZE
    ensures Delete(w, r) == (Marked(v, r.parent, FindEmptySlot(v.disk[r.parent].table)), 0)
  {
    WriteRefines(v, r, w, 0);
    WriteCanAdd(v, r);
    var i, c := FindEmptySlot(v.disk[r.parent].table), FindEmptySpace(v.fat);
    NewFolderFound(v, r, i, c, w);
    FolderRemovedAgain(v, r.parent, i, r.key, c, w);
  }

  /** Every byte on disk is the same. */
  predicate SameImage(v: Volume, w: Volume) {
    forall x | 0 <= x < DISK_CLUSTERS :: Bytes(v.disk[x]) == Bytes(w.disk[x])
  }

  lemma MarkedImage(v: Volume, d: nat, i: nat)
    requires IsDir(v, d) && i < TABLE_SIZE
    ensures SameImage(Marked(v, d, i), v) <==> Slot(v, d, i).attribute == ATTR_SUBDIRECTORY
  {
    var u := Marked(v, d, i);
    TableRoundTrip(v.disk[d].table);
    TableRoundTrip(u.disk[d].table);
    if Slot(v, d, i).attribute == ATTR_SUBDIRECTORY {
      assert u.disk[d].table == v.disk[d].table;
      assert u.disk == v.disk;
    } else {
      assert u.disk[d].table[i] != v.disk[d].table[i];
      assert Bytes(u.disk[d]) != Bytes(v.disk[d]);
    }
  }

  /**
   * Deleting what was just written always succeeds. It restores the cached table, and it restores
   * the disk byte for byte exactly when a file was written, or the folder took a slot that had
   * served for a folder before.
   */
  lemma WriteThenDelete(v: Volume, r: Request, w: Volume)
    requires Inv(v) && Synced(v) && Admissible(v, r) && !Misfiles(v, r) && Write(v, r) == (w, 0)
    ensures Inv(w) && TableAt?(w, r.parent) && Delete(w, r).1 == 0 && Delete(w, r).0.fat == v.fat
    ensures SameImage(Delete(w, r).0, v) <==> r.size > 0 || StaleSlot(v, r)
  {
    if r.size > 0 {
      WriteRefines(v, r, w, 0);
      WriteCanAdd(v, r);
      FileRestored(v, r, w);
    } else {
      FolderUndone(v, r, w);
      MarkedImage(v, r.parent, FindEmptySlot(v.disk[r.parent].table));
    }
  }

  // ----- a file in a former folder's slot

  /** The loop of `write` leaves alone every cluster that was in use, the allocation table apart. */
  lemma {:induction false} GrowLeaves(v: Volume, last: nat, buf: seq<byte>, i: nat, n: nat, x: nat)
    requires last < CLUSTER_MAP_SIZE && Offset(n) <= |buf| && x < CLUSTER_MAP_SIZE && x != FAT_CLUSTER
    requires v.fat[x] != 0 && v.fat[0] != 0
    ensures Grow(v, last, buf, i, n).0.disk[x] == v.disk[x]
    decreases n - i
  {
    var c := FindEmptySpace(v.fat);
    if i < n && c < CLUSTER_MAP_SIZE {
      GrowLeaves(Extend(v, last, c, Block(buf, i)), c, buf, i + 1, n, x);
    }
  }

  /** Whatever the slot carried, a file write that gets that far leaves its entry filled in there. */
  lemma EntryAfterWrite(v: Volume, r: Request, w: Volume)
    requires Inv(v) && CanFill(v, r) && r.size > 0 && w == Write(v, r).0
    ensures var d, i := r.parent, FindEmptySlot(TableAt(v, r.parent));
      && IsDir(v, d) && w.disk[d].Directory? && i < TABLE_SIZE
      && w.disk[d].table == v.disk[d].table[i := Filled(Slot(v, d, i), r.key, FindEmptySpace(v.fat), r.size)]
      && FindEntry(w.disk[d].table, r.key) == i
  {
    var d, i, c := r.parent, FindEmptySlot(TableAt(v, r.parent)), FindEmptySpace(v.fat);
    WriteCanAdd(v, r);
    assert d >= 3 ==> CellOk(v, d);
    assert c >= 3 ==> CellOk(v, c);
    GrowLeaves(FirstBlock(v, r), c, r.buf, 1, BlocksNeeded(r.size), d);
    FindEntryFirst(w.disk[d].table, r.key, i);
  }

  lemma FolderEntrySize(v: Volume, d: nat, i: nat)
    requires d < CLUSTER_MAP_SIZE && v.disk[d].Directory? && 2 <= i < TABLE_SIZE
    requires Used(v.disk[d].table[i]) && v.disk[d].table[i].attribute == ATTR_SUBDIRECTORY
    ensures Inv(v) ==> v.disk[d].table[i].filesize == 0
  {
    if Inv(v) {
      DirectoryIsDir(v, d);
      assert SlotOk(v, d, i);
    }
  }

  /**
   * A write leaves a well-formed volume exactly when it does not put a file into a deleted folder's
   * slot. If it does, no record of owners would make the volume well-formed.
   */
  lemma WellFormedUnlessStale(v: Volume, r: Request, w: Volume)
    requires Inv(v) && Admissible(v, r) && w == Write(v, r).0
    ensures Inv(w) <==> !Misfiles(v, r)
    ensures Misfiles(v, r) ==> forall own :: !Inv(w.(own := own))
  {
    if Misfiles(v, r) {
      EntryAfterWrite(v, r, w);
      forall own
        ensures !Inv(w.(own := own))
      {
        FolderEntrySize(w.(own := own), r.parent, FindEmptySlot(TableAt(v, r.parent)));
      }
      assert w == w.(own := w.own);
    } else {
      WriteRefines(v, r, w, Write(v, r).1);
    }
  }

  /**
   * After a file write that returned 0, reading the file back with enough room returns 0 exactly
   * when its slot did not carry the attribute of a deleted folder; if it did, `read` takes it for one.
   */
  lemma ReadableUnlessStale(v: Volume, r: Request, w: Volume, size: u32)
    requires Inv(v) && Admissible(v, r) && r.size > 0 && Write(v, r) == (w, 0) && size >= r.size
    ensures TableAt?(w, r.parent)
    ensures ReadCode(TableAt(w, r.parent), r.key, size) == if StaleSlot(v, r) then 1 else 0
  {
    WriteRejected(v, r);
    EntryAfterWrite(v, r, w);
  }

  // ----- remounting after a file was cut short

  /** The entry of a file that was cut short names a cluster that the table on disk has free. */
  lemma CutShortOnDisk(v: Volume, r: Request, w: Volume, code: int)
    requires Inv(v) && Synced(v) && Allowed(v, WriteOp(r)) && CutShort(v, WriteOp(r)) && (w, code) == Write(v, r)
    ensures w.disk[FAT_CLUSTER].Map?
    ensures var m, d, i := Mount(w), r.parent, FindEmptySlot(TableAt(v, r.parent));
      && d < CLUSTER_MAP_SIZE && m.disk[d].Directory? && 2 <= i < TABLE_SIZE
      && Used(m.disk[d].table[i]) && m.disk[d].table[i].cluster == FindEmptySpace(v.fat)
      && 3 <= FindEmptySpace(v.fat) < CLUSTER_MAP_SIZE && m.fat[FindEmptySpace(v.fat)] == 0
  {
    hide Inv, Write, TreeOf, Misfiles;
    WriteCanAdd(v, r);
    WriteRefines(v, r, w, code);
    EntryAfterWrite(v, r, w);
    NoSpace(v.fat);
  }

  /** In a volume that is in order, whoever owns what, the cluster that a used entry names is not free. */
  lemma UsedIsTaken(v: Volume, d: nat, i: nat)
    requires d < CLUSTER_MAP_SIZE && v.disk[d].Directory? && 2 <= i < TABLE_SIZE && Used(v.disk[d].table[i])
    requires 3 <= v.disk[d].table[i].cluster < CLUSTER_MAP_SIZE
    ensures Inv(v) ==> v.fat[v.disk[d].table[i].cluster] != 0
  {
    if Inv(v) {
      DirectoryIsDir(v, d);
      assert SlotOk(v, d, i) && CellOk(v, v.disk[d].table[i].cluster);
    }
  }

  /**
   * From agreeing copies, the volume that a remount finds after an operation is well-formed exactly
   * if the operation is not a file cut short. If it is, no record of owners would make it so.
   */
  lemma RemountAfter(v: Volume, op: Op, w: Volume, code: int)
    requires Inv(v) && Synced(v) && Allowed(v, op) && (w, code) == Apply(v, op)
    ensures w.disk[FAT_CLUSTER].Map?
    ensures Inv(Mount(w)) <==> !CutShort(v, op)
    ensures CutShort(v, op) ==> forall own :: !Inv(Mount(w).(own := own))
  {
    MountAfter(v, op, w, code);
    ApplyKeeps(v, op);
    if CutShort(v, op) {
      CutShortOnDisk(v, op.r, w, code);
      var d, i := op.r.parent, FindEmptySlot(TableAt(v, op.r.parent));
      forall own
        ensures !Inv(Mount(w).(own := own))
      {
        UsedIsTaken(Mount(w).(own := own), d, i);
      }
      assert Mount(w) == Mount(w).(own := w.own);
    }
  }
}
