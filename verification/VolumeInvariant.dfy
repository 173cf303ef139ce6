/** Every step of `write` and `delete` keeps a volume well-formed. */
module VolumeInvariant {
  import opened Layout
  import opened Volumes

  // ----- tables

  lemma FindEntryFirst(t: Table, k: Key, i: nat)
    requires 2 <= i < TABLE_SIZE && t[i].key == k
    requires forall j | 2 <= j < i :: t[j].key != k
    ensures FindEntry(t, k) == i
  {
  }

  /** A change of slot i from and to other keys does not affect a lookup. */
  lemma FindEntryUpdate(t: Table, i: nat, e: Entry, k: Key)
    requires 2 <= i < TABLE_SIZE && t[i].key != k && e.key != k
    ensures FindEntry(t[i := e], k) == FindEntry(t, k)
  {
    var j := FindEntry(t, k);
    if j < TABLE_SIZE {
      FindEntryFirst(t[i := e], k, j);
    }
  }

  // ----- what a change elsewhere leaves alone

  /** A cluster whose own cell, referrer and successor are untouched stays in order. */
  lemma CellFrame(v: Volume, w: Volume, x: nat)
    requires 3 <= x < CLUSTER_MAP_SIZE && CellOk(v, x)
    requires w.own[x] == v.own[x] && w.fat[x] == v.fat[x]
    requires w.disk[x] == v.disk[x]
             || (v.disk[x].Directory? && w.disk[x].Directory? && w.disk[x].table[0] == v.disk[x].table[0])
    requires Continues(v.fat, x) ==> w.own[v.fat[x]] == v.own[v.fat[x]]
    requires v.own[x].After? ==> w.fat[v.own[x].prev] == v.fat[v.own[x].prev]
    requires v.own[x].FileIn? || v.own[x].FolderIn? ==>
      var p, j := v.own[x].dir, v.own[x].slot;
      IsDir(w, p) && Slot(w, p, j) == Slot(v, p, j) && Depth(w, p) == Depth(v, p)
    ensures CellOk(w, x)
  {
  }

  /** The clusters that the used slots of d other than i name keep their owners. */
  predicate OwnersKept(v: Volume, w: Volume, d: nat, i: nat)
    requires IsDir(v, d)
  {
    forall j | 2 <= j < TABLE_SIZE && j != i && Used(v.disk[d].table[j]) ::
      var c := v.disk[d].table[j].cluster;
      c < CLUSTER_MAP_SIZE && w.own[c] == v.own[c]
  }

  /** A directory stays in order when slot i changes to a sound entry and nothing else it names changes. */
  lemma DirUpdate(v: Volume, w: Volume, d: nat, i: nat)
    requires IsDir(v, d) && DirOk(v, d) && IsDir(w, d) && 2 <= i < TABLE_SIZE
    requires w.disk[d].table == v.disk[d].table[i := w.disk[d].table[i]]
    requires Parent(w, d) == Parent(v, d)
    requires OwnersKept(v, w, d, i)
    requires SlotOk(w, d, i)
    requires Used(Slot(w, d, i)) ==>
      forall j | 2 <= j < TABLE_SIZE && j != i && Used(v.disk[d].table[j]) ::
        v.disk[d].table[j].key != Slot(w, d, i).key
    ensures DirOk(w, d)
  {
    forall j | 2 <= j < TABLE_SIZE
      ensures SlotOk(w, d, j)
    {
      assert SlotOk(v, d, j);
    }
  }

  /** A directory whose table is untouched stays in order when the clusters it names keep their owners. */
  lemma DirFrame(v: Volume, w: Volume, d: nat)
    requires IsDir(v, d) && DirOk(v, d) && IsDir(w, d)
    requires w.disk[d].table == v.disk[d].table && Parent(w, d) == Parent(v, d)
    requires OwnersKept(v, w, d, 0)
    ensures DirOk(w, d)
  {
    forall j | 2 <= j < TABLE_SIZE
      ensures SlotOk(w, d, j)
    {
      assert SlotOk(v, d, j);
    }
  }

  /** If only owners of unused clusters change, every directory's owners are kept. */
  lemma UsedOwnersKept(v: Volume, w: Volume, d: nat, i: nat)
    requires Inv(v) && IsDir(v, d)
    requires forall x | 3 <= x < CLUSTER_MAP_SIZE && !v.own[x].Unused? :: w.own[x] == v.own[x]
    ensures OwnersKept(v, w, d, i)
  {
    assert DirOk(v, d);
    forall j | 2 <= j < TABLE_SIZE && j != i && Used(v.disk[d].table[j])
      ensures var c := v.disk[d].table[j].cluster; c < CLUSTER_MAP_SIZE && w.own[c] == v.own[c]
    {
      assert SlotOk(v, d, j);
    }
  }

  // ----- filling a slot

  predicate CanAdd(v: Volume, d: nat, i: nat, k: Key, c: nat) {
    && IsDir(v, d) && 2 <= i < TABLE_SIZE && !Used(Slot(v, d, i))
    && k != NO_KEY && FindEntry(v.disk[d].table, k) == TABLE_SIZE
    && 3 <= c < CLUSTER_MAP_SIZE && v.own[c].Unused?
  }

  lemma AddFileCell(v: Volume, d: nat, i: nat, k: Key, size: u32, c: nat, block: ClusterBytes, x: nat)
    requires Inv(v) && CanAdd(v, d, i, k, c) && size > 0
    requires Slot(v, d, i).attribute != ATTR_SUBDIRECTORY
    requires 3 <= x < CLUSTER_MAP_SIZE
    ensures CellOk(AddFile(v, d, i, k, size, c, block), x)
  {
    assert CellOk(v, c) && CellOk(v, x);
    if x != c {
      CellFrame(v, AddFile(v, d, i, k, size, c, block), x);
    }
  }

  lemma AddFileDir(v: Volume, d: nat, i: nat, k: Key, size: u32, c: nat, block: ClusterBytes, e: nat)
    requires Inv(v) && CanAdd(v, d, i, k, c) && size > 0
    requires Slot(v, d, i).attribute != ATTR_SUBDIRECTORY
    requires IsDir(v, e)
    ensures IsDir(AddFile(v, d, i, k, size, c, block), e) && DirOk(AddFile(v, d, i, k, size, c, block), e)
  {
    var w := AddFile(v, d, i, k, size, c, block);
    assert CellOk(v, c);
    assert DirOk(v, e);
    UsedOwnersKept(v, w, e, if e == d then i else 0);
    if e == d {
      DirUpdate(v, w, d, i);
    } else {
      DirFrame(v, w, e);
    }
  }

  lemma AddFileKeeps(v: Volume, d: nat, i: nat, k: Key, size: u32, c: nat, block: ClusterBytes)
    requires Inv(v) && CanAdd(v, d, i, k, c) && size > 0
    requires Slot(v, d, i).attribute != ATTR_SUBDIRECTORY
    ensures Inv(AddFile(v, d, i, k, size, c, block))
  {
    var w := AddFile(v, d, i, k, size, c, block);
    assert CellOk(v, c);
    forall x | 3 <= x < CLUSTER_MAP_SIZE
      ensures CellOk(w, x)
    {
      AddFileCell(v, d, i, k, size, c, block, x);
    }
    forall e | IsDir(w, e)
      ensures DirOk(w, e)
    {
      AddFileDir(v, d, i, k, size, c, block, e);
    }
  }

  lemma AddFolderCell(v: Volume, d: nat, i: nat, k: Key, c: nat, x: nat)
    requires Inv(v) && CanAdd(v, d, i, k, c) && 3 <= x < CLUSTER_MAP_SIZE
    ensures CellOk(AddFolder(v, d, i, k, c), x)
  {
    assert CellOk(v, c) && CellOk(v, x);
    if x != c {
      CellFrame(v, AddFolder(v, d, i, k, c), x);
    }
  }

  lemma AddFolderDir(v: Volume, d: nat, i: nat, k: Key, c: nat, e: nat)
    requires Inv(v) && CanAdd(v, d, i, k, c) && IsDir(v, e)
    ensures IsDir(AddFolder(v, d, i, k, c), e) && DirOk(AddFolder(v, d, i, k, c), e)
  {
    var w := AddFolder(v, d, i, k, c);
    assert CellOk(v, c);
    assert DirOk(v, e);
    UsedOwnersKept(v, w, e, if e == d then i else 0);
    if e == d {
      DirUpdate(v, w, d, i);
    } else {
      DirFrame(v, w, e);
    }
  }

  lemma AddFolderKeeps(v: Volume, d: nat, i: nat, k: Key, c: nat)
    requires Inv(v) && CanAdd(v, d, i, k, c)
    ensures Inv(AddFolder(v, d, i, k, c))
  {
    var w := AddFolder(v, d, i, k, c);
    assert CellOk(v, c);
    forall x | 3 <= x < CLUSTER_MAP_SIZE
      ensures CellOk(w, x)
    {
      AddFolderCell(v, d, i, k, c, x);
    }
    forall e | IsDir(w, e)
      ensures DirOk(w, e)
    {
      if e != c {
        AddFolderDir(v, d, i, k, c, e);
      }
    }
  }

  // ----- growing a file

  /** `last` ends a file, and the free cluster c lies above it. */
  predicate CanExtend(v: Volume, last: nat, c: nat) {
    IsFileCell(v, last) && v.fat[last] == END_OF_FILE && last < c < CLUSTER_MAP_SIZE && v.own[c].Unused?
  }

  lemma ExtendCell(v: Volume, last: nat, c: nat, block: ClusterBytes, x: nat)
    requires Inv(v) && CanExtend(v, last, c) && 3 <= x < CLUSTER_MAP_SIZE
    ensures CellOk(Extend(v, last, c, block), x)
  {
    assert CellOk(v, c) && CellOk(v, x);
    if x != c && x != last {
      CellFrame(v, Extend(v, last, c, block), x);
    }
  }

  lemma ExtendKeeps(v: Volume, last: nat, c: nat, block: ClusterBytes)
    requires Inv(v) && CanExtend(v, last, c)
    ensures Inv(Extend(v, last, c, block))
  {
    var w := Extend(v, last, c, block);
    assert CellOk(v, c);
    forall x | 3 <= x < CLUSTER_MAP_SIZE
      ensures CellOk(w, x)
    {
      ExtendCell(v, last, c, block, x);
    }
    forall e | IsDir(w, e)
      ensures DirOk(w, e)
    {
      assert DirOk(v, e);
      UsedOwnersKept(v, w, e, 0);
      DirFrame(v, w, e);
    }
  }

  // ----- taking a file apart

  predicate CanShrink(v: Volume, d: nat, i: nat, h: nat) {
    IsDir(v, d) && 2 <= i < TABLE_SIZE && 3 <= h < CLUSTER_MAP_SIZE && v.own[h] == FileIn(d, i) && Continues(v.fat, h)
  }

  lemma ShrinkCell(v: Volume, d: nat, i: nat, h: nat, x: nat)
    requires Inv(v) && CanShrink(v, d, i, h) && 3 <= x < CLUSTER_MAP_SIZE
    ensures CellOk(Shrink(v, d, i, h), x)
  {
    assert CellOk(v, h) && CellOk(v, x) && CellOk(v, v.fat[h]);
    if x != h && x != v.fat[h] {
      CellFrame(v, Shrink(v, d, i, h), x);
    }
  }

  lemma ShrinkDir(v: Volume, d: nat, i: nat, h: nat, e: nat)
    requires Inv(v) && CanShrink(v, d, i, h) && IsDir(v, e)
    ensures IsDir(Shrink(v, d, i, h), e) && DirOk(Shrink(v, d, i, h), e)
  {
    var w := Shrink(v, d, i, h);
    assert CellOk(v, h) && CellOk(v, v.fat[h]);
    assert DirOk(v, e) && SlotOk(v, e, i);
    var skip := if e == d then i else 0;
    forall j | 2 <= j < TABLE_SIZE && j != skip && Used(v.disk[e].table[j])
      ensures var c := v.disk[e].table[j].cluster; c < CLUSTER_MAP_SIZE && w.own[c] == v.own[c]
    {
      assert SlotOk(v, e, j);
    }
    if e == d {
      DirUpdate(v, w, d, i);
    } else {
      DirFrame(v, w, e);
    }
  }

  lemma ShrinkKeeps(v: Volume, d: nat, i: nat, h: nat)
    requires Inv(v) && CanShrink(v, d, i, h)
    ensures Inv(Shrink(v, d, i, h))
  {
    var w := Shrink(v, d, i, h);
    assert CellOk(v, h) && CellOk(v, v.fat[h]);
    forall x | 3 <= x < CLUSTER_MAP_SIZE
      ensures CellOk(w, x)
    {
      ShrinkCell(v, d, i, h, x);
    }
    forall e | IsDir(w, e)
      ensures DirOk(w, e)
    {
      ShrinkDir(v, d, i, h, e);
    }
  }

  /** Slot i of d names cluster h, which ends a file or is an empty folder. */
  predicate CanRemove(v: Volume, d: nat, i: nat, h: nat) {
    && IsDir(v, d) && 2 <= i < TABLE_SIZE && 3 <= h < CLUSTER_MAP_SIZE && v.fat[h] == END_OF_FILE
    && (v.own[h] == FileIn(d, i)
        || (v.own[h].FolderIn? && v.own[h].dir == d && v.own[h].slot == i
            && v.disk[h].Directory? && EmptyTable(v.disk[h].table)))
  }

  lemma RemoveCell(v: Volume, d: nat, i: nat, h: nat, x: nat)
    requires Inv(v) && CanRemove(v, d, i, h) && 3 <= x < CLUSTER_MAP_SIZE
    ensures CellOk(Remove(v, d, i, h), x)
  {
    assert CellOk(v, h) && CellOk(v, x);
    if x != h {
      CellFrame(v, Remove(v, d, i, h), x);
    }
  }

  lemma RemoveDir(v: Volume, d: nat, i: nat, h: nat, e: nat)
    requires Inv(v) && CanRemove(v, d, i, h) && IsDir(v, e) && e != h
    ensures IsDir(Remove(v, d, i, h), e) && DirOk(Remove(v, d, i, h), e)
  {
    var w := Remove(v, d, i, h);
    assert CellOk(v, h);
    assert DirOk(v, e) && SlotOk(v, e, i);
    var skip := if e == d then i else 0;
    forall j | 2 <= j < TABLE_SIZE && j != skip && Used(v.disk[e].table[j])
      ensures var c := v.disk[e].table[j].cluster; c < CLUSTER_MAP_SIZE && w.own[c] == v.own[c]
    {
      assert SlotOk(v, e, j);
    }
    if e == d {
      DirUpdate(v, w, d, i);
    } else {
      DirFrame(v, w, e);
    }
  }

  lemma RemoveKeeps(v: Volume, d: nat, i: nat, h: nat)
    requires Inv(v) && CanRemove(v, d, i, h)
    ensures Inv(Remove(v, d, i, h))
  {
    var w := Remove(v, d, i, h);
    assert CellOk(v, h);
    forall x | 3 <= x < CLUSTER_MAP_SIZE
      ensures CellOk(w, x)
    {
      RemoveCell(v, d, i, h, x);
    }
    forall e | IsDir(w, e)
      ensures DirOk(w, e)
    {
      RemoveDir(v, d, i, h, e);
    }
  }

  lemma FlushKeeps(v: Volume)
    requires Inv(v)
    ensures Inv(Flush(v)) && Synced(Flush(v))
  {
    var w := Flush(v);
    forall x | 3 <= x < CLUSTER_MAP_SIZE
      ensures CellOk(w, x)
    {
      assert CellOk(v, x);
      CellFrame(v, w, x);
    }
    forall e | IsDir(w, e)
      ensures DirOk(w, e)
    {
      assert DirOk(v, e);
      UsedOwnersKept(v, w, e, 0);
      DirFrame(v, w, e);
    }
  }
}
