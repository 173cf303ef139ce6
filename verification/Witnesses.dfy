/** Runs from a new file system to states in which the code misbehaves. */
module Witnesses {
  import opened Layout
  import opened Volumes
  import opened Tree
  import opened Refinement
  import opened Runs
  import opened Restore

  lemma {:induction false} FreeBelow(fat: CellMap, n: nat)
    requires n <= CLUSTER_MAP_SIZE
    ensures |set c | 0 <= c < n && fat[c] == 0| <= n
  {
    if n > 0 {
      FreeBelow(fat, n - 1);
      assert (set c | 0 <= c < n && fat[c] == 0)
          == (set c | 0 <= c < n - 1 && fat[c] == 0) + if fat[n - 1] == 0 then {n - 1} else {};
    }
  }

  /** In a new file system there is space, and every slot of the root is free and unmarked. */
  lemma FreshSpace(v: Volume)
    requires v == Created()
    ensures 0 < |Free(v.fat)| <= 512
    ensures forall i | 2 <= i < TABLE_SIZE :: v.disk[ROOT_CLUSTER].table[i] == ZERO_ENTRY
    ensures FindEmptySlot(v.disk[ROOT_CLUSTER].table) == 2 && HasSlot(v, ROOT_CLUSTER)
  {
    FreeBelow(v.fat, 512);
    assert 3 in Free(v.fat);
    assert Free(v.fat) == set c | 0 <= c < 512 && v.fat[c] == 0;
    assert !Used(TableAt(v, ROOT_CLUSTER)[2]);
  }

  lemma MarkedRootIsStale(v: Volume, w: Volume, f: Request)
    requires v == Created() && IsDir(v, ROOT_CLUSTER) && w == Marked(v, ROOT_CLUSTER, 2) && Inv(w)
    requires f.key != NO_KEY && f.parent == ROOT_CLUSTER && f.size > 0 && BufferOk(f)
    ensures Misfiles(w, f)
  {
    FreshSpace(v);
    var t := w.disk[ROOT_CLUSTER].table;
    assert forall i | 2 <= i < TABLE_SIZE :: !Used(t[i]);
    if FindEntry(t, f.key) < TABLE_SIZE {
      FoundEntry(w, ROOT_CLUSTER, f.key);
    }
    FoundIsPresent(w, ROOT_CLUSTER, f.key);
    assert !Used(TableAt(w, ROOT_CLUSTER)[2]);
  }

  /** A folder that is created and deleted leaves a slot in which the next file is taken for a folder. */
  lemma StaleSlotReached(r: Request, f: Request) returns (w: Volume)
    requires r.key != NO_KEY && r.parent == ROOT_CLUSTER && r.size == 0
    requires f.key != NO_KEY && f.parent == ROOT_CLUSTER && f.size > 0 && BufferOk(f)
    ensures Run(Created(), [WriteOp(r), DeleteOp(r)], w)
    ensures Inv(w) && Misfiles(w, f) && !Inv(Write(w, f).0)
  {
    var v := Created();
    CreatedIsWellFormed();
    FreshSpace(v);
    hide Inv, TreeOf, Created, Misfiles, Volumes.Write, Volumes.Delete, Marked;
    EmptyRoot(v, r);
    var (u, code) := Write(v, r);
    WriteRefines(v, r, u, code);
    FolderUndone(v, r, u);
    w := Delete(u, r).0;
    DeleteRefines(u, r, w, 0);
    RunOfTwo(v, WriteOp(r), DeleteOp(r), u, w);
    MarkedRootIsStale(v, w, f);
    WellFormedUnlessStale(w, f, Write(w, f).0);
  }

  lemma EmptyRoot(v: Volume, r: Request)
    requires v == Created() && r.key != NO_KEY && r.parent == ROOT_CLUSTER && BufferOk(r)
    ensures Inv(v) && Admissible(v, r) && CanFill(v, r) && !Misfiles(v, r)
    ensures |Free(v.fat)| >= ClustersNeeded(r) ==> WriteCode(v, r) == 0
  {
    CreatedIsWellFormed();
    FreshSpace(v);
  }

  lemma RunOfTwo(v: Volume, a: Op, b: Op, u: Volume, w: Volume)
    requires Inv(v) && Allowed(v, a) && u == Apply(v, a).0 && Inv(u) && Allowed(u, b) && w == Apply(u, b).0
    ensures Run(v, [a, b], w)
  {
    assert Run(w, [], w);
    assert [b][1..] == [] && Run(u, [b], w);
    assert [a, b][1..] == [b];
  }

  /** A file of more than 1 MiB is cut short, and then a remount loses what the cached table says. */
  lemma CutShortReached(f: Request, w: Volume)
    requires f.key != NO_KEY && f.parent == ROOT_CLUSTER && f.size > 0x10_0000 && BufferOk(f)
    requires w == Write(Created(), f).0
    ensures Inv(Created()) && Allowed(Created(), WriteOp(f)) && CutShort(Created(), WriteOp(f))
    ensures Inv(w) && w.disk[FAT_CLUSTER].Map? && Mount(w) != w
    ensures forall own :: !Inv(Mount(w).(own := own))
  {
    var v := Created();
    CreatedIsWellFormed();
    FreshSpace(v);
    hide Inv, TreeOf, Created, Volumes.Write, Misfiles;
    EmptyRoot(v, f);
    ApplyKeeps(v, WriteOp(f));
    MountAfter(v, WriteOp(f), w, Write(v, f).1);
    RemountAfter(v, WriteOp(f), w, Write(v, f).1);
  }
}
