/** The directory tree of a well-formed volume: the way up, the way down, and breadth-first order. */
module Directories {
  import opened Layout
  import opened Volumes
  import opened VolumeInvariant
  import opened Tree

  lemma ParentIsDir(v: Volume, d: nat)
    requires Inv(v) && IsDir(v, d)
    ensures d != ROOT_CLUSTER ==>
      && v.own[d].FolderIn? && IsDir(v, Parent(v, d)) && Depth(v, Parent(v, d)) == Depth(v, d) - 1
      && Names(v, Parent(v, d), v.own[d].slot, d)
      && Slot(v, Parent(v, d), v.own[d].slot).attribute == ATTR_SUBDIRECTORY
      && Slot(v, Parent(v, d), v.own[d].slot).key.name == Slot(v, d, 0).key.name
    ensures DirOk(v, d) && (d == ROOT_CLUSTER ==> v.own[d].Root? && Depth(v, d) == 0)
  {
    if d >= 3 {
      assert CellOk(v, d);
    }
  }

  // ----- the way up

  /** The folders' own names from d up to, and without, the root. */
  ghost function NamesUp(v: Volume, d: nat): seq<Name>
    requires Inv(v) && IsDir(v, d)
    decreases Depth(v, d)
  {
    ParentIsDir(v, d);
    if d == ROOT_CLUSTER then [] else [Slot(v, d, 0).key.name] + NamesUp(v, Parent(v, d))
  }

  /** The parent that a directory's entry 1 names is itself exactly at the root. */
  lemma OwnParent(v: Volume, d: nat)
    requires Inv(v) && IsDir(v, d)
    ensures Slot(v, d, 1).cluster == Parent(v, d)
    ensures Parent(v, d) == d <==> d == ROOT_CLUSTER
  {
    ParentIsDir(v, d);
  }

  /** One step of the walk up prints the directory's own name and leaves those of its parent. */
  lemma OneNameUp(v: Volume, d: nat, printed: seq<Name>)
    requires Inv(v) && IsDir(v, d) && d != ROOT_CLUSTER
    ensures var p := Parent(v, d);
      && IsDir(v, p) && Depth(v, p) < Depth(v, d)
      && printed + NamesUp(v, d) == printed + [Slot(v, d, 0).key.name] + NamesUp(v, p)
      && Slot(v, p, 1).cluster == Parent(v, p)
      && (Parent(v, p) == p <==> p == ROOT_CLUSTER)
  {
    ParentIsDir(v, d);
    OwnParent(v, Parent(v, d));
  }

  // ----- the way down

  const NOT_FOUND := 9999

  /** What findCluster returns: the cluster of a name in a directory, or 9999. */
  function FindCluster(t: Table, k: Key): nat {
    if FindEntry(t, k) == TABLE_SIZE then NOT_FOUND else t[FindEntry(t, k)].cluster
  }

  /** Where looking up names without extension, one after the other, leads from d. */
  function WalkDown(v: Volume, d: nat, names: seq<Name>): nat
    decreases |names|
  {
    if names == [] || !TableAt?(v, d) then d
    else WalkDown(v, FindCluster(TableAt(v, d), Key(names[0], NO_EXT)), names[1..])
  }

  function Reverse<T>(s: seq<T>): seq<T> {
    if s == [] then [] else Reverse(s[1..]) + [s[0]]
  }

  lemma {:induction false} WalkDownConcat(v: Volume, d: nat, a: seq<Name>, b: seq<Name>)
    requires |a| > 0 ==> TableAt?(v, WalkDown(v, d, a))
    ensures WalkDown(v, d, a + b) == WalkDown(v, WalkDown(v, d, a), b)
    decreases |a|
  {
    if a == [] {
      assert a + b == b;
    } else if TableAt?(v, d) {
      var next := FindCluster(TableAt(v, d), Key(a[0], NO_EXT));
      assert (a + b)[1..] == a[1..] + b;
      WalkDownConcat(v, next, a[1..], b);
    }
  }

  /** No folder on the way from d up to the root has an extension. */
  ghost predicate PlainPath(v: Volume, d: nat)
    requires Inv(v) && IsDir(v, d)
    decreases Depth(v, d)
  {
    ParentIsDir(v, d);
    d == ROOT_CLUSTER || (Slot(v, Parent(v, d), v.own[d].slot).key.ext == NO_EXT && PlainPath(v, Parent(v, d)))
  }

  lemma FolderFound(v: Volume, d: nat)
    requires Inv(v) && IsDir(v, d) && d != ROOT_CLUSTER && PlainPath(v, d)
    ensures IsDir(v, Parent(v, d))
    ensures FindCluster(TableAt(v, Parent(v, d)), Key(Slot(v, d, 0).key.name, NO_EXT)) == d
  {
    ParentIsDir(v, d);
    var p, i := Parent(v, d), v.own[d].slot;
    ParentIsDir(v, p);
    assert SlotOk(v, p, i);
    forall j | 2 <= j < i
      ensures v.disk[p].table[j].key != v.disk[p].table[i].key
    {
      assert SlotOk(v, p, j);
    }
    FindEntryFirst(v.disk[p].table, v.disk[p].table[i].key, i);
  }

  /** Looking up the printed names in reverse, from the root, leads back to the directory. */
  lemma {:induction false} WalkBack(v: Volume, d: nat)
    requires Inv(v) && IsDir(v, d) && PlainPath(v, d)
    ensures WalkDown(v, ROOT_CLUSTER, Reverse(NamesUp(v, d))) == d
    decreases Depth(v, d)
  {
    ParentIsDir(v, d);
    if d != ROOT_CLUSTER {
      var p, name := Parent(v, d), Slot(v, d, 0).key.name;
      FolderFound(v, d);
      WalkBack(v, p);
      assert NamesUp(v, d)[1..] == NamesUp(v, p);
      WalkDownConcat(v, ROOT_CLUSTER, Reverse(NamesUp(v, p)), [name]);
      assert WalkDown(v, p, [name]) == WalkDown(v, d, []);
    }
  }

  // ----- breadth-first order

  predicate IsSubfolder(e: Entry) {
    Used(e) && e.attribute == ATTR_SUBDIRECTORY
  }

  /** The clusters of the subfolders in slots 2..i of a table, in slot order. */
  function Subfolders(t: Table, i: nat): (s: seq<nat>)
    requires i <= |t|
  {
    if i <= 2 then []
    else Subfolders(t, i - 1) + if IsSubfolder(t[i - 1]) then [t[i - 1].cluster] else []
  }

  function SubfoldersOf(v: Volume, d: nat): seq<nat> {
    if TableAt?(v, d) then Subfolders(TableAt(v, d), TABLE_SIZE) else []
  }

  /** The queue of a breadth-first walk from the root once its first n directories were expanded. */
  function QueueAfter(v: Volume, n: nat): seq<nat> {
    if n == 0 then [ROOT_CLUSTER]
    else
      var q := QueueAfter(v, n - 1);
      if n - 1 < |q| then q + SubfoldersOf(v, q[n - 1]) else q
  }

  /** Expanding d, the n-th in the queue, appends its subfolders. */
  lemma QueueStep(v: Volume, n: nat, d: nat)
    requires n < |QueueAfter(v, n)| && QueueAfter(v, n)[n] == d && TableAt?(v, d)
    ensures QueueAfter(v, n + 1) == QueueAfter(v, n) + Subfolders(TableAt(v, d), TABLE_SIZE)
    ensures QueueAfter(v, n) + Subfolders(TableAt(v, d), 2) == QueueAfter(v, n)
  {
  }

  predicate NoDuplicates(q: seq<nat>) {
    forall i, j | 0 <= i < j < |q| :: q[i] != q[j]
  }

  lemma {:induction false} SubfolderMember(v: Volume, d: nat, i: nat, c: nat)
    requires Inv(v) && IsDir(v, d) && i <= TABLE_SIZE
    ensures c in Subfolders(v.disk[d].table, i) <==>
      IsDir(v, c) && v.own[c].FolderIn? && v.own[c].dir == d && v.own[c].slot < i
  {
    assert DirOk(v, d);
    if IsDir(v, c) {
      ParentIsDir(v, c);
    }
    if i > 2 {
      SubfolderMember(v, d, i - 1, c);
      assert SlotOk(v, d, i - 1);
      var e := Slot(v, d, i - 1);
      if IsSubfolder(e) {
        assert CellOk(v, e.cluster);
      }
    }
  }

  lemma {:induction false} SubfoldersDistinct(v: Volume, d: nat, i: nat)
    requires Inv(v) && IsDir(v, d) && i <= TABLE_SIZE
    ensures NoDuplicates(Subfolders(v.disk[d].table, i))
  {
    if i > 2 {
      SubfoldersDistinct(v, d, i - 1);
      assert DirOk(v, d) && SlotOk(v, d, i - 1);
      SubfolderMember(v, d, i - 1, Slot(v, d, i - 1).cluster);
    }
  }

  /** The subfolders of d are the live directories whose parent is d. */
  lemma SubfoldersAre(v: Volume, d: nat)
    requires Inv(v) && IsDir(v, d)
    ensures forall c :: c in SubfoldersOf(v, d) <==> IsDir(v, c) && c != ROOT_CLUSTER && Parent(v, c) == d
    ensures NoDuplicates(SubfoldersOf(v, d))
  {
    forall c
      ensures c in SubfoldersOf(v, d) <==> IsDir(v, c) && c != ROOT_CLUSTER && Parent(v, c) == d
    {
      SubfolderMember(v, d, TABLE_SIZE, c);
      if IsDir(v, c) {
        ParentIsDir(v, c);
      }
    }
    SubfoldersDistinct(v, d, TABLE_SIZE);
  }

  /** The queue holds live directories, and each but the root was put there when its parent was expanded. */
  lemma {:induction false} QueueMembers(v: Volume, n: nat)
    requires Inv(v)
    ensures var q := QueueAfter(v, n);
      && |q| > 0 && q[0] == ROOT_CLUSTER
      && (forall c | c in q :: IsDir(v, c))
      && (forall c | IsDir(v, c) && c != ROOT_CLUSTER :: c in q <==> Parent(v, c) in q[..if n < |q| then n else |q|])
  {
    if n > 0 {
      QueueMembers(v, n - 1);
      var q := QueueAfter(v, n - 1);
      if n - 1 < |q| {
        assert q[n - 1] in q;
        SubfoldersAre(v, q[n - 1]);
        var q' := QueueAfter(v, n);
        assert q'[..n] == q[..n - 1] + [q[n - 1]];
      }
    }
  }

  lemma ConcatDistinct(a: seq<nat>, b: seq<nat>)
    requires NoDuplicates(a) && NoDuplicates(b) && forall c | c in b :: c !in a
    ensures NoDuplicates(a + b)
  {
    forall i, j | 0 <= i < j < |a + b|
      ensures (a + b)[i] != (a + b)[j]
    {
      if i < |a| <= j {
        assert b[j - |a|] in b;
      }
    }
  }

  lemma {:induction false} QueueDistinct(v: Volume, n: nat)
    requires Inv(v)
    ensures NoDuplicates(QueueAfter(v, n))
  {
    hide Inv, IsDir, Parent, SubfoldersOf;
    if n > 0 {
      QueueDistinct(v, n - 1);
      QueueMembers(v, n - 1);
      var q := QueueAfter(v, n - 1);
      if n - 1 < |q| {
        var d := q[n - 1];
        assert d in q;
        SubfoldersAre(v, d);
        forall c | c in SubfoldersOf(v, d)
          ensures c !in q
        {
          assert Parent(v, c) == d && d !in q[..n - 1];
        }
        ConcatDistinct(q, SubfoldersOf(v, d));
      }
    }
  }

  predicate ByDepth(v: Volume, q: seq<nat>) {
    forall i, j | 0 <= i < j < |q| :: Depth(v, q[i]) <= Depth(v, q[j])
  }

  /** Appending the level below that of element n - 1 keeps a queue by depth, with no gap at n. */
  lemma AppendByDepth(v: Volume, a: seq<nat>, b: seq<nat>, depth: nat, n: nat)
    requires ByDepth(v, a) && 0 < n <= |a| && Depth(v, a[n - 1]) + 1 == depth
    requires forall i | 0 <= i < |a| :: Depth(v, a[i]) <= depth
    requires forall i | 0 <= i < |b| :: Depth(v, b[i]) == depth
    ensures ByDepth(v, a + b)
    ensures n < |a + b| ==> forall i | 0 <= i < |a + b| :: Depth(v, (a + b)[i]) <= Depth(v, (a + b)[n]) + 1
  {
    hide Depth;
    if n < |a| {
      assert Depth(v, a[n - 1]) <= Depth(v, a[n]);
    }
  }

  lemma SubfoldersDeeper(v: Volume, d: nat)
    requires Inv(v) && IsDir(v, d)
    ensures var s := SubfoldersOf(v, d); forall i | 0 <= i < |s| :: Depth(v, s[i]) == Depth(v, d) + 1
  {
    SubfoldersAre(v, d);
    var s := SubfoldersOf(v, d);
    forall i | 0 <= i < |s|
      ensures Depth(v, s[i]) == Depth(v, d) + 1
    {
      assert s[i] in s;
      ParentIsDir(v, s[i]);
    }
  }

  /** Directories leave the queue nearest the root first. */
  lemma {:induction false} QueueByDepth(v: Volume, n: nat)
    requires Inv(v)
    ensures var q := QueueAfter(v, n);
      ByDepth(v, q) && (n < |q| ==> forall i | 0 <= i < |q| :: Depth(v, q[i]) <= Depth(v, q[n]) + 1)
  {
    ParentIsDir(v, ROOT_CLUSTER);
    hide Inv, SubfoldersOf, IsDir, Depth, ByDepth;
    if n > 0 {
      QueueByDepth(v, n - 1);
      QueueMembers(v, n - 1);
      var q := QueueAfter(v, n - 1);
      if n - 1 < |q| {
        var d := q[n - 1];
        assert d in q;
        SubfoldersDeeper(v, d);
        var s := SubfoldersOf(v, d);
        assert QueueAfter(v, n) == q + s;
        AppendByDepth(v, q, s, Depth(v, d) + 1, n);
      }
    }
  }

  // ----- the order among directories of equal depth

  /** The slot of its parent's table that names a directory. */
  function SlotOf(v: Volume, c: nat): nat {
    if c < CLUSTER_MAP_SIZE && v.own[c].FolderIn? then v.own[c].slot else 0
  }

  predicate BySlot(v: Volume, s: seq<nat>) {
    forall a, b | 0 <= a < b < |s| :: SlotOf(v, s[a]) < SlotOf(v, s[b])
  }

  lemma AppendBySlot(v: Volume, s: seq<nat>, c: nat)
    requires BySlot(v, s) && forall x | x in s :: SlotOf(v, x) < SlotOf(v, c)
    ensures BySlot(v, s + [c])
  {
    assert forall a | 0 <= a < |s| :: s[a] in s;
  }

  lemma {:induction false} SubfoldersInOrder(v: Volume, d: nat, i: nat)
    requires Inv(v) && IsDir(v, d) && i <= TABLE_SIZE
    ensures BySlot(v, Subfolders(v.disk[d].table, i))
  {
    hide BySlot;
    if i <= 2 {
      NothingBySlot(v);
    } else {
      SubfoldersInOrder(v, d, i - 1);
      assert DirOk(v, d) && SlotOk(v, d, i - 1);
      var s, c := Subfolders(v.disk[d].table, i - 1), Slot(v, d, i - 1).cluster;
      if IsSubfolder(Slot(v, d, i - 1)) {
        forall x | x in s
          ensures SlotOf(v, x) < SlotOf(v, c)
        {
          SubfolderMember(v, d, i - 1, x);
        }
        AppendBySlot(v, s, c);
      } else {
        assert Subfolders(v.disk[d].table, i) == s + [] == s;
      }
    }
  }

  lemma SubfoldersOfInOrder(v: Volume, d: nat)
    requires Inv(v) && IsDir(v, d)
    ensures BySlot(v, SubfoldersOf(v, d))
  {
    SubfoldersInOrder(v, d, TABLE_SIZE);
  }

  lemma NothingBySlot(v: Volume)
    ensures BySlot(v, [])
  {
  }

  /** Places i and j of a queue come in the order of the parents' places a and b, then in that of the slots. */
  predicate Follows(v: Volume, q: seq<nat>, i: nat, j: nat, a: nat, b: nat)
    requires i < |q| && j < |q| && a < |q| && b < |q|
  {
    q[a] == Parent(v, q[i]) && q[b] == Parent(v, q[j]) ==>
      a <= b && (a == b ==> SlotOf(v, q[i]) < SlotOf(v, q[j]))
  }

  predicate ByParent(v: Volume, q: seq<nat>) {
    forall i, j, a, b | 0 < i < j < |q| && 0 <= a < |q| && 0 <= b < |q| :: Follows(v, q, i, j, a, b)
  }

  /** s are the directories below element n - 1 of queue q, in slot order, and those in q came with earlier ones. */
  predicate Expands(v: Volume, q: seq<nat>, s: seq<nat>, n: nat) {
    && 0 < n <= |q| && NoDuplicates(q + s) && BySlot(v, s)
    && (forall x | 0 < x < |q| :: Parent(v, q[x]) in q[..n - 1])
    && (forall x | 0 <= x < |s| :: Parent(v, s[x]) == q[n - 1])
  }

  /** What is in the queue came with an element that was expanded before. */
  lemma CameEarlier(v: Volume, n: nat, q: seq<nat>, x: nat)
    requires Inv(v) && q == QueueAfter(v, n) && n < |q| && 0 < x < |q|
    ensures Parent(v, q[x]) in q[..n]
  {
    QueueMembers(v, n);
    QueueDistinct(v, n);
    hide Inv, IsDir, Parent, QueueAfter;
    assert q[x] in q && q[x] != q[0];
  }

  lemma ExpandsQueue(v: Volume, n: nat, q: seq<nat>, s: seq<nat>)
    requires Inv(v) && n > 0 && q == QueueAfter(v, n - 1) && n - 1 < |q| && s == SubfoldersOf(v, q[n - 1])
    ensures q + s == QueueAfter(v, n) && Expands(v, q, s, n)
  {
    hide Inv, IsDir, Parent, BySlot, SubfoldersOf, NoDuplicates;
    QueueMembers(v, n - 1);
    QueueDistinct(v, n);
    var d := q[n - 1];
    assert d in q;
    SubfoldersAre(v, d);
    SubfoldersOfInOrder(v, d);
    assert q + s == QueueAfter(v, n);
    forall x | 0 < x < |q|
      ensures Parent(v, q[x]) in q[..n - 1]
    {
      CameEarlier(v, n - 1, q, x);
    }
    assert forall x | 0 <= x < |s| :: s[x] in s;
  }

  /** Directories leave the queue in the order of their parents, and those of one parent in slot order. */
  lemma {:induction false} QueueByParent(v: Volume, n: nat)
    requires Inv(v)
    ensures ByParent(v, QueueAfter(v, n))
  {
    hide Inv, Expands, Follows;
    if n > 0 {
      QueueByParent(v, n - 1);
      var q := QueueAfter(v, n - 1);
      if n - 1 < |q| {
        var s := SubfoldersOf(v, q[n - 1]);
        ExpandsQueue(v, n, q, s);
        forall i, j, a, b | 0 < i < j < |q + s| && 0 <= a < |q + s| && 0 <= b < |q + s|
          ensures Follows(v, q + s, i, j, a, b)
        {
          AppendByParent(v, q, s, n, i, j, a, b);
        }
      }
    } else {
      assert |QueueAfter(v, 0)| == 1;
    }
  }

  /** Appending the subfolders of element n - 1, in slot order, keeps a queue by parents. */
  lemma AppendByParent(v: Volume, q: seq<nat>, s: seq<nat>, n: nat, i: nat, j: nat, a: nat, b: nat)
    requires Expands(v, q, s, n) && ByParent(v, q)
    requires 0 < i < j < |q + s| && a < |q + s| && b < |q + s|
    ensures Follows(v, q + s, i, j, a, b)
  {
    hide Parent, SlotOf, Expands;
    var w := q + s;
    if w[a] == Parent(v, w[i]) && w[b] == Parent(v, w[j]) {
      PlaceOfParent(v, q, s, n, i, a);
      PlaceOfParent(v, q, s, n, j, b);
      if j < |q| {
        assert Follows(v, q, i, j, a, b);
      } else if i >= |q| {
        assert BySlot(v, s);
        assert SlotOf(v, s[i - |q|]) < SlotOf(v, s[j - |q|]);
      }
    }
  }

  /** The parent of what was in the queue lies before place n - 1, that of what is appended at it. */
  lemma PlaceOfParent(v: Volume, q: seq<nat>, s: seq<nat>, n: nat, i: nat, a: nat)
    requires Expands(v, q, s, n)
    requires 0 < i < |q + s| && a < |q + s| && (q + s)[a] == Parent(v, (q + s)[i])
    ensures 0 < n <= |q| && BySlot(v, s) && if i < |q| then a < n - 1 else a == n - 1
  {
    hide Parent;
    if i < |q| {
      var x :| 0 <= x < n - 1 && q[x] == Parent(v, q[i]);
      assert (q + s)[x] == (q + s)[a];
    } else {
      assert (q + s)[n - 1] == (q + s)[a];
    }
  }

  /** A queue that is fully expanded holds every live directory. */
  lemma {:induction false} QueueComplete(v: Volume, n: nat, d: nat)
    requires Inv(v) && |QueueAfter(v, n)| <= n && IsDir(v, d)
    ensures d in QueueAfter(v, n)
    decreases Depth(v, d)
  {
    QueueMembers(v, n);
    ParentIsDir(v, d);
    if d != ROOT_CLUSTER {
      QueueComplete(v, n, Parent(v, d));
      var q := QueueAfter(v, n);
      assert q[..|q|] == q;
    }
  }

  /**
   * A fully expanded queue lists every live directory exactly once, the nearer to the root the
   * earlier: live directories are those reachable from the root.
   */
  lemma BreadthFirst(v: Volume, n: nat)
    requires Inv(v) && |QueueAfter(v, n)| <= n
    ensures var q := QueueAfter(v, n);
      && (forall d :: d in q <==> IsDir(v, d))
      && NoDuplicates(q) && ByDepth(v, q)
  {
    QueueMembers(v, n);
    QueueDistinct(v, n);
    QueueByDepth(v, n);
    forall d | IsDir(v, d)
      ensures d in QueueAfter(v, n)
    {
      QueueComplete(v, n, d);
    }
  }

  // ----- how long the queue gets

  /** The live directories. */
  function LiveDirs(v: Volume): set<nat> {
    set d | 0 <= d < CLUSTER_MAP_SIZE && IsDir(v, d)
  }

  lemma {:induction false} DistinctBounded(q: seq<nat>, s: set<nat>)
    requires NoDuplicates(q) && forall x | x in q :: x in s
    ensures |q| <= |s|
  {
    if q != [] {
      var x := q[|q| - 1];
      DistinctBounded(q[..|q| - 1], s - {x});
    }
  }

  lemma QueueBounded(v: Volume, n: nat)
    requires Inv(v)
    ensures |QueueAfter(v, n)| <= |LiveDirs(v)|
  {
    QueueMembers(v, n);
    QueueDistinct(v, n);
    DistinctBounded(QueueAfter(v, n), LiveDirs(v));
  }

  /** The directories in q that hold an entry with key k. */
  function Holding(v: Volume, q: seq<nat>, k: Key): seq<nat> {
    if q == [] then []
    else
      var d := q[|q| - 1];
      Holding(v, q[..|q| - 1], k) + if TableAt?(v, d) && FindEntry(TableAt(v, d), k) < TABLE_SIZE then [d] else []
  }

  lemma {:induction false} HoldingMembers(v: Volume, q: seq<nat>, k: Key)
    ensures forall d :: d in Holding(v, q, k) <==> d in q && TableAt?(v, d) && FindEntry(TableAt(v, d), k) < TABLE_SIZE
    ensures NoDuplicates(q) ==> NoDuplicates(Holding(v, q, k))
  {
    if q != [] {
      HoldingMembers(v, q[..|q| - 1], k);
      assert q == q[..|q| - 1] + [q[|q| - 1]];
    }
  }

  /** The live directories that hold an entry with key k. */
  function Holders(v: Volume, k: Key): set<nat> {
    set d | d in LiveDirs(v) && FindEntry(TableAt(v, d), k) < TABLE_SIZE
  }

  lemma {:induction false} SubfoldersGrow(t: Table, i: nat, j: nat)
    requires i <= j <= |t|
    ensures |Subfolders(t, i)| <= |Subfolders(t, j)|
  {
    if i < j {
      SubfoldersGrow(t, i, j - 1);
    }
  }

  /** While directory q[n] is expanded the queue never outgrows the number of live directories. */
  lemma ExpansionBounded(v: Volume, n: nat, i: nat)
    requires Inv(v) && n < |QueueAfter(v, n)| && i <= TABLE_SIZE
    ensures IsDir(v, QueueAfter(v, n)[n])
    ensures |QueueAfter(v, n)| + |Subfolders(TableAt(v, QueueAfter(v, n)[n]), i)| <= |LiveDirs(v)|
  {
    QueueMembers(v, n);
    QueueBounded(v, n + 1);
    assert QueueAfter(v, n)[n] in QueueAfter(v, n);
    SubfoldersGrow(TableAt(v, QueueAfter(v, n)[n]), i, TABLE_SIZE);
  }

  lemma HoldingBounded(v: Volume, n: nat, m: nat, k: Key)
    requires Inv(v) && m <= |QueueAfter(v, n)|
    ensures |Holding(v, QueueAfter(v, n)[..m], k)| <= |Holders(v, k)|
  {
    var q := QueueAfter(v, n)[..m];
    QueueMembers(v, n);
    QueueDistinct(v, n);
    HoldingMembers(v, q, k);
    DistinctBounded(Holding(v, q, k), Holders(v, k));
  }

  /** The directory next to be expanded is live, and recording it keeps within the number of holders. */
  lemma FrontOfQueue(v: Volume, n: nat, k: Key)
    requires Inv(v) && n < |QueueAfter(v, n)|
    ensures IsDir(v, QueueAfter(v, n)[n])
    ensures |QueueAfter(v, n)| <= |LiveDirs(v)|
    ensures |Holding(v, QueueAfter(v, n)[..n + 1], k)| <= |Holders(v, k)|
  {
    QueueMembers(v, n);
    QueueBounded(v, n);
    HoldingBounded(v, n, n + 1, k);
    assert QueueAfter(v, n)[n] in QueueAfter(v, n);
  }

  lemma {:induction false} HoldingByDepth(v: Volume, q: seq<nat>, k: Key)
    requires ByDepth(v, q)
    ensures ByDepth(v, Holding(v, q, k))
  {
    if q != [] {
      var front, d := q[..|q| - 1], q[|q| - 1];
      HoldingByDepth(v, front, k);
      HoldingMembers(v, front, k);
      forall i | 0 <= i < |Holding(v, front, k)|
        ensures Depth(v, Holding(v, front, k)[i]) <= Depth(v, d)
      {
        assert Holding(v, front, k)[i] in Holding(v, front, k);
      }
    }
  }

  /** Elements of h come in the order that they have in q. */
  predicate InOrderOf(h: seq<nat>, q: seq<nat>) {
    forall i, j, a, b | 0 <= i < j < |h| && 0 <= a < |q| && 0 <= b < |q| && q[a] == h[i] && q[b] == h[j] :: a < b
  }

  lemma {:induction false} HoldingInOrder(v: Volume, q: seq<nat>, k: Key)
    requires NoDuplicates(q)
    ensures InOrderOf(Holding(v, q, k), q)
  {
    if q != [] {
      var front, d := q[..|q| - 1], q[|q| - 1];
      HoldingInOrder(v, front, k);
      HoldingMembers(v, front, k);
      var h := Holding(v, front, k);
      forall i, j, a, b | 0 <= i < j < |Holding(v, q, k)| && 0 <= a < |q| && 0 <= b < |q|
                          && q[a] == Holding(v, q, k)[i] && q[b] == Holding(v, q, k)[j]
        ensures a < b
      {
        assert h[i] in h && h[i] in front;
        assert j < |h| ==> h[j] in h && h[j] in front;
      }
    }
  }

  /**
   * The search reports exactly the directories in which the name stands for something, each once, in
   * the order of the queue: the nearer to the root the earlier, then in the order of their parents,
   * then in that of their slots.
   */
  lemma FindReports(v: Volume, q: seq<nat>, k: Key)
    requires Inv(v) && k != NO_KEY && q == QueueAfter(v, |q|)
    ensures forall d :: d in Holding(v, q, k) <==> Present(v, Path(d, k))
    ensures NoDuplicates(Holding(v, q, k)) && ByDepth(v, Holding(v, q, k))
    ensures InOrderOf(Holding(v, q, k), q) && ByParent(v, q)
  {
    BreadthFirst(v, |q|);
    HoldingMembers(v, q, k);
    HoldingByDepth(v, q, k);
    HoldingInOrder(v, q, k);
    QueueByParent(v, |q|);
  }
}
