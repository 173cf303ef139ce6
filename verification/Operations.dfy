/** `write` and `delete` keep volumes well-formed; what they change, cluster by cluster. */
module Operations {
  import opened Layout
  import opened Volumes
  import opened VolumeInvariant
  import opened Chains

  // ----- free space

  lemma FreeCells(v: Volume)
    requires Inv(v)
    ensures forall x: nat | x < CLUSTER_MAP_SIZE :: x in Free(v.fat) <==> v.own[x].Unused?
    ensures forall x | x in Free(v.fat) :: x >= 3
  {
    forall x: nat | x < CLUSTER_MAP_SIZE
      ensures x in Free(v.fat) <==> v.own[x].Unused?
    {
      if x >= 3 {
        assert CellOk(v, x);
      }
    }
  }

  lemma NoSpace(fat: CellMap)
    ensures FindEmptySpace(fat) == CLUSTER_MAP_SIZE <==> |Free(fat)| == 0
    ensures FindEmptySpace(fat) < CLUSTER_MAP_SIZE ==> FindEmptySpace(fat) in Free(fat)
  {
    if FindEmptySpace(fat) < CLUSTER_MAP_SIZE {
      assert FindEmptySpace(fat) in Free(fat);
    } else {
      assert Free(fat) == {};
    }
  }

  lemma TakeFree(fat: CellMap, w: CellMap, c: nat)
    requires c in Free(fat) && w[c] != 0
    requires forall x: nat | x < CLUSTER_MAP_SIZE && x != c :: w[x] == 0 <==> fat[x] == 0
    ensures Free(w) == Free(fat) - {c} && |Free(w)| == |Free(fat)| - 1
  {
    assert Free(w) == Free(fat) - {c};
  }

  // ----- growing a file

  function Min(a: int, b: int): int {
    if a < b then a else b
  }

  /** A file that is being written: it starts at h, ends in `last`, and all space up to there is taken. */
  predicate Writing(v: Volume, h: nat, last: nat) {
    && IsFileCell(v, h) && v.own[h].FileIn? && Last(v.fat, h) == last && IsFileCell(v, last)
    && forall x: nat | x <= last :: v.fat[x] != 0
  }

  lemma WritingLast(v: Volume, h: nat, last: nat)
    requires Inv(v) && Writing(v, h, last)
    ensures IsFileCell(v, last) && v.fat[last] == END_OF_FILE && Head(v, last) == h
  {
    LastCell(v, h);
  }

  lemma WritingExtends(v: Volume, h: nat, last: nat, block: ClusterBytes)
    requires Inv(v) && Writing(v, h, last) && FindEmptySpace(v.fat) < CLUSTER_MAP_SIZE
    ensures var c := FindEmptySpace(v.fat);
      CanExtend(v, last, c) && Inv(Extend(v, last, c, block)) && Writing(Extend(v, last, c, block), h, c)
    ensures var c := FindEmptySpace(v.fat);
      |Free(Extend(v, last, c, block).fat)| == |Free(v.fat)| - 1
  {
    var c := FindEmptySpace(v.fat);
    WritingLast(v, h, last);
    FreeCells(v);
    assert c in Free(v.fat);
    ExtendKeeps(v, last, c, block);
    ExtendContent(v, last, c, block, h);
    TakeFree(v.fat, Extend(v, last, c, block).fat, c);
  }

  /** Cluster x, seen from v to w, when only the file at h grew behind `last` into space that was free. */
  predicate GrewAt(v: Volume, w: Volume, h: nat, last: nat, x: nat)
    requires 3 <= x < CLUSTER_MAP_SIZE
  {
    if v.own[x].Unused? then w.own[x].Unused? || Head(w, x) == h
    else w.own[x] == v.own[x] && w.disk[x] == v.disk[x] && (x != last ==> w.fat[x] == v.fat[x])
  }

  predicate OnlyGrew(v: Volume, w: Volume, h: nat, last: nat) {
    && (forall x | 3 <= x < CLUSTER_MAP_SIZE :: GrewAt(v, w, h, last, x))
    && w.disk[0] == v.disk[0] && w.disk[2] == v.disk[2] && w.own[2] == v.own[2]
  }

  /** The loop of `write`: how far it gets and the code it returns. */
  lemma {:induction false} GrowEffect(v: Volume, h: nat, last: nat, buf: seq<byte>, i: nat, n: nat,
                                      w: Volume, code: int)
    requires Inv(v) && Writing(v, h, last) && i <= n && Offset(n) <= |buf|
    requires Grow(v, last, buf, i, n) == (w, code)
    ensures Inv(w) && OnlyGrew(v, w, h, last)
    ensures code == if n - i <= |Free(v.fat)| then 0 else -1
    ensures |Free(w.fat)| == |Free(v.fat)| - Min(n - i, |Free(v.fat)|)
    ensures if code == 0 then Synced(w) else w.disk[FAT_CLUSTER] == v.disk[FAT_CLUSTER]
    decreases n - i
  {
    NoSpace(v.fat);
    if i == n {
      FlushKeeps(v);
    } else if |Free(v.fat)| > 0 {
      var c := FindEmptySpace(v.fat);
      var v' := Extend(v, last, c, Block(buf, i));
      WritingLast(v, h, last);
      WritingExtends(v, h, last, Block(buf, i));
      GrowEffect(v', h, c, buf, i + 1, n, w, code);
      ExtendedThenGrew(v, w, h, last, c, Block(buf, i));
    }
  }

  /** The loop takes the lowest free cells: one that it takes lies below any that stays free. */
  lemma {:induction false} GrowLowest(v: Volume, last: nat, buf: seq<byte>, i: nat, n: nat, x: nat, y: nat)
    requires last < CLUSTER_MAP_SIZE && v.fat[last] != 0 && v.fat[0] != 0 && Offset(n) <= |buf|
    requires x < CLUSTER_MAP_SIZE && y < CLUSTER_MAP_SIZE
    requires v.fat[x] == 0 && Grow(v, last, buf, i, n).0.fat[x] != 0 && Grow(v, last, buf, i, n).0.fat[y] == 0
    ensures x < y && v.fat[y] == 0
    decreases n - i
  {
    var c := FindEmptySpace(v.fat);
    var v' := Extend(v, last, c, Block(buf, i));
    if x != c {
      GrowLowest(v', c, buf, i + 1, n, x, y);
    } else if v'.fat[y] != 0 {
      GrowKeepsUsed(v', c, buf, i + 1, n, y);
    }
  }

  lemma {:induction false} GrowKeepsUsed(v: Volume, last: nat, buf: seq<byte>, i: nat, n: nat, x: nat)
    requires last < CLUSTER_MAP_SIZE && x < CLUSTER_MAP_SIZE && v.fat[x] != 0 && v.fat[0] != 0
    requires Offset(n) <= |buf|
    ensures Grow(v, last, buf, i, n).0.fat[x] != 0
    decreases n - i
  {
    var c := FindEmptySpace(v.fat);
    if i < n && c < CLUSTER_MAP_SIZE {
      GrowKeepsUsed(Extend(v, last, c, Block(buf, i)), c, buf, i + 1, n, x);
    }
  }

  lemma ExtendedThenGrew(v: Volume, w: Volume, h: nat, last: nat, c: nat, block: ClusterBytes)
    requires Inv(v) && CanExtend(v, last, c) && Head(v, last) == h
    requires OnlyGrew(Extend(v, last, c, block), w, h, c)
    ensures OnlyGrew(v, w, h, last)
  {
    var v' := Extend(v, last, c, block);
    assert CellOk(v, c);
    forall x | 3 <= x < CLUSTER_MAP_SIZE && !v.own[x].Unused?
      ensures w.own[x] == v.own[x] && GrewAt(v, w, h, last, x)
    {
      assert GrewAt(v', w, h, c, x);
    }
    HeadFrame(v, w, last);
    forall x | 3 <= x < CLUSTER_MAP_SIZE && v.own[x].Unused?
      ensures GrewAt(v, w, h, last, x)
    {
      assert GrewAt(v', w, h, c, x);
    }
  }

  /** Blocks i up to n of a buffer, joined. */
  function Blocks(buf: seq<byte>, i: nat, n: nat): seq<byte>
    requires Offset(n) <= |buf|
    decreases n - i
  {
    if i >= n then [] else Block(buf, i) + Blocks(buf, i + 1, n)
  }

  lemma {:induction false} BlocksAreSlice(buf: seq<byte>, i: nat, n: nat)
    requires i <= n && Offset(n) <= |buf|
    ensures Blocks(buf, i, n) == buf[Offset(i)..Offset(n)]
    decreases n - i
  {
    if i < n {
      BlocksAreSlice(buf, i + 1, n);
    }
  }

  lemma Associative(a: seq<byte>, b: seq<byte>, c: seq<byte>)
    ensures a + b + c == a + (b + c)
  {
  }

  /** What a file reads after the loop: the blocks that found space were appended. */
  lemma {:induction false} GrowContent(v: Volume, h: nat, last: nat, buf: seq<byte>, i: nat, n: nat,
                                       w: Volume, end: nat)
    requires Inv(v) && Writing(v, h, last) && i <= n && Offset(n) <= |buf|
    requires w == Grow(v, last, buf, i, n).0 && end == i + Min(n - i, |Free(v.fat)|)
    ensures Content(w, h) == Content(v, h) + Blocks(buf, i, end)
    decreases n - i
  {
    hide Inv, Free;
    NoSpace(v.fat);
    if i == n || |Free(v.fat)| == 0 {
      ContentFrame(v, w, h);
    } else {
      var c := FindEmptySpace(v.fat);
      var block := Block(buf, i);
      var v' := Extend(v, last, c, block);
      assert Content(v', h) == Content(v, h) + block && Inv(v') && Writing(v', h, c)
             && |Free(v'.fat)| == |Free(v.fat)| - 1 by {
        WritingLast(v, h, last);
        WritingExtends(v, h, last, block);
        ExtendContent(v, last, c, block, h);
      }
      assert w == Grow(v', c, buf, i + 1, n).0;
      GrowContent(v', h, c, buf, i + 1, n, w, end);
      assert Blocks(buf, i, end) == block + Blocks(buf, i + 1, end);
      Associative(Content(v, h), block, Blocks(buf, i + 1, end));
    }
  }

  // ----- taking a file apart

  /** Cluster x belongs to the file whose first cluster is h. */
  predicate InFile(v: Volume, h: nat, x: nat) {
    IsFileCell(v, x) && Head(v, x) == h
  }

  /** Cluster x goes when the entry that names h goes. */
  predicate Goes(v: Volume, h: nat, x: nat) {
    x == h || InFile(v, h, x)
  }

  /** Between v and w what slot i of d named, at h, is gone, and nothing else changed. */
  ghost predicate OnlyRemoved(v: Volume, w: Volume, d: nat, i: nat, h: nat)
    requires IsDir(v, d) && i < TABLE_SIZE
  {
    && w.disk[d] == Directory(v.disk[d].table[i := Cleared(Slot(v, d, i))])
    && (forall x: nat | x < DISK_CLUSTERS && x != d && !Goes(v, h, x) :: w.disk[x] == v.disk[x])
    && (forall x: nat | x < CLUSTER_MAP_SIZE && !Goes(v, h, x) ::
          w.own[x] == v.own[x] && w.fat[x] == v.fat[x])
    && (forall x: nat | x < CLUSTER_MAP_SIZE && Goes(v, h, x) ::
          w.own[x] == Unused && w.fat[x] == 0 && w.disk[x] == Blank)
  }

  /** After dropping the first cluster, the file that starts at the second one has all the others. */
  lemma {:induction false} ShrinkFile(v: Volume, d: nat, i: nat, h: nat, x: nat)
    requires Inv(v) && CanShrink(v, d, i, h)
    ensures InFile(Shrink(v, d, i, h), v.fat[h], x) <==> x != h && InFile(v, h, x)
    decreases x
  {
    NextCell(v, h);
    if x != h && IsFileCell(v, x) && v.own[x].After? {
      PreviousCell(v, x);
      ShrinkFile(v, d, i, h, v.own[x].prev);
    }
  }

  lemma {:induction false} RemoveFileEffect(v: Volume, d: nat, i: nat, h: nat)
    requires Inv(v) && IsDir(v, d) && 2 <= i < TABLE_SIZE && 3 <= h < CLUSTER_MAP_SIZE && v.own[h] == FileIn(d, i)
    ensures Inv(RemoveFile(v, d, i, h)) && OnlyRemoved(v, RemoveFile(v, d, i, h), d, i, h)
    decreases CLUSTER_MAP_SIZE - h
  {
    NextCell(v, h);
    if Continues(v.fat, h) {
      ShrinkKeeps(v, d, i, h);
      ShrinkDir(v, d, i, h, d);
      RemoveFileEffect(Shrink(v, d, i, h), d, i, v.fat[h]);
      ShrinkThenRemoved(v, RemoveFile(v, d, i, h), d, i, h);
    } else {
      RemoveKeeps(v, d, i, h);
      forall x: nat
        ensures InFile(v, h, x) <==> x == h
      {
        AloneInFile(v, h, x);
      }
    }
  }

  /** A first cluster without a successor is its whole file. */
  lemma AloneInFile(v: Volume, h: nat, x: nat)
    requires Inv(v) && IsFileCell(v, h) && v.own[h].FileIn? && !Continues(v.fat, h)
    ensures InFile(v, h, x) <==> x == h
  {
    if InFile(v, h, x) {
      OnHeadsChain(v, x);
    }
  }

  lemma ShrinkThenRemoved(v: Volume, w: Volume, d: nat, i: nat, h: nat)
    requires Inv(v) && CanShrink(v, d, i, h) && IsDir(Shrink(v, d, i, h), d)
    requires OnlyRemoved(Shrink(v, d, i, h), w, d, i, v.fat[h])
    ensures OnlyRemoved(v, w, d, i, h)
  {
    var v' := Shrink(v, d, i, h);
    forall x: nat
      ensures InFile(v', v.fat[h], x) <==> x != h && InFile(v, h, x)
    {
      ShrinkFile(v, d, i, h, x);
    }
    assert InFile(v, h, h) && InFile(v, h, v.fat[h]) by {
      NextCell(v, h);
    }
    assert v'.disk[d].table[i := Cleared(Slot(v', d, i))] == v.disk[d].table[i := Cleared(Slot(v, d, i))];
  }

  lemma RemoveFolderEffect(v: Volume, d: nat, i: nat, h: nat)
    requires Inv(v) && CanRemove(v, d, i, h) && v.own[h].FolderIn?
    ensures Inv(Remove(v, d, i, h)) && OnlyRemoved(v, Remove(v, d, i, h), d, i, h)
  {
    RemoveKeeps(v, d, i, h);
    assert CellOk(v, h);
    forall x: nat
      ensures Goes(v, h, x) <==> x == h
    {
      if InFile(v, h, x) {
        HeadCell(v, x);
      }
    }
  }
}
