/** Who owns which cluster: the chains of a well-formed volume, and how growing and removing a file act on them. */
module Chains {
  import opened Layout
  import opened Volumes
  import opened VolumeInvariant

  // ----- walking a chain

  lemma NextCell(v: Volume, c: nat)
    requires Inv(v) && IsFileCell(v, c)
    ensures LinkOk(v, c) && v.disk[c].Data?
    ensures Continues(v.fat, c) ==> IsFileCell(v, v.fat[c]) && Head(v, v.fat[c]) == Head(v, c)
  {
    assert CellOk(v, c);
  }

  lemma PreviousCell(v: Volume, c: nat)
    requires Inv(v) && IsFileCell(v, c) && v.own[c].After?
    ensures var p := v.own[c].prev; p < c && IsFileCell(v, p) && v.fat[p] == c && Head(v, c) == Head(v, p)
  {
    assert CellOk(v, c);
    assert CellOk(v, v.own[c].prev);
  }

  /** Every cluster of a file leads back to a first cluster, which a slot names. */
  lemma {:induction false} HeadCell(v: Volume, c: nat)
    requires Inv(v) && IsFileCell(v, c)
    ensures Head(v, c) <= c && IsFileCell(v, Head(v, c)) && v.own[Head(v, c)].FileIn?
  {
    if v.own[c].After? {
      PreviousCell(v, c);
      HeadCell(v, v.own[c].prev);
    }
  }

  /** A chain ends properly, within its own file. */
  lemma {:induction false} LastCell(v: Volume, c: nat)
    requires Inv(v) && IsFileCell(v, c)
    ensures var l := Last(v.fat, c);
      c <= l && IsFileCell(v, l) && v.fat[l] == END_OF_FILE && Head(v, l) == Head(v, c)
    decreases CLUSTER_MAP_SIZE - c
  {
    NextCell(v, c);
    if Continues(v.fat, c) {
      LastCell(v, v.fat[c]);
    }
  }

  lemma {:induction false} ChainCells(v: Volume, c: nat, x: nat)
    requires Inv(v) && IsFileCell(v, c) && x in Chain(v.fat, c)
    ensures c <= x && IsFileCell(v, x) && Head(v, x) == Head(v, c)
    decreases CLUSTER_MAP_SIZE - c
  {
    NextCell(v, c);
    if Continues(v.fat, c) && x != c {
      ChainCells(v, v.fat[c], x);
    }
  }

  lemma {:induction false} ChainClosed(fat: CellMap, c: nat, x: nat)
    requires x in Chain(fat, c) && Continues(fat, x)
    ensures fat[x] in Chain(fat, c)
    decreases CLUSTER_MAP_SIZE - c
  {
    if Continues(fat, c) && x != c {
      ChainClosed(fat, fat[c], x);
    } else if Continues(fat, c) {
      assert fat[c] == Chain(fat, fat[c])[0];
    }
  }

  /** A file's cluster lies on the chain that starts at its head. */
  lemma {:induction false} OnHeadsChain(v: Volume, c: nat)
    requires Inv(v) && IsFileCell(v, c)
    ensures c in Chain(v.fat, Head(v, c))
    decreases c
  {
    if v.own[c].After? {
      PreviousCell(v, c);
      OnHeadsChain(v, v.own[c].prev);
      ChainClosed(v.fat, Head(v, c), v.own[c].prev);
    } else {
      assert Chain(v.fat, c)[0] == c;
    }
  }

  // ----- the partition theorem

  /** Slot i of directory d is in use and cluster c is on the chain it heads. */
  predicate Holds(v: Volume, d: nat, i: nat, c: nat) {
    IsDir(v, d) && 2 <= i < TABLE_SIZE && Used(Slot(v, d, i)) && c in Chain(v.fat, Slot(v, d, i).cluster)
  }

  /** The slot that owns a cluster in use. */
  lemma OwningSlot(v: Volume, d: nat, i: nat, c: nat)
    requires Inv(v) && Holds(v, d, i, c)
    ensures 3 <= c < CLUSTER_MAP_SIZE && v.fat[c] != 0
    ensures var o := v.own[Head(v, c)]; (o.FileIn? || o.FolderIn?) && o.dir == d && o.slot == i
  {
    assert DirOk(v, d);
    assert SlotOk(v, d, i);
    var h := Slot(v, d, i).cluster;
    assert CellOk(v, h);
    if v.own[h].FileIn? {
      ChainCells(v, h, c);
      assert CellOk(v, c);
    }
  }

  lemma InUseIsHeld(v: Volume, c: nat)
    requires Inv(v) && 3 <= c < CLUSTER_MAP_SIZE && v.fat[c] != 0
    ensures exists d, i :: Holds(v, d, i, c)
  {
    assert CellOk(v, c);
    if v.own[c].FolderIn? {
      assert Holds(v, v.own[c].dir, v.own[c].slot, c);
    } else {
      HeadCell(v, c);
      OnHeadsChain(v, c);
      assert CellOk(v, Head(v, c));
      var o := v.own[Head(v, c)];
      assert Holds(v, o.dir, o.slot, c);
    }
  }

  /** Each used entry heads an ascending chain of data clusters that ends in END_OF_FILE. */
  lemma ChainEnds(v: Volume, d: nat, i: nat)
    requires Inv(v) && IsDir(v, d) && 2 <= i < TABLE_SIZE && Used(Slot(v, d, i))
    ensures var s := Chain(v.fat, Slot(v, d, i).cluster);
      && (forall k | 0 <= k < |s| :: 3 <= s[k] < CLUSTER_MAP_SIZE)
      && (forall k | 0 <= k < |s| - 1 :: v.fat[s[k]] == s[k + 1] && s[k] < s[k + 1])
      && v.fat[s[|s| - 1]] == END_OF_FILE
  {
    assert DirOk(v, d) && SlotOk(v, d, i);
    var h := Slot(v, d, i).cluster;
    assert CellOk(v, h);
    if v.own[h].FileIn? {
      ChainLinks(v, h);
    }
  }

  lemma {:induction false} ChainLinks(v: Volume, c: nat)
    requires Inv(v) && IsFileCell(v, c)
    ensures var s := Chain(v.fat, c);
      && (forall k | 0 <= k < |s| :: 3 <= s[k] < CLUSTER_MAP_SIZE)
      && (forall k | 0 <= k < |s| - 1 :: v.fat[s[k]] == s[k + 1] && s[k] < s[k + 1])
      && v.fat[s[|s| - 1]] == END_OF_FILE
    decreases CLUSTER_MAP_SIZE - c
  {
    NextCell(v, c);
    if Continues(v.fat, c) {
      ChainLinks(v, v.fat[c]);
      var s, t := Chain(v.fat, c), Chain(v.fat, v.fat[c]);
      assert s == [c] + t && t[0] == v.fat[c];
      forall k | 0 <= k < |s| - 1
        ensures v.fat[s[k]] == s[k + 1] && s[k] < s[k + 1]
      {
        assert k > 0 ==> s[k] == t[k - 1];
      }
    }
  }

  /**
   * The cells in use from 3 on are exactly those on chains of used entries, and no cell is on the
   * chains of two entries: nothing is leaked and nothing is shared.
   */
  lemma ChainsPartition(v: Volume)
    requires Inv(v)
    ensures forall c | 3 <= c < CLUSTER_MAP_SIZE :: v.fat[c] != 0 <==> exists d, i :: Holds(v, d, i, c)
    ensures forall c, d, i, d', i' | Holds(v, d, i, c) && Holds(v, d', i', c) :: d == d' && i == i'
  {
    forall c | 3 <= c < CLUSTER_MAP_SIZE
      ensures v.fat[c] != 0 <==> exists d, i :: Holds(v, d, i, c)
    {
      if v.fat[c] != 0 {
        InUseIsHeld(v, c);
      }
      forall d, i | Holds(v, d, i, c)
        ensures v.fat[c] != 0
      {
        OwningSlot(v, d, i, c);
      }
    }
    forall c, d, i, d', i' | Holds(v, d, i, c) && Holds(v, d', i', c)
      ensures d == d' && i == i'
    {
      OwningSlot(v, d, i, c);
      OwningSlot(v, d', i', c);
    }
  }

  // ----- frames

  /** Heads depend only on the owners of clusters in use. */
  lemma {:induction false} HeadFrame(v: Volume, w: Volume, x: nat)
    requires Inv(v) && 3 <= x < CLUSTER_MAP_SIZE && !v.own[x].Unused?
    requires forall y | 3 <= y <= x && !v.own[y].Unused? :: w.own[y] == v.own[y]
    ensures Head(w, x) == Head(v, x)
    decreases x
  {
    assert CellOk(v, x);
    if v.own[x].After? {
      PreviousCell(v, x);
      HeadFrame(v, w, v.own[x].prev);
    }
  }

  /** A file reads the same when its own cells and clusters are untouched. */
  lemma {:induction false} ContentFrame(v: Volume, w: Volume, x: nat)
    requires Inv(v) && IsFileCell(v, x)
    requires forall y: nat | IsFileCell(v, y) && Head(v, y) == Head(v, x) ::
      w.fat[y] == v.fat[y] && w.disk[y] == v.disk[y]
    ensures Content(w, x) == Content(v, x)
    decreases CLUSTER_MAP_SIZE - x
  {
    NextCell(v, x);
    if Continues(v.fat, x) {
      ContentFrame(v, w, v.fat[x]);
    }
  }

  lemma FirstOf(all: seq<byte>, head: ClusterBytes, rest: seq<byte>)
    requires all == head + rest
    ensures 2048 <= |all| && all[2048 * 0 .. 2048 * 0 + 2048] == head
  {
  }

  lemma Behind(all: seq<byte>, head: ClusterBytes, rest: seq<byte>, k: nat)
    requires all == head + rest && k > 0 && 2048 * k <= |rest|
    ensures 2048 * k + 2048 <= |all|
    ensures all[2048 * k .. 2048 * k + 2048] == rest[2048 * (k - 1) .. 2048 * (k - 1) + 2048]
  {
  }

  /** The first cluster of a chain, and what is behind it. */
  lemma ContentStep(v: Volume, c: nat)
    requires Inv(v) && IsFileCell(v, c)
    ensures v.disk[c].Data?
    ensures |Chain(v.fat, c)| > 1 ==> IsFileCell(v, v.fat[c]) && Chain(v.fat, c)[1..] == Chain(v.fat, v.fat[c])
    ensures Content(v, c)
         == v.disk[c].bytes + if |Chain(v.fat, c)| > 1 then Content(v, v.fat[c]) else []
  {
    NextCell(v, c);
  }

  /** Block k of what a file reads is what the image holds in the k-th cluster of its chain. */
  lemma {:induction false} ContentBlock(v: Volume, c: nat, k: nat, x: nat)
    requires Inv(v) && IsFileCell(v, c) && k < |Chain(v.fat, c)| && x == Chain(v.fat, c)[k]
    ensures x < CLUSTER_MAP_SIZE && 2048 * k + 2048 <= |Content(v, c)|
    ensures Content(v, c)[2048 * k .. 2048 * k + 2048] == Bytes(v.disk[x])
    decreases k
  {
    hide Inv, Content, Chain;
    ContentStep(v, c);
    var head: ClusterBytes := v.disk[c].bytes;
    if k == 0 {
      FirstOf(Content(v, c), head, if |Chain(v.fat, c)| > 1 then Content(v, v.fat[c]) else []);
    } else {
      ContentBlock(v, v.fat[c], k - 1, x);
      hide Bytes;
      Behind(Content(v, c), head, Content(v, v.fat[c]), k);
    }
  }

  /** Extending a chain appends the block to what it reads. */
  lemma {:induction false} ExtendContent(v: Volume, last: nat, c: nat, block: ClusterBytes, x: nat)
    requires Inv(v) && CanExtend(v, last, c) && IsFileCell(v, x) && Last(v.fat, x) == last
    ensures Content(Extend(v, last, c, block), x) == Content(v, x) + block
    ensures Last(Extend(v, last, c, block).fat, x) == c
    decreases CLUSTER_MAP_SIZE - x
  {
    var w := Extend(v, last, c, block);
    NextCell(v, x);
    assert CellOk(v, c);
    if x == last {
      assert Content(w, c) == block + [] == block;
    } else {
      ExtendContent(v, last, c, block, v.fat[x]);
      assert FileBytes(v.disk[x]) + (Content(v, v.fat[x]) + block)
          == FileBytes(v.disk[x]) + Content(v, v.fat[x]) + block;
    }
  }
}
