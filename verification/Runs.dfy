/** What holds over whole runs of operations, and what one operation undoes of another. */
module Runs {
  import opened Layout
  import opened Volumes
  import opened Tree
  import opened Refinement

  datatype Op = WriteOp(r: Request) | DeleteOp(r: Request)

  /** The hypotheses under which an operation is well-behaved on v. */
  ghost predicate Allowed(v: Volume, op: Op) {
    match op
    case WriteOp(r) => Admissible(v, r) && !Misfiles(v, r)
    case DeleteOp(r) => TableAt?(v, r.parent) && r.key != NO_KEY
  }

  ghost function Apply(v: Volume, op: Op): (Volume, int)
    requires Inv(v) && Allowed(v, op)
  {
    match op
    case WriteOp(r) => Write(v, r)
    case DeleteOp(r) => Delete(v, r)
  }

  /** The operations ops, each allowed where it is applied, lead from v to w. */
  ghost predicate Run(v: Volume, ops: seq<Op>, w: Volume)
    decreases |ops|
  {
    if ops == [] then w == v
    else Inv(v) && Allowed(v, ops[0]) && Run(Apply(v, ops[0]).0, ops[1..], w)
  }

  lemma ApplyKeeps(v: Volume, op: Op)
    requires Inv(v) && Allowed(v, op)
    ensures Inv(Apply(v, op).0)
  {
    var (w, code) := Apply(v, op);
    match op
    case WriteOp(r) => WriteRefines(v, r, w, code);
    case DeleteOp(r) => DeleteRefines(v, r, w, code);
  }

  /** Every run keeps the volume well-formed: chains, ownership, directories and zeroed free space. */
  lemma {:induction false} RunKeeps(v: Volume, ops: seq<Op>, w: Volume)
    requires Inv(v) && Run(v, ops, w)
    ensures Inv(w)
    decreases |ops|
  {
    if ops != [] {
      ApplyKeeps(v, ops[0]);
      RunKeeps(Apply(v, ops[0]).0, ops[1..], w);
    }
  }

  // ----- the new file system

  function NewMap(): CellMap {
    seq(512, _ => 0)[0 := CLUSTER_0_VALUE][1 := END_OF_FILE][2 := END_OF_FILE]
  }

  const ROOT_NAME: Name := [82, 111, 111, 116, 0, 0, 0, 0]

  function RootTable(): Table {
    NewTable(ROOT_NAME, ROOT_CLUSTER)[0 := HeaderEntry(ROOT_NAME, ROOT_CLUSTER)]
  }

  /** What create_fat32 makes of a zero-filled image. */
  function Created(): Volume {
    Volume(NewMap(),
           seq(2048, _ => Blank)[0 := Boot][1 := Map(NewMap())][2 := Directory(RootTable())],
           seq(512, _ => Unused)[0 := Reserved][1 := Reserved][2 := Root])
  }

  lemma CreatedIsWellFormed()
    ensures Inv(Created()) && Synced(Created())
    ensures TreeOf(Created()) == Tree(iset{2}, imap[])
  {
    var v := Created();
    forall c | 3 <= c < CLUSTER_MAP_SIZE
      ensures CellOk(v, c)
    {
    }
    forall p | Present(v, p)
      ensures false
    {
      FoundEntry(v, p.dir, p.key);
    }
    TreeIs(v, iset{2}, imap[]);
  }

  /** The 32 bytes of a folder's own entry or its parent entry: attribute 16, used mark 170, no size. */
  lemma HeaderBytes(name: Name, c: u32)
    ensures EncodeEntry(HeaderEntry(name, c)) ==
      name + [0, 0, 0] + [16, 170] + [0, 0, 0, 0, 0, 0, 0] + [c / 0x1_0000 % 0x100, c / 0x100_0000]
      + [0, 0, 0, 0] + [c % 0x100, c / 0x100 % 0x100] + [0, 0, 0, 0]
  {
    hide EncodeEntry;
    var e := HeaderEntry(name, c);
    EntryBytes(e);
    EntryPieces(EncodeEntry(e));
  }

  lemma EntryPieces(b: seq<byte>)
    requires |b| == 32
    ensures b == b[0..8] + b[8..11] + [b[11], b[12]] + b[13..20] + b[20..22] + b[22..26] + b[26..28] + b[28..32]
  {
  }

  /** A table with nothing but two header entries, byte by byte. */
  lemma HeadersOnDisk(t: Table, own: Entry, parent: Entry)
    requires t == ZeroTable()[0 := own][1 := parent]
    ensures EncodeTable(t) == EncodeEntry(own) + EncodeEntry(parent) + seq(1984, _ => 0)
  {
    hide EncodeTable, EncodeEntry;
    var b := EncodeTable(t);
    TableSlice(t, 0);
    TableSlice(t, 1);
    forall k | 64 <= k < CLUSTER_SIZE
      ensures b[k] == 0
    {
      HeadersThenZero(t, k);
    }
    HeaderPieces(b);
  }

  lemma HeaderPieces(b: ClusterBytes)
    requires forall k | 64 <= k < CLUSTER_SIZE :: b[k] == 0
    ensures b == b[32 * 0 .. 32 * 0 + 32] + b[32 * 1 .. 32 * 1 + 32] + seq(1984, _ => 0)
  {
  }

  lemma HeadersThenZero(t: Table, k: nat)
    requires t[2..] == ZeroTable()[2..] && 64 <= k < CLUSTER_SIZE
    ensures EncodeTable(t)[k] == 0
  {
    assert t[k / 32] == t[2..][k / 32 - 2] == ZERO_ENTRY;
    BlankTable();
    assert EncodeTable(ZeroTable())[k] == EncodeEntry(ZERO_ENTRY)[k % 32];
  }

  lemma NewMapByte(k: nat)
    requires 12 <= k < CLUSTER_SIZE
    ensures EncodeMap(NewMap())[k] == 0
  {
    assert NewMap()[k / 4] == 0 && Encode32(0) == [0, 0, 0, 0];
  }

  lemma NewMapBytes()
    ensures EncodeMap(NewMap()) ==
      [0xF0, 0xFF, 0xFF, 0x0F, 0xFF, 0xFF, 0xFF, 0x0F, 0xFF, 0xFF, 0xFF, 0x0F] + seq(2036, _ => 0)
  {
    hide EncodeMap;
    var b := EncodeMap(NewMap());
    MapBytes(NewMap(), 0);
    MapBytes(NewMap(), 1);
    MapBytes(NewMap(), 2);
    forall k | 12 <= k < CLUSTER_SIZE
      ensures b[k] == 0
    {
      NewMapByte(k);
    }
    assert b == b[0..4] + b[4..8] + b[8..12] + b[12..];
  }

  /** The bytes of the root's table: its own entry, named "Root", and its parent entry, named "..". */
  lemma RootBytes()
    ensures EncodeTable(RootTable()) ==
      [82, 111, 111, 116, 0, 0, 0, 0] + [0, 0, 0] + [16, 170] + [0, 0, 0, 0, 0, 0, 0] + [0, 0]
      + [0, 0, 0, 0] + [2, 0] + [0, 0, 0, 0]
      + ([46, 46, 0, 0, 0, 0, 0, 0] + [0, 0, 0] + [16, 170] + [0, 0, 0, 0, 0, 0, 0] + [0, 0]
         + [0, 0, 0, 0] + [2, 0] + [0, 0, 0, 0])
      + seq(1984, _ => 0)
  {
    hide EncodeTable, EncodeEntry;
    HeadersOnDisk(RootTable(), HeaderEntry(ROOT_NAME, ROOT_CLUSTER), HeaderEntry(DOT_DOT, ROOT_CLUSTER));
    hide RootTable, HeaderEntry;
    HeaderBytes(ROOT_NAME, ROOT_CLUSTER);
    HeaderBytes(DOT_DOT, ROOT_CLUSTER);
  }

  /** The bytes of a new folder's table: its own name with no cluster, and ".." with its parent's. */
  lemma NewFolderBytes(name: Name, parent: u32)
    ensures Bytes(Directory(NewTable(name, parent))) ==
      name + [0, 0, 0] + [16, 170] + [0, 0, 0, 0, 0, 0, 0] + [0, 0] + [0, 0, 0, 0] + [0, 0] + [0, 0, 0, 0]
      + ([46, 46, 0, 0, 0, 0, 0, 0] + [0, 0, 0] + [16, 170] + [0, 0, 0, 0, 0, 0, 0]
         + [parent / 0x1_0000 % 0x100, parent / 0x100_0000] + [0, 0, 0, 0] + [parent % 0x100, parent / 0x100 % 0x100]
         + [0, 0, 0, 0])
      + seq(1984, _ => 0)
  {
    hide EncodeTable, EncodeEntry;
    HeadersOnDisk(NewTable(name, parent), HeaderEntry(name, 0), HeaderEntry(DOT_DOT, parent));
    hide NewTable, HeaderEntry;
    HeaderBytes(name, 0);
    HeaderBytes(DOT_DOT, parent);
  }

  // ----- reading back

  /** An operation on another name leaves a file as it is. */
  lemma OtherFileKept(v: Volume, op: Op, q: Path)
    requires Inv(v) && Allowed(v, op) && PathOf(op.r) != q
    requires Present(v, q) && Lookup(v, q).File?
    ensures Present(Apply(v, op).0, q) && Lookup(Apply(v, op).0, q) == Lookup(v, q)
  {
    hide Inv, TreeOf, Write, Delete, OutOfSpace, WriteCode;
    hide Present, Lookup, Admissible, Misfiles, Free, Synced, NothingIn;
    var (w, code) := Apply(v, op);
    InTree(v, q);
    InTree(w, q);
    match op
    case WriteOp(r) => WriteRefines(v, r, w, code);
    case DeleteOp(r) => DeleteRefines(v, r, w, code);
  }

  lemma InTree(v: Volume, q: Path)
    ensures q in TreeOf(v).objs <==> Present(v, q)
    ensures Present(v, q) ==> TreeOf(v).objs[q] == Lookup(v, q)
  {
  }

  /** The operations are on other names than q. */
  ghost predicate Elsewhere(ops: seq<Op>, q: Path) {
    forall op | op in ops :: PathOf(op.r) != q
  }

  lemma {:induction false} FileSurvives(v: Volume, ops: seq<Op>, w: Volume, q: Path)
    requires Inv(v) && Run(v, ops, w) && Elsewhere(ops, q)
    requires Present(v, q) && Lookup(v, q).File?
    ensures Present(w, q) && Lookup(w, q) == Lookup(v, q)
    decreases |ops|
  {
    hide Inv, Write, Delete, Present, Lookup;
    if ops != [] {
      ApplyKeeps(v, ops[0]);
      OtherFileKept(v, ops[0], q);
      FileSurvives(Apply(v, ops[0]).0, ops[1..], w, q);
    }
  }

  /**
   * What was written is what is read, whatever is done to other names in between.
   */
  lemma ReadAfterWrite(v: Volume, r: Request, u: Volume, ops: seq<Op>, w: Volume, later: Request)
    requires Inv(v) && Allowed(v, WriteOp(r)) && r.size > 0 && Write(v, r) == (u, 0)
    requires Run(u, ops, w) && Elsewhere(ops, PathOf(r))
    requires PathOf(later) == PathOf(r) && later.size >= r.size
    ensures Inv(w) && TableAt?(w, later.parent) && Read(w, later).0 == 0
    ensures |Read(w, later).1| >= r.size && Read(w, later).1[..r.size] == r.buf[..r.size]
  {
    WriteRefines(v, r, u, 0);
    InTree(u, PathOf(r));
    FileSurvives(u, ops, w, PathOf(r));
    RunKeeps(u, ops, w);
    InTree(w, PathOf(r));
    ReadRefines(w, later);
  }

  // ----- the copy of the table on disk

  /** Mounting reads the allocation table back from disk. */
  function Mount(v: Volume): Volume
    requires v.disk[FAT_CLUSTER].Map?
  {
    v.(fat := v.disk[FAT_CLUSTER].cells)
  }

  /** A file gets its slot and a first cluster, but there is no space for all of it. */
  ghost predicate CutShort(v: Volume, op: Op) {
    op.WriteOp? && CanFill(v, op.r) && |Free(v.fat)| < ClustersNeeded(op.r)
  }

  /**
   * The copies of the table agree after an operation, and a remount changes nothing, exactly when it
   * is not a file cut short by lack of space. An operation that returned 0 makes them agree.
   */
  lemma MountAfter(v: Volume, op: Op, w: Volume, code: int)
    requires Inv(v) && Allowed(v, op) && (w, code) == Apply(v, op)
    ensures w.disk[FAT_CLUSTER].Map?
    ensures Synced(v) ==> (Mount(w) == w <==> !CutShort(v, op))
    ensures code == 0 ==> Mount(w) == w
    ensures CutShort(v, op) ==> code == -1
  {
    ApplyKeeps(v, op);
    match op
    case WriteOp(r) =>
      WriteRefines(v, r, w, code);
      if CutShort(v, op) {
        assert w.fat != v.fat;
      }
    case DeleteOp(r) => DeleteRefines(v, r, w, code);
  }

  // ----- dead parents

  /** A free cluster is zeroed, so a request may name it, and it is not live. */
  lemma FreeIsDead(v: Volume, c: nat)
    requires Inv(v) && 3 <= c < CLUSTER_MAP_SIZE && v.fat[c] == 0
    ensures Bytes(v.disk[c]) == ZeroBytes() && TableAt?(v, c) && c !in TreeOf(v).dirs
  {
    assert CellOk(v, c);
  }

  /** A request whose parent is no live directory fails and changes nothing. */
  lemma DeadParent(v: Volume, r: Request)
    requires Inv(v) && Admissible(v, r) && r.parent !in TreeOf(v).dirs
    ensures Write(v, r) == (v, 2) && Delete(v, r) == (v, 1) && Read(v, r) == (3, [])
  {
    WriteRejected(v, r);
    FoundIsPresent(v, r.parent, r.key);
  }
}
