/**
 * The file system's state as values, what each operation does to it, and what a well-formed
 * volume is. Clusters carry the use their bytes are put to; `own` says who refers to each cluster.
 */
module Volumes {
  import opened Layout

  const DISK_CLUSTERS := 2048

  /** The one referrer of a cluster: a directory slot, or the preceding cluster of a file. */
  datatype Owner =
    | Reserved
    | Unused
    | Root
    | FolderIn(dir: nat, slot: nat, depth: nat)
    | FileIn(dir: nat, slot: nat)
    | After(prev: nat)

  type Disk = d: seq<Cluster> | |d| == DISK_CLUSTERS witness seq(2048, _ => Blank)
  type Owners = o: seq<Owner> | |o| == CLUSTER_MAP_SIZE witness seq(512, _ => Unused)

  /** `fat` is the cached allocation table; its copy on disk is `disk[FAT_CLUSTER]`. */
  datatype Volume = Volume(fat: CellMap, disk: Disk, own: Owners)

  /** A request; `size` is its buffer_size and `buf` the memory at its buffer pointer. */
  datatype Request = Request(key: Key, parent: nat, size: u32, buf: seq<byte>)

  // ----- tables and cells

  predicate Used(e: Entry) {
    e.userAttribute == UATTR_NOT_EMPTY
  }

  // The three searches count their progress against the length of what they search.

  /** The first slot from 2 whose name and extension match, or TABLE_SIZE. */
  function FindEntry(t: Table, k: Key, from: nat := 2): (i: nat)
    requires from <= |t|
    ensures from <= i <= TABLE_SIZE && (i < TABLE_SIZE ==> t[i].key == k)
    ensures forall j | from <= j < i :: t[j].key != k
    decreases |t| - from
  {
    if from == |t| || t[from].key == k then from else FindEntry(t, k, from + 1)
  }

  /** The first slot from 2 not in use, or TABLE_SIZE. */
  function FindEmptySlot(t: Table, from: nat := 2): (i: nat)
    requires from <= |t|
    ensures from <= i <= TABLE_SIZE && (i < TABLE_SIZE ==> !Used(t[i]))
    ensures forall j | from <= j < i :: Used(t[j])
    decreases |t| - from
  {
    if from == |t| || !Used(t[from]) then from else FindEmptySlot(t, from + 1)
  }

  /** The lowest free cell, or CLUSTER_MAP_SIZE. */
  function FindEmptySpace(fat: CellMap, from: nat := 0): (c: nat)
    requires from <= |fat|
    ensures from <= c <= CLUSTER_MAP_SIZE && (c < CLUSTER_MAP_SIZE ==> fat[c] == 0)
    ensures forall x | from <= x < c :: fat[x] != 0
    decreases |fat| - from
  {
    if from == |fat| || fat[from] == 0 then from else FindEmptySpace(fat, from + 1)
  }

  predicate EmptyTable(t: Table) {
    forall i | 2 <= i < TABLE_SIZE :: !Used(t[i])
  }

  /** What a filled slot holds; creating a folder also raises its attribute, a file leaves it. */
  function Filled(e: Entry, k: Key, c: u32, size: u32): Entry {
    e.(key := k, userAttribute := UATTR_NOT_EMPTY, cluster := c, filesize := size,
       attribute := if size == 0 then ATTR_SUBDIRECTORY else e.attribute)
  }

  /** What deleting leaves in a slot: the attribute and the stamps stay. */
  function Cleared(e: Entry): Entry {
    e.(key := NO_KEY, userAttribute := 0, cluster := 0, filesize := 0)
  }

  const DOT_DOT: Name := [46, 46, 0, 0, 0, 0, 0, 0]

  /** A folder's own entry or its parent entry, in slots 0 and 1. */
  function HeaderEntry(name: Name, c: u32): Entry {
    Entry(Key(name, NO_EXT), ATTR_SUBDIRECTORY, UATTR_NOT_EMPTY, [0, 0, 0, 0, 0, 0, 0], c, [0, 0, 0, 0], 0)
  }

  function NewTable(name: Name, parent: u32): Table {
    ZeroTable()[0 := HeaderEntry(name, 0)][1 := HeaderEntry(DOT_DOT, parent)]
  }

  // ----- reading directories

  /** A cluster that a request may name as its parent: a live directory or zeroed space. */
  predicate TableAt?(v: Volume, d: nat) {
    d < DISK_CLUSTERS && (v.disk[d].Directory? || v.disk[d].Blank?)
  }

  function TableAt(v: Volume, d: nat): Table
    requires TableAt?(v, d)
  {
    if v.disk[d].Directory? then v.disk[d].table else ZeroTable()
  }

  predicate IsDir(v: Volume, d: nat) {
    d < CLUSTER_MAP_SIZE && (v.own[d].Root? || v.own[d].FolderIn?) && v.disk[d].Directory?
  }

  function Slot(v: Volume, d: nat, i: nat): Entry
    requires IsDir(v, d) && i < TABLE_SIZE
  {
    v.disk[d].table[i]
  }

  function Depth(v: Volume, d: nat): nat {
    if d < CLUSTER_MAP_SIZE && v.own[d].FolderIn? then v.own[d].depth else 0
  }

  function Parent(v: Volume, d: nat): nat {
    if d < CLUSTER_MAP_SIZE && v.own[d].FolderIn? then v.own[d].dir else d
  }

  // ----- file chains

  predicate IsFileCell(v: Volume, c: nat) {
    3 <= c < CLUSTER_MAP_SIZE && (v.own[c].FileIn? || v.own[c].After?)
  }

  /** The cell continues to a later cluster of its file. */
  predicate Continues(fat: CellMap, c: nat) {
    c < CLUSTER_MAP_SIZE && c < fat[c] < CLUSTER_MAP_SIZE
  }

  /** The clusters a file occupies, in order. */
  function Chain(fat: CellMap, c: nat): (s: seq<nat>)
    ensures |s| > 0 && s[0] == c
    decreases CLUSTER_MAP_SIZE - c
  {
    if Continues(fat, c) then [c] + Chain(fat, fat[c]) else [c]
  }

  function Last(fat: CellMap, c: nat): nat
    decreases CLUSTER_MAP_SIZE - c
  {
    if Continues(fat, c) then Last(fat, fat[c]) else c
  }

  function FileBytes(c: Cluster): seq<byte> {
    if c.Data? then c.bytes else []
  }

  /** The bytes along a chain, whole clusters. */
  function Content(v: Volume, c: nat): seq<byte>
    requires c < CLUSTER_MAP_SIZE
    decreases CLUSTER_MAP_SIZE - c
  {
    FileBytes(v.disk[c]) + if Continues(v.fat, c) then Content(v, v.fat[c]) else []
  }

  /** The first cluster of the file a cluster belongs to. */
  function Head(v: Volume, c: nat): (h: nat)
    requires c < CLUSTER_MAP_SIZE
    ensures h <= c
    decreases c
  {
    if v.own[c].After? && v.own[c].prev < c then Head(v, v.own[c].prev) else c
  }

  function Free(fat: CellMap): set<nat> {
    set c | 0 <= c < CLUSTER_MAP_SIZE && fat[c] == 0
  }

  // ----- well-formedness

  predicate LinkOk(v: Volume, c: nat)
    requires c < CLUSTER_MAP_SIZE
  {
    v.fat[c] == END_OF_FILE || (Continues(v.fat, c) && v.own[v.fat[c]] == After(c))
  }

  /** Slot i of directory d is in use and names cluster c. */
  predicate Names(v: Volume, d: nat, i: nat, c: nat) {
    IsDir(v, d) && 2 <= i < TABLE_SIZE && Used(Slot(v, d, i)) && Slot(v, d, i).cluster == c
  }

  predicate CellOk(v: Volume, c: nat)
    requires 3 <= c < CLUSTER_MAP_SIZE
  {
    match v.own[c]
    case Unused => v.fat[c] == 0 && v.disk[c].Blank?
    case FolderIn(d, i, depth) =>
      && v.fat[c] == END_OF_FILE && IsDir(v, c) && Names(v, d, i, c)
      && depth == Depth(v, d) + 1
      && Slot(v, d, i).attribute == ATTR_SUBDIRECTORY
      && Slot(v, c, 0).key.name == Slot(v, d, i).key.name
    case FileIn(d, i) =>
      && LinkOk(v, c) && v.disk[c].Data? && Names(v, d, i, c)
      && Slot(v, d, i).attribute != ATTR_SUBDIRECTORY
    case After(p) => LinkOk(v, c) && v.disk[c].Data? && 3 <= p < c && v.fat[p] == c
    case _ => false
  }

  predicate SlotOk(v: Volume, d: nat, i: nat)
    requires IsDir(v, d) && 2 <= i < TABLE_SIZE
  {
    var e := Slot(v, d, i);
    if Used(e) then
      && e.key != NO_KEY
      && 3 <= e.cluster < CLUSTER_MAP_SIZE
      && (if e.attribute == ATTR_SUBDIRECTORY
          then v.own[e.cluster].FolderIn? && v.own[e.cluster].dir == d && v.own[e.cluster].slot == i && e.filesize == 0
          else v.own[e.cluster] == FileIn(d, i) && e.filesize > 0)
    else e == Cleared(e)
  }

  /** No two used slots share a name and extension. */
  predicate DistinctKeys(t: Table) {
    forall i, j | 2 <= i < j < TABLE_SIZE && Used(t[i]) && Used(t[j]) :: t[i].key != t[j].key
  }

  predicate DirOk(v: Volume, d: nat)
    requires IsDir(v, d)
  {
    && Slot(v, d, 0).attribute == ATTR_SUBDIRECTORY
    && Slot(v, d, 1).cluster == Parent(v, d)
    && DistinctKeys(v.disk[d].table)
    && forall i | 2 <= i < TABLE_SIZE :: SlotOk(v, d, i)
  }

  ghost predicate Inv(v: Volume) {
    && v.fat[0] == CLUSTER_0_VALUE && v.fat[1] == END_OF_FILE && v.fat[2] == END_OF_FILE
    && v.own[0].Reserved? && v.own[1].Reserved? && v.own[2].Root?
    && v.disk[0].Boot? && v.disk[1].Map? && v.disk[2].Directory?
    && (forall c | 3 <= c < CLUSTER_MAP_SIZE :: CellOk(v, c))
    && (forall d | IsDir(v, d) :: DirOk(v, d))
    && (forall c | CLUSTER_MAP_SIZE <= c < DISK_CLUSTERS :: v.disk[c].Blank?)
  }

  /** The allocation table on disk is the cached one. */
  predicate Synced(v: Volume) {
    v.disk[FAT_CLUSTER] == Map(v.fat)
  }

  // ----- single steps

  /** Writes the cached allocation table to disk. */
  function Flush(v: Volume): Volume {
    v.(disk := v.disk[FAT_CLUSTER := Map(v.fat)])
  }

  /** Fills slot i of directory d for a new folder in free cluster c. */
  function AddFolder(v: Volume, d: nat, i: nat, k: Key, c: nat): Volume
    requires TableAt?(v, d) && i < TABLE_SIZE && c < CLUSTER_MAP_SIZE
  {
    var t := TableAt(v, d);
    Volume(v.fat[c := END_OF_FILE],
           v.disk[d := Directory(t[i := Filled(t[i], k, c, 0)])][c := Directory(NewTable(k.name, d))],
           v.own[c := FolderIn(d, i, Depth(v, d) + 1)])
  }

  /** Fills slot i of directory d for a new file whose first block goes to free cluster c. */
  function AddFile(v: Volume, d: nat, i: nat, k: Key, size: u32, c: nat, block: ClusterBytes): Volume
    requires TableAt?(v, d) && i < TABLE_SIZE && c < CLUSTER_MAP_SIZE
  {
    var t := TableAt(v, d);
    Volume(v.fat[c := END_OF_FILE],
           v.disk[d := Directory(t[i := Filled(t[i], k, c, size)])][c := Data(block)],
           v.own[c := FileIn(d, i)])
  }

  /** Appends free cluster c to the file that ends in cluster `last`. */
  function Extend(v: Volume, last: nat, c: nat, block: ClusterBytes): Volume
    requires last < CLUSTER_MAP_SIZE && c < CLUSTER_MAP_SIZE
  {
    Volume(v.fat[last := c][c := END_OF_FILE], v.disk[c := Data(block)], v.own[c := After(last)])
  }

  /** Drops the first cluster h of the file in slot i of directory d; the next one becomes first. */
  function Shrink(v: Volume, d: nat, i: nat, h: nat): Volume
    requires TableAt?(v, d) && i < TABLE_SIZE && h < CLUSTER_MAP_SIZE && Continues(v.fat, h)
  {
    var t := TableAt(v, d);
    Volume(v.fat[h := 0],
           v.disk[d := Directory(t[i := t[i].(cluster := v.fat[h])])][h := Blank],
           v.own[h := Unused][v.fat[h] := FileIn(d, i)])
  }

  /** Clears slot i of directory d and frees its only cluster h. */
  function Remove(v: Volume, d: nat, i: nat, h: nat): Volume
    requires TableAt?(v, d) && i < TABLE_SIZE && h < CLUSTER_MAP_SIZE
  {
    var t := TableAt(v, d);
    Volume(v.fat[h := 0], v.disk[d := Directory(t[i := Cleared(t[i])])][h := Blank], v.own[h := Unused])
  }

  // ----- operations

  function BlocksNeeded(size: u32): nat {
    (size as int + 2047) / 2048
  }

  /** The request's memory covers the whole clusters that are copied from it. */
  predicate BufferOk(r: Request) {
    |r.buf| >= Offset(BlocksNeeded(r.size))
  }

  function Block(buf: seq<byte>, i: nat): ClusterBytes
    requires Offset(i + 1) <= |buf|
  {
    buf[Offset(i)..Offset(i + 1)]
  }

  /** Blocks i..n of buf appended to the file ending in `last`, as far as there is space. */
  function Grow(v: Volume, last: nat, buf: seq<byte>, i: nat, n: nat): (Volume, int)
    requires last < CLUSTER_MAP_SIZE && Offset(n) <= |buf|
    decreases n - i
  {
    if i >= n then (Flush(v), 0)
    else
      var c := FindEmptySpace(v.fat);
      if c == CLUSTER_MAP_SIZE then (v, -1)
      else Grow(Extend(v, last, c, Block(buf, i)), c, buf, i + 1, n)
  }

  function Write(v: Volume, r: Request): (Volume, int)
    requires TableAt?(v, r.parent) && BufferOk(r)
  {
    var t := TableAt(v, r.parent);
    if t[0].attribute != ATTR_SUBDIRECTORY then (v, 2)
    else if FindEntry(t, r.key) < TABLE_SIZE then (v, 1)
    else
      var i := FindEmptySlot(t);
      var c := FindEmptySpace(v.fat);
      if i == TABLE_SIZE || c == CLUSTER_MAP_SIZE then (v, -1)
      else if r.size == 0 then
        (Flush(AddFolder(v, r.parent, i, r.key, c)), 0)
      else
        Grow(AddFile(v, r.parent, i, r.key, r.size, c, Block(r.buf, 0)), c, r.buf, 1, BlocksNeeded(r.size))
  }

  /** The file in slot i of directory d, whose first cluster is h, taken off cluster by cluster. */
  function RemoveFile(v: Volume, d: nat, i: nat, h: nat): Volume
    requires TableAt?(v, d) && i < TABLE_SIZE && h < CLUSTER_MAP_SIZE
    decreases CLUSTER_MAP_SIZE - h
  {
    if Continues(v.fat, h) then RemoveFile(Shrink(v, d, i, h), d, i, v.fat[h]) else Remove(v, d, i, h)
  }

  /** On a well-formed volume a cluster that reads as a directory is one. */
  lemma DirectoryIsDir(v: Volume, d: nat)
    requires Inv(v) && d < DISK_CLUSTERS && v.disk[d].Directory?
    ensures IsDir(v, d) && DirOk(v, d)
  {
    if 3 <= d < CLUSTER_MAP_SIZE {
      assert CellOk(v, d);
    }
  }

  /** A lookup by a proper name finds a used slot of a live directory. */
  lemma FoundEntry(v: Volume, d: nat, k: Key)
    requires Inv(v) && TableAt?(v, d) && k != NO_KEY
    requires FindEntry(TableAt(v, d), k) < TABLE_SIZE
    ensures IsDir(v, d) && DirOk(v, d) && Used(Slot(v, d, FindEntry(TableAt(v, d), k)))
    ensures SlotOk(v, d, FindEntry(TableAt(v, d), k))
    ensures var c := Slot(v, d, FindEntry(TableAt(v, d), k)).cluster; 3 <= c < CLUSTER_MAP_SIZE && CellOk(v, c)
  {
    var i := FindEntry(TableAt(v, d), k);
    DirectoryIsDir(v, d);
    assert SlotOk(v, d, i);
    assert CellOk(v, Slot(v, d, i).cluster);
  }

  ghost function Delete(v: Volume, r: Request): (Volume, int)
    requires Inv(v) && TableAt?(v, r.parent) && r.key != NO_KEY
  {
    var t := TableAt(v, r.parent);
    var i := FindEntry(t, r.key);
    if i == TABLE_SIZE then (v, 1)
    else
      FoundEntry(v, r.parent, r.key);
      var c := t[i].cluster;
      if t[i].attribute != ATTR_SUBDIRECTORY then (Flush(RemoveFile(v, r.parent, i, c)), 0)
      else if !EmptyTable(TableAt(v, c)) then (v, 2)
      else (Flush(Remove(v, r.parent, i, c)), 0)
  }

  /** The return code of `read`, told from the parent's table. */
  function ReadCode(t: Table, k: Key, size: u32): int {
    var i := FindEntry(t, k);
    if i == TABLE_SIZE then 3
    else if size < t[i].filesize then 2
    else if t[i].attribute == ATTR_SUBDIRECTORY then 1
    else 0
  }

  /** The return code of `read`, and what it copies to the caller's buffer. */
  ghost function Read(v: Volume, r: Request): (int, seq<byte>)
    requires Inv(v) && TableAt?(v, r.parent) && r.key != NO_KEY
  {
    var t := TableAt(v, r.parent);
    var code := ReadCode(t, r.key, r.size);
    if code != 0 then (code, [])
    else
      FoundEntry(v, r.parent, r.key);
      (0, Content(v, t[FindEntry(t, r.key)].cluster))
  }

  /** The return code of `read_directory`, and the table it copies to the caller's buffer. */
  ghost function ReadDirectory(v: Volume, r: Request): (int, Table)
    requires Inv(v) && TableAt?(v, r.parent) && r.key != NO_KEY
  {
    var t := TableAt(v, r.parent);
    var i := FindEntry(t, r.key);
    if i == TABLE_SIZE then (2, ZeroTable())
    else if t[i].attribute != ATTR_SUBDIRECTORY then (1, ZeroTable())
    else
      FoundEntry(v, r.parent, r.key);
      (0, TableAt(v, t[i].cluster))
  }
}
