/** The driver over the byte image: each operation does to the bytes what the specification says of the volume. */
module Driver {
  import opened Layout
  import opened BlockDevice
  import opened Volumes
  import opened VolumeInvariant
  import opened Chains
  import opened Runs
  import opened Directories

  // ----- volumes as bytes

  /** The bytes of all clusters. */
  ghost function Image(d: Disk): seq<ClusterBytes> {
    seq(2048, c requires 0 <= c < 2048 => Bytes(d[c]))
  }

  lemma ImageUpdate(d: Disk, c: nat, x: Cluster)
    requires c < DISK_CLUSTERS
    ensures Image(d[c := x]) == Image(d)[c := Bytes(x)]
  {
  }

  lemma TableBytes(c: Cluster)
    requires c.Directory? || c.Blank?
    ensures DecodeTable(Bytes(c)) == if c.Directory? then c.table else ZeroTable()
  {
    if c.Directory? {
      TableRoundTrip(c.table);
    } else {
      BlankTable();
    }
  }

  /** What the bytes of a cluster read as, whatever use they are put to. */
  function TableIn(c: Cluster): Table {
    DecodeTable(Bytes(c))
  }

  /** The parent's first entry does not carry the attribute of a directory. */
  predicate NoDirectory(v: Volume, r: Request) {
    r.parent < DISK_CLUSTERS && TableIn(v.disk[r.parent])[0].attribute != ATTR_SUBDIRECTORY
  }

  /** Nothing in the parent matches the request's name. */
  predicate Unmatched(v: Volume, r: Request) {
    r.parent < DISK_CLUSTERS && FindEntry(TableIn(v.disk[r.parent]), r.key) == TABLE_SIZE
  }

  /** The parent is a live directory or zeroed, and the name proper. */
  predicate Sensible(v: Volume, r: Request) {
    TableAt?(v, r.parent) && r.key != NO_KEY
  }

  /** The signature tells a created file system from a zeroed disk. */
  lemma BootSector(c: Cluster)
    requires c.Blank? || c.Boot?
    ensures Bytes(c)[..512] == Signature() <==> c.Boot?
  {
    assert Signature()[511] == Ascii("Ok")[1] == 107;
    if c.Boot? {
      assert Bytes(c)[..512] == Signature();
    } else {
      assert Bytes(c)[..512][511] == 0;
    }
  }

  // ----- the loops over tables

  const NONE := -9999

  method FindEntryIn(t: Table, k: Key) returns (idx: int)
    ensures idx == if FindEntry(t, k) < TABLE_SIZE then FindEntry(t, k) else NONE
  {
    var i := 2;
    while i < TABLE_SIZE
      invariant 2 <= i <= TABLE_SIZE
      invariant FindEntry(t, k) == FindEntry(t, k, i)
    {
      if t[i].key == k {
        return i;
      }
      i := i + 1;
    }
    return NONE;
  }

  method FindIdxEmptyEntry(t: Table) returns (idx: int)
    ensures idx == if FindEmptySlot(t) < TABLE_SIZE then FindEmptySlot(t) else NONE
  {
    for i := 2 to TABLE_SIZE
      invariant FindEmptySlot(t) == FindEmptySlot(t, i)
    {
      if !Used(t[i]) {
        return i;
      }
    }
    return NONE;
  }

  method IsEmptyDir(t: Table) returns (empty: bool)
    ensures empty == EmptyTable(t)
  {
    for i := 2 to TABLE_SIZE
      invariant forall j | 2 <= j < i :: !Used(t[j])
    {
      if Used(t[i]) {
        return false;
      }
    }
    return true;
  }

  method CopyName(from: Name) returns (n: Name)
    ensures n == from
  {
    n := NO_NAME;
    for i := 0 to 8
      invariant n == from[..i] + NO_NAME[i..]
    {
      n := n[i := from[i]];
    }
  }

  /** Fills in the two header entries of a zeroed table, and marks the other slots empty. */
  method InitDirectoryTable(name: Name, parent: u32) returns (t: Table)
    ensures t == NewTable(name, parent)
  {
    t := ZeroTable();
    var copy := CopyName(name);
    t := t[0 := t[0].(key := Key(copy, NO_EXT))];
    t := t[1 := t[1].(key := Key(NO_NAME[0 := 46][1 := 46], NO_EXT))];
    t := t[0 := t[0].(attribute := ATTR_SUBDIRECTORY, userAttribute := UATTR_NOT_EMPTY, filesize := 0)];
    t := t[1 := t[1].(attribute := ATTR_SUBDIRECTORY, userAttribute := UATTR_NOT_EMPTY, filesize := 0)];
    t := t[1 := t[1].(cluster := parent)];
    ghost var done := t;
    assert NO_NAME[0 := 46][1 := 46] == DOT_DOT;
    for i := 2 to TABLE_SIZE
      invariant t == done
    {
      t := t[i := t[i].(userAttribute := 0)];
    }
  }

  /** The least integer that is not below x, by truncation and a correction. */
  method Ceil(x: real) returns (n: int)
    requires x >= 0.0
    ensures (n - 1) as real < x <= n as real
  {
    n := x.Floor;
    if x > n as real {
      n := n + 1;
    }
  }

  /** The buffer `was` with the first n bytes of `data` in front. */
  function Overlaid(data: seq<byte>, n: nat, was: seq<byte>): seq<byte>
    requires n <= |data| <= |was|
  {
    data[..n] + was[n..]
  }

  lemma OverlaidNone(data: seq<byte>, was: seq<byte>)
    requires |data| <= |was|
    ensures Overlaid(data, 0, was) == was && data[0..] == data
  {
  }

  /** Copies one cluster's bytes into a buffer that `data` is being laid over. */
  method CopyBlock(buf: array<byte>, at: nat, block: ClusterBytes, ghost data: seq<byte>, ghost was: seq<byte>)
    requires at + 2048 <= |data| <= |was| && data[at..at + 2048] == block && buf[..] == Overlaid(data, at, was)
    modifies buf
    ensures buf[..] == Overlaid(data, at + 2048, was)
  {
    forall k | 0 <= k < 2048 {
      buf[at + k] := block[k];
    }
    assert forall k | 0 <= k < buf.Length :: buf[k] == old(buf[..])[k] || at <= k < at + 2048;
    assert forall k | at <= k < at + 2048 :: buf[k] == block[k - at] == data[at..at + 2048][k - at];
  }

  lemma TakeBlock(data: seq<byte>, at: nat, block: ClusterBytes, v: Volume, c: nat)
    requires at <= |data| && IsFileCell(v, c) && data[at..] == Content(v, c) && v.disk[c] == Data(block)
    ensures at + 2048 <= |data| && data[at..at + 2048] == block
    ensures data[at + 2048..] == if Continues(v.fat, c) then Content(v, v.fat[c]) else []
    ensures data[..at + 2048] == data[..at] + block
  {
    assert data[at + 2048..] == data[at..][2048..];
    assert data[at..at + 2048] == data[at..][..2048];
  }

  /** queue[++back] = c, where the queue held `held`. */
  method PushBack(queue: array<nat>, back: nat, c: nat, ghost held: seq<nat>) returns (back': nat)
    requires back + 1 < queue.Length && queue[..back + 1] == held
    modifies queue
    ensures back' == back + 1 && queue[..back' + 1] == held + [c]
  {
    back' := back + 1;
    queue[back'] := c;
    assert queue[..back' + 1] == queue[..back + 1] + [c];
  }

  lemma ShrinkStep(s: Volume, d: nat, i: nat, c: nat, disk: Disk)
    requires Inv(s) && IsDir(s, d) && 2 <= i < TABLE_SIZE && 3 <= c < CLUSTER_MAP_SIZE && s.own[c] == FileIn(d, i)
    requires s.fat[c] != END_OF_FILE && disk == s.disk[d := disk[d]]
    ensures Continues(s.fat, c) && c != d
    ensures var w := Shrink(s, d, i, c);
      && Inv(w) && IsDir(w, d) && w.own[s.fat[c]] == FileIn(d, i) && w.fat == s.fat[c := 0]
      && disk[c := Blank] == w.disk[d := disk[d]]
      && w.disk[d].table[i := Cleared(Slot(w, d, i))] == s.disk[d].table[i := Cleared(Slot(s, d, i))]
      && RemoveFile(w, d, i, s.fat[c]) == RemoveFile(s, d, i, c)
  {
    NextCell(s, c);
    ShrinkKeeps(s, d, i, c);
    ShrinkDir(s, d, i, c, d);
    var w := Shrink(s, d, i, c);
    assert w.disk[d].table[i := Cleared(Slot(w, d, i))] == s.disk[d].table[i := Cleared(Slot(s, d, i))];
  }

  lemma RemoveStep(s: Volume, d: nat, i: nat, c: nat, disk: Disk)
    requires Inv(s) && IsDir(s, d) && 2 <= i < TABLE_SIZE && 3 <= c < CLUSTER_MAP_SIZE && s.own[c] == FileIn(d, i)
    requires s.fat[c] == END_OF_FILE && disk == s.disk[d := disk[d]]
    ensures c != d
    ensures var u := RemoveFile(s, d, i, c); var t := s.disk[d].table[i := Cleared(Slot(s, d, i))];
      u.fat == s.fat[c := 0] && u.own == s.own[c := Unused] && u.disk == disk[c := Blank][d := Directory(t)]
  {
    NextCell(s, c);
    assert s.disk[d := Directory(s.disk[d].table[i := Cleared(Slot(s, d, i))])][c := Blank]
        == disk[c := Blank][d := Directory(s.disk[d].table[i := Cleared(Slot(s, d, i))])];
  }

  method TotalClusters(size: u32) returns (n: nat)
    ensures n == BlocksNeeded(size)
    ensures 2048 * n >= size && (n > 0 ==> 2048 * (n - 1) < size)
  {
    n := Ceil(size as real / 2048.0);
  }

  /** The volume with the parent's entry for r in place and nothing else done. */
  function FilledOnly(v: Volume, r: Request): Volume
    requires TableAt?(v, r.parent) && FindEmptySpace(v.fat) < CLUSTER_MAP_SIZE
    requires FindEmptySlot(TableAt(v, r.parent)) < TABLE_SIZE
  {
    var t, i := TableAt(v, r.parent), FindEmptySlot(TableAt(v, r.parent));
    v.(disk := v.disk[r.parent := Directory(t[i := Filled(t[i], r.key, FindEmptySpace(v.fat), r.size)])])
  }

  /** How the image of a new file system starts its second and third cluster. */
  lemma FirstBytes(image: seq<ClusterBytes>)
    requires image == Image(Created().disk)
    ensures image[1][..12] == [0xF0, 0xFF, 0xFF, 0x0F, 0xFF, 0xFF, 0xFF, 0x0F, 0xFF, 0xFF, 0xFF, 0x0F]
    ensures image[2][..8] == [82, 111, 111, 116, 0, 0, 0, 0]
  {
    assert image[1] == EncodeMap(NewMap()) && image[2] == EncodeTable(RootTable());
    hide Image, Bytes, Created, EncodeMap, EncodeTable, RootTable, NewMap;
    NewMapBytes();
    RootBytes();
  }

  class Fat32 {
    const device: BlockDevice
    const clusterMap: array<u32>
    var dirTable: Table
    ghost var vol: Volume

    /** The cached table and the image hold what the volume says. */
    ghost predicate Valid()
      reads this, device.image, clusterMap
    {
      && device.Valid() && clusterMap.Length == CLUSTER_MAP_SIZE
      && clusterMap[..] == vol.fat && device.Clusters() == Image(vol.disk)
    }

    constructor (device: BlockDevice)
      ensures this.device == device && clusterMap.Length == CLUSTER_MAP_SIZE && fresh(clusterMap)
    {
      this.device := device;
      clusterMap := new u32[512](_ => 0);
      dirTable := ZeroTable();
    }

    // ----- single accesses

    method ReadTable(c: nat) returns (t: Table)
      requires Valid() && TableAt?(vol, c)
      ensures t == TableAt(vol, c)
    {
      var data := device.ReadCluster(c);
      t := DecodeTable(data);
      TableBytes(vol.disk[c]);
    }

    /** Reads whatever is in a cluster as a table. */
    method ReadAsTable(c: nat) returns (t: Table)
      requires Valid() && c < DISK_CLUSTERS
      ensures t == TableIn(vol.disk[c]) && (TableAt?(vol, c) ==> t == TableAt(vol, c))
    {
      var data := device.ReadCluster(c);
      t := DecodeTable(data);
      if TableAt?(vol, c) {
        TableBytes(vol.disk[c]);
      }
    }

    /** Writes a cluster; `x` is the use its bytes are put to. */
    method WriteClusters(data: ClusterBytes, c: nat, ghost x: Cluster)
      requires Valid() && c < DISK_CLUSTERS && data == Bytes(x)
      modifies this`vol, device.image
      ensures Valid() && vol == old(vol).(disk := old(vol).disk[c := x])
    {
      device.WriteCluster(data, c);
      ImageUpdate(vol.disk, c, x);
      vol := vol.(disk := vol.disk[c := x]);
    }

    method WriteTable(t: Table, c: nat)
      requires Valid() && c < DISK_CLUSTERS
      modifies this`vol, device.image
      ensures Valid() && vol == old(vol).(disk := old(vol).disk[c := Directory(t)])
    {
      WriteClusters(EncodeTable(t), c, Directory(t));
    }

    method SetCell(c: nat, value: u32)
      requires Valid() && c < CLUSTER_MAP_SIZE
      modifies this`vol, clusterMap
      ensures Valid() && vol == old(vol).(fat := old(vol).fat[c := value])
    {
      clusterMap[c] := value;
      vol := vol.(fat := vol.fat[c := value]);
    }

    method FlushMap()
      requires Valid()
      modifies this`vol, device.image
      ensures Valid() && vol == Flush(old(vol))
    {
      WriteClusters(EncodeMap(clusterMap[..]), FAT_CLUSTER, Map(vol.fat));
    }

    method FindSpace() returns (idx: int)
      requires Valid()
      ensures idx == if FindEmptySpace(vol.fat) < CLUSTER_MAP_SIZE then FindEmptySpace(vol.fat) else NONE
    {
      for i := 0 to CLUSTER_MAP_SIZE
        invariant FindEmptySpace(vol.fat) == FindEmptySpace(vol.fat, i)
      {
        if clusterMap[i] == 0 {
          return i;
        }
      }
      return NONE;
    }

    // ----- creating and mounting

    method IsEmptyStorage(ghost v: Volume) returns (empty: bool)
      requires device.Valid() && device.Clusters() == Image(v.disk)
      requires v.disk[0].Blank? || v.disk[0].Boot?
      ensures empty == v.disk[0].Blank?
    {
      var sector := device.ReadBlocks(0, 1);
      assert sector == device.Clusters()[0][..512];
      BootSector(v.disk[0]);
      empty := sector != Signature();
    }

    method CreateFat32(ghost v: Volume)
      requires device.Valid() && clusterMap.Length == CLUSTER_MAP_SIZE && device.Clusters() == Image(v.disk)
      requires forall c | 0 <= c < DISK_CLUSTERS :: v.disk[c].Blank?
      modifies this, device.image, clusterMap
      ensures Valid() && vol == Created()
      ensures device.image[2048..2060] == [0xF0, 0xFF, 0xFF, 0x0F, 0xFF, 0xFF, 0xFF, 0x0F, 0xFF, 0xFF, 0xFF, 0x0F]
      ensures device.image[4096..4104] == [82, 111, 111, 116, 0, 0, 0, 0]
    {
      WriteSignature(v);
      clusterMap[0] := CLUSTER_0_VALUE;
      clusterMap[1] := END_OF_FILE;
      clusterMap[2] := END_OF_FILE;
      for i := 3 to CLUSTER_MAP_SIZE
        invariant clusterMap[0] == CLUSTER_0_VALUE && clusterMap[1] == END_OF_FILE && clusterMap[2] == END_OF_FILE
        invariant forall j | 3 <= j < i :: clusterMap[j] == 0
        invariant device.Clusters() == Image(v.disk[0 := Boot])
      {
        clusterMap[i] := 0;
      }
      assert clusterMap[..] == NewMap();
      vol := Volume(clusterMap[..], v.disk[0 := Boot], Created().own);
      var rootDir := InitDirectoryTable(ROOT_NAME, ROOT_CLUSTER);
      rootDir := rootDir[0 := rootDir[0].(cluster := ROOT_CLUSTER)];
      assert rootDir == RootTable();
      FlushMap();
      WriteTable(rootDir, ROOT_CLUSTER);
      assert vol.disk == Created().disk;
      FirstBytes(device.Clusters());
    }

    method WriteSignature(ghost v: Volume)
      requires device.Valid() && device.Clusters() == Image(v.disk) && v.disk[0].Blank?
      modifies device.image
      ensures device.Clusters() == Image(v.disk[0 := Boot])
    {
      ghost var was := device.Clusters();
      device.WriteBlocks(Signature(), 0, 1);
      forall c | 0 <= c < 2048
        ensures device.Clusters()[c] == Image(v.disk[0 := Boot])[c]
      {
        if c == 0 {
          assert device.Clusters()[0] == Signature() + was[0][512..];
          assert was[0][512..] == seq(1536, _ => 0);
        } else {
          assert device.Clusters()[c] == was[c];
        }
      }
    }

    /** Creates a file system on a zero-filled image, and mounts an image that holds one. */
    method Initialize(ghost v: Volume)
      requires device.Valid() && clusterMap.Length == CLUSTER_MAP_SIZE && device.Clusters() == Image(v.disk)
      requires (forall c | 0 <= c < DISK_CLUSTERS :: v.disk[c].Blank?) || (v.disk[0].Boot? && v.disk[FAT_CLUSTER].Map?)
      modifies this, device.image, clusterMap
      ensures Valid() && vol == if v.disk[0].Boot? then Mount(v) else Created()
    {
      var empty := IsEmptyStorage(v);
      if empty {
        CreateFat32(v);
      } else {
        var data := device.ReadCluster(FAT_CLUSTER);
        var cells := DecodeMap(data);
        MapRoundTrip(v.disk[FAT_CLUSTER].cells);
        forall i | 0 <= i < CLUSTER_MAP_SIZE {
          clusterMap[i] := cells[i];
        }
        vol := Mount(v);
      }
    }

    // ----- write

    method Write(r: Request) returns (code: int)
      requires Valid() && BufferOk(r) && (TableAt?(vol, r.parent) || NoDirectory(vol, r))
      modifies this, device.image, clusterMap
      ensures Valid() && (TableAt?(old(vol), r.parent) ==> (vol, code) == Volumes.Write(old(vol), r))
      ensures NoDirectory(old(vol), r) ==> vol == old(vol) && code == 2
    {
      hide TableIn, Bytes, Image, DecodeTable;
      dirTable := ReadAsTable(r.parent);
      if dirTable[0].attribute != ATTR_SUBDIRECTORY {
        return 2;
      }
      var idxFound := FindEntryIn(dirTable, r.key);
      if idxFound != NONE {
        return 1;
      }
      var idxEntry := FindIdxEmptyEntry(dirTable);
      if idxEntry == NONE {
        return -1;
      }
      var idx := FindSpace();
      if idx == NONE {
        return -1;
      }
      dirTable := dirTable[idxEntry := Filled(dirTable[idxEntry], r.key, idx, r.size)];
      WriteTable(dirTable, r.parent);
      if r.size == 0 {
        MakeFolder(r, idxEntry, idx);
        code := 0;
      } else {
        code := WriteFile(r, idxEntry, old(vol));
      }
    }

    /** The rest of `write` for a folder, once the parent's entry is in place. */
    method MakeFolder(r: Request, idxEntry: nat, idx: nat)
      requires Valid() && idx < CLUSTER_MAP_SIZE && r.parent < DISK_CLUSTERS
      modifies this`vol, device.image, clusterMap
      ensures Valid()
      ensures vol == Flush(Volume(old(vol).fat[idx := END_OF_FILE],
                                  old(vol).disk[idx := Directory(NewTable(r.key.name, r.parent))],
                                  old(vol).own[idx := FolderIn(r.parent, idxEntry, Depth(old(vol), r.parent) + 1)]))
    {
      var newDir := InitDirectoryTable(r.key.name, r.parent);
      WriteTable(newDir, idx);
      SetCell(idx, END_OF_FILE);
      vol := vol.(own := vol.own[idx := FolderIn(r.parent, idxEntry, Depth(vol, r.parent) + 1)]);
      FlushMap();
    }

    /** The loop of `write` for a file, once the parent's entry is in place; v is the volume before that. */
    method WriteFile(r: Request, idxEntry: nat, ghost v: Volume) returns (code: int)
      requires Valid() && BufferOk(r) && r.size > 0 && TableAt?(v, r.parent) && idxEntry < TABLE_SIZE
      requires idxEntry == FindEmptySlot(TableAt(v, r.parent)) && FindEmptySpace(v.fat) < CLUSTER_MAP_SIZE
      requires TableAt(v, r.parent)[0].attribute == ATTR_SUBDIRECTORY
      requires FindEntry(TableAt(v, r.parent), r.key) == TABLE_SIZE
      requires vol == FilledOnly(v, r)
      modifies this`vol, device.image, clusterMap
      ensures Valid() && (vol, code) == Volumes.Write(v, r)
    {
      var total := TotalClusters(r.size);
      var prev, idx := NONE, NONE;
      for i := 0 to total
        invariant Valid()
        invariant i == 0 ==> idx == NONE && vol == FilledOnly(v, r)
        invariant i > 0 ==> 0 <= idx < CLUSTER_MAP_SIZE && vol.fat[idx] == END_OF_FILE
        invariant i > 0 ==> Grow(vol, idx, r.buf, i, total) == Volumes.Write(v, r)
      {
        ghost var before := vol;
        prev := idx;
        idx := FindSpace();
        if idx == NONE {
          SetCell(prev, END_OF_FILE);
          assert vol == before;
          return -1;
        } else {
          WriteClusters(Block(r.buf, i), idx, Data(Block(r.buf, i)));
          if prev != NONE {
            SetCell(prev, idx);
          }
          SetCell(idx, END_OF_FILE);
          vol := vol.(own := vol.own[idx := if prev == NONE then FileIn(r.parent, idxEntry) else After(prev)]);
        }
      }
      FlushMap();
      code := 0;
    }

    // ----- delete

    method Delete(r: Request) returns (code: int)
      requires Valid() && Inv(vol) && (Sensible(vol, r) || Unmatched(vol, r))
      modifies this, device.image, clusterMap
      ensures Valid() && (Sensible(old(vol), r) ==> (vol, code) == Volumes.Delete(old(vol), r))
      ensures Unmatched(old(vol), r) ==> vol == old(vol) && code == 1
    {
      hide TableIn, Bytes, Image, DecodeTable;
      dirTable := ReadAsTable(r.parent);
      var idxEntry := FindEntryIn(dirTable, r.key);
      if idxEntry == NONE {
        return 1;
      }
      FoundEntry(vol, r.parent, r.key);
      var idxCluster := dirTable[idxEntry].cluster;
      if dirTable[idxEntry].attribute == ATTR_SUBDIRECTORY {
        var dirChild := ReadTable(idxCluster);
        var empty := IsEmptyDir(dirChild);
        if !empty {
          return 2;
        }
        DeleteFolder(r.parent, idxEntry, idxCluster);
      } else {
        DeleteFile(r.parent, idxEntry, idxCluster);
      }
      code := 0;
    }

    method ClearCluster(c: nat)
      requires Valid() && c < DISK_CLUSTERS
      modifies this`vol, device.image
      ensures Valid() && vol == old(vol).(disk := old(vol).disk[c := Blank])
    {
      BlankTable();
      WriteClusters(ZeroBytes(), c, Blank);
    }

    /** The branch of `delete` for an empty folder in cluster h. */
    method DeleteFolder(d: nat, i: nat, h: nat)
      requires Valid() && Inv(vol) && CanRemove(vol, d, i, h) && vol.own[h].FolderIn? && dirTable == vol.disk[d].table
      modifies this, device.image, clusterMap
      ensures Valid() && vol == Flush(Remove(old(vol), d, i, h))
    {
      assert CellOk(vol, h);
      ClearCluster(h);
      dirTable := dirTable[i := Cleared(dirTable[i])];
      SetCell(h, 0);
      WriteTable(dirTable, d);
      vol := vol.(own := vol.own[h := Unused]);
      assert vol.disk == old(vol).disk[d := Directory(dirTable)][h := Blank];
      FlushMap();
    }

    /** Zeroes a cluster and its cell. */
    method FreeCluster(c: nat)
      requires Valid() && c < CLUSTER_MAP_SIZE
      modifies this`vol, device.image, clusterMap
      ensures Valid() && vol == old(vol).(fat := old(vol).fat[c := 0], disk := old(vol).disk[c := Blank])
    {
      SetCell(c, 0);
      ClearCluster(c);
    }

    /** The branch of `delete` for a file whose first cluster is h; the loop follows its chain. */
    method DeleteFile(d: nat, i: nat, h: nat)
      requires Valid() && Inv(vol) && IsDir(vol, d) && 2 <= i < TABLE_SIZE && 3 <= h < CLUSTER_MAP_SIZE
      requires vol.own[h] == FileIn(d, i) && dirTable == vol.disk[d].table
      modifies this, device.image, clusterMap
      ensures Valid() && vol == Flush(RemoveFile(old(vol), d, i, h))
    {
      dirTable := dirTable[i := Cleared(dirTable[i])];
      var idxCluster := h;
      // What the volume would be if the entry already named the cluster the loop has come to.
      ghost var s := vol;
      while clusterMap[idxCluster] != END_OF_FILE
        invariant Valid() && 3 <= idxCluster < CLUSTER_MAP_SIZE
        invariant Inv(s) && IsDir(s, d) && s.own[idxCluster] == FileIn(d, i)
        invariant vol.fat == s.fat && vol.disk == s.disk[d := old(vol).disk[d]]
        invariant dirTable == s.disk[d].table[i := Cleared(Slot(s, d, i))]
        invariant RemoveFile(s, d, i, idxCluster) == RemoveFile(old(vol), d, i, h)
        decreases CLUSTER_MAP_SIZE - idxCluster
      {
        ShrinkStep(s, d, i, idxCluster, vol.disk);
        var temp := idxCluster;
        idxCluster := clusterMap[idxCluster];
        FreeCluster(temp);
        s := Shrink(s, d, i, temp);
      }
      RemoveStep(s, d, i, idxCluster, vol.disk);
      FreeCluster(idxCluster);
      WriteTable(dirTable, d);
      vol := vol.(own := s.own[idxCluster := Unused]);
      FlushMap();
    }

    // ----- read

    /** Copies the whole clusters of a file to the caller's buffer. */
    method Read(r: Request, buf: array<byte>) returns (code: int)
      requires Valid() && Inv(vol) && (Sensible(vol, r) || Unmatched(vol, r))
      requires buf != device.image && (Sensible(vol, r) ==> |Volumes.Read(vol, r).1| <= buf.Length)
      modifies this`dirTable, buf
      ensures Valid() && vol == old(vol) && (Sensible(vol, r) ==> code == Volumes.Read(vol, r).0)
      ensures Sensible(vol, r) ==>
        var data := Volumes.Read(vol, r).1; buf[..] == data + old(buf[..])[|data|..]
      ensures Unmatched(vol, r) ==> code == 3 && buf[..] == old(buf[..])
    {
      hide TableIn, Bytes, Image, DecodeTable;
      dirTable := ReadAsTable(r.parent);
      var idx := FindEntryIn(dirTable, r.key);
      if idx == NONE {
        return 3;
      }
      FoundEntry(vol, r.parent, r.key);
      if r.size < dirTable[idx].filesize {
        return 2;
      }
      if dirTable[idx].attribute == ATTR_SUBDIRECTORY {
        return 1;
      }
      CopyChain(dirTable[idx].cluster, buf);
      assert Volumes.Read(vol, r).1[..|Volumes.Read(vol, r).1|] == Volumes.Read(vol, r).1;
      code := 0;
    }

    method ReadFileCluster(c: nat) returns (block: ClusterBytes)
      requires Valid() && c < DISK_CLUSTERS && vol.disk[c].Data?
      ensures vol.disk[c] == Data(block)
    {
      block := device.ReadCluster(c);
    }

    /** The loop of `read`. */
    method CopyChain(first: nat, buf: array<byte>)
      requires Valid() && Inv(vol) && IsFileCell(vol, first)
      requires buf != device.image && |Content(vol, first)| <= buf.Length
      modifies buf
      ensures Valid() && buf[..] == Overlaid(Content(vol, first), |Content(vol, first)|, old(buf[..]))
    {
      hide Inv, Image, Bytes, Content, Overlaid;
      ghost var data := Content(vol, first);
      var cluster: u32 := first;
      var at := 0;
      OverlaidNone(data, buf[..]);
      while cluster != END_OF_FILE
        invariant Valid() && at <= |data| && (cluster == END_OF_FILE || IsFileCell(vol, cluster))
        invariant data[at..] == if cluster == END_OF_FILE then [] else Content(vol, cluster)
        invariant buf[..] == Overlaid(data, at, old(buf[..]))
        decreases if cluster == END_OF_FILE then 0 else CLUSTER_MAP_SIZE - cluster
      {
        NextCell(vol, cluster);
        var block := ReadFileCluster(cluster);
        TakeBlock(data, at, block, vol, cluster);
        CopyBlock(buf, at, block, data, old(buf[..]));
        at := at + 2048;
        cluster := clusterMap[cluster];
      }
    }

    method ReadDirectory(r: Request) returns (code: int, t: Table)
      requires Valid() && Inv(vol) && (Sensible(vol, r) || Unmatched(vol, r))
      modifies this`dirTable
      ensures Valid() && vol == old(vol) && (Sensible(vol, r) ==> (code, t) == Volumes.ReadDirectory(vol, r))
      ensures Unmatched(vol, r) ==> code == 2
    {
      hide TableIn, Bytes, Image, DecodeTable;
      t := ZeroTable();
      dirTable := ReadAsTable(r.parent);
      var idx := FindEntryIn(dirTable, r.key);
      if idx == NONE {
        return 2, t;
      }
      FoundEntry(vol, r.parent, r.key);
      if dirTable[idx].attribute != ATTR_SUBDIRECTORY {
        return 1, t;
      }
      t := ReadTable(dirTable[idx].cluster);
      code := 0;
    }

    // ----- walking the directories

    method FindClusterOf(r: Request) returns (c: nat)
      requires Valid() && r.parent < DISK_CLUSTERS
      modifies this`dirTable
      ensures Valid() && c == FindCluster(TableIn(vol.disk[r.parent]), r.key)
      ensures TableAt?(vol, r.parent) ==> c == FindCluster(TableAt(vol, r.parent), r.key)
      ensures var t := TableIn(vol.disk[r.parent]);
        if forall i | 2 <= i < TABLE_SIZE :: t[i].key != r.key then c == 9999
        else exists i | 2 <= i < TABLE_SIZE ::
          t[i].key == r.key && t[i].cluster == c && forall j | 2 <= j < i :: t[j].key != r.key
    {
      hide TableIn, Bytes, Image, DecodeTable;
      dirTable := ReadAsTable(r.parent);
      var idx := FindEntryIn(dirTable, r.key);
      if idx == NONE {
        return NOT_FOUND;
      }
      c := dirTable[idx].cluster;
    }

    /**
     * The breadth-first search for directories that hold an entry with key k. `order` is the queue
     * in the end, fully expanded.
     */
    method Find(k: Key, result: array<nat>) returns (n: nat, ghost order: seq<nat>)
      requires Valid() && Inv(vol) && |LiveDirs(vol)| <= 100
      requires result.Length == 50 && |Holders(vol, k)| <= 50
      modifies this`dirTable, result
      ensures Valid() && order == QueueAfter(vol, |order|)
      ensures n <= 50 && result[..n] == Holding(vol, order, k)
    {
      var queue := new nat[100](_ => 0);
      var front, back := 0, 0;
      queue[0] := 2;
      n := 0;
      assert queue[..1] == [2] && queue[..0] == [] && result[..0] == [];
      while front <= back
        invariant Valid() && vol == old(vol) && front <= back + 1
        invariant Searching(queue, front, back, k, result, n)
        decreases 100 - front
      {
        back, n := SearchFront(queue, front, back, k, result, n);
        front := front + 1;
      }
      order := queue[..front];
    }

    /** The state of the search once `front` directories were expanded. */
    ghost predicate Searching(queue: array<nat>, front: int, back: int, k: Key, result: array<nat>, n: int)
      reads this`vol, queue, result
    {
      && queue.Length == 100 && result.Length == 50 && 0 <= front <= back + 1 <= 100 && 0 <= n <= 50
      && queue[..back + 1] == QueueAfter(vol, front)
      && result[..n] == Holding(vol, queue[..front], k)
    }

    /** The body of the search loop: the directory at the front is examined and expanded. */
    method SearchFront(queue: array<nat>, front: nat, back: nat, k: Key, result: array<nat>, n: nat)
      returns (back': nat, n': nat)
      requires Valid() && Inv(vol) && |LiveDirs(vol)| <= 100 && |Holders(vol, k)| <= 50
      requires queue != result && front <= back && Searching(queue, front, back, k, result, n)
      modifies this`dirTable, queue, result
      ensures Valid() && vol == old(vol) && front <= back' && Searching(queue, front + 1, back', k, result, n')
    {
      hide Image, Bytes, Inv;
      FrontOfQueue(vol, front, k);
      ghost var seen := queue[..front];
      assert queue[..front + 1] == QueueAfter(vol, front)[..front + 1] == seen + [queue[front]];
      n' := Examine(k, queue[front], result, n, seen);
      back' := Expand(queue, front, back);
    }

    /** Reads the table of the directory at the front of the queue and records a hit. */
    method Examine(k: Key, d: nat, result: array<nat>, n: nat, ghost seen: seq<nat>) returns (n': nat)
      requires Valid() && IsDir(vol, d)
      requires result.Length == 50 && n <= 50 && |Holding(vol, seen + [d], k)| <= 50
      requires result[..n] == Holding(vol, seen, k)
      modifies this`dirTable, result
      ensures Valid() && dirTable == TableAt(vol, d) && n' <= 50
      ensures result[..n'] == Holding(vol, seen + [d], k)
    {
      assert (seen + [d])[..|seen|] == seen;
      dirTable := ReadTable(d);
      var idxEntry := FindEntryIn(dirTable, k);
      n' := n;
      if idxEntry != NONE {
        result[n] := d;
        n' := n + 1;
      }
    }

    /** The inner loop of `find`: appends the subfolders in dirTable, that of queue[front], to the queue. */
    method Expand(queue: array<nat>, front: nat, back: nat) returns (back': nat)
      requires Valid() && Inv(vol) && |LiveDirs(vol)| <= 100 && queue.Length == 100 && front <= back < 100
      requires queue[..back + 1] == QueueAfter(vol, front)
      requires TableAt?(vol, queue[front]) && dirTable == TableAt(vol, queue[front])
      modifies queue
      ensures back <= back' < 100 && queue[..back' + 1] == QueueAfter(vol, front + 1)
      ensures queue[..front + 1] == old(queue[..front + 1])
    {
      hide Inv, Image, Bytes, QueueAfter, LiveDirs, SubfoldersOf, Subfolders, DecodeTable, BlockDevice.Clusters;
      ghost var v, q := vol, QueueAfter(vol, front);
      QueueStep(v, front, queue[front]);
      back' := back;
      for i := 2 to TABLE_SIZE
        invariant back <= back' < 100
        invariant queue[..back' + 1] == q + Subfolders(dirTable, i)
      {
        ExpansionBounded(v, front, i + 1);
        back' := ExpandSlot(i, queue, back', q);
      }
      assert forall k | 0 <= k <= front :: queue[k] == queue[..back' + 1][k] == q[k];
    }

    /** One turn of the inner loop: a used slot that holds a folder sends it to the queue. */
    method ExpandSlot(i: nat, queue: array<nat>, back: nat, ghost q: seq<nat>) returns (back': nat)
      requires 2 <= i < TABLE_SIZE && queue.Length == 100 && |q| + |Subfolders(dirTable, i + 1)| <= 100
      requires back < 100 && queue[..back + 1] == q + Subfolders(dirTable, i)
      modifies queue
      ensures back <= back' < 100 && queue[..back' + 1] == q + Subfolders(dirTable, i + 1)
    {
      if dirTable[i].userAttribute != UATTR_NOT_EMPTY {
        return back;
      }
      if dirTable[i].attribute != ATTR_SUBDIRECTORY {
        return back;
      }
      back' := PushBack(queue, back, dirTable[i].cluster, q + Subfolders(dirTable, i));
    }

    /** The names from a directory up to the root, as they are printed. */
    method PrintDirPath(cluster: nat) returns (names: seq<Name>)
      requires Valid() && Inv(vol) && IsDir(vol, cluster)
      ensures names == NamesUp(vol, cluster)
    {
      ghost var v := vol;
      names := [];
      var current: nat := cluster;
      var table := ReadTable(current);
      var parent := table[1].cluster;
      OwnParent(v, current);
      while current != parent
        invariant IsDir(v, current) && table == v.disk[current].table && parent == Parent(v, current)
        invariant parent == current <==> current == ROOT_CLUSTER
        invariant names + NamesUp(v, current) == NamesUp(v, cluster)
        decreases Depth(v, current)
      {
        OneNameUp(v, current, names);
        names := names + [table[0].key.name];
        current := parent;
        table := ReadTable(current);
        parent := table[1].cluster;
      }
    }
  }
}