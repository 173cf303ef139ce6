/** The on-disk structures of the file system and their byte encodings. */
module Layout {
  import opened Arithmetic

  type byte = x: int | 0 <= x < 256
  type u32 = x: int | 0 <= x < 0x1_0000_0000

  const BLOCK_SIZE := 512
  const CLUSTER_BLOCK_COUNT := 4
  const CLUSTER_SIZE := 2048  // written out where it multiplies or divides
  const CLUSTER_MAP_SIZE := 512
  const TABLE_SIZE := 64

  const CLUSTER_0_VALUE: u32 := 0x0FFF_FFF0
  const END_OF_FILE: u32 := 0x0FFF_FFFF
  const FAT_CLUSTER := 1
  const ROOT_CLUSTER := 2

  const ATTR_SUBDIRECTORY: byte := 16
  const UATTR_NOT_EMPTY: byte := 170

  type Name = s: seq<byte> | |s| == 8 witness [0, 0, 0, 0, 0, 0, 0, 0]
  type Ext = s: seq<byte> | |s| == 3 witness [0, 0, 0]
  type Stamps = s: seq<byte> | |s| == 7 witness [0, 0, 0, 0, 0, 0, 0]
  type Modified = s: seq<byte> | |s| == 4 witness [0, 0, 0, 0]

  const NO_NAME: Name := [0, 0, 0, 0, 0, 0, 0, 0]
  const NO_EXT: Ext := [0, 0, 0]

  /** What identifies an entry within its directory. */
  datatype Key = Key(name: Name, ext: Ext)

  const NO_KEY := Key(NO_NAME, NO_EXT)

  /** A 32-byte directory entry; `cluster` joins its two 16-bit halves. */
  datatype Entry = Entry(key: Key, attribute: byte, userAttribute: byte, stamps: Stamps,
                         cluster: u32, modified: Modified, filesize: u32)

  const ZERO_ENTRY := Entry(NO_KEY, 0, 0, [0, 0, 0, 0, 0, 0, 0], 0, [0, 0, 0, 0], 0)

  type Table = t: seq<Entry> | |t| == TABLE_SIZE witness seq(64, _ => ZERO_ENTRY)

  function ZeroTable(): (t: Table)
    ensures forall i | 0 <= i < TABLE_SIZE :: t[i] == ZERO_ENTRY
  {
    seq(64, _ => ZERO_ENTRY)
  }

  type CellMap = m: seq<u32> | |m| == CLUSTER_MAP_SIZE witness seq(512, _ => 0)

  type ClusterBytes = b: seq<byte> | |b| == CLUSTER_SIZE witness seq(2048, _ => 0)

  function ZeroBytes(): ClusterBytes {
    seq(2048, _ => 0)
  }

  /** A cluster together with the use the file system makes of its bytes. */
  datatype Cluster =
    | Blank
    | Boot
    | Map(cells: CellMap)
    | Directory(table: Table)
    | Data(bytes: ClusterBytes)

  /** Where block i of a buffer starts. */
  function Offset(i: nat): nat {
    2048 * i
  }

  // ----- the boot signature

  function Ascii(text: string): seq<byte> {
    seq(|text|, i requires 0 <= i < |text| => text[i] as int % 256)
  }

  const SIGNATURE_TEXT :=
    "Course          Designed by     Lab Sister ITB  Made with <3    -----------2024\n"

  function Signature(): (s: seq<byte>)
    ensures |s| == BLOCK_SIZE
  {
    Ascii(SIGNATURE_TEXT) + seq(430, _ => 0) + Ascii("Ok")
  }

  // ----- integers, little-endian

  function Encode16(x: int): (b: seq<byte>)
    requires 0 <= x < 0x1_0000
    ensures |b| == 2
  {
    [x % 256, x / 256]
  }

  function Decode16(b: seq<byte>): (x: int)
    requires |b| == 2
    ensures 0 <= x < 0x1_0000
  {
    b[0] + 256 * (b[1] as int)
  }

  function Encode32(x: u32): (b: seq<byte>)
    ensures |b| == 4
  {
    Encode16(x % 0x1_0000) + Encode16(x / 0x1_0000)
  }

  function Decode32(b: seq<byte>): u32
    requires |b| == 4
  {
    Decode16(b[..2]) + 0x1_0000 * Decode16(b[2..])
  }

  lemma Integer32RoundTrip(x: u32)
    ensures Decode32(Encode32(x)) == x
  {
    var b := Encode32(x);
    assert b[..2] == Encode16(x % 0x1_0000) && b[2..] == Encode16(x / 0x1_0000);
  }

  lemma Integer16FromBytes(b: seq<byte>)
    requires |b| == 2
    ensures Encode16(Decode16(b)) == b
  {
    var lo: int, hi: int := b[0], b[1];
    assert (lo + 256 * hi) % 256 == lo && (lo + 256 * hi) / 256 == hi;
  }

  lemma Integer32FromBytes(b: seq<byte>)
    requires |b| == 4
    ensures Encode32(Decode32(b)) == b
  {
    var lo, hi := Decode16(b[..2]), Decode16(b[2..]);
    assert (lo + 0x1_0000 * hi) % 0x1_0000 == lo && (lo + 0x1_0000 * hi) / 0x1_0000 == hi;
    Integer16FromBytes(b[..2]);
    Integer16FromBytes(b[2..]);
    assert b == b[..2] + b[2..];
  }

  /** The least significant byte of a number lies first. */
  lemma Integer32Bytes(x: u32)
    ensures Encode32(x) == [x % 0x100, x / 0x100 % 0x100, x / 0x1_0000 % 0x100, x / 0x100_0000]
  {
    var lo, hi := x % 0x1_0000, x / 0x1_0000;
    var b0, b1, b2, b3 := lo % 0x100, lo / 0x100, hi % 0x100, hi / 0x100;
    Quotient(x, 0x100, b1 + 0x100 * b2 + 0x1_0000 * b3, b0);
    Quotient(x / 0x100, 0x100, b2 + 0x100 * b3, b1);
    Quotient(x, 0x100_0000, b3, b0 + 0x100 * b1 + 0x1_0000 * b2);
    assert Encode32(x) == [b0, b1] + [b2, b3];
  }

  // ----- directory entries

  function EncodeEntry(e: Entry): (b: seq<byte>)
    ensures |b| == 32
  {
    e.key.name + e.key.ext + [e.attribute, e.userAttribute] + e.stamps
    + Encode16(e.cluster / 0x1_0000) + e.modified + Encode16(e.cluster % 0x1_0000)
    + Encode32(e.filesize)
  }

  function DecodeEntry(b: seq<byte>): Entry
    requires |b| == 32
  {
    Entry(Key(b[0..8], b[8..11]), b[11], b[12], b[13..20],
          0x1_0000 * Decode16(b[20..22]) + Decode16(b[26..28]), b[22..26], Decode32(b[28..32]))
  }

  lemma LastOf(front: seq<byte>, last: seq<byte>, b: seq<byte>)
    requires b == front + last && |front| == 28 && |b| == 32
    ensures b[28..32] == last
  {
  }

  lemma EntryRoundTrip(e: Entry)
    ensures DecodeEntry(EncodeEntry(e)) == e
  {
    var b := EncodeEntry(e);
    var front := e.key.name + e.key.ext + [e.attribute, e.userAttribute] + e.stamps
      + Encode16(e.cluster / 0x1_0000) + e.modified + Encode16(e.cluster % 0x1_0000);
    assert b == front + Encode32(e.filesize) && |front| == 28;
    assert b[0..8] == e.key.name && b[8..11] == e.key.ext;
    assert b[13..20] == e.stamps && b[22..26] == e.modified;
    assert b[20..22] == Encode16(e.cluster / 0x1_0000);
    assert b[26..28] == Encode16(e.cluster % 0x1_0000);
    LastOf(front, Encode32(e.filesize), b);
    Integer32RoundTrip(e.filesize);
  }

  /** Where each field of an entry lies, and the order of its bytes. */
  lemma EntryBytes(e: Entry)
    ensures var b := EncodeEntry(e);
      && b[0..8] == e.key.name && b[8..11] == e.key.ext && b[11] == e.attribute && b[12] == e.userAttribute
      && b[13..20] == e.stamps && b[20..22] == [e.cluster / 0x1_0000 % 0x100, e.cluster / 0x100_0000]
      && b[22..26] == e.modified && b[26..28] == [e.cluster % 0x100, e.cluster / 0x100 % 0x100]
      && b[28..32] == [e.filesize % 0x100, e.filesize / 0x100 % 0x100,
                       e.filesize / 0x1_0000 % 0x100, e.filesize / 0x100_0000]
  {
    var b := EncodeEntry(e);
    var front := e.key.name + e.key.ext + [e.attribute, e.userAttribute] + e.stamps
      + Encode16(e.cluster / 0x1_0000) + e.modified + Encode16(e.cluster % 0x1_0000);
    Integer32Bytes(e.cluster);
    assert Encode32(e.cluster) == Encode16(e.cluster % 0x1_0000) + Encode16(e.cluster / 0x1_0000);
    assert Encode32(e.cluster)[..2] == Encode16(e.cluster % 0x1_0000);
    assert Encode32(e.cluster)[2..] == Encode16(e.cluster / 0x1_0000);
    assert b[20..22] == Encode16(e.cluster / 0x1_0000) && b[26..28] == Encode16(e.cluster % 0x1_0000);
    LastOf(front, Encode32(e.filesize), b);
    Integer32Bytes(e.filesize);
  }

  lemma EntryFromBytes(b: seq<byte>)
    requires |b| == 32
    ensures EncodeEntry(DecodeEntry(b)) == b
  {
    var hi, lo := Decode16(b[20..22]), Decode16(b[26..28]);
    assert (0x1_0000 * hi + lo) / 0x1_0000 == hi && (0x1_0000 * hi + lo) % 0x1_0000 == lo;
    Integer16FromBytes(b[20..22]);
    Integer16FromBytes(b[26..28]);
    Integer32FromBytes(b[28..32]);
    assert b == b[0..8] + b[8..11] + [b[11], b[12]] + b[13..20] + b[20..22] + b[22..26] + b[26..28] + b[28..32];
  }

  // ----- whole clusters

  function EncodeTable(t: Table): ClusterBytes {
    seq(2048, k requires 0 <= k < 2048 => EncodeEntry(t[k / 32])[k % 32])
  }

  function DecodeTable(b: ClusterBytes): Table {
    seq(64, i requires 0 <= i < 64 => DecodeEntry(b[32 * i .. 32 * i + 32]))
  }

  /** The entry in slot i lies at byte 32 * i of its cluster. */
  lemma TableSlice(t: Table, i: nat)
    requires i < 64
    ensures EncodeTable(t)[32 * i .. 32 * i + 32] == EncodeEntry(t[i])
  {
    var b := EncodeTable(t);
    forall k | 0 <= k < 32
      ensures b[32 * i .. 32 * i + 32][k] == EncodeEntry(t[i])[k]
    {
      assert b[32 * i + k] == EncodeEntry(t[(32 * i + k) / 32])[(32 * i + k) % 32];
      assert (32 * i + k) / 32 == i && (32 * i + k) % 32 == k;
    }
  }

  lemma TableRoundTrip(t: Table)
    ensures DecodeTable(EncodeTable(t)) == t
  {
    forall i | 0 <= i < 64
      ensures DecodeTable(EncodeTable(t))[i] == t[i]
    {
      TableSlice(t, i);
      EntryRoundTrip(t[i]);
    }
  }

  lemma TableByte(b: ClusterBytes, k: nat)
    requires k < 2048
    ensures EncodeTable(DecodeTable(b))[k] == b[k]
  {
    hide EncodeEntry, DecodeEntry;
    var i := k / 32;
    var part := b[32 * i .. 32 * i + 32];
    EntryFromBytes(part);
    assert EncodeTable(DecodeTable(b))[k] == EncodeEntry(DecodeEntry(part))[k % 32];
    assert part[k % 32] == b[32 * i + k % 32];
  }

  lemma TableFromBytes(b: ClusterBytes)
    ensures EncodeTable(DecodeTable(b)) == b
  {
    hide EncodeTable, DecodeTable;
    forall k | 0 <= k < 2048
      ensures EncodeTable(DecodeTable(b))[k] == b[k]
    {
      TableByte(b, k);
    }
  }

  function EncodeMap(m: CellMap): ClusterBytes {
    seq(2048, k requires 0 <= k < 2048 => Encode32(m[k / 4])[k % 4])
  }

  function DecodeMap(b: ClusterBytes): CellMap {
    seq(512, i requires 0 <= i < 512 => Decode32(b[4 * i .. 4 * i + 4]))
  }

  lemma MapSlice(m: CellMap, i: nat)
    requires i < 512
    ensures EncodeMap(m)[4 * i .. 4 * i + 4] == Encode32(m[i])
  {
    var b := EncodeMap(m);
    forall k | 0 <= k < 4
      ensures b[4 * i .. 4 * i + 4][k] == Encode32(m[i])[k]
    {
      assert b[4 * i + k] == Encode32(m[(4 * i + k) / 4])[(4 * i + k) % 4];
      assert (4 * i + k) / 4 == i && (4 * i + k) % 4 == k;
    }
  }

  /** Where each cell of the allocation table lies, and the order of its bytes. */
  lemma MapBytes(m: CellMap, c: nat)
    requires c < CLUSTER_MAP_SIZE
    ensures EncodeMap(m)[4 * c .. 4 * c + 4]
         == [m[c] % 0x100, m[c] / 0x100 % 0x100, m[c] / 0x1_0000 % 0x100, m[c] / 0x100_0000]
  {
    MapSlice(m, c);
    Integer32Bytes(m[c]);
  }

  lemma MapRoundTrip(m: CellMap)
    ensures DecodeMap(EncodeMap(m)) == m
  {
    forall i | 0 <= i < 512
      ensures DecodeMap(EncodeMap(m))[i] == m[i]
    {
      MapSlice(m, i);
      Integer32RoundTrip(m[i]);
    }
  }

  /** The bytes that a cluster put to a known use holds. */
  function Bytes(c: Cluster): ClusterBytes {
    match c
    case Blank => ZeroBytes()
    case Boot => Signature() + seq(1536, _ => 0)
    case Map(cells) => EncodeMap(cells)
    case Directory(table) => EncodeTable(table)
    case Data(bytes) => bytes
  }

  /** A zeroed cluster reads as a table of zero entries, and such a table is written as one. */
  lemma BlankTable()
    ensures EncodeTable(ZeroTable()) == ZeroBytes()
    ensures DecodeTable(ZeroBytes()) == ZeroTable()
  {
    assert EncodeEntry(ZERO_ENTRY) == seq(32, _ => 0);
    TableRoundTrip(ZeroTable());
  }
}
