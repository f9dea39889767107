/** On-disk metadata of the file system (include/filesystem.h): a packed 48-byte superblock in
  one sector, and 64 packed 52-byte inodes in 64-byte slots, eight to a sector. */
module FsCodec {
  import opened Bytes

  const SECTOR_SIZE := 512
  const MAX_FILENAME := 32
  const MAX_FILES := 64
  const SUPERBLOCK_SECTOR := 1
  const INODE_SECTOR := 2
  const INODE_SECTORS := 8
  const DATA_SECTOR := 10
  const MAGIC := 0x48594452
  const EMPTY := 0
  const REGULAR := 1

  const SUPERBLOCK_SIZE := 48
  const INODE_SIZE := 52
  const SLOT_SIZE := 64

  type Sector = s: seq<byte> | |s| == SECTOR_SIZE witness seq(512, _ => 0)

  /** A fixed array of 32 characters. */
  type Name = s: seq<byte> | |s| == MAX_FILENAME witness seq(32, _ => 0)

  datatype Superblock = Superblock(magic: uint32, totalSectors: uint32, usedSectors: uint32,
                                   inodeCount: uint32, volume: Name)

  datatype Inode = Inode(name: Name, size: uint32, startSector: uint32, kind: uint32,
                         created: uint32, modified: uint32) {
    predicate Live() {
      kind != EMPTY
    }
  }

  // Superblock

  function SuperblockBytes(sb: Superblock): (b: seq<byte>)
    ensures |b| == SUPERBLOCK_SIZE
  {
    ToBytes(sb.magic) + ToBytes(sb.totalSectors) + ToBytes(sb.usedSectors) + ToBytes(sb.inodeCount) + sb.volume
  }

  function ParseSuperblock(b: seq<byte>): Superblock
    requires |b| == SUPERBLOCK_SIZE
  {
    Superblock(FromBytes(b[0..4]), FromBytes(b[4..8]), FromBytes(b[8..12]), FromBytes(b[12..16]), b[16..48])
  }

  function SuperblockSector(sb: Superblock): Sector {
    SuperblockBytes(sb) + seq(SECTOR_SIZE - SUPERBLOCK_SIZE, _ => 0)
  }

  lemma SuperblockRoundTrip(sb: Superblock)
    ensures ParseSuperblock(SuperblockSector(sb)[..SUPERBLOCK_SIZE]) == sb
  {
    hide ToBytes, FromBytes;
    var b := SuperblockSector(sb)[..SUPERBLOCK_SIZE];
    assert b == SuperblockBytes(sb);
    assert b[0..4] == ToBytes(sb.magic) && b[4..8] == ToBytes(sb.totalSectors);
    assert b[8..12] == ToBytes(sb.usedSectors) && b[12..16] == ToBytes(sb.inodeCount);
    assert b[16..48] == sb.volume;
    ToFromBytes(sb.magic);
    ToFromBytes(sb.totalSectors);
    ToFromBytes(sb.usedSectors);
    ToFromBytes(sb.inodeCount);
  }

  // Inodes

  function InodeBytes(n: Inode): (b: seq<byte>)
    ensures |b| == INODE_SIZE
  {
    n.name + ToBytes(n.size) + ToBytes(n.startSector) + ToBytes(n.kind) + ToBytes(n.created) + ToBytes(n.modified)
  }

  function ParseInode(b: seq<byte>): Inode
    requires |b| == INODE_SIZE
  {
    Inode(b[0..32], FromBytes(b[32..36]), FromBytes(b[36..40]), FromBytes(b[40..44]), FromBytes(b[44..48]), FromBytes(b[48..52]))
  }

  lemma InodeRoundTrip(n: Inode)
    ensures ParseInode(InodeBytes(n)) == n
  {
    hide ToBytes, FromBytes;
    var b := InodeBytes(n);
    assert b[0..32] == n.name && b[32..36] == ToBytes(n.size) && b[36..40] == ToBytes(n.startSector);
    assert b[40..44] == ToBytes(n.kind) && b[44..48] == ToBytes(n.created) && b[48..52] == ToBytes(n.modified);
    ToFromBytes(n.size);
    ToFromBytes(n.startSector);
    ToFromBytes(n.kind);
    ToFromBytes(n.created);
    ToFromBytes(n.modified);
  }

  type InodeTable = t: seq<Inode> | |t| == MAX_FILES
    witness seq(64, _ => Inode(seq(32, _ => 0), 0, 0, 0, 0, 0))

  /** Byte p of inode sector s: byte p % 64 of slot p / 64, zero behind the 52 inode bytes. */
  function SlotByte(t: InodeTable, s: nat, p: nat): byte
    requires s < INODE_SECTORS && p < SECTOR_SIZE
  {
    if p % SLOT_SIZE < INODE_SIZE then InodeBytes(t[8 * s + p / SLOT_SIZE])[p % SLOT_SIZE] else 0
  }

  function InodeSector(t: InodeTable, s: nat): Sector
    requires s < INODE_SECTORS
  {
    seq(SECTOR_SIZE, p requires 0 <= p < SECTOR_SIZE => SlotByte(t, s, p))
  }

  /** The inode in slot i of a sector. */
  function SlotInode(b: Sector, i: nat): Inode
    requires i < 8
  {
    ParseInode(b[SLOT_SIZE * i..SLOT_SIZE * i + INODE_SIZE])
  }

  lemma SlotRoundTrip(t: InodeTable, s: nat, i: nat)
    requires s < INODE_SECTORS && i < 8
    ensures SlotInode(InodeSector(t, s), i) == t[8 * s + i]
  {
    var b := InodeSector(t, s)[SLOT_SIZE * i..SLOT_SIZE * i + INODE_SIZE];
    forall j | 0 <= j < INODE_SIZE ensures b[j] == InodeBytes(t[8 * s + i])[j] {
      var p := SLOT_SIZE * i + j;
      assert p / SLOT_SIZE == i && p % SLOT_SIZE == j;
      assert b[j] == SlotByte(t, s, p);
    }
    assert b == InodeBytes(t[8 * s + i]);
    InodeRoundTrip(t[8 * s + i]);
  }

  /** Sectors that do not hold a changed inode stay the same. */
  lemma OtherSlots(t: InodeTable, i: nat, n: Inode, s: nat)
    requires i < MAX_FILES && s < INODE_SECTORS && s != i / 8
    ensures InodeSector(t[i := n], s) == InodeSector(t, s)
  {
    forall p | 0 <= p < SECTOR_SIZE ensures SlotByte(t[i := n], s, p) == SlotByte(t, s, p) {
      assert 8 * s <= 8 * s + p / SLOT_SIZE < 8 * s + 8;
    }
  }

  /** The table that LoadInodeTable builds from the eight inode sectors of a disk. */
  function LoadTable(d: seq<Sector>): InodeTable
    requires |d| >= DATA_SECTOR
  {
    seq(MAX_FILES, i requires 0 <= i < MAX_FILES => SlotInode(d[INODE_SECTOR + i / 8], i % 8))
  }

  function LoadSuperblock(d: seq<Sector>): Superblock
    requires |d| >= DATA_SECTOR
  {
    ParseSuperblock(d[SUPERBLOCK_SECTOR][..SUPERBLOCK_SIZE])
  }

  /** The disk holds the table. */
  ghost predicate TableOnDisk(d: seq<Sector>, t: InodeTable) {
    |d| >= DATA_SECTOR && forall s :: 0 <= s < INODE_SECTORS ==> d[INODE_SECTOR + s] == InodeSector(t, s)
  }

  /** Loading gives back all 64 inodes that were saved. */
  lemma TableRoundTrip(d: seq<Sector>, t: InodeTable)
    requires TableOnDisk(d, t)
    ensures LoadTable(d) == t
  {
    forall i | 0 <= i < MAX_FILES ensures LoadTable(d)[i] == t[i] {
      assert i == 8 * (i / 8) + i % 8 && i / 8 < INODE_SECTORS;
      SlotRoundTrip(t, i / 8, i % 8);
    }
  }
}
