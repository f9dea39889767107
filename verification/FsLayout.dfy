/** The bytes on the disk, field by field (include/filesystem.h): where each operation reads and
  writes them, and that it changes no other byte. */
module FsLayout {
  import opened Bytes
  import opened FsCodec
  import opened FsModel
  import opened FsDisk
  import opened FsInvariant
  import opened FsOps
  import opened FsWrite

  // Superblock and inode slots

  /** A superblock as packed in the first 48 bytes of a sector. */
  predicate SuperblockAt(s: Sector, sb: Superblock) {
    && Word(s, 0, sb.magic) && Word(s, 4, sb.totalSectors)
    && Word(s, 8, sb.usedSectors) && Word(s, 12, sb.inodeCount)
    && s[16..48] == sb.volume
  }

  /** An inode as packed in 52 bytes of a sector from byte o on. */
  predicate InodeAt(s: Sector, o: nat, n: Inode) {
    && o + 52 <= 512
    && s[o..o + 32] == n.name
    && Word(s, o + 32, n.size) && Word(s, o + 36, n.startSector) && Word(s, o + 40, n.kind)
    && Word(s, o + 44, n.created) && Word(s, o + 48, n.modified)
  }

  /** A saved superblock is laid out in this way, with zeros behind it. */
  lemma SuperblockLayout(sb: Superblock)
    ensures SuperblockAt(SuperblockSector(sb), sb)
    ensures forall p :: 48 <= p < 512 ==> SuperblockSector(sb)[p] == 0
  {
    hide ToBytes, Word;
    var s := SuperblockSector(sb);
    assert s[0..4] == ToBytes(sb.magic) && s[4..8] == ToBytes(sb.totalSectors);
    assert s[8..12] == ToBytes(sb.usedSectors) && s[12..16] == ToBytes(sb.inodeCount);
    assert s[16..48] == sb.volume;
    StoredWord(s, 0, sb.magic);
    StoredWord(s, 4, sb.totalSectors);
    StoredWord(s, 8, sb.usedSectors);
    StoredWord(s, 12, sb.inodeCount);
  }

  /** Loading reads this layout from sector 1, whatever the sector holds. */
  lemma LoadedSuperblock(d: seq<Sector>)
    requires |d| >= 10
    ensures SuperblockAt(d[1], LoadSuperblock(d))
  {
    hide FromBytes, Word;
    var s := d[1];
    var b := s[..48];
    assert b[0..4] == s[0..4] && b[4..8] == s[4..8] && b[8..12] == s[8..12] && b[12..16] == s[12..16];
    assert b[16..48] == s[16..48];
    LoadedWord(s, 0);
    LoadedWord(s, 4);
    LoadedWord(s, 8);
    LoadedWord(s, 12);
  }

  /** Byte q of slot i in its sector. */
  lemma SlotBytes(t: InodeTable, i: nat, q: nat)
    requires i < 64 && q < 64
    ensures 64 * (i % 8) + q < 512
    ensures InodeSector(t, i / 8)[64 * (i % 8) + q] == if q < 52 then InodeBytes(t[i])[q] else 0
  {
    var p := 64 * (i % 8) + q;
    assert p / 64 == i % 8 && p % 64 == q;
    assert InodeSector(t, i / 8)[p] == SlotByte(t, i / 8, p);
  }

  lemma InodeBytesLayout(n: Inode)
    ensures var b := InodeBytes(n);
      && b[..32] == n.name && b[32..36] == ToBytes(n.size) && b[36..40] == ToBytes(n.startSector)
      && b[40..44] == ToBytes(n.kind) && b[44..48] == ToBytes(n.created) && b[48..52] == ToBytes(n.modified)
  {
    hide ToBytes;
  }

  /** A saved inode is laid out in this way in slot i % 8 of inode sector i / 8, with zeros behind
      it. */
  lemma InodeLayout(t: InodeTable, i: nat)
    requires i < 64
    ensures var s, o := InodeSector(t, i / 8), 64 * (i % 8);
      InodeAt(s, o, t[i]) && forall p :: o + 52 <= p < o + 64 ==> s[p] == 0
  {
    var s, o := InodeSector(t, i / 8), 64 * (i % 8);
    forall q | 0 <= q < 64 ensures s[o + q] == if q < 52 then InodeBytes(t[i])[q] else 0 {
      SlotBytes(t, i, q);
    }
    hide InodeSector, InodeBytes, ToBytes, Word;
    forall p | o + 52 <= p < o + 64 ensures s[p] == 0 {
      assert s[o + (p - o)] == 0;
    }
    PackedAt(s, o, t[i]);
  }

  lemma PackedAt(s: Sector, o: nat, n: Inode)
    requires o + 52 <= 512 && forall q :: 0 <= q < 52 ==> s[o + q] == InodeBytes(n)[q]
    ensures InodeAt(s, o, n)
  {
    hide InodeBytes, ToBytes, Word;
    var b := InodeBytes(n);
    assert s[o..o + 52] == b;
    InodeBytesLayout(n);
    assert s[o..o + 32] == b[..32] && s[o + 32..o + 36] == b[32..36] && s[o + 36..o + 40] == b[36..40];
    assert s[o + 40..o + 44] == b[40..44] && s[o + 44..o + 48] == b[44..48] && s[o + 48..o + 52] == b[48..52];
    StoredWord(s, o + 32, n.size);
    StoredWord(s, o + 36, n.startSector);
    StoredWord(s, o + 40, n.kind);
    StoredWord(s, o + 44, n.created);
    StoredWord(s, o + 48, n.modified);
  }

  lemma ParsedAt(s: Sector, o: nat)
    requires o + 52 <= 512
    ensures InodeAt(s, o, ParseInode(s[o..o + 52]))
  {
    hide FromBytes, Word;
    var b := s[o..o + 52];
    assert b[0..32] == s[o..o + 32];
    LoadedWordOf(s, o, 32);
    LoadedWordOf(s, o, 36);
    LoadedWordOf(s, o, 40);
    LoadedWordOf(s, o, 44);
    LoadedWordOf(s, o, 48);
  }

  lemma LoadedWordOf(s: Sector, o: nat, at: nat)
    requires o + 52 <= 512 && at + 4 <= 52
    ensures Word(s, o + at, FromBytes(s[o..o + 52][at..at + 4]))
  {
    hide FromBytes, Word;
    var b := s[o..o + 52];
    assert b[at] == s[o + at] && b[at + 1] == s[o + at + 1] && b[at + 2] == s[o + at + 2] && b[at + 3] == s[o + at + 3];
    assert b[at..at + 4] == [b[at], b[at + 1], b[at + 2], b[at + 3]] == s[o + at..o + at + 4];
    LoadedWord(s, o + at);
  }

  /** Loading reads this layout from the sectors 2 to 9, whatever they hold. */
  lemma LoadedInode(d: seq<Sector>, i: nat)
    requires |d| >= 10 && i < 64
    ensures InodeAt(d[2 + i / 8], 64 * (i % 8), LoadTable(d)[i])
  {
    hide ParseInode;
    ParsedAt(d[2 + i / 8], 64 * (i % 8));
    assert LoadTable(d)[i] == SlotInode(d[INODE_SECTOR + i / 8], i % 8);
    hide InodeAt;
  }

  // Which bytes change

  /** Byte p of sector s is one of the bytes a..b-1 of inode slot i. */
  predicate InSlot(i: nat, s: nat, p: nat, a: nat, b: nat) {
    s == 2 + i / 8 && 64 * (i % 8) + a <= p < 64 * (i % 8) + b
  }

  lemma ChangedField(m: Inode, n: Inode, q: nat)
    requires q < 52 && InodeBytes(m)[q] != InodeBytes(n)[q]
    ensures if q < 32 then m.name[q] != n.name[q] else if q < 36 then m.size != n.size
            else if q < 40 then m.startSector != n.startSector else if q < 44 then m.kind != n.kind
            else if q < 48 then m.created != n.created else m.modified != n.modified
  {
    hide ToBytes;
  }

  lemma ChangedSuperblock(a: Superblock, b: Superblock, p: nat)
    requires p < 512 && SuperblockSector(a)[p] != SuperblockSector(b)[p]
    ensures if p < 4 then a.magic != b.magic else if p < 8 then a.totalSectors != b.totalSectors
            else if p < 12 then a.usedSectors != b.usedSectors else if p < 16 then a.inodeCount != b.inodeCount
            else p < 48 && a.volume[p - 16] != b.volume[p - 16]
  {
    hide ToBytes;
  }

  /** A change of inode i changes bytes of its slot only. */
  lemma ChangedTable(t: InodeTable, i: nat, n: Inode, s: nat, p: nat)
    requires i < 64 && s < 8 && p < 512 && InodeSector(t[i := n], s)[p] != InodeSector(t, s)[p]
    ensures InSlot(i, 2 + s, p, 0, 52)
    ensures InodeBytes(n)[p - 64 * (i % 8)] != InodeBytes(t[i])[p - 64 * (i % 8)]
  {
    hide InodeBytes, InodeSector;
    if s != i / 8 {
      OtherSlots(t, i, n, s);
    } else {
      var j := 8 * s + p / 64;
      assert j / 8 == s && j % 8 == p / 64 && p == 64 * (j % 8) + p % 64;
      SlotBytes(t, j, p % 64);
      SlotBytes(t[i := n], j, p % 64);
      assert j == i;
    }
  }

  /** Saving a table with one changed inode, and the superblock, on a disk that holds the old ones. */
  lemma ChangedMetadata(fs: FS, d: seq<Sector>, sb: Superblock, i: nat, n: Inode, s: nat, p: nat)
    requires Durable(fs) && |d| == |fs.disk| && i < 64 && s < |d| && p < 512
    requires d[s] == AfterSave(fs.disk, sb, fs.inodes[i := n], s) && d[s][p] != fs.disk[s][p]
    ensures s == 1 || InSlot(i, s, p, 0, 52)
    ensures s == 1 ==> SuperblockSector(sb)[p] != SuperblockSector(fs.sb)[p]
    ensures InSlot(i, s, p, 0, 52) ==> InodeBytes(n)[p - 64 * (i % 8)] != InodeBytes(fs.inodes[i])[p - 64 * (i % 8)]
  {
    hide InodeSector, SuperblockSector, InodeBytes;
    if s != 1 {
      assert fs.disk[INODE_SECTOR + (s - 2)] == InodeSector(fs.inodes, s - 2);
      ChangedTable(fs.inodes, i, n, s - 2, p);
    }
  }

  // CreateFile

  /** How many characters CreateFile and Format keep of a name. */
  function Kept(f: seq<byte>): nat {
    if |f| < 31 then |f| else 31
  }

  /** A created file on the disk: its cut name with a NUL, type 1, no bytes and no sector. */
  lemma CreateBytes(fs: FS, f: seq<byte>)
    requires Durable(fs) && CreateFile(fs, f).ret >= 0
    ensures var i, d := CreateFile(fs, f).ret, Commit(fs, CreateFile(fs, f)).disk;
      && i < 64 && |d| == |fs.disk|
      && var s, o := d[2 + i / 8], 64 * (i % 8);
      && o + 64 <= 512
      && s[o..o + Kept(f)] == f[..Kept(f)] && s[o + Kept(f)] == 0
      && Word(s, o + 32, 0) && Word(s, o + 36, 0) && Word(s, o + 40, 1) && Word(s, o + 44, 0) && Word(s, o + 48, 0)
      && Word(d[1], 12, if fs.sb.inodeCount == 0xFFFF_FFFF then 0 else fs.sb.inodeCount + 1)
  {
    hide SuperblockSector, InodeSector, InodeBytes, TableWrites, Apply, Word, Matches;
    var e, i := CreateFile(fs, f), CreateFile(fs, f).ret;
    SaveTableFirst(fs.disk, e.sb, e.inodes);
    InodeLayout(e.inodes, i);
    SuperblockLayout(e.sb);
    var d := Commit(fs, e).disk;
    var s, o := d[2 + i / 8], 64 * (i % 8);
    assert s == InodeSector(e.inodes, i / 8);
    var name := CopyName(fs.inodes[i].name, f);
    assert Truncated(f) == f[..Kept(f)];
    NameStored(s, o, name, f, fs.inodes[i].name);
  }

  lemma NameStored(s: Sector, o: nat, name: Name, f: seq<byte>, previous: Name)
    requires o + 64 <= 512 && s[o..o + 32] == name && name == CopyName(previous, f)
    ensures s[o..o + Kept(f)] == f[..Kept(f)] && s[o + Kept(f)] == 0
  {
    var k := Kept(f);
    assert s[o..o + k] == s[o..o + 32][..k] == name[..k];
    assert s[o + k] == s[o..o + 32][k];
  }

  /** It changes no other byte. */
  lemma CreateFrame(fs: FS, f: seq<byte>, s: nat, p: nat)
    requires Durable(fs) && CreateFile(fs, f).ret >= 0 && s < |fs.disk| && p < 512
    requires Commit(fs, CreateFile(fs, f)).disk[s][p] != fs.disk[s][p]
    ensures var i := CreateFile(fs, f).ret;
      InSlot(i, s, p, 0, Kept(f) + 1) || InSlot(i, s, p, 32, 52) || (s == 1 && 12 <= p < 16)
  {
    hide SuperblockSector, InodeSector, InodeBytes, TableWrites, Apply, Matches;
    var e, i := CreateFile(fs, f), CreateFile(fs, f).ret;
    SaveTableFirst(fs.disk, e.sb, e.inodes);
    var n := CreatedInode(fs, f);
    assert e.inodes == fs.inodes[i := n];
    ChangedMetadata(fs, Commit(fs, e).disk, e.sb, i, n, s, p);
    if s == 1 {
      ChangedSuperblock(e.sb, fs.sb, p);
    } else {
      var q := p - 64 * (i % 8);
      ChangedField(n, fs.inodes[i], q);
    }
  }

  // DeleteFile

  /** A deleted file on the disk: type and size are 0, and no other byte but the count changes. */
  lemma DeleteBytes(fs: FS, f: seq<byte>)
    requires Durable(fs) && OpenFile(fs, f) >= 0
    ensures var i, d := OpenFile(fs, f), Commit(fs, DeleteFile(fs, f)).disk;
      && i < 64 && |d| == |fs.disk|
      && var s, o := d[2 + i / 8], 64 * (i % 8);
      && Word(s, o + 32, 0) && Word(s, o + 40, 0)
      && Word(d[1], 12, if fs.sb.inodeCount == 0 then 0xFFFF_FFFF else fs.sb.inodeCount - 1)
  {
    hide SuperblockSector, InodeSector, InodeBytes, TableWrites, Apply, Word, Matches;
    var e, i := DeleteFile(fs, f), OpenFile(fs, f);
    SaveTableFirst(fs.disk, e.sb, e.inodes);
    InodeLayout(e.inodes, i);
    SuperblockLayout(e.sb);
    assert Commit(fs, e).disk[2 + i / 8] == InodeSector(e.inodes, i / 8);
  }

  lemma DeleteFrame(fs: FS, f: seq<byte>, s: nat, p: nat)
    requires Durable(fs) && OpenFile(fs, f) >= 0 && s < |fs.disk| && p < 512
    requires Commit(fs, DeleteFile(fs, f)).disk[s][p] != fs.disk[s][p]
    ensures var i := OpenFile(fs, f); InSlot(i, s, p, 32, 36) || InSlot(i, s, p, 40, 44) || (s == 1 && 12 <= p < 16)
  {
    hide SuperblockSector, InodeSector, InodeBytes, TableWrites, Apply, Matches;
    var e, i := DeleteFile(fs, f), OpenFile(fs, f);
    SaveTableFirst(fs.disk, e.sb, e.inodes);
    var n := fs.inodes[i].(kind := EMPTY, size := 0);
    ChangedMetadata(fs, Commit(fs, e).disk, e.sb, i, n, s, p);
    if s == 1 {
      ChangedSuperblock(e.sb, fs.sb, p);
    } else {
      ChangedField(n, fs.inodes[i], p - 64 * (i % 8));
    }
  }

  // WriteFile

  /** The first sector of a file, and the number of sectors that a write adds to the used ones. */
  function FirstSector(fs: FS, i: nat): nat
    requires i < 64
  {
    if fs.inodes[i].startSector == 0 then 10 + fs.sb.usedSectors else fs.inodes[i].startSector
  }

  function NewlyUsed(fs: FS, i: nat, size: nat): nat
    requires i < 64
  {
    (if fs.inodes[i].startSector == 0 then 1 else 0) + (if size == 0 then 0 else (size - 1) / 512)
  }

  lemma AllocatedIs(fs: FS, i: nat, size: nat)
    requires i < 64
    ensures Allocated(fs.inodes[i], size) == NewlyUsed(fs, i, size) && WriteStart(fs, i) == FirstSector(fs, i)
    ensures size > 0 ==> Sectors(size) == (size - 1) / 512 + 1
    ensures size == 0 ==> Sectors(size) == 0
  {
  }

  /** A written file on the disk: size and first sector in its slot, the data from there on, padded
      with zeros, and the raised count of used sectors. A rewrite raises it, too. */
  lemma WriteBytes(fs: FS, i: nat, data: seq<byte>)
    requires Durable(fs) && Accessible(fs, i) && Room(fs, i, |data|)
    ensures var start, d := FirstSector(fs, i), Commit(fs, WriteFile(fs, i, data)).disk;
      && |d| == |fs.disk|
      && var s, o := d[2 + i / 8], 64 * (i % 8);
      && Word(s, o + 32, |data|) && Word(s, o + 36, start) && Word(s, o + 48, 0)
      && Word(d[1], 8, fs.sb.usedSectors + NewlyUsed(fs, i, |data|))
  {
    hide SuperblockSector, InodeSector, InodeBytes, TableWrites, Apply, Word, Chunk, WriteBody;
    var e := WriteFile(fs, i, data);
    StartBounds(fs, i, |data|);
    AllocatedIs(fs, i, |data|);
    WriteSaved(fs, i, data);
    InodeLayout(e.inodes, i);
    SuperblockLayout(e.sb);
    assert Commit(fs, e).disk[INODE_SECTOR + i / 8] == InodeSector(e.inodes, i / 8);
  }

  lemma WrittenByte(fs: FS, i: nat, data: seq<byte>, q: nat)
    requires Durable(fs) && Accessible(fs, i) && Room(fs, i, |data|) && |data| > 0 && q / 512 <= (|data| - 1) / 512
    ensures var start, d := FirstSector(fs, i), Commit(fs, WriteFile(fs, i, data)).disk;
      start + q / 512 < |d| && d[start + q / 512][q % 512] == if q < |data| then data[q] else 0
  {
    hide SuperblockSector, InodeSector, InodeBytes, TableWrites, Apply, WriteBody;
    StartBounds(fs, i, |data|);
    AllocatedIs(fs, i, |data|);
    WriteOnDisk(fs, i, data, FirstSector(fs, i) + q / 512);
    assert 512 * (q / 512) + q % 512 == q;
  }

  /** It changes no other byte. */
  lemma WriteFrame(fs: FS, i: nat, data: seq<byte>, s: nat, p: nat)
    requires Durable(fs) && Accessible(fs, i) && Room(fs, i, |data|) && s < |fs.disk| && p < 512
    requires Commit(fs, WriteFile(fs, i, data)).disk[s][p] != fs.disk[s][p]
    ensures var start := FirstSector(fs, i);
      || InSlot(i, s, p, 32, 40) || InSlot(i, s, p, 48, 52) || (s == 1 && 8 <= p < 12)
      || (|data| > 0 && start <= s <= start + (|data| - 1) / 512)
  {
    hide SuperblockSector, InodeSector, InodeBytes, TableWrites, Apply, Chunk, WriteBody;
    var e := WriteFile(fs, i, data);
    StartBounds(fs, i, |data|);
    AllocatedIs(fs, i, |data|);
    WriteSaved(fs, i, data);
    WriteOnDisk(fs, i, data, s);
    if !(WriteStart(fs, i) <= s < WriteStart(fs, i) + Sectors(|data|)) {
      var n := e.inodes[i];
      ChangedMetadata(fs, Commit(fs, e).disk, e.sb, i, n, s, p);
      if s == 1 {
        ChangedSuperblock(e.sb, fs.sb, p);
      } else {
        ChangedField(n, fs.inodes[i], p - 64 * (i % 8));
      }
    }
  }
}
