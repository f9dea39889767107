/** Crash atomicity: stop an operation after any number of its sector writes, lose the memory,
  mount the disk, and find the files either all as before or all as after the operation. */
module FsCrash {
  import opened Bytes
  import opened FsCodec
  import opened FsModel
  import opened FsDisk
  import opened FsInvariant
  import opened FsOps
  import opened FsWrite

  /** The file system that Mount builds from a disk. */
  function Remount(d: seq<Sector>): FS
    requires |d| >= DATA_SECTOR
  {
    FS(LoadSuperblock(d), LoadTable(d), true, d)
  }

  /** Mounting disk d, whatever is in memory, succeeds, and gives a consistent file system with
      the files m. */
  ghost predicate Recovers(d: seq<Sector>, m: map<seq<byte>, seq<byte>>) {
    && |d| >= DATA_SECTOR
    && (forall memory: FS :: memory.disk == d ==> Mount(memory).ret == 1 && Commit(memory, Mount(memory)) == Remount(d))
    && Consistent(Remount(d))
    && Files(Remount(d)) == m
  }

  /** A disk with the table of fs and all its owned sectors recovers the files of fs, even if its
      superblock counts more sectors or another number of files. */
  lemma RecoversAs(fs: FS, d: seq<Sector>, sb: Superblock)
    requires Consistent(fs) && |d| == |fs.disk|
    requires sb.magic == MAGIC && fs.sb.usedSectors <= sb.usedSectors && DATA_SECTOR + sb.usedSectors <= |d|
    requires d[SUPERBLOCK_SECTOR] == SuperblockSector(sb) && TableOnDisk(d, fs.inodes)
    requires forall j, s :: 0 <= j < MAX_FILES && 0 <= s < |d| && Owns(fs.inodes[j], s) ==> d[s] == fs.disk[s]
    ensures Recovers(d, Files(fs))
  {
    SuperblockRoundTrip(sb);
    TableRoundTrip(d, fs.inodes);
    NoWrites(d);
    hide SuperblockSector, InodeSector, StoredName, Content, Apply, LoadTable, LoadSuperblock, View;
    assert Remount(d) == FS(sb, fs.inodes, true, d);
    forall i | 0 <= i < MAX_FILES ensures Placed(fs.inodes[i], sb.usedSectors) {
      assert Placed(fs.inodes[i], fs.sb.usedSectors);
    }
    ViewSame(fs.disk, d, fs.inodes);
  }

  /** Half-way through saving a table in which only inode i changed, the disk holds the old table
      or the new one, since all other sectors are equal in both. */
  lemma TablePrefix(d: seq<Sector>, t: InodeTable, i: nat, n: Inode, k: nat)
    requires TableOnDisk(d, t) && i < MAX_FILES && k <= INODE_SECTORS
    ensures var r := Apply(d, TableWrites(t[i := n])[..k]);
      && (if k <= i / 8 then TableOnDisk(r, t) else TableOnDisk(r, t[i := n]))
      && forall s :: 0 <= s < |d| && !(INODE_SECTOR <= s < DATA_SECTOR) ==> r[s] == d[s]
  {
    hide InodeSector, Apply, TableWrites;
    var u := t[i := n];
    var r := Apply(d, TableWrites(u)[..k]);
    var v := if k <= i / 8 then t else u;
    forall s | 0 <= s < INODE_SECTORS ensures r[INODE_SECTOR + s] == InodeSector(v, s) {
      ApplyTable(d, u, k, INODE_SECTOR + s);
      if s != i / 8 {
        OtherSlots(t, i, n, s);
      }
    }
    forall s | 0 <= s < |d| && !(INODE_SECTOR <= s < DATA_SECTOR) ensures r[s] == d[s] {
      ApplyTable(d, u, k, s);
    }
  }

  /** The disk after the first k writes of an operation. */
  function Crashed(fs: FS, e: Effect, k: nat): seq<Sector>
    requires k <= |e.writes|
  {
    Apply(fs.disk, e.writes[..k])
  }

  /** All or nothing. */
  ghost predicate Atomic(fs: FS, e: Effect, k: nat)
    requires Consistent(fs) && Consistent(Commit(fs, e)) && k <= |e.writes|
  {
    Recovers(Crashed(fs, e, k), Files(fs)) || Recovers(Crashed(fs, e, k), Files(Commit(fs, e)))
  }

  // CreateFile and DeleteFile

  /** An operation that saves a table with one changed inode, and then the superblock. */
  lemma MetadataAtomic(fs: FS, e: Effect, i: nat, n: Inode, k: nat)
    requires Consistent(fs) && Consistent(Commit(fs, e)) && i < MAX_FILES && e.inodes == fs.inodes[i := n]
    requires e.writes == TableWrites(e.inodes) + [SuperblockWrite(e.sb)] && k <= |e.writes|
    requires e.sb.usedSectors == fs.sb.usedSectors
    ensures Atomic(fs, e, k)
  {
    hide InodeSector, SuperblockSector, StoredName, Content, View, TableWrites;
    var after := Commit(fs, e);
    if k <= INODE_SECTORS {
      assert e.writes[..k] == TableWrites(e.inodes)[..k];
      TablePrefix(fs.disk, fs.inodes, i, n, k);
      if k <= i / 8 {
        OwnedAboveMetadata(fs);
        RecoversAs(fs, Crashed(fs, e, k), fs.sb);
      } else {
        OwnedAboveMetadata(after);
        SaveTableFirst(fs.disk, e.sb, e.inodes);
        RecoversAs(after, Crashed(fs, e, k), fs.sb);
      }
    } else {
      assert e.writes[..k] == e.writes;
      RecoversAs(after, after.disk, e.sb);
    }
  }

  /** A crash during CreateFile is harmless. */
  lemma CreateAtomic(fs: FS, f: seq<byte>, k: nat)
    requires Consistent(fs) && CString(f) && |f| < MAX_FILENAME && k <= |CreateFile(fs, f).writes|
    ensures Consistent(Commit(fs, CreateFile(fs, f))) && Atomic(fs, CreateFile(fs, f), k)
  {
    var e := CreateFile(fs, f);
    CreateVerdict(fs, f);
    assert Truncated(f) == f;
    hide StoredName, Content, View, Apply, SuperblockSector, InodeSector, NamesOk, TableOnDisk;
    if e.ret >= 0 {
      CreateEffect(fs, f);
      MetadataAtomic(fs, e, FirstEmpty(fs.inodes), CreatedInode(fs, f), k);
    } else {
      RecoversAs(fs, fs.disk, fs.sb);
    }
  }

  /** A crash during DeleteFile is harmless. */
  lemma DeleteAtomic(fs: FS, f: seq<byte>, k: nat)
    requires Consistent(fs) && CString(f) && k <= |DeleteFile(fs, f).writes|
    ensures Consistent(Commit(fs, DeleteFile(fs, f))) && Atomic(fs, DeleteFile(fs, f), k)
  {
    var e := DeleteFile(fs, f);
    DeleteCorrect(fs, f);
    if e.ret == 1 {
      var i := Find(fs.inodes, f);
      MetadataAtomic(fs, e, i, fs.inodes[i].(kind := EMPTY, size := 0), k);
    } else {
      RecoversAs(fs, fs.disk, fs.sb);
    }
  }

  /** The count on the disk lags behind the table: it is the old one up to the very last write. */
  lemma CountLags(fs: FS, e: Effect, k: nat)
    requires |fs.disk| >= 10 && k <= |e.writes|
    requires (exists f :: e == CreateFile(fs, f) && e.ret >= 0) || (exists f :: e == DeleteFile(fs, f) && e.ret == 1)
    ensures |e.writes| == 9 && Crashed(fs, e, k)[1] == if k < 9 then fs.disk[1] else SuperblockSector(e.sb)
  {
    hide SuperblockSector, InodeSector, Matches;
    assert e.writes == TableWrites(e.inodes) + [SuperblockWrite(e.sb)];
    if k < 9 {
      assert e.writes[..k] == TableWrites(e.inodes)[..k];
      ApplyTable(fs.disk, e.inodes, k, 1);
    } else {
      assert e.writes[..k] == e.writes;
      SaveTableFirst(fs.disk, e.sb, e.inodes);
    }
  }

  // WriteFile

  /** Before the table is saved, WriteFile bumps the superblock or writes the file's sectors. */
  lemma BodyShape(fs: FS, i: int, data: seq<byte>, w: Write)
    requires BelowMark(fs) && Accessible(fs, i) && Room(fs, i, |data|)
    requires fs.sb.usedSectors + 1 + Sectors(|data|) < 0x1_0000_0000 && w in WriteBody(fs, i, data)
    ensures (exists n :: 0 <= n <= Allocated(fs.inodes[i], |data|) && w == SuperblockWrite(Bump(fs.sb, n)))
         || WriteStart(fs, i) <= w.sector < WriteStart(fs, i) + Sectors(|data|)
  {
    hide SuperblockSector, Chunk;
    var sb1 := FirstBump(fs, i);
    var isNew := if fs.inodes[i].startSector == 0 then 1 else 0;
    if w in DataWrites(sb1, WriteStart(fs, i), data, Sectors(|data|)) {
      DataWritesShape(sb1, WriteStart(fs, i), data, Sectors(|data|), w);
      if j :| 1 <= j < Sectors(|data|) && w == SuperblockWrite(Bump(sb1, j)) {
        assert w == SuperblockWrite(Bump(fs.sb, j + isNew));
      }
    } else {
      assert w == SuperblockWrite(Bump(fs.sb, 1));
    }
  }

  /** A disk with the table of fs on which only file i lost or changed sectors recovers all other
      files, and for file i whatever its sectors now say. */
  lemma RecoversBut(fs: FS, d: seq<Sector>, sb: Superblock, i: nat)
    requires Consistent(fs) && |d| == |fs.disk| && i < MAX_FILES && fs.inodes[i].Live()
    requires sb.magic == MAGIC && fs.sb.usedSectors <= sb.usedSectors && DATA_SECTOR + sb.usedSectors <= |d|
    requires d[SUPERBLOCK_SECTOR] == SuperblockSector(sb) && TableOnDisk(d, fs.inodes)
    requires forall j, s :: 0 <= j < MAX_FILES && j != i && 0 <= s < |d| && Owns(fs.inodes[j], s) ==> d[s] == fs.disk[s]
    ensures Recovers(d, Files(fs)[StoredName(fs.inodes[i].name) := Content(d, fs.inodes[i])])
  {
    hide SuperblockSector, InodeSector, StoredName, Content, View, Recovers;
    var n := fs.inodes[i];
    assert fs.inodes[i := n] == fs.inodes;
    var now := FS(sb, fs.inodes, true, d);
    Replaced(fs, i, n, sb, true, d);
    RecoversAs(now, d, sb);
    ViewUpdate(fs.disk, d, fs.inodes, i, n);
    SameKey(Files(fs), n, n, Content(d, n));
  }

  // Which sectors a prefix of the writes has reached

  lemma {:induction false} DataLength(sb: Superblock, start: nat, data: seq<byte>, c: nat)
    requires sb.usedSectors + c < 0x1_0000_0000
    ensures |DataWrites(sb, start, data, c)| == if c == 0 then 0 else 2 * c - 1
  {
    hide Chunk, SuperblockSector, Bump;
    if c > 0 {
      DataLength(sb, start, data, c - 1);
    }
  }

  /** A prefix of c rounds is a prefix of c - 1 rounds, or all, or ends after the last allocation. */
  lemma DataCut(sb: Superblock, start: nat, data: seq<byte>, c: nat, k: nat)
    requires sb.usedSectors + c < 0x1_0000_0000 && c > 0 && k <= |DataWrites(sb, start, data, c)|
    ensures var all, before := DataWrites(sb, start, data, c), DataWrites(sb, start, data, c - 1);
      && |all| == 2 * c - 1 && |before| == (if c == 1 then 0 else 2 * c - 3)
      && if k <= |before| then all[..k] == before[..k]
         else if k == |all| then all[..k] == all
         else k == 2 * c - 2 && all[..k] == before + [SuperblockWrite(Bump(sb, c - 1))]
  {
    hide Chunk, SuperblockSector, Bump;
    DataLength(sb, start, data, c);
    DataLength(sb, start, data, c - 1);
  }

  /** Sector q of the file after k writes of the data loop. They make up p rounds, the last of them
      perhaps followed by the next allocation. */
  lemma {:induction false} DataPrefix(d: seq<Sector>, sb: Superblock, start: nat, data: seq<byte>, c: nat, k: nat, p: nat, q: nat)
    requires sb.usedSectors + c < 0x1_0000_0000 && k <= |DataWrites(sb, start, data, c)|
    requires k == 2 * p || k == 2 * p - 1
    requires start >= DATA_SECTOR && start + c <= |d| && start + q < |d|
    ensures p <= c
    ensures Apply(d, DataWrites(sb, start, data, c)[..k])[start + q] == if q < p then Chunk(data, q) else d[start + q]
    decreases c
  {
    if c == 0 {
      NoWrites(d);
    } else {
      DataCut(sb, start, data, c, k);
      hide *;
      if k <= |DataWrites(sb, start, data, c - 1)| {
        DataPrefix(d, sb, start, data, c - 1, k, p, q);
      } else if k == 2 * c - 1 {
        RoundsAt(d, sb, start, data, c, q);
      } else {
        AllocatedAt(d, sb, start, data, c - 1, q);
      }
    }
  }

  lemma RoundsAt(d: seq<Sector>, sb: Superblock, start: nat, data: seq<byte>, c: nat, q: nat)
    requires sb.usedSectors + c < 0x1_0000_0000 && start >= DATA_SECTOR && start + c <= |d| && start + q < |d|
    ensures Apply(d, DataWrites(sb, start, data, c))[start + q] == if q < c then Chunk(data, q) else d[start + q]
  {
    hide Chunk, SuperblockSector, Apply, DataWrites;
    ApplyData(d, sb, start, data, c, start + q);
  }

  lemma AllocatedAt(d: seq<Sector>, sb: Superblock, start: nat, data: seq<byte>, c: nat, q: nat)
    requires sb.usedSectors + c < 0x1_0000_0000 && start >= DATA_SECTOR && start + c <= |d| && start + q < |d|
    ensures Apply(d, DataWrites(sb, start, data, c) + [SuperblockWrite(Bump(sb, c))])[start + q]
            == if q < c then Chunk(data, q) else d[start + q]
  {
    hide Chunk, SuperblockSector, Apply, DataWrites;
    ApplyLast(d, DataWrites(sb, start, data, c), SuperblockWrite(Bump(sb, c)));
    RoundsAt(d, sb, start, data, c, q);
  }

  /** Sector q of a file that already has sectors, after k writes. */
  lemma PrefixSector(fs: FS, i: int, data: seq<byte>, k: nat, p: nat, q: nat)
    requires BelowMark(fs) && Accessible(fs, i) && Room(fs, i, |data|) && fs.inodes[i].startSector > 0
    requires fs.sb.usedSectors + 1 + Sectors(|data|) < 0x1_0000_0000 && k <= |WriteBody(fs, i, data)|
    requires fs.inodes[i].startSector + q < |fs.disk| && (k == 2 * p || k == 2 * p - 1)
    ensures p <= Sectors(|data|)
    ensures Apply(fs.disk, WriteBody(fs, i, data)[..k])[fs.inodes[i].startSector + q]
            == if q < p then Chunk(data, q) else fs.disk[fs.inodes[i].startSector + q]
  {
    StartBounds(fs, i, |data|);
    LaterBody(fs, i, data);
    hide *;
    DataPrefix(fs.disk, fs.sb, fs.inodes[i].startSector, data, Sectors(|data|), k, p, q);
  }

  lemma LaterBody(fs: FS, i: nat, data: seq<byte>)
    requires i < MAX_FILES && fs.sb.usedSectors + 1 + Sectors(|data|) < 0x1_0000_0000 && fs.inodes[i].startSector > 0
    ensures WriteBody(fs, i, data) == DataWrites(fs.sb, fs.inodes[i].startSector, data, Sectors(|data|))
    ensures WriteStart(fs, i) == fs.inodes[i].startSector
  {
    hide DataWrites, Sectors;
    assert FirstBump(fs, i) == fs.sb;
  }

  /** The first p sectors replaced by those of the data; the size stays, and the data is padded
      with zeros. */
  function Overlay(was: seq<byte>, data: seq<byte>, p: nat): seq<byte> {
    seq(|was|, b requires 0 <= b < |was| => if b >= 512 * p then was[b] else if b < |data| then data[b] else 0)
  }

  lemma OverlayContent(d: seq<Sector>, e: seq<Sector>, n: Inode, data: seq<byte>, p: nat)
    requires n.startSector + Sectors(n.size) <= |d| == |e|
    requires forall s :: n.startSector <= s < n.startSector + Sectors(n.size) ==>
      e[s] == if s - n.startSector < p then Chunk(data, s - n.startSector) else d[s]
    ensures Content(e, n) == Overlay(Content(d, n), data, p)
  {
    forall b | 0 <= b < n.size ensures Content(e, n)[b] == Overlay(Content(d, n), data, p)[b] {
      assert b / 512 < Sectors(n.size) && 512 * (b / 512) + b % 512 == b;
      var s := n.startSector + b / 512;
      assert e[s] == if b / 512 < p then Chunk(data, b / 512) else d[s];
    }
  }

  /** What file i holds after a crash that follows k writes: the data once the sector of the table
      with its inode is saved, and before that the old size with the sectors written so far. */
  function CrashContent(fs: FS, i: int, data: seq<byte>, k: nat): seq<byte>
    requires 0 <= i < MAX_FILES && fs.sb.usedSectors + 1 + Sectors(|data|) < 0x1_0000_0000
  {
    var body := |WriteBody(fs, i, data)|;
    if k > body + i / 8 then data
    else Overlay(Content(fs.disk, fs.inodes[i]), data, if k <= body then (k + 1) / 2 else Sectors(|data|))
  }

  // Crash points

  /** A crash before the table is saved. */
  lemma BodyCrash(fs: FS, i: int, data: seq<byte>, k: nat)
    requires Consistent(fs) && Accessible(fs, i) && Room(fs, i, |data|) && RewriteSafe(fs, i, |data|)
    requires fs.sb.usedSectors + 1 + Sectors(|data|) < 0x1_0000_0000 && k <= |WriteBody(fs, i, data)|
    ensures Recovers(Apply(fs.disk, WriteBody(fs, i, data)[..k]),
                     Files(fs)[StoredName(fs.inodes[i].name) := CrashContent(fs, i, data, k)])
  {
    hide InodeSector, SuperblockSector, StoredName, Content, View, Apply, Chunk, WriteBody, Sectors, Recovers, RewriteSafe, Overlay;
    var ws := WriteBody(fs, i, data)[..k];
    var d := Apply(fs.disk, ws);
    StartBounds(fs, i, |data|);
    OwnedAboveMetadata(fs);
    forall s | 0 <= s < |d| && s != SUPERBLOCK_SECTOR && !(WriteStart(fs, i) <= s < WriteStart(fs, i) + Sectors(|data|))
      ensures d[s] == fs.disk[s]
    {
      forall w | w in ws ensures w.sector != s {
        BodyShape(fs, i, data, w);
      }
      ApplyUntouched(fs.disk, ws, s);
    }
    var sb := PrefixSuperblock(fs, i, data, k);
    SparedByWrite(fs, i, |data|);
    RecoversBut(fs, d, sb, i);
    PrefixContent(fs, i, data, k);
  }

  lemma SparedByWrite(fs: FS, i: nat, size: nat)
    requires i < MAX_FILES && RewriteSafe(fs, i, size)
    ensures forall j, s :: 0 <= j < MAX_FILES && j != i && Owns(fs.inodes[j], s) ==>
      !(WriteStart(fs, i) <= s < WriteStart(fs, i) + Sectors(size))
  {
    hide Sectors, Owns;
  }

  /** The superblock on the disk after k writes. */
  lemma PrefixSuperblock(fs: FS, i: int, data: seq<byte>, k: nat) returns (sb: Superblock)
    requires Consistent(fs) && Accessible(fs, i) && Room(fs, i, |data|)
    requires fs.sb.usedSectors + 1 + Sectors(|data|) < 0x1_0000_0000 && k <= |WriteBody(fs, i, data)|
    ensures Apply(fs.disk, WriteBody(fs, i, data)[..k])[SUPERBLOCK_SECTOR] == SuperblockSector(sb)
    ensures sb.magic == MAGIC && fs.sb.usedSectors <= sb.usedSectors && DATA_SECTOR + sb.usedSectors <= |fs.disk|
  {
    hide InodeSector, SuperblockSector, Apply, Chunk, WriteBody, Sectors;
    var ws := WriteBody(fs, i, data)[..k];
    var d := Apply(fs.disk, ws);
    StartBounds(fs, i, |data|);
    ApplyHit(fs.disk, ws, SUPERBLOCK_SECTOR);
    sb := fs.sb;
    if d[SUPERBLOCK_SECTOR] != fs.disk[SUPERBLOCK_SECTOR] {
      var w := Write(SUPERBLOCK_SECTOR, d[SUPERBLOCK_SECTOR]);
      assert w in WriteBody(fs, i, data);
      BodyShape(fs, i, data, w);
      var n :| 0 <= n <= Allocated(fs.inodes[i], |data|) && w == SuperblockWrite(Bump(fs.sb, n));
      sb := Bump(fs.sb, n);
    }
  }

  lemma PrefixContent(fs: FS, i: int, data: seq<byte>, k: nat)
    requires Consistent(fs) && Accessible(fs, i) && Room(fs, i, |data|)
    requires fs.sb.usedSectors + 1 + Sectors(|data|) < 0x1_0000_0000 && k <= |WriteBody(fs, i, data)|
    ensures Content(Apply(fs.disk, WriteBody(fs, i, data)[..k]), fs.inodes[i]) == CrashContent(fs, i, data, k)
  {
    var n := fs.inodes[i];
    assert Placed(n, fs.sb.usedSectors);
    if n.startSector > 0 {
      hide Content, Overlay, Apply, WriteBody, Sectors;
      PrefixOverlay(fs, i, data, k, (k + 1) / 2);
    }
  }

  /** Sector s when the first p sectors of the data are written. */
  function PrefixedSector(fs: FS, i: nat, data: seq<byte>, p: nat, s: nat): Sector
    requires i < MAX_FILES && fs.inodes[i].startSector <= s < |fs.disk|
  {
    if s - fs.inodes[i].startSector < p then Chunk(data, s - fs.inodes[i].startSector) else fs.disk[s]
  }

  lemma PrefixSectorIs(fs: FS, i: int, data: seq<byte>, k: nat, p: nat, s: nat)
    requires BelowMark(fs) && Accessible(fs, i) && Room(fs, i, |data|) && fs.inodes[i].startSector > 0
    requires fs.sb.usedSectors + 1 + Sectors(|data|) < 0x1_0000_0000 && k <= |WriteBody(fs, i, data)|
    requires fs.inodes[i].startSector <= s < |fs.disk| && (k == 2 * p || k == 2 * p - 1)
    ensures Apply(fs.disk, WriteBody(fs, i, data)[..k])[s] == PrefixedSector(fs, i, data, p, s)
  {
    hide BelowMark, Room, Sectors, WriteBody, Apply, Chunk;
    PrefixSector(fs, i, data, k, p, s - fs.inodes[i].startSector);
  }

  lemma OverlayOf(fs: FS, i: nat, data: seq<byte>, p: nat, d: seq<Sector>)
    requires i < MAX_FILES && |d| == |fs.disk| && fs.inodes[i].startSector + Sectors(fs.inodes[i].size) <= |d|
    requires forall s :: fs.inodes[i].startSector <= s < fs.inodes[i].startSector + Sectors(fs.inodes[i].size) ==>
      d[s] == PrefixedSector(fs, i, data, p, s)
    ensures Content(d, fs.inodes[i]) == Overlay(Content(fs.disk, fs.inodes[i]), data, p)
  {
    hide Content, Overlay, Sectors, Chunk;
    OverlayContent(fs.disk, d, fs.inodes[i], data, p);
  }

  lemma PrefixOverlay(fs: FS, i: int, data: seq<byte>, k: nat, p: nat)
    requires Consistent(fs) && Accessible(fs, i) && Room(fs, i, |data|) && fs.inodes[i].startSector > 0
    requires fs.sb.usedSectors + 1 + Sectors(|data|) < 0x1_0000_0000 && k <= |WriteBody(fs, i, data)|
    requires k == 2 * p || k == 2 * p - 1
    ensures Content(Apply(fs.disk, WriteBody(fs, i, data)[..k]), fs.inodes[i]) == Overlay(Content(fs.disk, fs.inodes[i]), data, p)
  {
    var n := fs.inodes[i];
    assert Placed(n, fs.sb.usedSectors);
    assert BelowMark(fs) && n.startSector + Sectors(n.size) <= |fs.disk|;
    hide *;
    var d := Apply(fs.disk, WriteBody(fs, i, data)[..k]);
    forall s | n.startSector <= s < n.startSector + Sectors(n.size) ensures d[s] == PrefixedSector(fs, i, data, p, s) {
      PrefixSectorIs(fs, i, data, k, p, s);
    }
    OverlayOf(fs, i, data, p, d);
  }

  /** The disk when all data is written and the table is not. */
  lemma DataStage(fs: FS, i: int, data: seq<byte>)
    requires Consistent(fs) && Accessible(fs, i) && Room(fs, i, |data|)
    requires fs.sb.usedSectors + 1 + Sectors(|data|) < 0x1_0000_0000
    ensures var e := WriteFile(fs, i, data); var d := Apply(fs.disk, WriteBody(fs, i, data));
      && d[SUPERBLOCK_SECTOR] == SuperblockSector(e.sb) && TableOnDisk(d, fs.inodes)
      && e.sb.magic == MAGIC && fs.sb.usedSectors <= e.sb.usedSectors && DATA_SECTOR + e.sb.usedSectors <= |d|
      && (forall s :: DATA_SECTOR <= s < |d| ==> d[s] == AfterBody(fs, i, data, s))
      && forall s :: DATA_SECTOR <= s < |d| ==> d[s] == Commit(fs, e).disk[s]
  {
    var e := WriteFile(fs, i, data);
    var d := Apply(fs.disk, WriteBody(fs, i, data));
    StartBounds(fs, i, |data|);
    hide InodeSector, SuperblockSector, Apply, WriteBody, Chunk, Sectors;
    BodyOnDisk(fs, i, data, SUPERBLOCK_SECTOR);
    assert Bump(fs.sb, 0) == fs.sb;
    forall s | 0 <= s < INODE_SECTORS ensures d[INODE_SECTOR + s] == InodeSector(fs.inodes, s) {
      BodyOnDisk(fs, i, data, INODE_SECTOR + s);
    }
    forall s | DATA_SECTOR <= s < |d|
      ensures d[s] == Commit(fs, e).disk[s]
      ensures d[s] == AfterBody(fs, i, data, s)
    {
      BodyOnDisk(fs, i, data, s);
      WriteOnDisk(fs, i, data, s);
    }
  }

  /** The disk after all data and the first k sectors of the table. */
  function TableCrash(fs: FS, i: int, data: seq<byte>, k: nat): seq<Sector>
    requires BelowMark(fs) && Accessible(fs, i) && Room(fs, i, |data|) && k <= INODE_SECTORS
    requires fs.sb.usedSectors + 1 + Sectors(|data|) < 0x1_0000_0000
  {
    Apply(Apply(fs.disk, WriteBody(fs, i, data)), TableWrites(WriteFile(fs, i, data).inodes)[..k])
  }

  /** A crash while the table is saved, or after. */
  lemma TableStage(fs: FS, i: int, data: seq<byte>, k: nat)
    requires Consistent(fs) && Accessible(fs, i) && Room(fs, i, |data|) && RewriteSafe(fs, i, |data|)
    requires fs.sb.usedSectors + 1 + Sectors(|data|) < 0x1_0000_0000
    requires 0 < k - |WriteBody(fs, i, data)| <= INODE_SECTORS
    ensures Recovers(TableCrash(fs, i, data, k - |WriteBody(fs, i, data)|),
                     Files(fs)[StoredName(fs.inodes[i].name) := CrashContent(fs, i, data, k)])
  {
    var e, j := WriteFile(fs, i, data), k - |WriteBody(fs, i, data)|;
    var d1, d := Apply(fs.disk, WriteBody(fs, i, data)), TableCrash(fs, i, data, j);
    WriteCorrect(fs, i, data);
    WriteFileParts(fs, i, data);
    DataStage(fs, i, data);
    TablePrefix(d1, fs.inodes, i, e.inodes[i], j);
    hide InodeSector, SuperblockSector, StoredName, Content, View, Apply, WriteBody, WriteFile, TableWrites, Recovers, RewriteSafe, Sectors, Chunk, Overlay;
    if j > i / 8 {
      OwnedAboveMetadata(Commit(fs, e));
      RecoversAs(Commit(fs, e), d, e.sb);
    } else {
      OldTableStage(fs, i, data, d);
    }
  }

  /** All data is written, and the table is still the old one. */
  lemma OldTableStage(fs: FS, i: int, data: seq<byte>, d: seq<Sector>)
    requires Consistent(fs) && Accessible(fs, i) && Room(fs, i, |data|) && RewriteSafe(fs, i, |data|)
    requires |d| == |fs.disk| && TableOnDisk(d, fs.inodes) && d[SUPERBLOCK_SECTOR] == SuperblockSector(WriteFile(fs, i, data).sb)
    requires forall s :: DATA_SECTOR <= s < |d| ==> d[s] == AfterBody(fs, i, data, s)
    ensures Recovers(d, Files(fs)[StoredName(fs.inodes[i].name) := Overlay(Content(fs.disk, fs.inodes[i]), data, Sectors(|data|))])
  {
    StartBounds(fs, i, |data|);
    hide InodeSector, SuperblockSector, StoredName, Content, View, Recovers, RewriteSafe, Sectors, Chunk, Overlay;
    OwnedAboveMetadata(fs);
    SparedByWrite(fs, i, |data|);
    RecoversBut(fs, d, WriteFile(fs, i, data).sb, i);
    WholeOverlay(fs, i, data, d);
  }

  /** All data over the old size. */
  lemma WholeOverlay(fs: FS, i: int, data: seq<byte>, d: seq<Sector>)
    requires Consistent(fs) && Accessible(fs, i) && Room(fs, i, |data|) && |d| == |fs.disk|
    requires forall s :: DATA_SECTOR <= s < |d| ==> d[s] == AfterBody(fs, i, data, s)
    ensures Content(d, fs.inodes[i]) == Overlay(Content(fs.disk, fs.inodes[i]), data, Sectors(|data|))
  {
    assert Placed(fs.inodes[i], fs.sb.usedSectors);
    if fs.inodes[i].startSector > 0 {
      OverlayContent(fs.disk, d, fs.inodes[i], data, Sectors(|data|));
    }
  }

  /** The prefixes of WriteFile's writes: k allocation and data writes, or all of them and k
      sectors of the table. */
  lemma WritePrefix(fs: FS, i: int, data: seq<byte>, k: nat)
    requires BelowMark(fs) && Accessible(fs, i) && Room(fs, i, |data|) && k <= |WriteFile(fs, i, data).writes|
    ensures fs.sb.usedSectors + 1 + Sectors(|data|) < 0x1_0000_0000
    ensures var body := WriteBody(fs, i, data);
      if k <= |body| then Crashed(fs, WriteFile(fs, i, data), k) == Apply(fs.disk, body[..k])
      else k - |body| <= INODE_SECTORS && Crashed(fs, WriteFile(fs, i, data), k) == TableCrash(fs, i, data, k - |body|)
  {
    WriteFileParts(fs, i, data);
    var e := WriteFile(fs, i, data);
    var body, table := WriteBody(fs, i, data), TableWrites(e.inodes);
    hide WriteFile, WriteBody, Sectors, Apply, TableWrites;
    if k <= |body| {
      assert e.writes[..k] == body[..k];
    } else {
      assert e.writes[..k] == body + table[..k - |body|];
      ApplyAppend(fs.disk, body, table[..k - |body|]);
    }
  }

  /** Every crash of a write that spares the other files is confined to the written file: the disk
      mounts, the file system is consistent, all other files are whole, and the written file holds
      exactly `CrashContent`. */
  lemma CrashConfined(fs: FS, i: int, data: seq<byte>, k: nat)
    requires Consistent(fs) && Accessible(fs, i) && Room(fs, i, |data|) && RewriteSafe(fs, i, |data|)
    requires k <= |WriteFile(fs, i, data).writes|
    ensures fs.sb.usedSectors + 1 + Sectors(|data|) < 0x1_0000_0000
    ensures Recovers(Crashed(fs, WriteFile(fs, i, data), k),
                     Files(fs)[StoredName(fs.inodes[i].name) := CrashContent(fs, i, data, k)])
  {
    assert BelowMark(fs);
    hide *;
    WritePrefix(fs, i, data, k);
    if k <= |WriteBody(fs, i, data)| {
      BodyCrash(fs, i, data, k);
    } else {
      TableStage(fs, i, data, k);
    }
  }

  /** A crashed file holds the data, or the old bytes with some leading sectors of the data over
      them. */
  lemma CrashContentShape(fs: FS, i: int, data: seq<byte>, k: nat)
    requires Consistent(fs) && Accessible(fs, i) && Room(fs, i, |data|) && k <= |WriteFile(fs, i, data).writes|
    requires fs.sb.usedSectors + 1 + Sectors(|data|) < 0x1_0000_0000
    ensures PartlyWritten(Content(fs.disk, fs.inodes[i]), data, CrashContent(fs, i, data, k))
  {
    var was := Content(fs.disk, fs.inodes[i]);
    assert Placed(fs.inodes[i], fs.sb.usedSectors);
    if k <= |WriteBody(fs, i, data)| {
      if fs.inodes[i].startSector > 0 {
        PrefixSector(fs, i, data, k, (k + 1) / 2, 0);
        assert CrashContent(fs, i, data, k) == Overlay(was, data, (k + 1) / 2);
      } else {
        assert CrashContent(fs, i, data, k) == Overlay(was, data, 0);
      }
    } else if k <= |WriteBody(fs, i, data)| + i / 8 {
      assert CrashContent(fs, i, data, k) == Overlay(was, data, Sectors(|data|));
    }
  }

  ghost predicate PartlyWritten(was: seq<byte>, data: seq<byte>, c: seq<byte>) {
    c == data || exists p :: 0 <= p <= Sectors(|data|) && c == Overlay(was, data, p)
  }

  /** A crash during the first WriteFile of a file is harmless. */
  lemma FirstWriteAtomic(fs: FS, i: int, data: seq<byte>, k: nat)
    requires Consistent(fs) && Accessible(fs, i) && Room(fs, i, |data|) && fs.inodes[i].startSector == 0
    requires k <= |WriteFile(fs, i, data).writes|
    ensures Consistent(Commit(fs, WriteFile(fs, i, data))) && Atomic(fs, WriteFile(fs, i, data), k)
  {
    FirstWriteSafe(fs, i, |data|);
    WriteCorrect(fs, i, data);
    CrashConfined(fs, i, data, k);
    assert Placed(fs.inodes[i], fs.sb.usedSectors);
    assert CrashContent(fs, i, data, k) == data || CrashContent(fs, i, data, k) == Content(fs.disk, fs.inodes[i]);
    hide StoredName, Content, WriteFile, CrashContent, Recovers, View, Consistent, Apply;
    SameEntry(fs, i);
  }

  /** Entering what is there changes nothing. */
  lemma SameEntry(fs: FS, i: nat)
    requires Consistent(fs) && i < MAX_FILES && fs.inodes[i].Live()
    ensures Files(fs)[StoredName(fs.inodes[i].name) := Content(fs.disk, fs.inodes[i])] == Files(fs)
    ensures StoredName(fs.inodes[i].name) in Files(fs) && Files(fs)[StoredName(fs.inodes[i].name)] == Content(fs.disk, fs.inodes[i])
  {
    hide StoredName, Content;
    ViewHas(fs.disk, fs.inodes, i);
  }

  lemma OwnDisk(fs: FS)
    requires Consistent(fs)
    ensures Recovers(fs.disk, Files(fs))
  {
    hide SuperblockSector, InodeSector, Recovers;
    RecoversAs(fs, fs.disk, fs.sb);
  }
}
