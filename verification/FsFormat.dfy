/** What a crash inside Format leaves, exactly. Format resets the superblock first and then saves
  an empty table sector by sector. */
module FsFormat {
  import opened Bytes
  import opened FsCodec
  import opened FsModel
  import opened FsDisk
  import opened FsInvariant
  import opened FsOps
  import opened FsWrite
  import opened FsCrash

  /** The inodes after m of the eight table sectors were saved. */
  function HalfCleared(t: InodeTable, m: nat): InodeTable
    requires m <= INODE_SECTORS
  {
    ClearedTable(t)[..8 * m] + t[8 * m..]
  }

  lemma SameSlots(t: InodeTable, u: InodeTable, s: nat)
    requires s < INODE_SECTORS && forall i :: 8 * s <= i < 8 * s + 8 ==> t[i] == u[i]
    ensures InodeSector(t, s) == InodeSector(u, s)
  {
    hide InodeBytes;
    forall p | 0 <= p < SECTOR_SIZE ensures SlotByte(t, s, p) == SlotByte(u, s, p) {
      assert 8 * s <= 8 * s + p / SLOT_SIZE < 8 * s + 8;
    }
  }

  /** The disk after the superblock and m table sectors. */
  lemma FormatPrefix(fs: FS, volume: seq<byte>, m: nat)
    requires Consistent(fs) && m <= INODE_SECTORS
    ensures var d, sb := Crashed(fs, Format(fs, volume), m + 1), Format(fs, volume).sb;
      && |d| == |fs.disk| && d[SUPERBLOCK_SECTOR] == SuperblockSector(sb) && TableOnDisk(d, HalfCleared(fs.inodes, m))
      && forall s :: DATA_SECTOR <= s < |d| ==> d[s] == fs.disk[s]
  {
    var e := Format(fs, volume);
    var w, t := SuperblockWrite(e.sb), ClearedTable(fs.inodes);
    assert e.writes[..m + 1] == ([] + [w]) + TableWrites(t)[..m];
    hide SuperblockSector, InodeSector, Apply, TableWrites, ClearedTable, CopyName;
    ApplyAppend(fs.disk, [] + [w], TableWrites(t)[..m]);
    ApplyLast(fs.disk, [], w);
    NoWrites(fs.disk);
    var d := Crashed(fs, e, m + 1);
    forall s | 0 <= s < |d| ensures d[s] == AfterTable(Put(fs.disk, w), t, m, s) {
      ApplyTable(Put(fs.disk, w), t, m, s);
    }
    forall s | 0 <= s < INODE_SECTORS ensures d[INODE_SECTOR + s] == InodeSector(HalfCleared(fs.inodes, m), s) {
      SameSlots(HalfCleared(fs.inodes, m), if s < m then t else fs.inodes, s);
      assert d[INODE_SECTOR + s] == AfterTable(Put(fs.disk, w), t, m, INODE_SECTOR + s);
    }
  }

  /** Mounting that disk succeeds, and gives the half-cleared table under an empty superblock. */
  lemma FormatRemount(fs: FS, volume: seq<byte>, m: nat, memory: FS)
    requires Consistent(fs) && m <= INODE_SECTORS && memory.disk == Crashed(fs, Format(fs, volume), m + 1)
    ensures Mount(memory).ret == 1 && Commit(memory, Mount(memory)) == Remount(memory.disk)
    ensures Remount(memory.disk) == FS(Format(fs, volume).sb, HalfCleared(fs.inodes, m), true, memory.disk)
  {
    FormatPrefix(fs, volume, m);
    SuperblockRoundTrip(Format(fs, volume).sb);
    TableRoundTrip(memory.disk, HalfCleared(fs.inodes, m));
    hide SuperblockSector, InodeSector, LoadTable, LoadSuperblock, HalfCleared, Apply;
    NoWrites(memory.disk);
  }

  /** All or nothing for a format that stops after k of its nine writes. */
  ghost predicate FormatAtomic(fs: FS, volume: seq<byte>, k: nat)
    requires Consistent(fs) && k <= INODE_SECTORS + 1
  {
    Recovers(Crashed(fs, Format(fs, volume), k), Files(fs)) || Recovers(Crashed(fs, Format(fs, volume), k), map[])
  }

  /** No file was ever written, and all files have their inodes in one table sector. */
  predicate FormatSafe(t: InodeTable) {
    && (forall i :: 0 <= i < MAX_FILES && t[i].Live() ==> t[i].startSector == 0)
    && forall i, j :: 0 <= i < MAX_FILES && 0 <= j < MAX_FILES && t[i].Live() && t[j].Live() ==> i / 8 == j / 8
  }

  // The failing half

  lemma FirstFormatWrite(fs: FS, volume: seq<byte>, memory: FS)
    requires Consistent(fs) && memory.disk == Crashed(fs, Format(fs, volume), 1)
    ensures Mount(memory).ret == 1 && Commit(memory, Mount(memory)) == Remount(memory.disk)
    ensures Remount(memory.disk).inodes == fs.inodes && Remount(memory.disk).sb.usedSectors == 0
  {
    assert HalfCleared(fs.inodes, 0) == fs.inodes;
    FormatRemount(fs, volume, 0, memory);
  }

  /** As soon as the first write is done, every file with sectors is stranded: the disk still mounts
      with the old table, but no sector counts as used, and the next first write starts over at
      sector 10, where it damages the file there. */
  lemma FormatStrandsFiles(fs: FS, volume: seq<byte>, i: nat, memory: FS)
    requires Consistent(fs) && i < MAX_FILES && fs.inodes[i].Live() && fs.inodes[i].startSector > 0
    requires memory.disk == Crashed(fs, Format(fs, volume), 1)
    ensures Mount(memory).ret == 1 && Commit(memory, Mount(memory)) == Remount(memory.disk)
    ensures var r := Remount(memory.disk);
      && r.inodes == fs.inodes && r.sb.usedSectors == 0
      && (forall m :: !Recovers(memory.disk, m))
      && (forall j :: 0 <= j < MAX_FILES && j != i && fs.inodes[j].startSector == 0 && Owns(fs.inodes[i], DATA_SECTOR)
            ==> WriteStart(r, j) == DATA_SECTOR && !RewriteSafe(r, j, 1))
  {
    FirstFormatWrite(fs, volume, memory);
    hide *;
    var r := Remount(memory.disk);
    Unplaced(r, i);
    forall j | 0 <= j < MAX_FILES && j != i && fs.inodes[j].startSector == 0 && Owns(fs.inodes[i], DATA_SECTOR)
      ensures WriteStart(r, j) == DATA_SECTOR && !RewriteSafe(r, j, 1)
    {
      StartsOver(r, i, j);
    }
  }

  lemma Unplaced(r: FS, i: nat)
    requires i < MAX_FILES && r.inodes[i].Live() && r.inodes[i].startSector > 0 && r.sb.usedSectors == 0
    ensures !Consistent(r)
    ensures forall d, m :: |d| >= DATA_SECTOR && Remount(d) == r ==> !Recovers(d, m)
  {
    hide SuperblockSector, InodeSector, NamesOk, LoadTable, LoadSuperblock, View;
    assert !Placed(r.inodes[i], r.sb.usedSectors);
  }

  lemma StartsOver(r: FS, i: nat, j: nat)
    requires i < MAX_FILES && j < MAX_FILES && i != j && r.sb.usedSectors == 0
    requires r.inodes[j].startSector == 0 && Owns(r.inodes[i], DATA_SECTOR)
    ensures WriteStart(r, j) == DATA_SECTOR && !RewriteSafe(r, j, 1)
  {
  }

  lemma HalfClearedFacts(t: InodeTable, m: nat)
    requires m <= INODE_SECTORS
    ensures var u := HalfCleared(t, m);
      forall k :: 0 <= k < MAX_FILES ==> if k < 8 * m then !u[k].Live() else u[k] == t[k]
  {
  }

  /** Two files in different table sectors: when the first sector is saved and the second is not,
      one file is gone and the other is there. */
  lemma FormatSplits(fs: FS, volume: seq<byte>, m: nat, i: nat, j: nat)
    requires Consistent(fs) && m <= INODE_SECTORS && i < 8 * m <= j < MAX_FILES
    requires fs.inodes[i].Live() && fs.inodes[j].Live()
    ensures !FormatAtomic(fs, volume, m + 1)
  {
    ConsistentNames(fs);
    hide StoredName, View, Consistent, Recovers, HalfCleared, NamesOk, Apply, Content;
    var d := Crashed(fs, Format(fs, volume), m + 1);
    var t, u := fs.inodes, HalfCleared(fs.inodes, m);
    hide Format;
    HalfClearedFacts(t, m);
    FormatRemount(fs, volume, m, fs.(disk := d));
    ViewHas(fs.disk, t, i);
    if Recovers(d, Files(fs)) {
      RecoveredFiles(d, Files(fs));
      GoneName(d, t, u, i);
    }
    if Recovers(d, map[]) {
      RecoveredFiles(d, map[]);
      ViewHas(d, u, j);
    }
  }

  lemma RecoveredFiles(d: seq<Sector>, m: map<seq<byte>, seq<byte>>)
    requires Recovers(d, m)
    ensures |d| >= DATA_SECTOR && NamesOk(Remount(d).inodes) && View(d, Remount(d).inodes) == m
  {
  }

  /** A cleared inode takes its name with it. */
  lemma GoneName(d: seq<Sector>, t: InodeTable, u: InodeTable, i: nat)
    requires NamesOk(t) && NamesOk(u) && i < MAX_FILES && t[i].Live() && !u[i].Live()
    requires forall k :: 0 <= k < MAX_FILES && u[k].Live() ==> u[k] == t[k]
    ensures StoredName(t[i].name) !in View(d, u)
  {
    hide StoredName, Content;
    ViewKeys(d, u);
    forall k | 0 <= k < MAX_FILES && u[k].Live() ensures StoredName(u[k].name) != StoredName(t[i].name) {
      DistinctNames(t, i, k);
    }
  }

  // The holding half

  /** The files whose inodes are still there after m table sectors have no sectors. */
  predicate SurvivorsUnwritten(t: InodeTable, m: nat) {
    forall i :: 8 * m <= i < MAX_FILES && t[i].Live() ==> t[i].startSector == 0
  }

  /** A table of unwritten files is consistent with an empty superblock. */
  lemma UnwrittenConsistent(fs: FS, volume: seq<byte>, m: nat)
    requires Consistent(fs) && m <= INODE_SECTORS && SurvivorsUnwritten(fs.inodes, m)
    ensures var d := Crashed(fs, Format(fs, volume), m + 1);
      Consistent(FS(Format(fs, volume).sb, HalfCleared(fs.inodes, m), true, d))
  {
    FormatPrefix(fs, volume, m);
    var u := HalfCleared(fs.inodes, m);
    SurvivorsEmpty(fs, m);
    hide StoredName, Content, Apply, SuperblockSector, InodeSector, HalfCleared;
    assert NamesOk(u);
  }

  lemma SurvivorsEmpty(fs: FS, m: nat)
    requires Consistent(fs) && m <= INODE_SECTORS && SurvivorsUnwritten(fs.inodes, m)
    ensures forall k :: 0 <= k < MAX_FILES ==> var n := HalfCleared(fs.inodes, m)[k];
      Placed(n, 0) && (n.Live() ==> n == fs.inodes[k] && n.size == 0)
  {
    var u := HalfCleared(fs.inodes, m);
    HalfClearedFacts(fs.inodes, m);
    hide HalfCleared;
    forall k | 0 <= k < MAX_FILES ensures Placed(u[k], 0) && (u[k].Live() ==> u[k] == fs.inodes[k] && u[k].size == 0) {
      assert Placed(fs.inodes[k], fs.sb.usedSectors);
    }
  }

  /** Tables with the same live inodes, all empty, show the same files. */
  lemma SameEmptyFiles(d: seq<Sector>, e: seq<Sector>, t: InodeTable, u: InodeTable)
    requires NamesOk(t) && NamesOk(u)
    requires forall k :: 0 <= k < MAX_FILES ==> u[k].Live() == t[k].Live() && (u[k].Live() ==> u[k] == t[k] && u[k].size == 0)
    ensures View(e, u) == View(d, t)
  {
    forall k | 0 <= k < MAX_FILES && u[k].Live() ensures Entry(View(d, t), e, u[k]) {
      ViewHas(d, t, k);
      EmptyContent(d, t[k]);
      EmptyContent(e, u[k]);
    }
    hide StoredName, Content, NamesOk;
    ViewKeys(d, t);
    forall f | f in View(d, t) ensures f in NameSet(u) {
      var k :| 0 <= k < MAX_FILES && t[k].Live() && StoredName(t[k].name) == f;
      assert u[k].Live();
    }
    ViewIs(e, u, View(d, t));
  }

  /** Files that all lie in one table sector are all there, or all gone. */
  lemma AllOrNone(fs: FS, m: nat, i: nat)
    requires Consistent(fs) && m <= INODE_SECTORS && FormatSafe(fs.inodes) && i < MAX_FILES
    ensures var t, u := fs.inodes, HalfCleared(fs.inodes, m);
      u[i].Live() ==> forall k :: 0 <= k < MAX_FILES ==> u[k].Live() == t[k].Live() && (u[k].Live() ==> u[k] == t[k] && u[k].size == 0)
  {
    var t, u := fs.inodes, HalfCleared(fs.inodes, m);
    if u[i].Live() {
      forall k | 0 <= k < MAX_FILES ensures u[k].Live() == t[k].Live() && (u[k].Live() ==> u[k] == t[k] && u[k].size == 0) {
        assert Placed(t[k], fs.sb.usedSectors);
        assert t[k].Live() ==> k / 8 == i / 8;
      }
    }
  }

  /** Exactly what a crash after the superblock and m table sectors leaves. If a file with sectors
      still has its inode, no consistent file system; otherwise the files of the inodes that are
      still there, all of them empty. */
  lemma FormatCrashExactly(fs: FS, volume: seq<byte>, m: nat)
    requires Consistent(fs) && m <= INODE_SECTORS
    ensures var d, u := Crashed(fs, Format(fs, volume), m + 1), HalfCleared(fs.inodes, m);
      if SurvivorsUnwritten(fs.inodes, m) then NamesOk(u) && Recovers(d, View(fs.disk, u))
      else forall files :: !Recovers(d, files)
  {
    assert |fs.disk| >= DATA_SECTOR;
    hide StoredName, Content, Consistent, NamesOk, View, Recovers, Apply, Format, HalfCleared;
    var d := Crashed(fs, Format(fs, volume), m + 1);
    var u := HalfCleared(fs.inodes, m);
    FormatRemount(fs, volume, m, fs.(disk := d));
    if SurvivorsUnwritten(fs.inodes, m) {
      UnwrittenConsistent(fs, volume, m);
      OwnDisk(Remount(d));
      ConsistentNames(Remount(d));
      SurvivorsEmpty(fs, m);
      SameEmptyFiles(fs.disk, d, u, u);
    } else {
      HalfClearedFacts(fs.inodes, m);
      EmptySuperblock(fs, volume);
      var i :| 8 * m <= i < MAX_FILES && fs.inodes[i].Live() && fs.inodes[i].startSector != 0;
      Unplaced(Remount(d), i);
    }
  }

  lemma EmptySuperblock(fs: FS, volume: seq<byte>)
    ensures Format(fs, volume).sb.usedSectors == 0
  {
  }

  /** The files of the remaining inodes are some of the files. */
  lemma SurvivorsAreFiles(fs: FS, m: nat)
    requires Consistent(fs) && m <= INODE_SECTORS && NamesOk(HalfCleared(fs.inodes, m))
    ensures Submap(View(fs.disk, HalfCleared(fs.inodes, m)), Files(fs))
  {
    var u := HalfCleared(fs.inodes, m);
    HalfClearedFacts(fs.inodes, m);
    ConsistentNames(fs);
    hide StoredName, Content, HalfCleared, NamesOk, Consistent;
    ViewKeys(fs.disk, u);
    forall f | f in View(fs.disk, u) ensures f in Files(fs) && Files(fs)[f] == View(fs.disk, u)[f] {
      var k :| 0 <= k < MAX_FILES && u[k].Live() && StoredName(u[k].name) == f;
      ViewHas(fs.disk, u, k);
      ViewHas(fs.disk, fs.inodes, k);
    }
  }

  lemma SurvivorsAreEmpty(fs: FS, m: nat)
    requires Consistent(fs) && m <= INODE_SECTORS && SurvivorsUnwritten(fs.inodes, m) && NamesOk(HalfCleared(fs.inodes, m))
    ensures var files := View(fs.disk, HalfCleared(fs.inodes, m)); forall f :: f in files ==> files[f] == []
  {
    var u := HalfCleared(fs.inodes, m);
    SurvivorsEmpty(fs, m);
    hide StoredName, HalfCleared, NamesOk, Consistent;
    forall k | 0 <= k < MAX_FILES && u[k].Live() ensures Content(fs.disk, u[k]) == [] {
      EmptyContent(fs.disk, u[k]);
    }
  }

  ghost predicate Submap(a: map<seq<byte>, seq<byte>>, b: map<seq<byte>, seq<byte>>) {
    forall f :: f in a ==> f in b && a[f] == b[f]
  }

  lemma SafeFormatAtomic(fs: FS, volume: seq<byte>, m: nat)
    requires Consistent(fs) && m <= INODE_SECTORS && FormatSafe(fs.inodes)
    ensures FormatAtomic(fs, volume, m + 1)
  {
    ConsistentNames(fs);
    FormatCrashExactly(fs, volume, m);
    hide HalfCleared, StoredName, Content, Consistent, NamesOk, FormatSafe, View, Recovers, Apply, Format;
    var u := HalfCleared(fs.inodes, m);
    SafeIsUnwritten(fs.inodes, m);
    if i :| 0 <= i < MAX_FILES && u[i].Live() {
      AllOrNone(fs, m, i);
      SameEmptyFiles(fs.disk, fs.disk, fs.inodes, u);
    } else {
      NoFiles(fs.disk, u);
    }
  }

  lemma SafeIsUnwritten(t: InodeTable, m: nat)
    requires FormatSafe(t)
    ensures SurvivorsUnwritten(t, m)
  {
  }

  lemma ConsistentNames(fs: FS)
    requires Consistent(fs)
    ensures NamesOk(fs.inodes)
  {
  }

  lemma NoFiles(d: seq<Sector>, t: seq<Inode>)
    requires NamesOk(t) && forall i :: 0 <= i < |t| ==> !t[i].Live()
    ensures View(d, t) == map[]
  {
  }

  /** Format is crash-atomic at all of its writes exactly when no file has sectors and all files
      share one sector of the table. */
  lemma FormatAtomicExactly(fs: FS, volume: seq<byte>)
    requires Consistent(fs)
    ensures (forall k :: 0 <= k <= INODE_SECTORS + 1 ==> FormatAtomic(fs, volume, k)) <==> FormatSafe(fs.inodes)
  {
    assert |Format(fs, volume).writes| == INODE_SECTORS + 1;
    hide Consistent, Recovers, Format, Owns, RewriteSafe, FormatAtomic;
    if FormatSafe(fs.inodes) {
      forall k | 0 <= k <= INODE_SECTORS + 1 ensures FormatAtomic(fs, volume, k) {
        if k == 0 {
          UntouchedAtomic(fs, volume);
        } else {
          SafeFormatAtomic(fs, volume, k - 1);
        }
      }
    } else if i :| 0 <= i < MAX_FILES && fs.inodes[i].Live() && fs.inodes[i].startSector != 0 {
      StrandingIsNotAtomic(fs, volume, i);
    } else {
      var i, j :| 0 <= i < MAX_FILES && 0 <= j < MAX_FILES && fs.inodes[i].Live() && fs.inodes[j].Live() && i / 8 < j / 8;
      FormatSplits(fs, volume, i / 8 + 1, i, j);
    }
  }

  lemma StrandingIsNotAtomic(fs: FS, volume: seq<byte>, i: nat)
    requires Consistent(fs) && i < MAX_FILES && fs.inodes[i].Live() && fs.inodes[i].startSector > 0
    ensures !FormatAtomic(fs, volume, 1)
  {
    assert |Format(fs, volume).writes| == INODE_SECTORS + 1;
    hide Consistent, Recovers, Format, Owns, RewriteSafe;
    FormatStrandsFiles(fs, volume, i, fs.(disk := Crashed(fs, Format(fs, volume), 1)));
  }

  lemma UntouchedAtomic(fs: FS, volume: seq<byte>)
    requires Consistent(fs)
    ensures FormatAtomic(fs, volume, 0)
  {
    NotFormatted(fs, volume);
  }

  lemma NotFormatted(fs: FS, volume: seq<byte>)
    requires Consistent(fs)
    ensures Recovers(Crashed(fs, Format(fs, volume), 0), Files(fs))
  {
    assert Format(fs, volume).writes[..0] == [];
    NoWrites(fs.disk);
    OwnDisk(fs);
  }
}
