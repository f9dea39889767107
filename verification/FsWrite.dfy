/** Reading and writing file contents. */
module FsWrite {
  import opened Bytes
  import opened FsCodec
  import opened FsModel
  import opened FsDisk
  import opened FsInvariant
  import opened FsOps

  // Where data goes

  /** The part of the invariant that bounds sector numbers. It survives every write, also one
      that runs into another file. */
  ghost predicate BelowMark(fs: FS) {
    && (forall i :: 0 <= i < MAX_FILES ==> Placed(fs.inodes[i], fs.sb.usedSectors))
    && DATA_SECTOR + fs.sb.usedSectors <= |fs.disk| <= 0x1000_0000
  }

  /** Memory and disk agree. This survives every operation whatever its arguments. */
  ghost predicate Durable(fs: FS) {
    && BelowMark(fs)
    && fs.sb.magic == MAGIC
    && fs.disk[SUPERBLOCK_SECTOR] == SuperblockSector(fs.sb)
    && TableOnDisk(fs.disk, fs.inodes)
  }

  /** No other file owns a sector that writing `size` bytes to file i overwrites. A file without
      sectors is always safe to write (`FirstWriteSafe`). */
  ghost predicate RewriteSafe(fs: FS, i: nat, size: nat)
    requires i < MAX_FILES
  {
    var start := WriteStart(fs, i);
    forall j, s :: 0 <= j < MAX_FILES && j != i && start <= s < start + Sectors(size) ==> !Owns(fs.inodes[j], s)
  }

  lemma FirstWriteSafe(fs: FS, i: nat, size: nat)
    requires BelowMark(fs) && i < MAX_FILES && fs.inodes[i].startSector == 0
    ensures RewriteSafe(fs, i, size)
  {
    forall j, s | 0 <= j < MAX_FILES && Owns(fs.inodes[j], s) ensures s < DATA_SECTOR + fs.sb.usedSectors {
      assert Placed(fs.inodes[j], fs.sb.usedSectors);
    }
  }

  /** Nor can a rewrite that needs no more sectors than the file already owns. */
  lemma SameSectorsSafe(fs: FS, i: nat, size: nat)
    requires Disjoint(fs.inodes) && i < MAX_FILES && fs.inodes[i].Live() && fs.inodes[i].startSector > 0
    requires Sectors(size) <= Sectors(fs.inodes[i].size)
    ensures RewriteSafe(fs, i, size)
  {
    forall j, s | 0 <= j < MAX_FILES && j != i && WriteStart(fs, i) <= s < WriteStart(fs, i) + Sectors(size) ensures !Owns(fs.inodes[j], s) {
      assert Owns(fs.inodes[i], s);
    }
  }

  lemma StartBounds(fs: FS, i: nat, size: nat)
    requires BelowMark(fs) && Accessible(fs, i) && Room(fs, i, size)
    ensures var used := fs.sb.usedSectors + Allocated(fs.inodes[i], size);
      && DATA_SECTOR <= WriteStart(fs, i) < DATA_SECTOR + used
      && WriteStart(fs, i) + Sectors(size) <= DATA_SECTOR + used <= |fs.disk|
  {
    assert Placed(fs.inodes[i], fs.sb.usedSectors);
  }

  /** A first write takes exactly the unused sectors from the old mark to the new one. */
  lemma FirstWriteExtent(fs: FS, i: nat, data: seq<byte>)
    requires BelowMark(fs) && Accessible(fs, i) && Room(fs, i, |data|) && fs.inodes[i].startSector == 0
    ensures var e := WriteFile(fs, i, data);
      && e.inodes[i].startSector == DATA_SECTOR + fs.sb.usedSectors
      && DATA_SECTOR + e.sb.usedSectors == e.inodes[i].startSector + (if data == [] then 1 else Sectors(|data|))
      && forall s :: Owns(e.inodes[i], s) ==> DATA_SECTOR + fs.sb.usedSectors <= s < DATA_SECTOR + e.sb.usedSectors
  {
  }

  /** Writes that WriteFile may issue: a superblock with some sectors more in use, part of the new
      inode table, or a data sector below the new high-water mark. */
  ghost predicate AllowedWrite(fs: FS, e: Effect, w: Write) {
    || (exists sb :: w == SuperblockWrite(sb) && sb.magic == fs.sb.magic && fs.sb.usedSectors <= sb.usedSectors <= e.sb.usedSectors)
    || w in TableWrites(e.inodes)
    || DATA_SECTOR <= w.sector < DATA_SECTOR + e.sb.usedSectors
  }

  /** Without any restriction on rewrites: WriteFile touches metadata and data sectors below the
      new high-water mark only, and keeps all files below that mark. */
  lemma HighWaterMark(fs: FS, i: int, data: seq<byte>)
    requires BelowMark(fs) && Room(fs, i, |data|)
    ensures BelowMark(Commit(fs, WriteFile(fs, i, data)))
    ensures forall w :: w in WriteFile(fs, i, data).writes ==> AllowedWrite(fs, WriteFile(fs, i, data), w)
  {
    if Accessible(fs, i) {
      hide SuperblockSector, InodeSector, Chunk;
      StartBounds(fs, i, |data|);
      var e := WriteFile(fs, i, data);
      forall w | w in e.writes ensures AllowedWrite(fs, e, w) {
        WriteAllowed(fs, i, data, w);
      }
      forall k | 0 <= k < MAX_FILES ensures Placed(e.inodes[k], e.sb.usedSectors) {
        assert Placed(fs.inodes[k], fs.sb.usedSectors);
      }
    }
  }

  lemma WriteAllowed(fs: FS, i: int, data: seq<byte>, w: Write)
    requires BelowMark(fs) && Accessible(fs, i) && Room(fs, i, |data|) && w in WriteFile(fs, i, data).writes
    ensures AllowedWrite(fs, WriteFile(fs, i, data), w)
  {
    hide SuperblockSector, InodeSector, Chunk;
    StartBounds(fs, i, |data|);
    var isNew := if fs.inodes[i].startSector == 0 then 1 else 0;
    var sb1 := Bump(fs.sb, isNew);
    if w in DataWrites(sb1, WriteStart(fs, i), data, Sectors(|data|)) {
      DataWritesShape(sb1, WriteStart(fs, i), data, Sectors(|data|), w);
      if j :| 1 <= j < Sectors(|data|) && w == SuperblockWrite(Bump(sb1, j)) {
        assert w == SuperblockWrite(Bump(fs.sb, j + isNew));
      }
    } else if w !in TableWrites(WriteFile(fs, i, data).inodes) {
      assert w == SuperblockWrite(Bump(fs.sb, 1));
    }
  }

  // What WriteFile leaves on the disk

  lemma WriteFileParts(fs: FS, i: int, data: seq<byte>)
    requires BelowMark(fs) && Accessible(fs, i) && Room(fs, i, |data|)
    ensures fs.sb.usedSectors + 1 + Sectors(|data|) < 0x1_0000_0000
    ensures WriteFile(fs, i, data).writes == WriteBody(fs, i, data) + TableWrites(WriteFile(fs, i, data).inodes)
    ensures WriteFile(fs, i, data).inodes == fs.inodes[i := WriteFile(fs, i, data).inodes[i]]
  {
    StartBounds(fs, i, |data|);
  }

  /** Sector s after allocations and data. */
  function AfterBody(fs: FS, i: nat, data: seq<byte>, s: nat): Sector
    requires s < |fs.disk| && i < MAX_FILES && fs.sb.usedSectors + Allocated(fs.inodes[i], |data|) < 0x1_0000_0000
  {
    if WriteStart(fs, i) <= s < WriteStart(fs, i) + Sectors(|data|) then Chunk(data, s - WriteStart(fs, i))
    else if s == SUPERBLOCK_SECTOR && Allocated(fs.inodes[i], |data|) > 0
      then SuperblockSector(Bump(fs.sb, Allocated(fs.inodes[i], |data|)))
    else fs.disk[s]
  }

  lemma BodyOnDisk(fs: FS, i: int, data: seq<byte>, s: nat)
    requires BelowMark(fs) && Accessible(fs, i) && Room(fs, i, |data|) && s < |fs.disk|
    ensures fs.sb.usedSectors + 1 + Sectors(|data|) < 0x1_0000_0000
    ensures Apply(fs.disk, WriteBody(fs, i, data))[s] == AfterBody(fs, i, data, s)
  {
    StartBounds(fs, i, |data|);
    WriteFileParts(fs, i, data);
    hide *;
    if fs.inodes[i].startSector == 0 {
      FirstBodyOnDisk(fs, i, data, s);
    } else {
      LaterBodyOnDisk(fs, i, data, s);
    }
  }

  lemma LaterBodyOnDisk(fs: FS, i: int, data: seq<byte>, s: nat)
    requires BelowMark(fs) && Accessible(fs, i) && Room(fs, i, |data|) && s < |fs.disk| && fs.inodes[i].startSector != 0
    requires fs.sb.usedSectors + 1 + Sectors(|data|) < 0x1_0000_0000
    requires DATA_SECTOR <= WriteStart(fs, i) && WriteStart(fs, i) + Sectors(|data|) <= |fs.disk|
    ensures Apply(fs.disk, WriteBody(fs, i, data))[s] == AfterBody(fs, i, data, s)
  {
    hide SuperblockSector, Chunk, Apply, DataWrites, BelowMark, Room;
    var start, k := WriteStart(fs, i), Sectors(|data|);
    assert FirstBump(fs, i) == fs.sb && WriteBody(fs, i, data) == [] + DataWrites(fs.sb, start, data, k) == DataWrites(fs.sb, start, data, k);
    ApplyData(fs.disk, fs.sb, start, data, k, s);
    hide Sectors;
    assert AfterData(fs.disk, fs.sb, start, data, k, s) == AfterBody(fs, i, data, s);
  }

  lemma FirstBodyOnDisk(fs: FS, i: int, data: seq<byte>, s: nat)
    requires BelowMark(fs) && Accessible(fs, i) && Room(fs, i, |data|) && s < |fs.disk| && fs.inodes[i].startSector == 0
    requires fs.sb.usedSectors + 1 + Sectors(|data|) < 0x1_0000_0000 && WriteStart(fs, i) + Sectors(|data|) <= |fs.disk|
    ensures Apply(fs.disk, WriteBody(fs, i, data))[s] == AfterBody(fs, i, data, s)
  {
    hide SuperblockSector, Chunk, Apply, DataWrites, Sectors;
    var sb1, start, k := Bump(fs.sb, 1), WriteStart(fs, i), Sectors(|data|);
    var w := SuperblockWrite(sb1);
    assert WriteBody(fs, i, data) == [w] + DataWrites(sb1, start, data, k);
    ApplyAppend(fs.disk, [w], DataWrites(sb1, start, data, k));
    assert [] + [w] == [w];
    ApplyLast(fs.disk, [], w);
    NoWrites(fs.disk);
    ApplyData(Put(fs.disk, w), sb1, start, data, k, s);
  }

  /** Sector s after the whole call. */
  function AfterWrite(fs: FS, i: nat, data: seq<byte>, s: nat): Sector
    requires s < |fs.disk| && i < MAX_FILES && Room(fs, i, |data|)
    requires fs.sb.usedSectors + Allocated(fs.inodes[i], |data|) < 0x1_0000_0000
  {
    if INODE_SECTOR <= s < DATA_SECTOR then InodeSector(WriteFile(fs, i, data).inodes, s - INODE_SECTOR)
    else AfterBody(fs, i, data, s)
  }

  lemma WriteOnDisk(fs: FS, i: int, data: seq<byte>, s: nat)
    requires BelowMark(fs) && Accessible(fs, i) && Room(fs, i, |data|) && s < |fs.disk|
    ensures Apply(fs.disk, WriteFile(fs, i, data).writes)[s] == AfterWrite(fs, i, data, s)
  {
    hide SuperblockSector, Chunk, InodeSector;
    WriteFileParts(fs, i, data);
    BodyOnDisk(fs, i, data, s);
    ApplyThenTable(fs.disk, WriteBody(fs, i, data), WriteFile(fs, i, data).inodes);
  }

  /** The written file holds the data, also after a write that damages another file. */
  lemma WrittenContent(fs: FS, i: int, data: seq<byte>)
    requires BelowMark(fs) && Accessible(fs, i) && Room(fs, i, |data|)
    ensures var e := WriteFile(fs, i, data); Content(Apply(fs.disk, e.writes), e.inodes[i]) == data
  {
    var d := Apply(fs.disk, WriteFile(fs, i, data).writes);
    var start := WriteStart(fs, i);
    StartBounds(fs, i, |data|);
    forall c | 0 <= c < Sectors(|data|) ensures d[start + c] == Chunk(data, c) {
      WriteOnDisk(fs, i, data, start + c);
    }
    ContentOfChunks(d, WriteFile(fs, i, data).inodes[i], data);
  }

  lemma ContentOfChunks(d: seq<Sector>, n: Inode, data: seq<byte>)
    requires n.size == |data| && n.startSector + Sectors(|data|) <= |d|
    requires forall c {:trigger Chunk(data, c)} :: 0 <= c < Sectors(|data|) ==> d[n.startSector + c] == Chunk(data, c)
    ensures Content(d, n) == data
  {
    forall b | 0 <= b < |data| ensures d[n.startSector + b / 512][b % 512] == data[b] {
      assert b / 512 < Sectors(|data|) && 512 * (b / 512) + b % 512 == b;
      assert d[n.startSector + b / 512] == Chunk(data, b / 512);
    }
  }

  /** Round trip: reading m bytes back gives the first min(n, m) of the n bytes written. */
  lemma WriteThenRead(fs: FS, i: int, data: seq<byte>, m: nat)
    requires BelowMark(fs) && Accessible(fs, i) && Room(fs, i, |data|)
    ensures WriteFile(fs, i, data).ret == |data|
    ensures var k := if m < |data| then m else |data|;
      ReadFile(Commit(fs, WriteFile(fs, i, data)), i, m) == (k, data[..k])
  {
    WrittenContent(fs, i, data);
    StartBounds(fs, i, |data|);
    hide Content, Apply;
    var after := Commit(fs, WriteFile(fs, i, data));
    assert Accessible(after, i) && after.inodes[i].startSector == WriteStart(fs, i);
    assert data[..|data|] == data;
  }

  // Effect on the other files

  lemma WriteSaved(fs: FS, i: int, data: seq<byte>)
    requires Durable(fs) && Accessible(fs, i) && Room(fs, i, |data|)
    ensures var e := WriteFile(fs, i, data);
      && Apply(fs.disk, e.writes)[SUPERBLOCK_SECTOR] == SuperblockSector(e.sb)
      && TableOnDisk(Apply(fs.disk, e.writes), e.inodes)
  {
    hide SuperblockSector, Chunk, InodeSector;
    var e := WriteFile(fs, i, data);
    StartBounds(fs, i, |data|);
    WriteOnDisk(fs, i, data, SUPERBLOCK_SECTOR);
    assert Bump(fs.sb, 0) == fs.sb;
    forall s | 0 <= s < INODE_SECTORS ensures Apply(fs.disk, e.writes)[INODE_SECTOR + s] == InodeSector(e.inodes, s) {
      WriteOnDisk(fs, i, data, INODE_SECTOR + s);
    }
  }

  lemma WriteSparesOthers(fs: FS, i: int, data: seq<byte>)
    requires Consistent(fs) && Accessible(fs, i) && Room(fs, i, |data|) && RewriteSafe(fs, i, |data|)
    ensures forall j, s :: 0 <= j < MAX_FILES && j != i && 0 <= s < |fs.disk| && Owns(fs.inodes[j], s) ==>
      Apply(fs.disk, WriteFile(fs, i, data).writes)[s] == fs.disk[s]
  {
    OwnedAboveMetadata(fs);
    StartBounds(fs, i, |data|);
    forall j, s | 0 <= j < MAX_FILES && j != i && 0 <= s < |fs.disk| && Owns(fs.inodes[j], s)
      ensures Apply(fs.disk, WriteFile(fs, i, data).writes)[s] == fs.disk[s]
    {
      WriteOnDisk(fs, i, data, s);
    }
  }

  /** A safe write replaces the contents of one file, keeps the invariant, and changes nothing
      else. */
  lemma WriteCorrect(fs: FS, i: int, data: seq<byte>)
    requires Consistent(fs) && Room(fs, i, |data|)
    ensures var e := WriteFile(fs, i, data);
      && e.ret == (if Accessible(fs, i) then |data| else -1)
      && (!Accessible(fs, i) ==> e == Refuse(fs, -1))
      && (Accessible(fs, i) && RewriteSafe(fs, i, |data|) ==>
            && Consistent(Commit(fs, e))
            && Files(Commit(fs, e)) == Files(fs)[StoredName(fs.inodes[i].name) := data])
  {
    if Accessible(fs, i) && RewriteSafe(fs, i, |data|) {
      SafeWrite(fs, i, data);
    }
  }

  lemma SafeWrite(fs: FS, i: int, data: seq<byte>)
    requires Consistent(fs) && Accessible(fs, i) && Room(fs, i, |data|) && RewriteSafe(fs, i, |data|)
    ensures Consistent(Commit(fs, WriteFile(fs, i, data)))
    ensures Files(Commit(fs, WriteFile(fs, i, data))) == Files(fs)[StoredName(fs.inodes[i].name) := data]
  {
    var e := WriteFile(fs, i, data);
    var d, n := Apply(fs.disk, e.writes), e.inodes[i];
    WriteFileParts(fs, i, data);
    WriteFits(fs, i, data);
    WriteSaved(fs, i, data);
    WriteSparesOthers(fs, i, data);
    WrittenContent(fs, i, data);
    hide StoredName, Content, SuperblockSector, InodeSector, WriteFile, Apply, Owns, RewriteSafe, NamesOk, View, Disjoint, TableOnDisk, Room;
    Replaced(fs, i, n, e.sb, fs.mounted, d);
    ViewUpdate(fs.disk, d, fs.inodes, i, n);
    ViewHas(fs.disk, fs.inodes, i);
    SameKey(Files(fs), fs.inodes[i], n, data);
  }

  lemma SameKey(m: map<seq<byte>, seq<byte>>, a: Inode, n: Inode, data: seq<byte>)
    requires a.Live() && n.Live() && a.name == n.name
    ensures Updated(m, a, n, data) == m[StoredName(a.name) := data]
  {
    hide StoredName;
  }

  lemma WriteFits(fs: FS, i: int, data: seq<byte>)
    requires Consistent(fs) && Accessible(fs, i) && Room(fs, i, |data|) && RewriteSafe(fs, i, |data|)
    ensures var e := WriteFile(fs, i, data);
      && FitsIn(fs.inodes, i, e.inodes[i], e.sb.usedSectors)
      && e.inodes[i].Live() && e.inodes[i].name == fs.inodes[i].name
      && e.sb.magic == MAGIC && fs.sb.usedSectors <= e.sb.usedSectors && e.mounted == fs.mounted
      && DATA_SECTOR + e.sb.usedSectors <= |fs.disk|
  {
    hide StoredName, SuperblockSector, InodeSector, Chunk;
    var e := WriteFile(fs, i, data);
    StartBounds(fs, i, |data|);
    KeepName(fs.inodes, i, e.inodes[i]);
  }

  lemma KeepName(t: InodeTable, i: nat, n: Inode)
    requires NamesOk(t) && i < MAX_FILES && t[i].Live() && n.name == t[i].name
    ensures NamesOk(t[i := n])
  {
    hide StoredName;
  }

  /** The count of files is not touched by WriteFile. */
  lemma WriteCounts(fs: FS, i: int, data: seq<byte>)
    requires CountOk(fs) && Room(fs, i, |data|)
    ensures CountOk(Commit(fs, WriteFile(fs, i, data)))
  {
    if Accessible(fs, i) {
      CountUpdate(fs.inodes, i, WriteFile(fs, i, data).inodes[i]);
    }
  }

  // When a rewrite is safe

  /** Writing `data` to file i leaves the contents of all other files as they were. */
  ghost predicate OthersKept(fs: FS, i: int, data: seq<byte>)
    requires Room(fs, i, |data|)
  {
    forall j :: 0 <= j < MAX_FILES && j != i && fs.inodes[j].Live() ==>
      Content(Commit(fs, WriteFile(fs, i, data)).disk, fs.inodes[j]) == Content(fs.disk, fs.inodes[j])
  }

  /** `RewriteSafe` is exact: it holds if and only if no data of that size can damage another file. */
  lemma RewriteSafeIsExact(fs: FS, i: int, size: nat)
    requires Consistent(fs) && Accessible(fs, i) && Room(fs, i, size)
    ensures RewriteSafe(fs, i, size) <==> forall data: seq<byte> :: |data| == size ==> OthersKept(fs, i, data)
  {
    if RewriteSafe(fs, i, size) {
      forall data: seq<byte> | |data| == size ensures OthersKept(fs, i, data) {
        WriteSparesOthers(fs, i, data);
        forall j | 0 <= j < MAX_FILES && j != i && fs.inodes[j].Live()
          ensures Content(Apply(fs.disk, WriteFile(fs, i, data).writes), fs.inodes[j]) == Content(fs.disk, fs.inodes[j])
        {
          ContentSame(fs.disk, Apply(fs.disk, WriteFile(fs, i, data).writes), fs.inodes[j]);
        }
      }
    } else {
      var start := WriteStart(fs, i);
      var j, s :| 0 <= j < MAX_FILES && j != i && start <= s < start + Sectors(size) && Owns(fs.inodes[j], s);
      var data := Damaging(fs, i, size, j, s);
      assert !OthersKept(fs, i, data);
    }
  }

  /** The content byte at the start of an owned sector. */
  lemma FirstByte(d: seq<Sector>, n: Inode, s: nat)
    requires n.startSector + Sectors(n.size) <= |d| && Owns(n, s)
    ensures var q := 512 * (s - n.startSector); q < |Content(d, n)| && Content(d, n)[q] == d[s][0]
  {
    var q := 512 * (s - n.startSector);
    assert q < n.size && q / 512 == s - n.startSector && q % 512 == 0;
  }

  /** Data whose only interesting byte differs from the first byte of a foreign sector s. */
  lemma Damaging(fs: FS, i: int, size: nat, j: nat, s: nat) returns (data: seq<byte>)
    requires Consistent(fs) && Accessible(fs, i) && Room(fs, i, size)
    requires j < MAX_FILES && j != i && Owns(fs.inodes[j], s)
    requires WriteStart(fs, i) <= s < WriteStart(fs, i) + Sectors(size)
    ensures |data| == size && !OthersKept(fs, i, data)
  {
    var n := fs.inodes[j];
    var c, q := s - WriteStart(fs, i), 512 * (s - n.startSector);
    assert Placed(n, fs.sb.usedSectors);
    var was: int := fs.disk[s][0];
    data := seq(size, b requires 0 <= b < size => if b == 512 * c then (was + 1) % 256 else 0);
    WriteOnDisk(fs, i, data, s);
    var d := Apply(fs.disk, WriteFile(fs, i, data).writes);
    assert d[s] == Chunk(data, c);
    assert d[s][0] == (was + 1) % 256 != was;
    FirstByte(d, n, s);
    FirstByte(fs.disk, n, s);
    assert Content(d, n)[q] != Content(fs.disk, n)[q];
    hide Content, Apply, WriteFile, Sectors;
  }

  /** A file that grows up to the first sector of a later file is not safe to rewrite. */
  lemma GrowingIsUnsafe(fs: FS, i: int, j: int, size: nat)
    requires Accessible(fs, i) && Accessible(fs, j) && i != j && fs.inodes[j].size > 0
    requires 0 < fs.inodes[i].startSector < fs.inodes[j].startSector
    requires size > 512 * (fs.inodes[j].startSector - fs.inodes[i].startSector)
    ensures !RewriteSafe(fs, i, size)
  {
    var s := fs.inodes[j].startSector;
    assert Owns(fs.inodes[j], s) && s < WriteStart(fs, i) + Sectors(size);
  }

  // Mounting, unmounting, formatting

  /** After every operation the disk alone determines the file system: mounting it, whatever is
      in memory, gives back superblock and inode table. */
  lemma MountReproduces(fs: FS, other: FS)
    requires Durable(fs) && other.disk == fs.disk
    ensures Mount(other).ret == 1
    ensures Commit(other, Mount(other)) == fs.(mounted := true)
  {
    SuperblockRoundTrip(fs.sb);
    TableRoundTrip(fs.disk, fs.inodes);
    NoWrites(fs.disk);
  }

  /** Unmounting has nothing left to save. */
  lemma UnmountKeeps(fs: FS)
    requires Durable(fs)
    ensures Commit(fs, Unmount(fs)) == fs.(mounted := false)
  {
    hide SuperblockSector, InodeSector;
    if fs.mounted {
      SaveSuperblockFirst(fs.disk, fs.sb, fs.inodes);
      forall s | 0 <= s < |fs.disk| ensures AfterSave(fs.disk, fs.sb, fs.inodes, s) == fs.disk[s] {
        if INODE_SECTOR <= s < DATA_SECTOR {
          assert fs.disk[INODE_SECTOR + (s - INODE_SECTOR)] == InodeSector(fs.inodes, s - INODE_SECTOR);
        }
      }
    } else {
      NoWrites(fs.disk);
    }
  }

  /** Formatting turns any disk of at least ten sectors into an empty file system. */
  lemma FormatCorrect(fs: FS, volume: seq<byte>)
    requires DATA_SECTOR <= |fs.disk| <= 0x1000_0000
    ensures var fs' := Commit(fs, Format(fs, volume)); Consistent(fs') && Durable(fs') && CountOk(fs') && Files(fs') == map[]
  {
    hide SuperblockSector, InodeSector, Content, StoredName;
    var e := Format(fs, volume);
    SaveSuperblockFirst(fs.disk, e.sb, e.inodes);
    NoneLive(e.inodes);
  }

  lemma {:induction false} NoneLive(t: seq<Inode>)
    requires forall i :: 0 <= i < |t| ==> !t[i].Live()
    ensures CountLive(t) == 0
  {
    if t != [] {
      NoneLive(t[1..]);
    }
  }
}
