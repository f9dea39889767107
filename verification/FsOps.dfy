/** Every operation keeps the invariant and acts on the map of files as its name says. */
module FsOps {
  import opened Bytes
  import opened FsCodec
  import opened FsModel
  import opened FsDisk
  import opened FsInvariant

  // Metadata writes

  /** Sector s of a disk after superblock and table were saved, in either order. */
  function AfterSave(d: seq<Sector>, sb: Superblock, t: InodeTable, s: nat): Sector
    requires s < |d|
  {
    if s == SUPERBLOCK_SECTOR then SuperblockSector(sb)
    else if INODE_SECTOR <= s < DATA_SECTOR then InodeSector(t, s - INODE_SECTOR)
    else d[s]
  }

  lemma SaveTableFirst(d: seq<Sector>, sb: Superblock, t: InodeTable)
    requires |d| >= DATA_SECTOR
    ensures forall s :: 0 <= s < |d| ==> Apply(d, TableWrites(t) + [SuperblockWrite(sb)])[s] == AfterSave(d, sb, t, s)
  {
    hide SuperblockSector, InodeSector;
    assert [] + TableWrites(t) == TableWrites(t);
    ApplyThenTable(d, [], t);
    ApplyLast(d, TableWrites(t), SuperblockWrite(sb));
  }

  lemma SaveSuperblockFirst(d: seq<Sector>, sb: Superblock, t: InodeTable)
    requires |d| >= DATA_SECTOR
    ensures forall s :: 0 <= s < |d| ==> Apply(d, [SuperblockWrite(sb)] + TableWrites(t))[s] == AfterSave(d, sb, t, s)
  {
    hide SuperblockSector, InodeSector;
    assert [] + [SuperblockWrite(sb)] == [SuperblockWrite(sb)];
    ApplyLast(d, [], SuperblockWrite(sb));
    ApplyThenTable(d, [SuperblockWrite(sb)], t);
  }

  // One changed inode

  /** Replacing inode i by one that takes no name and no sector of another file. */
  ghost predicate FitsIn(t: InodeTable, i: nat, n: Inode, used: nat)
    requires i < MAX_FILES
  {
    && NamesOk(t[i := n])
    && Placed(n, used)
    && forall j, s :: 0 <= j < MAX_FILES && j != i && Owns(t[j], s) ==> !Owns(n, s)
  }

  lemma Replaced(fs: FS, i: nat, n: Inode, sb: Superblock, mounted: bool, d: seq<Sector>)
    requires Consistent(fs) && i < MAX_FILES && FitsIn(fs.inodes, i, n, sb.usedSectors)
    requires sb.magic == MAGIC && fs.sb.usedSectors <= sb.usedSectors
    requires DATA_SECTOR + sb.usedSectors <= |d| <= 0x1000_0000
    requires d[SUPERBLOCK_SECTOR] == SuperblockSector(sb) && TableOnDisk(d, fs.inodes[i := n])
    ensures Consistent(FS(sb, fs.inodes[i := n], mounted, d))
  {
    hide SuperblockSector, InodeSector, NamesOk, TableOnDisk, Owns;
    var u := fs.inodes[i := n];
    forall j, k, s | 0 <= j < |u| && 0 <= k < |u| && j != k && Owns(u[j], s) ensures !Owns(u[k], s) {
      if j != i && k != i {
        assert Owns(fs.inodes[j], s);
      } else if j == i {
        assert Owns(fs.inodes[k], s) ==> !Owns(n, s);
      }
    }
  }

  /** A name that is not in the table may be entered. */
  lemma NewName(t: InodeTable, i: nat, n: Inode)
    requires NamesOk(t) && i < MAX_FILES && 0 in n.name
    requires forall j :: 0 <= j < MAX_FILES && j != i && t[j].Live() ==> StoredName(t[j].name) != StoredName(n.name)
    ensures NamesOk(t[i := n])
  {
    hide StoredName;
  }

  /** Saving a table with one new inode, and then the superblock. */
  lemma MetadataReplaced(fs: FS, e: Effect, i: nat, n: Inode)
    requires Consistent(fs) && i < MAX_FILES && FitsIn(fs.inodes, i, n, fs.sb.usedSectors)
    requires e.inodes == fs.inodes[i := n] && e.writes == TableWrites(e.inodes) + [SuperblockWrite(e.sb)]
    requires e.sb.magic == MAGIC && e.sb.usedSectors == fs.sb.usedSectors
    ensures Consistent(Commit(fs, e))
    ensures Files(Commit(fs, e)) == Updated(Files(fs), fs.inodes[i], n, Content(Apply(fs.disk, e.writes), n))
  {
    var d := Apply(fs.disk, e.writes);
    SaveTableFirst(fs.disk, e.sb, e.inodes);
    hide StoredName, Content, SuperblockSector, InodeSector, Apply, NamesOk, View, TableWrites, Disjoint, Placed;
    Replaced(fs, i, n, e.sb, e.mounted, d);
    OwnedAboveMetadata(fs);
    ViewUpdate(fs.disk, d, fs.inodes, i, n);
  }

  // CreateFile

  function CreatedInode(fs: FS, f: seq<byte>): Inode
    requires FirstEmpty(fs.inodes) < MAX_FILES
  {
    Inode(CopyName(fs.inodes[FirstEmpty(fs.inodes)].name, f), 0, 0, REGULAR, 0, 0)
  }

  /** CreateFile succeeds exactly on a mounted file system on which OpenFile does not find the
      name and one of the 64 inodes is free; when it fails nothing happens. */
  lemma CreateVerdict(fs: FS, f: seq<byte>)
    requires Consistent(fs) && CString(f)
    ensures var e := CreateFile(fs, f);
      && (e.ret >= 0 <==> fs.mounted && f !in Files(fs) && |Files(fs)| < 64)
      && (e.ret >= 0 <==> fs.mounted && OpenFile(fs, f) < 0 && CountLive(fs.inodes) < 64)
      && (e.ret < 0 ==> e == Refuse(fs, -1))
  {
    FindIsLookup(fs.disk, fs.inodes, f);
    ViewSize(fs.disk, fs.inodes);
    CountFull(fs.inodes);
  }

  /** A created file is empty, and nothing else changes. The stored name is cut to 31 characters,
      so the file system stays consistent exactly when the cut name is not taken. */
  lemma CreateEffect(fs: FS, f: seq<byte>)
    requires Consistent(fs) && CString(f) && CreateFile(fs, f).ret >= 0
    ensures var e := CreateFile(fs, f);
      && (Consistent(Commit(fs, e)) <==> Truncated(f) !in Files(fs))
      && (Consistent(Commit(fs, e)) ==> Files(Commit(fs, e)) == Files(fs)[Truncated(f) := []])
  {
    var e := CreateFile(fs, f);
    var i, n := FirstEmpty(fs.inodes), CreatedInode(fs, f);
    assert e.inodes == fs.inodes[i := n];
    CopyNameStores(fs.inodes[i].name, f);
    if Truncated(f) in Files(fs) {
      var j :| 0 <= j < MAX_FILES && fs.inodes[j].Live() && StoredName(fs.inodes[j].name) == Truncated(f);
      SameNameTwice(e.inodes, i, j);
    } else {
      CreateKeeps(fs, f);
    }
  }

  lemma SameNameTwice(t: seq<Inode>, i: nat, j: nat)
    requires i < |t| && j < |t| && i != j && t[i].Live() && t[j].Live()
    requires StoredName(t[i].name) == StoredName(t[j].name)
    ensures !NamesOk(t)
  {
    hide StoredName;
  }

  lemma CreateKeeps(fs: FS, f: seq<byte>)
    requires Consistent(fs) && CString(f) && CreateFile(fs, f).ret >= 0 && Truncated(f) !in Files(fs)
    ensures var e := CreateFile(fs, f);
      Consistent(Commit(fs, e)) && Files(Commit(fs, e)) == Files(fs)[Truncated(f) := []]
  {
    var e := CreateFile(fs, f);
    var i, n := FirstEmpty(fs.inodes), CreatedInode(fs, f);
    assert e.inodes == fs.inodes[i := n];
    CopyNameStores(fs.inodes[i].name, f);
    NameUnused(fs, Truncated(f));
    NewName(fs.inodes, i, n);
    hide StoredName, Content, Apply, CopyName, Truncated, View, NamesOk, TableWrites;
    MetadataReplaced(fs, e, i, n);
    EmptyContent(Apply(fs.disk, e.writes), n);
  }

  lemma EmptyContent(d: seq<Sector>, n: Inode)
    requires n.size == 0
    ensures Content(d, n) == []
  {
  }

  /** OpenFile finds the new file under its name exactly when the name fits in 31 characters. */
  lemma CreateThenOpen(fs: FS, f: seq<byte>)
    requires Consistent(fs) && CString(f) && CreateFile(fs, f).ret >= 0
    ensures OpenFile(Commit(fs, CreateFile(fs, f)), f) == CreateFile(fs, f).ret <==> |f| < MAX_FILENAME
  {
    var e := CreateFile(fs, f);
    var i, u := FirstEmpty(fs.inodes), e.inodes;
    CopyNameStores(fs.inodes[i].name, f);
    MatchesIsEquality(u[i].name, f);
    forall j | 0 <= j < MAX_FILES && j != i && u[j].Live() ensures !Matches(u[j].name, f) {
      assert u[j] == fs.inodes[j];
    }
  }

  lemma CreateCounts(fs: FS, f: seq<byte>)
    requires CountOk(fs)
    ensures CountOk(Commit(fs, CreateFile(fs, f)))
  {
    var i := FirstEmpty(fs.inodes);
    if i < MAX_FILES {
      CountUpdate(fs.inodes, i, CreatedInode(fs, f));
    }
  }

  lemma NameUnused(fs: FS, f: seq<byte>)
    requires Consistent(fs) && CString(f) && f !in Files(fs)
    ensures forall j :: 0 <= j < MAX_FILES && fs.inodes[j].Live() ==> StoredName(fs.inodes[j].name) != f
  {
    forall j | 0 <= j < MAX_FILES && fs.inodes[j].Live() ensures StoredName(fs.inodes[j].name) != f {
      ViewHas(fs.disk, fs.inodes, j);
    }
  }

  /** Files own data sectors below the high-water mark only. */
  lemma OwnedAboveMetadata(fs: FS)
    requires Consistent(fs)
    ensures forall j, s :: 0 <= j < MAX_FILES && Owns(fs.inodes[j], s) ==> DATA_SECTOR <= s < DATA_SECTOR + fs.sb.usedSectors
  {
    forall j, s | 0 <= j < MAX_FILES && Owns(fs.inodes[j], s) ensures DATA_SECTOR <= s < DATA_SECTOR + fs.sb.usedSectors {
      assert Placed(fs.inodes[j], fs.sb.usedSectors);
    }
  }

  // DeleteFile

  /** DeleteFile removes the name and nothing else, and reports whether it was there. */
  lemma DeleteCorrect(fs: FS, f: seq<byte>)
    requires Consistent(fs) && CString(f)
    ensures var e := DeleteFile(fs, f);
      && (e.ret == 1 <==> fs.mounted && f in Files(fs))
      && (e.ret != 1 ==> e == Refuse(fs, 0))
      && Consistent(Commit(fs, e))
      && Files(Commit(fs, e)) == if e.ret == 1 then Files(fs) - {f} else Files(fs)
  {
    FindIsLookup(fs.disk, fs.inodes, f);
    if OpenFile(fs, f) >= 0 {
      DeleteKeeps(fs, f);
    }
  }

  lemma DeleteKeeps(fs: FS, f: seq<byte>)
    requires Consistent(fs) && CString(f) && OpenFile(fs, f) >= 0
    ensures var e := DeleteFile(fs, f); Consistent(Commit(fs, e)) && Files(Commit(fs, e)) == Files(fs) - {f}
  {
    var i := Find(fs.inodes, f);
    var n := fs.inodes[i].(kind := EMPTY, size := 0);
    DeleteParts(fs, f);
    FindIsLookup(fs.disk, fs.inodes, f);
    RemoveName(fs.inodes, i, n);
    hide StoredName, Content, Apply, DeleteFile, Find, Matches, OpenFile, NamesOk, View, TableWrites;
    MetadataReplaced(fs, DeleteFile(fs, f), i, n);
  }

  lemma DeleteParts(fs: FS, f: seq<byte>)
    requires OpenFile(fs, f) >= 0
    ensures var e, i := DeleteFile(fs, f), Find(fs.inodes, f);
      && i == OpenFile(fs, f)
      && e.inodes == fs.inodes[i := fs.inodes[i].(kind := EMPTY, size := 0)]
      && e.sb.usedSectors == fs.sb.usedSectors && e.sb.magic == fs.sb.magic && e.mounted == fs.mounted
      && e.writes == TableWrites(e.inodes) + [SuperblockWrite(e.sb)]
  {
  }

  lemma RemoveName(t: InodeTable, i: nat, n: Inode)
    requires NamesOk(t) && i < MAX_FILES && !n.Live()
    ensures NamesOk(t[i := n])
  {
    hide StoredName;
  }

  lemma DeleteCounts(fs: FS, f: seq<byte>)
    requires CountOk(fs)
    ensures CountOk(Commit(fs, DeleteFile(fs, f)))
  {
    var i := Find(fs.inodes, f);
    if i < MAX_FILES {
      CountUpdate(fs.inodes, i, fs.inodes[i].(kind := EMPTY, size := 0));
    }
  }
}
