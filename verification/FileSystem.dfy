/** `FileSystem` (src/filesystem.cpp) over an array of sectors. Each method has the effect of the
  function of the same name in module FsModel, on the state and on the log of disk writes. */
module Files {
  import opened Bytes
  import opened FsCodec
  import opened FsModel
  import opened FsDisk
  import opened FsInvariant
  import opened FsWrite

  /** The disk driver as the file system sees it. */
  class Disk {
    const sectors: array<Sector>
    ghost var log: seq<Write>   // every sector write so far

    constructor (n: nat)
      ensures sectors.Length == n && log == [] && fresh(sectors)
    {
      sectors := new Sector[n];
      log := [];
    }

    method Read28(sector: uint32, data: array<byte>)
      requires data.Length == SECTOR_SIZE
      modifies data
      ensures data[..] == if sector < sectors.Length then sectors[sector] else old(data[..])
    {
      if sector < sectors.Length {
        forall i | 0 <= i < SECTOR_SIZE {
          data[i] := sectors[sector][i];
        }
      }
    }

    method Write28(sector: uint32, data: array<byte>)
      requires data.Length == SECTOR_SIZE
      modifies this`log, sectors
      ensures sectors[..] == Put(old(sectors[..]), Write(sector, old(data[..])))
      ensures log == old(log) + [Write(sector, old(data[..]))]
    {
      if sector < sectors.Length {
        sectors[sector] := data[..];
      }
      log := log + [Write(sector, data[..])];
    }
  }

  class FileSystem {
    const inodes: array<Inode>
    const disk: Disk
    var superblock: Superblock
    var mounted: bool

    ghost predicate Valid() {
      inodes.Length == MAX_FILES && disk.sectors.Length >= DATA_SECTOR
    }

    ghost function State(): FS
      requires Valid()
      reads this, inodes, disk.sectors
    {
      FS(superblock, inodes[..], mounted, disk.sectors[..])
    }

    /** Memory is not initialised but for type and size of the inodes. */
    constructor (disk: Disk, inodes: array<Inode>, superblock: Superblock)
      requires inodes.Length == MAX_FILES && disk.sectors.Length >= DATA_SECTOR
      modifies inodes
      ensures Valid() && this.disk == disk && this.inodes == inodes && !mounted
      ensures forall i :: 0 <= i < MAX_FILES ==> inodes[i] == old(inodes[i]).(kind := EMPTY, size := 0)
    {
      this.disk := disk;
      this.inodes := inodes;
      this.superblock := superblock;
      this.mounted := false;
      new;
      for i := 0 to MAX_FILES
        invariant !mounted
        invariant forall k :: 0 <= k < MAX_FILES ==>
          inodes[k] == if k < i then old(inodes[k]).(kind := EMPTY, size := 0) else old(inodes[k])
      {
        inodes[i] := inodes[i].(kind := EMPTY, size := 0);
      }
    }

    // Metadata

    method LoadSuperblock()
      requires Valid()
      modifies this`superblock
      ensures superblock == FsCodec.LoadSuperblock(disk.sectors[..])
    {
      hide ParseSuperblock;
      var buffer := new byte[SECTOR_SIZE];
      disk.Read28(SUPERBLOCK_SECTOR, buffer);
      var raw := new byte[SUPERBLOCK_SIZE];
      for i := 0 to SUPERBLOCK_SIZE
        invariant raw[..i] == buffer[..i]
        modifies raw
      {
        raw[i] := buffer[i];
      }
      assert raw[..] == raw[..SUPERBLOCK_SIZE] == disk.sectors[..][SUPERBLOCK_SECTOR][..SUPERBLOCK_SIZE];
      superblock := ParseSuperblock(raw[..]);
    }

    method SaveSuperblock()
      requires Valid()
      modifies disk`log, disk.sectors
      ensures disk.sectors[..] == Put(old(disk.sectors[..]), SuperblockWrite(superblock))
      ensures disk.log == old(disk.log) + [SuperblockWrite(superblock)]
    {
      var buffer := new byte[SECTOR_SIZE];
      for i := 0 to SECTOR_SIZE
        invariant forall k :: 0 <= k < i ==> buffer[k] == 0
        modifies buffer
      {
        buffer[i] := 0;
      }
      var raw := SuperblockBytes(superblock);
      for i := 0 to SUPERBLOCK_SIZE
        invariant forall k :: 0 <= k < SECTOR_SIZE ==> buffer[k] == if k < i then raw[k] else 0
        modifies buffer
      {
        buffer[i] := raw[i];
      }
      assert buffer[..] == SuperblockSector(superblock);
      disk.Write28(SUPERBLOCK_SECTOR, buffer);
    }

    method LoadInodeTable()
      requires Valid()
      modifies inodes
      ensures inodes[..] == LoadTable(disk.sectors[..])
    {
      hide LoadTable;
      ghost var t := LoadTable(disk.sectors[..]);
      var buffer := new byte[SECTOR_SIZE];
      for sector := 0 to INODE_SECTORS
        invariant inodes[..8 * sector] == t[..8 * sector]
        invariant fresh(buffer)
      {
        disk.Read28(INODE_SECTOR + sector, buffer);
        assert inodes[..8 * sector] == t[..8 * sector];
        UnpackInodes(sector, buffer);
        TableSlots(disk.sectors[..], sector);
        assert inodes[8 * sector..8 * sector + 8] == t[8 * sector..8 * sector + 8];
        assert inodes[..8 * (sector + 1)] == inodes[..8 * sector] + inodes[8 * sector..8 * sector + 8];
        assert t[..8 * (sector + 1)] == t[..8 * sector] + t[8 * sector..8 * sector + 8];
      }
      assert inodes[..] == inodes[..8 * INODE_SECTORS] && t == t[..8 * INODE_SECTORS];
    }

    lemma TableSlots(d: seq<Sector>, sector: nat)
      requires sector < INODE_SECTORS && |d| >= DATA_SECTOR
      ensures forall k :: 8 * sector <= k < 8 * sector + 8 ==> LoadTable(d)[k] == SlotInode(d[INODE_SECTOR + sector], k - 8 * sector)
    {
      hide SlotInode;
      forall k | 8 * sector <= k < 8 * sector + 8 ensures LoadTable(d)[k] == SlotInode(d[INODE_SECTOR + sector], k - 8 * sector) {
        assert k / 8 == sector && k % 8 == k - 8 * sector;
      }
    }

    /** One round of LoadInodeTable: copy eight inodes out of the buffer. */
    method UnpackInodes(sector: nat, buffer: array<byte>)
      requires Valid() && sector < INODE_SECTORS && buffer.Length == SECTOR_SIZE
      modifies inodes
      ensures forall k :: 0 <= k < MAX_FILES && !(8 * sector <= k < 8 * sector + 8) ==> inodes[k] == old(inodes[k])
      ensures forall k :: 8 * sector <= k < 8 * sector + 8 ==> inodes[k] == SlotInode(old(buffer[..]), k - 8 * sector)
    {
      hide ParseInode, LoadTable;
      ghost var b: Sector := buffer[..];
      for i := 0 to 8
        invariant buffer[..] == b
        invariant forall k :: 0 <= k < MAX_FILES && !(8 * sector <= k < 8 * sector + i) ==> inodes[k] == old(inodes[k])
        invariant forall k :: 8 * sector <= k < 8 * sector + i ==> inodes[k] == SlotInode(b, k - 8 * sector)
      {
        var inodeIndex := sector * 8 + i;
        if inodeIndex < MAX_FILES {
          var raw := new byte[INODE_SIZE];
          for j := 0 to INODE_SIZE
            invariant raw[..j] == b[i * SLOT_SIZE..i * SLOT_SIZE + j]
            modifies raw
          {
            raw[j] := buffer[i * SLOT_SIZE + j];
          }
          assert raw[..] == raw[..INODE_SIZE];
          inodes[inodeIndex] := ParseInode(raw[..]);
        }
      }
    }

    /** Sector contents when i slots and j bytes of the next one are filled in. */
    ghost predicate Packed(b: seq<byte>, t: InodeTable, s: nat, i: nat, j: nat)
      requires s < INODE_SECTORS
    {
      |b| == SECTOR_SIZE &&
      forall p :: 0 <= p < SECTOR_SIZE ==> b[p] == if p < SLOT_SIZE * i + j then SlotByte(t, s, p) else 0
    }

    lemma PackedByte(t: InodeTable, s: nat, i: nat, j: nat)
      requires s < INODE_SECTORS && i < 8 && j < INODE_SIZE
      ensures SlotByte(t, s, SLOT_SIZE * i + j) == InodeBytes(t[8 * s + i])[j]
    {
      assert (SLOT_SIZE * i + j) / SLOT_SIZE == i && (SLOT_SIZE * i + j) % SLOT_SIZE == j;
    }

    lemma PackedSlot(b: seq<byte>, t: InodeTable, s: nat, i: nat)
      requires s < INODE_SECTORS && i < 8 && Packed(b, t, s, i, INODE_SIZE)
      ensures Packed(b, t, s, i + 1, 0)
    {
      hide InodeBytes;
      forall p | SLOT_SIZE * i + INODE_SIZE <= p < SLOT_SIZE * i + SLOT_SIZE ensures SlotByte(t, s, p) == 0 {
        assert p % SLOT_SIZE == p - SLOT_SIZE * i;
      }
    }

    method SaveInodeTable()
      requires Valid()
      modifies disk`log, disk.sectors
      ensures disk.sectors[..] == Apply(old(disk.sectors[..]), TableWrites(inodes[..]))
      ensures disk.log == old(disk.log) + TableWrites(inodes[..])
    {
      ghost var t: InodeTable := inodes[..];
      var buffer := new byte[SECTOR_SIZE];
      NoWrites(disk.sectors[..]);
      for sector := 0 to INODE_SECTORS
        invariant fresh(buffer)
        invariant disk.sectors[..] == Apply(old(disk.sectors[..]), TableWrites(t)[..sector])
        invariant disk.log == old(disk.log) + TableWrites(t)[..sector]
      {
        PackInodes(sector, buffer);
        disk.Write28(INODE_SECTOR + sector, buffer);
        assert TableWrites(t)[..sector + 1] == TableWrites(t)[..sector] + [Write(INODE_SECTOR + sector, InodeSector(t, sector))];
        ApplyLast(old(disk.sectors[..]), TableWrites(t)[..sector], Write(INODE_SECTOR + sector, InodeSector(t, sector)));
      }
      assert TableWrites(t)[..INODE_SECTORS] == TableWrites(t);
    }

    /** One round of SaveInodeTable: clear the buffer and copy eight inodes. */
    method PackInodes(sector: nat, buffer: array<byte>)
      requires Valid() && sector < INODE_SECTORS && buffer.Length == SECTOR_SIZE
      modifies buffer
      ensures buffer[..] == InodeSector(inodes[..], sector)
    {
      ghost var t: InodeTable := inodes[..];
      for i := 0 to SECTOR_SIZE
        invariant forall k :: 0 <= k < i ==> buffer[k] == 0
      {
        buffer[i] := 0;
      }
      for i := 0 to 8
        invariant Packed(buffer[..], t, sector, i, 0)
      {
        var inodeIndex := sector * 8 + i;
        if inodeIndex < MAX_FILES {
          var raw := InodeBytes(inodes[inodeIndex]);
          for j := 0 to INODE_SIZE
            invariant Packed(buffer[..], t, sector, i, j)
          {
            PackedByte(t, sector, i, j);
            buffer[i * SLOT_SIZE + j] := raw[j];
          }
          PackedSlot(buffer[..], t, sector, i);
        }
      }
    }

    // Allocation

    method FindFreeInode() returns (r: int)
      requires Valid()
      ensures r == if FirstEmpty(inodes[..]) < MAX_FILES then FirstEmpty(inodes[..]) else -1
    {
      for i := 0 to MAX_FILES
        invariant forall k :: 0 <= k < i ==> inodes[k].Live()
      {
        if inodes[i].kind == EMPTY {
          return i;
        }
      }
      return -1;
    }

    method AllocateSector() returns (sector: uint32)
      requires Valid() && DATA_SECTOR + superblock.usedSectors < 0x1_0000_0000
      modifies this`superblock, disk`log, disk.sectors
      ensures sector == DATA_SECTOR + old(superblock.usedSectors)
      ensures superblock == Bump(old(superblock), 1)
      ensures disk.sectors[..] == Put(old(disk.sectors[..]), SuperblockWrite(superblock))
      ensures disk.log == old(disk.log) + [SuperblockWrite(superblock)]
    {
      sector := DATA_SECTOR + superblock.usedSectors;
      superblock := superblock.(usedSectors := superblock.usedSectors + 1);
      SaveSuperblock();
    }

    // Formatting and mounting

    /** The label loop of Format. */
    method CopyLabel(volume: seq<byte>)
      requires CString(volume)
      modifies this`superblock
      ensures superblock == old(superblock).(volume := CopyName(old(superblock).volume, volume))
    {
      ghost var was := superblock;
      var i := 0;
      while i < 31 && CharAt(volume, i) != 0
        invariant i <= 31 && i <= |volume|
        invariant superblock == was.(volume := volume[..i] + was.volume[i..])
      {
        CopyStep(was.volume, volume, i);
        superblock := superblock.(volume := superblock.volume[i := volume[i]]);
        i := i + 1;
      }
      CopyEnd(was.volume, volume, i);
      superblock := superblock.(volume := superblock.volume[i := 0]);
    }

    lemma CopyStep(previous: Name, f: seq<byte>, i: nat)
      requires i < |f| && i < MAX_FILENAME
      ensures (f[..i] + previous[i..])[i := f[i]] == f[..i + 1] + previous[i + 1..]
    {
    }

    lemma CopyEnd(previous: Name, f: seq<byte>, i: nat)
      requires CString(f) && i < MAX_FILENAME && i <= |f| && (i == MAX_FILENAME - 1 || CharAt(f, i) == 0)
      ensures (f[..i] + previous[i..])[i := 0] == CopyName(previous, f)
    {
      assert i < |f| ==> f[i] in f;
      assert f[..i] == Truncated(f);
    }

    /** The inode loop of Format. */
    method ClearInodes()
      requires Valid()
      modifies inodes
      ensures inodes[..] == ClearedTable(old(inodes[..]))
    {
      ghost var t: InodeTable := inodes[..];
      for k := 0 to MAX_FILES
        invariant forall n :: 0 <= n < MAX_FILES ==> inodes[n] == if n < k then ClearedTable(t)[n] else t[n]
      {
        inodes[k] := inodes[k].(kind := EMPTY, size := 0, startSector := 0);
        ghost var name := t[k].name;
        for j := 0 to MAX_FILENAME
          invariant inodes[k] == t[k].(kind := EMPTY, size := 0, startSector := 0, name := seq(j, _ => 0) + name[j..])
          invariant forall n :: 0 <= n < MAX_FILES && n != k ==> inodes[n] == if n < k then ClearedTable(t)[n] else t[n]
        {
          ZeroStep(name, j);
          inodes[k] := inodes[k].(name := inodes[k].name[j := 0]);
        }
      }
    }

    lemma ZeroStep(name: Name, j: nat)
      requires j < MAX_FILENAME
      ensures (seq(j, _ => 0) + name[j..])[j := 0] == seq(j + 1, _ => 0) + name[j + 1..]
    {
    }

    method Format(volume: seq<byte>) returns (ok: bool)
      requires Valid() && CString(volume)
      modifies this`superblock, inodes, disk`log, disk.sectors
      ensures State() == Commit(old(State()), FsModel.Format(old(State()), volume)) && ok
      ensures disk.log == old(disk.log) + FsModel.Format(old(State()), volume).writes
    {
      ghost var d := disk.sectors[..];
      superblock := superblock.(magic := MAGIC, totalSectors := 1000, usedSectors := 0, inodeCount := 0);
      CopyLabel(volume);
      ClearInodes();
      SaveSuperblock();
      SaveInodeTable();
      SaveOrder(d, superblock, inodes[..]);
      return true;
    }

    /** The writes of Format and Unmount in two steps. */
    lemma SaveOrder(d: seq<Sector>, sb: Superblock, t: InodeTable)
      ensures Apply(d, [SuperblockWrite(sb)] + TableWrites(t)) == Apply(Put(d, SuperblockWrite(sb)), TableWrites(t))
    {
      hide SuperblockSector, TableWrites;
      ApplyAppend(d, [SuperblockWrite(sb)], TableWrites(t));
      ApplyLast(d, [], SuperblockWrite(sb));
      assert [] + [SuperblockWrite(sb)] == [SuperblockWrite(sb)];
      NoWrites(d);
    }

    method Mount() returns (ok: bool)
      requires Valid()
      modifies this, inodes
      ensures State() == Commit(old(State()), FsModel.Mount(old(State())))
      ensures ok <==> FsModel.Mount(old(State())).ret == 1
    {
      NoWrites(disk.sectors[..]);
      LoadSuperblock();
      if superblock.magic != MAGIC {
        return false;
      }
      LoadInodeTable();
      mounted := true;
      return true;
    }

    method Unmount()
      requires Valid()
      modifies this`mounted, disk`log, disk.sectors
      ensures State() == Commit(old(State()), FsModel.Unmount(old(State())))
      ensures disk.log == old(disk.log) + FsModel.Unmount(old(State())).writes
    {
      ghost var d := disk.sectors[..];
      NoWrites(d);
      if mounted {
        SaveSuperblock();
        SaveInodeTable();
        SaveOrder(d, superblock, inodes[..]);
        mounted := false;
      }
    }

    // Names

    /** The character loop of OpenFile. */
    method SameName(stored: Name, f: seq<byte>) returns (same: bool)
      requires CString(f)
      ensures same <==> Matches(stored, f)
    {
      same := true;
      var j := 0;
      while j < MAX_FILENAME
        invariant j <= MAX_FILENAME && j <= |f| && stored[..j] == f[..j] && same
      {
        if stored[j] != CharAt(f, j) {
          same := false;
          break;
        }
        if CharAt(f, j) == 0 {
          break;
        }
        j := j + 1;
      }
      if !same {
        assert j < |f| ==> stored[j] != f[j];
      }
    }

    method OpenFile(f: seq<byte>) returns (r: int)
      requires Valid() && CString(f)
      ensures r == FsModel.OpenFile(State(), f)
    {
      if !mounted {
        return -1;
      }
      for i := 0 to MAX_FILES
        invariant forall k :: 0 <= k < i ==> !(inodes[k].Live() && Matches(inodes[k].name, f))
      {
        if inodes[i].kind != EMPTY {
          var same := SameName(inodes[i].name, f);
          if same {
            return i;
          }
        }
      }
      return -1;
    }

    method FileExists(f: seq<byte>) returns (r: bool)
      requires Valid() && CString(f)
      ensures r <==> FsModel.OpenFile(State(), f) >= 0
    {
      var i := OpenFile(f);
      return i >= 0;
    }

    method GetFileSize(f: seq<byte>) returns (n: uint32)
      requires Valid() && CString(f)
      ensures var i := FsModel.OpenFile(State(), f); n == if i >= 0 then inodes[i].size else 0
    {
      var i := OpenFile(f);
      if i >= 0 {
        return inodes[i].size;
      }
      return 0;
    }

    /** The name loop of CreateFile. */
    method StoreName(k: int, f: seq<byte>)
      requires Valid() && CString(f) && 0 <= k < MAX_FILES
      modifies inodes
      ensures inodes[..] == old(inodes[..])[k := old(inodes[k]).(name := CopyName(old(inodes[k]).name, f))]
    {
      ghost var t, was := inodes[..], inodes[k];
      var i := 0;
      while i < MAX_FILENAME - 1 && CharAt(f, i) != 0
        invariant i <= MAX_FILENAME - 1 && i <= |f|
        invariant inodes[k] == was.(name := f[..i] + was.name[i..])
        invariant forall n :: 0 <= n < MAX_FILES && n != k ==> inodes[n] == t[n]
      {
        CopyStep(was.name, f, i);
        inodes[k] := inodes[k].(name := inodes[k].name[i := f[i]]);
        i := i + 1;
      }
      CopyEnd(was.name, f, i);
      inodes[k] := inodes[k].(name := inodes[k].name[i := 0]);
    }

    method CreateFile(f: seq<byte>) returns (r: int)
      requires Valid() && CString(f)
      modifies this`superblock, inodes, disk`log, disk.sectors
      ensures State() == Commit(old(State()), FsModel.CreateFile(old(State()), f))
      ensures r == FsModel.CreateFile(old(State()), f).ret
      ensures disk.log == old(disk.log) + FsModel.CreateFile(old(State()), f).writes
    {
      hide CopyName, Matches, TableWrites, SuperblockSector;
      ghost var before := State();
      NoWrites(before.disk);
      if !mounted {
        return -1;
      }
      var taken := FileExists(f);
      if taken {
        return -1;
      }
      var inodeIndex := FindFreeInode();
      if inodeIndex < 0 {
        return -1;
      }

      StoreName(inodeIndex, f);
      inodes[inodeIndex] := inodes[inodeIndex].(kind := REGULAR, size := 0, startSector := 0, created := 0, modified := 0);
      superblock := superblock.(inodeCount := Add32(superblock.inodeCount, 1));
      assert inodes[..] == FsModel.CreateFile(before, f).inodes;

      SaveInodeTable();
      SaveSuperblock();
      ApplyLast(before.disk, TableWrites(inodes[..]), SuperblockWrite(superblock));
      return inodeIndex;
    }

    method DeleteFile(f: seq<byte>) returns (ok: bool)
      requires Valid() && CString(f)
      modifies this`superblock, inodes, disk`log, disk.sectors
      ensures State() == Commit(old(State()), FsModel.DeleteFile(old(State()), f))
      ensures ok <==> FsModel.DeleteFile(old(State()), f).ret == 1
      ensures disk.log == old(disk.log) + FsModel.DeleteFile(old(State()), f).writes
    {
      hide CopyName, Matches, TableWrites, SuperblockSector;
      ghost var before := State();
      NoWrites(before.disk);
      if !mounted {
        return false;
      }
      var inodeIndex := OpenFile(f);
      if inodeIndex < 0 {
        return false;
      }
      inodes[inodeIndex] := inodes[inodeIndex].(kind := EMPTY);
      inodes[inodeIndex] := inodes[inodeIndex].(size := 0);
      superblock := superblock.(inodeCount := Sub32(superblock.inodeCount, 1));
      assert inodes[..] == FsModel.DeleteFile(before, f).inodes;

      SaveInodeTable();
      SaveSuperblock();
      ApplyLast(before.disk, TableWrites(inodes[..]), SuperblockWrite(superblock));
      return true;
    }

    // Contents

    /** The byte loop of ReadFile and WriteFile. */
    method CopyBytes(dst: array<byte>, to: nat, src: array<byte>, from: nat, n: nat)
      requires dst != src && to + n <= dst.Length && from + n <= src.Length
      modifies dst
      ensures dst[..] == old(dst[..to]) + src[from..from + n] + old(dst[to + n..])
    {
      ghost var was := dst[..];
      for j := 0 to n
        invariant dst[..] == was[..to] + src[from..from + j] + was[to + j..]
      {
        dst[to + j] := src[from + j];
      }
    }

    /** A run of content bytes within one sector. */
    lemma ContentSlice(d: seq<Sector>, n: Inode, c: nat, k: nat)
      requires n.startSector + Sectors(n.size) <= |d| && k <= SECTOR_SIZE && 512 * c + k <= n.size && c < Sectors(n.size)
      ensures Content(d, n)[512 * c..512 * c + k] == d[n.startSector + c][..k]
    {
      forall b | 512 * c <= b < 512 * c + k ensures Content(d, n)[b] == d[n.startSector + c][b - 512 * c] {
        assert b / 512 == c && b % 512 == b - 512 * c;
      }
    }

    /** The bytes of `content` up to n, then those of `was`. */
    ghost predicate Filled(b: seq<byte>, content: seq<byte>, was: seq<byte>, n: nat) {
      n <= |content| && n <= |was| && b == content[..n] + was[n..]
    }

    lemma FilledNone(content: seq<byte>, was: seq<byte>)
      ensures Filled(was, content, was, 0)
    {
    }

    lemma FilledFurther(b: seq<byte>, content: seq<byte>, was: seq<byte>, n: nat, k: nat, r: seq<byte>)
      requires Filled(b, content, was, n) && n + k <= |content| && n + k <= |was|
      requires r == b[..n] + content[n..n + k] + b[n + k..]
      ensures Filled(r, content, was, n + k)
    {
    }

    method ReadFile(inodeIndex: int, buffer: array<byte>, size: uint32) returns (r: int)
      requires Valid() && BelowMark(State()) && size <= buffer.Length
      modifies buffer
      ensures State() == old(State())
      ensures r == FsModel.ReadFile(old(State()), inodeIndex, size).0
      ensures var bytes := FsModel.ReadFile(old(State()), inodeIndex, size).1;
        |bytes| <= buffer.Length && buffer[..] == bytes + old(buffer[..])[|bytes|..]
    {
      hide Content, FsModel.ReadFile;
      ReadCases(State(), inodeIndex, size);
      if !mounted || inodeIndex < 0 || inodeIndex >= MAX_FILES {
        return -1;
      }
      var inode := inodes[inodeIndex];
      if inode.kind == EMPTY {
        return -1;
      }
      if inode.size > 0 && inode.startSector > 0 {
        r := ReadData(inode, buffer, size);
        return r;
      }
      return 0;
    }

    /** The sector loop of ReadFile. */
    method ReadData(inode: Inode, buffer: array<byte>, size: uint32) returns (bytesRead: uint32)
      requires Valid() && size <= buffer.Length && inode.size < 0x8000_0000
      requires inode.startSector + Sectors(inode.size) <= disk.sectors.Length <= 0x1000_0000
      requires |Content(disk.sectors[..], inode)| == inode.size
      modifies buffer
      ensures bytesRead == if size < inode.size then size else inode.size
      ensures Filled(buffer[..], Content(disk.sectors[..], inode), old(buffer[..]), bytesRead)
    {
      hide Content, Filled;
      ghost var was, content := buffer[..], Content(disk.sectors[..], inode);
      ghost var total := if size < inode.size then size else inode.size;
      FilledNone(content, was);
      var sectorsToRead := (inode.size + 511) / 512;
      var diskBuffer := new byte[SECTOR_SIZE];
      bytesRead := 0;
      var i: uint32 := 0;
      while i < sectorsToRead && bytesRead < size
        invariant i <= sectorsToRead
        invariant bytesRead == if 512 * i < total then 512 * i else total
        invariant Filled(buffer[..], content, was, bytesRead)
        modifies buffer, diskBuffer
        decreases sectorsToRead - i
      {
        var bytesToCopy := ReadRound(inode, buffer, size, i, bytesRead, diskBuffer, was);
        bytesRead := bytesRead + bytesToCopy;
        i := i + 1;
      }
    }

    /** One round of ReadFile: the next sector, or the part of it that is asked for. */
    method ReadRound(inode: Inode, buffer: array<byte>, size: uint32, i: uint32, bytesRead: uint32, diskBuffer: array<byte>,
                     ghost was: seq<byte>)
      returns (bytesToCopy: uint32)
      requires Valid() && size <= buffer.Length && inode.size < 0x8000_0000 && diskBuffer.Length == SECTOR_SIZE && buffer != diskBuffer
      requires inode.startSector + Sectors(inode.size) <= disk.sectors.Length <= 0x1000_0000
      requires |Content(disk.sectors[..], inode)| == inode.size
      requires i < Sectors(inode.size) && bytesRead == 512 * i && bytesRead < size && bytesRead < inode.size
      requires Filled(buffer[..], Content(disk.sectors[..], inode), was, bytesRead) && |was| == buffer.Length
      modifies buffer, diskBuffer
      ensures var total := if size < inode.size then size else inode.size;
        bytesToCopy == if total - bytesRead < 512 then total - bytesRead else 512
      ensures Filled(buffer[..], Content(disk.sectors[..], inode), was, bytesRead + bytesToCopy)
    {
      hide Content, Filled, Sectors;
      disk.Read28(inode.startSector + i, diskBuffer);

      bytesToCopy := 512;
      if bytesRead + bytesToCopy > inode.size {
        bytesToCopy := inode.size - bytesRead;
      }
      if bytesRead + bytesToCopy > size {
        bytesToCopy := size - bytesRead;
      }

      ghost var before := buffer[..];
      CopyBytes(buffer, bytesRead, diskBuffer, 0, bytesToCopy);
      ContentSlice(disk.sectors[..], inode, i, bytesToCopy);
      FilledFurther(before, Content(disk.sectors[..], inode), was, bytesRead, bytesToCopy, buffer[..]);
    }

    /** The four ways ReadFile ends. */
    lemma ReadCases(fs: FS, i: int, m: nat)
      requires BelowMark(fs)
      ensures !Accessible(fs, i) ==> FsModel.ReadFile(fs, i, m) == (-1, [])
      ensures Accessible(fs, i) ==> var n, r := fs.inodes[i], FsModel.ReadFile(fs, i, m);
        && n.size < 0x8000_0000 && n.startSector + Sectors(n.size) <= |fs.disk| <= 0x1000_0000
        && (n.size == 0 || n.startSector == 0 ==> r == (0, []))
        && (n.startSector > 0 ==> r.0 == |r.1| == (if m < n.size then m else n.size)
                                  && |Content(fs.disk, n)| == n.size && r.1 == Content(fs.disk, n)[..|r.1|])
    {
      if Accessible(fs, i) {
        assert Placed(fs.inodes[i], fs.sb.usedSectors);
      }
    }

    /** One round of WriteFile before the disk is touched: a cleared buffer with the next bytes. */
    method FillSector(buffer: array<byte>, size: uint32, ghost c: nat, bytesWritten: uint32, diskBuffer: array<byte>)
      returns (bytesToCopy: uint32)
      requires size <= buffer.Length && size < 0x8000_0000 && diskBuffer.Length == SECTOR_SIZE && buffer != diskBuffer
      requires bytesWritten == 512 * c <= size
      modifies diskBuffer
      ensures diskBuffer[..] == Chunk(buffer[..size], c)
      ensures bytesToCopy == if bytesWritten + 512 > size then size - bytesWritten else 512
    {
      for j := 0 to SECTOR_SIZE
        invariant forall k :: 0 <= k < j ==> diskBuffer[k] == 0
      {
        diskBuffer[j] := 0;
      }
      bytesToCopy := 512;
      if bytesWritten + bytesToCopy > size {
        bytesToCopy := size - bytesWritten;
      }
      CopyBytes(diskBuffer, 0, buffer, bytesWritten, bytesToCopy);
    }

    method WriteFile(inodeIndex: int, buffer: array<byte>, size: uint32) returns (r: int)
      requires Valid() && BelowMark(State()) && size <= buffer.Length && Room(State(), inodeIndex, size)
      modifies this`superblock, inodes, disk`log, disk.sectors
      ensures State() == Commit(old(State()), FsModel.WriteFile(old(State()), inodeIndex, buffer[..size]))
      ensures r == FsModel.WriteFile(old(State()), inodeIndex, buffer[..size]).ret
      ensures disk.log == old(disk.log) + FsModel.WriteFile(old(State()), inodeIndex, buffer[..size]).writes
    {
      hide FsModel.WriteFile, WriteBody, Apply, BelowMark, Room, TableWrites, Sectors, SuperblockSector, WriteStart, Allocated, Bump;
      ghost var fs, data, d := State(), buffer[..size], disk.sectors[..];
      EffectParts(fs, inodeIndex, data);
      if !mounted || inodeIndex < 0 || inodeIndex >= MAX_FILES {
        return -1;
      }
      if inodes[inodeIndex].kind == EMPTY {
        return -1;
      }

      ghost var e := FsModel.WriteFile(fs, inodeIndex, data);
      var bytesWritten := WriteContents(inodeIndex, buffer, size);
      inodes[inodeIndex] := inodes[inodeIndex].(size := size);
      inodes[inodeIndex] := inodes[inodeIndex].(modified := 0);
      assert inodes[..] == e.inodes;

      SaveInodeTable();
      ApplyAppend(d, WriteBody(fs, inodeIndex, data), TableWrites(e.inodes));
      return bytesWritten;
    }

    /** The first allocation of WriteFile, and its sector loop. */
    method WriteContents(inodeIndex: int, buffer: array<byte>, size: uint32) returns (bytesWritten: uint32)
      requires Valid() && size <= buffer.Length && size < 0x8000_0000
      requires 0 <= inodeIndex < MAX_FILES && disk.sectors.Length <= 0x1000_0000
      requires var fs := State();
        && DATA_SECTOR + fs.sb.usedSectors + Allocated(fs.inodes[inodeIndex], size) <= |fs.disk|
        && WriteStart(fs, inodeIndex) + Sectors(size) <= |fs.disk|
      modifies this`superblock, inodes, disk`log, disk.sectors
      ensures bytesWritten == size
      ensures superblock == Bump(old(superblock), Allocated(old(inodes[inodeIndex]), size))
      ensures inodes[..] == old(inodes[..])[inodeIndex := old(inodes[inodeIndex]).(startSector := WriteStart(old(State()), inodeIndex))]
      ensures old(superblock).usedSectors + 1 + Sectors(size) < 0x1_0000_0000
      ensures disk.sectors[..] == Apply(old(disk.sectors[..]), WriteBody(old(State()), inodeIndex, buffer[..size]))
      ensures disk.log == old(disk.log) + WriteBody(old(State()), inodeIndex, buffer[..size])
    {
      hide Chunk, Apply, DataWrites, SuperblockSector, WriteBody;
      ghost var fs, data, d := State(), buffer[..size], disk.sectors[..];
      if inodes[inodeIndex].startSector == 0 {
        var sector := AllocateSector();
        inodes[inodeIndex] := inodes[inodeIndex].(startSector := sector);
      }
      assert inodes[..] == fs.inodes[inodeIndex := fs.inodes[inodeIndex].(startSector := WriteStart(fs, inodeIndex))];
      assert superblock == FirstBump(fs, inodeIndex);
      bytesWritten := WriteData(inodes[inodeIndex].startSector, buffer, size);
      BodyInSteps(fs, inodeIndex, data, d);
    }

    /** What there is to do, and when. */
    lemma EffectParts(fs: FS, i: int, data: seq<byte>)
      requires BelowMark(fs) && Room(fs, i, |data|)
      ensures var e := FsModel.WriteFile(fs, i, data);
        if !Accessible(fs, i) then e == Refuse(fs, -1) && Commit(fs, e) == fs
        else
          && fs.sb.usedSectors + 1 + Sectors(|data|) < 0x1_0000_0000 && |data| < 0x8000_0000
          && WriteStart(fs, i) < 0x1_0000_0000
          && DATA_SECTOR + fs.sb.usedSectors + Allocated(fs.inodes[i], |data|) <= |fs.disk| <= 0x1000_0000
          && WriteStart(fs, i) + Sectors(|data|) <= |fs.disk|
          && e.inodes == fs.inodes[i := fs.inodes[i].(startSector := WriteStart(fs, i), size := |data|, modified := 0)]
          && e.sb == Bump(fs.sb, Allocated(fs.inodes[i], |data|)) && e.ret == |data| && e.mounted
          && e.writes == WriteBody(fs, i, data) + TableWrites(e.inodes)
    {
      NoWrites(fs.disk);
      if Accessible(fs, i) {
        StartBounds(fs, i, |data|);
        WriteFileParts(fs, i, data);
      }
    }

    /** Allocation and data writes in two steps. */
    lemma BodyInSteps(fs: FS, i: nat, data: seq<byte>, d: seq<Sector>)
      requires i < MAX_FILES && fs.sb.usedSectors + 1 + Sectors(|data|) < 0x1_0000_0000
      ensures var rest := DataWrites(FirstBump(fs, i), WriteStart(fs, i), data, Sectors(|data|));
        if fs.inodes[i].startSector == 0
        then WriteBody(fs, i, data) == [SuperblockWrite(FirstBump(fs, i))] + rest
             && Apply(d, WriteBody(fs, i, data)) == Apply(Put(d, SuperblockWrite(FirstBump(fs, i))), rest)
        else WriteBody(fs, i, data) == rest
    {
      hide SuperblockSector, DataWrites, Sectors, Apply;
      var w := SuperblockWrite(FirstBump(fs, i));
      var rest := DataWrites(FirstBump(fs, i), WriteStart(fs, i), data, Sectors(|data|));
      if fs.inodes[i].startSector == 0 {
        ApplyAppend(d, [w], rest);
        ApplyLast(d, [], w);
        assert [] + [w] == [w];
        NoWrites(d);
      } else {
        assert [] + rest == rest;
      }
    }

    /** The sector loop of WriteFile. */
    method WriteData(startSector: uint32, buffer: array<byte>, size: uint32) returns (bytesWritten: uint32)
      requires Valid() && size <= buffer.Length && size < 0x8000_0000
      requires superblock.usedSectors + Sectors(size) < 0x1000_0001 && startSector + Sectors(size) < 0x1000_0001
      modifies this`superblock, disk`log, disk.sectors
      ensures bytesWritten == size
      ensures superblock == Bump(old(superblock), if size > 0 then Sectors(size) - 1 else 0)
      ensures disk.sectors[..] == Apply(old(disk.sectors[..]), DataWrites(old(superblock), startSector, buffer[..size], Sectors(size)))
      ensures disk.log == old(disk.log) + DataWrites(old(superblock), startSector, buffer[..size], Sectors(size))
    {
      hide Chunk, Apply, SuperblockSector, Round;
      ghost var sb, d, log, data := superblock, disk.sectors[..], disk.log, buffer[..size];
      NoWrites(d);
      var sectorsToWrite := (size + 511) / 512;
      var diskBuffer := new byte[SECTOR_SIZE];
      bytesWritten := 0;
      var i: uint32 := 0;
      while i < sectorsToWrite
        invariant i <= sectorsToWrite == Sectors(size)
        invariant bytesWritten == if 512 * i < size then 512 * i else size
        invariant superblock == Bump(sb, if i > 0 then i - 1 else 0)
        invariant disk.sectors[..] == Apply(d, DataWrites(sb, startSector, data, i))
        invariant disk.log == log + DataWrites(sb, startSector, data, i)
        modifies this`superblock, disk`log, disk.sectors, diskBuffer
      {
        var bytesToCopy := FillSector(buffer, size, i, bytesWritten, diskBuffer);
        WriteRound(startSector, i, diskBuffer, data, sb);
        ApplyAppend(d, DataWrites(sb, startSector, data, i), Round(sb, startSector, data, i));
        bytesWritten := bytesWritten + bytesToCopy;
        i := i + 1;
      }
    }

    /** The disk writes of one round. */
    method WriteRound(startSector: uint32, i: uint32, diskBuffer: array<byte>, ghost data: seq<byte>, ghost sb: Superblock)
      requires Valid() && diskBuffer.Length == SECTOR_SIZE && diskBuffer[..] == Chunk(data, i)
      requires startSector + i < 0x1000_0000 && sb.usedSectors + i < 0x1000_0000
      requires superblock == Bump(sb, if i > 0 then i - 1 else 0)
      modifies this`superblock, disk`log, disk.sectors
      ensures superblock == Bump(sb, i)
      ensures disk.sectors[..] == Apply(old(disk.sectors[..]), Round(sb, startSector, data, i))
      ensures disk.log == old(disk.log) + Round(sb, startSector, data, i)
    {
      hide Chunk, Apply, SuperblockSector;
      ghost var d := disk.sectors[..];
      ghost var w := Write(startSector + i, Chunk(data, i));
      NoWrites(d);
      if i > 0 {
        var _ := AllocateSector();
        ghost var v := SuperblockWrite(Bump(sb, i));
        ApplyLast(d, [], v);
        ApplyLast(d, [] + [v], w);
        assert Round(sb, startSector, data, i) == ([] + [v]) + [w];
      } else {
        ApplyLast(d, [], w);
        assert Round(sb, startSector, data, i) == [] + [w];
      }
      disk.Write28(startSector + i, diskBuffer);
    }
  }
}
