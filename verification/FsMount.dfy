/** What Format, Mount and Unmount read and write on any disk, formatted or not. */
module FsMount {
  import opened Bytes
  import opened FsCodec
  import opened FsModel
  import opened FsDisk
  import opened FsInvariant
  import opened FsOps
  import opened FsWrite
  import opened FsLayout
  import opened FsRuns

  // Format and Unmount

  /** All metadata on the disk, for any superblock and table. */
  ghost predicate MetadataAt(d: seq<Sector>, sb: Superblock, t: InodeTable) {
    && |d| >= 10
    && SuperblockAt(d[1], sb)
    && forall i :: 0 <= i < 64 ==> InodeAt(d[2 + i / 8], 64 * (i % 8), t[i])
  }

  lemma SavedMetadata(d: seq<Sector>, sb: Superblock, t: InodeTable)
    requires |d| >= 10
    ensures var r := Apply(d, [SuperblockWrite(sb)] + TableWrites(t));
      && MetadataAt(r, sb, t) && |r| == |d|
      && forall s :: 0 <= s < |d| && !(1 <= s < 10) ==> r[s] == d[s]
  {
    hide SuperblockSector, InodeSector, TableWrites, Apply, SuperblockAt, InodeAt;
    SaveSuperblockFirst(d, sb, t);
    SuperblockLayout(sb);
    var r := Apply(d, [SuperblockWrite(sb)] + TableWrites(t));
    forall i | 0 <= i < 64 ensures InodeAt(r[2 + i / 8], 64 * (i % 8), t[i]) {
      InodeLayout(t, i);
      assert r[2 + i / 8] == InodeSector(t, i / 8);
    }
  }

  /** Unmounting saves superblock and table as they are in memory, in this order, and touches no
      data sector. */
  lemma UnmountSaves(fs: FS)
    requires |fs.disk| >= 10 && fs.mounted
    ensures var e := Unmount(fs); var r := Commit(fs, e);
      && MetadataAt(r.disk, fs.sb, fs.inodes) && !r.mounted && r.sb == fs.sb && r.inodes == fs.inodes
      && (forall s :: 0 <= s < |fs.disk| && !(1 <= s < 10) ==> r.disk[s] == fs.disk[s])
      && |e.writes| == 9 && forall k :: 0 <= k < 9 ==> e.writes[k].sector == 1 + k
  {
    hide SuperblockSector, InodeSector, MetadataAt, Apply;
    SavedMetadata(fs.disk, fs.sb, fs.inodes);
  }

  /** A C string in the sector from byte o on. */
  ghost predicate TextAt(s: Sector, o: nat, f: seq<byte>) {
    o + |f| < 512 && s[o..o + |f|] == f && s[o + |f|] == 0
  }

  /** A formatted disk: magic number, 1000 sectors in all, none used, no files, the label cut to 31
      characters, and 64 slots without name, size, first sector and type. Data sectors stay. */
  lemma FormatBytes(fs: FS, volume: seq<byte>)
    requires |fs.disk| >= 10
    ensures var d := Commit(fs, Format(fs, volume)).disk;
      && |d| == |fs.disk|
      && Word(d[1], 0, 0x48594452) && Word(d[1], 4, 1000) && Word(d[1], 8, 0) && Word(d[1], 12, 0)
      && TextAt(d[1], 16, volume[..Kept(volume)])
      && (forall i :: 0 <= i < 64 ==> EmptySlot(d[2 + i / 8], 64 * (i % 8)))
      && forall s :: 0 <= s < |d| && !(1 <= s < 10) ==> d[s] == fs.disk[s]
  {
    hide SuperblockSector, InodeSector, Apply, TableWrites, Word, TextAt, EmptySlot;
    var e := Format(fs, volume);
    SavedMetadata(fs.disk, e.sb, e.inodes);
    var d := Commit(fs, e).disk;
    LabelText(d[1], e.sb, fs.sb.volume, volume);
    forall i | 0 <= i < 64 ensures EmptySlot(d[2 + i / 8], 64 * (i % 8)) {
      ClearedSlot(d[2 + i / 8], 64 * (i % 8), fs.inodes, i);
    }
  }

  /** No name, no size, no sector, type 0. */
  ghost predicate EmptySlot(s: Sector, o: nat) {
    && o + 64 <= 512 && (forall p :: o <= p < o + 32 ==> s[p] == 0)
    && Word(s, o + 32, 0) && Word(s, o + 36, 0) && Word(s, o + 40, 0)
  }

  lemma ClearedSlot(s: Sector, o: nat, t: InodeTable, i: nat)
    requires i < 64 && o + 64 <= 512 && InodeAt(s, o, ClearedTable(t)[i])
    ensures EmptySlot(s, o)
  {
    hide Word;
    forall p | o <= p < o + 32 ensures s[p] == 0 {
      assert s[p] == s[o..o + 32][p - o] == ClearedTable(t)[i].name[p - o];
    }
  }

  lemma LabelText(s: Sector, sb: Superblock, previous: Name, volume: seq<byte>)
    requires SuperblockAt(s, sb) && sb.volume == CopyName(previous, volume)
    ensures TextAt(s, 16, volume[..Kept(volume)])
  {
    hide Word;
    assert Truncated(volume) == volume[..Kept(volume)];
    NameStored(s, 16, sb.volume, volume, previous);
  }

  /** The label is in memory after Format, and comes back as a C string, with the other fields, when
      the disk is mounted on any memory. */
  lemma FormatThenMount(fs: FS, volume: seq<byte>, memory: FS)
    requires |fs.disk| >= 10 && CString(volume) && memory.disk == Commit(fs, Format(fs, volume)).disk
    ensures StoredName(Format(fs, volume).sb.volume) == volume[..Kept(volume)]
    ensures var r := Commit(memory, Mount(memory));
      && Mount(memory).ret == 1 && r.mounted && r.disk == memory.disk
      && StoredName(r.sb.volume) == volume[..Kept(volume)]
      && r.sb.magic == 0x48594452 && r.sb.totalSectors == 1000 && r.sb.usedSectors == 0 && r.sb.inodeCount == 0
      && forall i :: 0 <= i < 64 ==> r.inodes[i].kind == 0
  {
    hide SuperblockSector, InodeSector, Apply, LoadTable, LoadSuperblock, StoredName;
    var e := Format(fs, volume);
    CopyNameStores(fs.sb.volume, volume);
    assert Truncated(volume) == volume[..Kept(volume)];
    SaveSuperblockFirst(fs.disk, e.sb, e.inodes);
    LoadedSaved(memory.disk, e.sb, e.inodes);
    NoWrites(memory.disk);
  }

  lemma LoadedSaved(d: seq<Sector>, sb: Superblock, t: InodeTable)
    requires |d| >= 10 && d[1] == SuperblockSector(sb)
    requires forall s :: 2 <= s < 10 ==> d[s] == InodeSector(t, s - 2)
    ensures LoadSuperblock(d) == sb && LoadTable(d) == t
  {
    hide SuperblockSector, InodeSector;
    SuperblockRoundTrip(sb);
    TableRoundTrip(d, t);
  }

  // Mount

  /** The four bytes of the magic number at the start of sector 1. */
  predicate Formatted(d: seq<Sector>) {
    |d| >= 10 && d[1][0] == 0x52 && d[1][1] == 0x44 && d[1][2] == 0x59 && d[1][3] == 0x48
  }

  lemma MagicBytes(s: Sector, n: uint32)
    requires Word(s, 0, n)
    ensures n == 0x48594452 <==> s[0] == 0x52 && s[1] == 0x44 && s[2] == 0x59 && s[3] == 0x48
  {
  }

  /** On any disk: Mount succeeds exactly when sector 1 begins with the magic number, and then reads
      the fields where they are laid out. Otherwise it replaces the superblock in memory, and
      nothing else. */
  lemma MountVerdict(fs: FS)
    requires |fs.disk| >= 10
    ensures Mount(fs).ret == (if Formatted(fs.disk) then 1 else 0)
    ensures var r := Commit(fs, Mount(fs));
      && r.disk == fs.disk
      && (Formatted(fs.disk) ==> r.mounted && MetadataAt(fs.disk, r.sb, r.inodes))
      && (!Formatted(fs.disk) ==> r == fs.(sb := r.sb) && SuperblockAt(fs.disk[1], r.sb))
  {
    hide LoadTable, LoadSuperblock, InodeAt, Word;
    LoadedSuperblock(fs.disk);
    MagicBytes(fs.disk[1], LoadSuperblock(fs.disk).magic);
    NoWrites(fs.disk);
    forall i | 0 <= i < 64 ensures InodeAt(fs.disk[2 + i / 8], 64 * (i % 8), LoadTable(fs.disk)[i]) {
      LoadedInode(fs.disk, i);
    }
  }

  // Runs on a disk that was never formatted

  /** How a call is turned down. */
  predicate Refused(op: Op, reply: Reply) {
    match op
    case WriteTo(_, _) => reply == Written(-1)
    case ReadFrom(_, _) => reply == Read(-1, [])
    case UnmountDisk => true
    case _ => reply == Flag(false)
  }

  /** Unmounted, every call but Mount is turned down and changes nothing. */
  lemma UnmountedRefuses(fs: FS, op: Op)
    requires |fs.disk| >= 10 && !fs.mounted && (op == MountDisk ==> !Formatted(fs.disk))
    ensures Possible(fs, op) && Refused(op, ReplyOf(fs, op))
    ensures var r := Commit(fs, EffectOf(fs, op)); r == fs.(sb := r.sb) && (op != MountDisk ==> r == fs)
  {
    NoWrites(fs.disk);
    if op == MountDisk {
      MountVerdict(fs);
    }
  }

  ghost predicate AllRefused(fs: FS, ops: seq<Op>)
    requires PossibleRun(fs, ops)
    decreases |ops|
  {
    ops == [] || (Refused(ops[0], ReplyOf(fs, ops[0])) && AllRefused(Commit(fs, EffectOf(fs, ops[0])), ops[1..]))
  }

  /** Until it is formatted, a disk without the magic number cannot be mounted, used or changed,
      whatever is called. */
  lemma {:induction false} UnformattedRun(fs: FS, ops: seq<Op>)
    requires |fs.disk| >= 10 && !fs.mounted && !Formatted(fs.disk)
    ensures PossibleRun(fs, ops) && AllRefused(fs, ops)
    ensures var r := Outcome(fs, ops); !r.mounted && r.disk == fs.disk && r.inodes == fs.inodes
    decreases |ops|
  {
    if ops != [] {
      UnmountedRefuses(fs, ops[0]);
      hide EffectOf, ReplyOf, Possible, Refused;
      UnformattedRun(Commit(fs, EffectOf(fs, ops[0])), ops[1..]);
    }
  }

  /** The disk of a new machine. */
  lemma BlankDiskRefused(fs: FS, ops: seq<Op>, f: seq<byte>)
    requires |fs.disk| >= 10 && !fs.mounted && forall s, p :: 0 <= s < |fs.disk| && 0 <= p < 512 ==> fs.disk[s][p] == 0
    ensures PossibleRun(fs, ops) && AllRefused(fs, ops)
    ensures var r := Outcome(fs, ops); r.disk == fs.disk && Mount(r).ret == 0 && OpenFile(r, f) == -1
  {
    assert fs.disk[1][0] == 0;
    UnformattedRun(fs, ops);
    MountVerdict(Outcome(fs, ops));
  }
}
