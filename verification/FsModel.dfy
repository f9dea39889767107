/** The file system of src/filesystem.cpp as functions on its state.

  Every operation is an `Effect`: the new superblock and inode table in memory, the single-sector
  disk writes in the order in which they are issued, and the value returned. Class `FileSystem`
  (module Files) shows that the methods of the source have these effects. */
module FsModel {
  import opened Bytes
  import opened FsCodec

  // The disk

  datatype Write = Write(sector: nat, data: Sector)

  /** One sector write; a sector number past the end of the disk changes nothing. */
  function Put(d: seq<Sector>, w: Write): (r: seq<Sector>)
    ensures |r| == |d|
  {
    if w.sector < |d| then d[w.sector := w.data] else d
  }

  function Apply(d: seq<Sector>, ws: seq<Write>): (r: seq<Sector>)
    ensures |r| == |d|
    decreases |ws|
  {
    if ws == [] then d else Put(Apply(d, ws[..|ws| - 1]), ws[|ws| - 1])
  }

  datatype FS = FS(sb: Superblock, inodes: InodeTable, mounted: bool, disk: seq<Sector>)

  datatype Effect = Effect(sb: Superblock, inodes: InodeTable, mounted: bool, writes: seq<Write>, ret: int)

  function Commit(fs: FS, e: Effect): FS {
    FS(e.sb, e.inodes, e.mounted, Apply(fs.disk, e.writes))
  }

  /** Nothing happens but `ret` is returned. */
  function Refuse(fs: FS, ret: int): Effect {
    Effect(fs.sb, fs.inodes, fs.mounted, [], ret)
  }

  function SuperblockWrite(sb: Superblock): Write {
    Write(SUPERBLOCK_SECTOR, SuperblockSector(sb))
  }

  function TableWrites(t: InodeTable): (ws: seq<Write>)
    ensures |ws| == INODE_SECTORS
  {
    seq(INODE_SECTORS, s requires 0 <= s < INODE_SECTORS => Write(INODE_SECTOR + s, InodeSector(t, s)))
  }

  // Names: C strings. A file name is given without its terminating NUL.

  ghost predicate CString(f: seq<byte>) {
    0 !in f
  }

  /** Character j of the C string. */
  function CharAt(f: seq<byte>, j: nat): byte
    requires j <= |f|
  {
    if j < |f| then f[j] else 0
  }

  /** The name stored in a character array: everything before the first NUL. */
  function StoredName(s: seq<byte>): seq<byte> {
    if s == [] || s[0] == 0 then [] else [s[0]] + StoredName(s[1..])
  }

  /** What CreateFile leaves of a file name. */
  function Truncated(f: seq<byte>): seq<byte> {
    if |f| < MAX_FILENAME then f else f[..MAX_FILENAME - 1]
  }

  /** The name array after CreateFile copied f into it; bytes behind the NUL are left over. */
  function CopyName(previous: Name, f: seq<byte>): Name {
    Truncated(f) + [0] + previous[|Truncated(f)| + 1..]
  }

  /** OpenFile's comparison of a stored name with f. */
  predicate Matches(s: Name, f: seq<byte>) {
    if |f| < MAX_FILENAME then s[..|f|] == f && s[|f|] == 0 else s == f[..MAX_FILENAME]
  }

  /** First live inode whose name matches, or 64. */
  function Find(t: seq<Inode>, f: seq<byte>): (i: nat)
    ensures i <= |t|
    ensures i < |t| ==> t[i].Live() && Matches(t[i].name, f)
    ensures forall j :: 0 <= j < i ==> !(t[j].Live() && Matches(t[j].name, f))
  {
    if t == [] then 0 else if t[0].Live() && Matches(t[0].name, f) then 0 else 1 + Find(t[1..], f)
  }

  /** First empty inode, or 64. */
  function FirstEmpty(t: seq<Inode>): (i: nat)
    ensures i <= |t|
    ensures i < |t| ==> !t[i].Live()
    ensures forall j :: 0 <= j < i ==> t[j].Live()
  {
    if t == [] || !t[0].Live() then 0 else 1 + FirstEmpty(t[1..])
  }

  // Operations

  function OpenFile(fs: FS, f: seq<byte>): int {
    if !fs.mounted || Find(fs.inodes, f) == MAX_FILES then -1 else Find(fs.inodes, f)
  }

  function CreateFile(fs: FS, f: seq<byte>): Effect {
    var i := FirstEmpty(fs.inodes);
    if !fs.mounted || OpenFile(fs, f) >= 0 || i == MAX_FILES then Refuse(fs, -1) else
    var t := fs.inodes[i := Inode(CopyName(fs.inodes[i].name, f), 0, 0, REGULAR, 0, 0)];
    var sb := fs.sb.(inodeCount := Add32(fs.sb.inodeCount, 1));
    Effect(sb, t, fs.mounted, TableWrites(t) + [SuperblockWrite(sb)], i)
  }

  /** Returns 1 for true and 0 for false. */
  function DeleteFile(fs: FS, f: seq<byte>): Effect {
    var i := OpenFile(fs, f);
    if i < 0 then Refuse(fs, 0) else
    var t := fs.inodes[i := fs.inodes[i].(kind := EMPTY, size := 0)];
    var sb := fs.sb.(inodeCount := Sub32(fs.sb.inodeCount, 1));
    Effect(sb, t, fs.mounted, TableWrites(t) + [SuperblockWrite(sb)], 1)
  }

  function Sectors(n: nat): nat {
    (n + 511) / 512
  }

  /** Does index i name a file that can be read and written? */
  predicate Accessible(fs: FS, i: int) {
    fs.mounted && 0 <= i < MAX_FILES && fs.inodes[i].Live()
  }

  /** Sector c of the data, padded with zeros. */
  function Chunk(data: seq<byte>, c: nat): Sector {
    seq(SECTOR_SIZE, p requires 0 <= p < SECTOR_SIZE => if 512 * c + p < |data| then data[512 * c + p] else 0)
  }

  /** The superblock after n more sectors have been allocated. */
  function Bump(sb: Superblock, n: nat): Superblock
    requires sb.usedSectors + n < 0x1_0000_0000
  {
    sb.(usedSectors := sb.usedSectors + n)
  }

  /** Round c of WriteFile's loop: every sector but the first is preceded by an allocation, whose
      result is ignored. */
  function Round(sb: Superblock, start: nat, data: seq<byte>, c: nat): seq<Write>
    requires sb.usedSectors + c < 0x1_0000_0000
  {
    (if c > 0 then [SuperblockWrite(Bump(sb, c))] else []) + [Write(start + c, Chunk(data, c))]
  }

  /** The first c rounds. */
  function DataWrites(sb: Superblock, start: nat, data: seq<byte>, c: nat): seq<Write>
    requires sb.usedSectors + c < 0x1_0000_0000
  {
    if c == 0 then [] else DataWrites(sb, start, data, c - 1) + Round(sb, start, data, c - 1)
  }

  /** Sectors that WriteFile allocates: one when the file has none yet, and one for every data
      sector after the first. */
  function Allocated(n: Inode, size: nat): nat {
    (if n.startSector == 0 then 1 else 0) + (if Sectors(size) > 0 then Sectors(size) - 1 else 0)
  }

  /** The disk is large enough for the write, and the size fits the signed return value. */
  predicate Room(fs: FS, i: int, size: nat) {
    Accessible(fs, i) ==>
      size < 0x8000_0000 && DATA_SECTOR + fs.sb.usedSectors + Allocated(fs.inodes[i], size) <= |fs.disk| <= 0x1000_0000
  }

  /** Where the data of file i goes. */
  function WriteStart(fs: FS, i: nat): nat
    requires i < MAX_FILES
  {
    if fs.inodes[i].startSector == 0 then DATA_SECTOR + fs.sb.usedSectors else fs.inodes[i].startSector
  }

  /** The superblock after the first allocation of WriteFile, if there is one. */
  function FirstBump(fs: FS, i: nat): Superblock
    requires i < MAX_FILES && fs.sb.usedSectors + 1 < 0x1_0000_0000
  {
    Bump(fs.sb, if fs.inodes[i].startSector == 0 then 1 else 0)
  }

  /** The writes before the inode table: allocations and data. */
  function WriteBody(fs: FS, i: nat, data: seq<byte>): seq<Write>
    requires i < MAX_FILES && fs.sb.usedSectors + 1 + Sectors(|data|) < 0x1_0000_0000
  {
    (if fs.inodes[i].startSector == 0 then [SuperblockWrite(FirstBump(fs, i))] else [])
    + DataWrites(FirstBump(fs, i), WriteStart(fs, i), data, Sectors(|data|))
  }

  function WriteFile(fs: FS, i: int, data: seq<byte>): Effect
    requires Room(fs, i, |data|)
  {
    if !Accessible(fs, i) then Refuse(fs, -1) else
    var t := fs.inodes[i := fs.inodes[i].(startSector := WriteStart(fs, i), size := |data|, modified := 0)];
    Effect(Bump(fs.sb, Allocated(fs.inodes[i], |data|)), t, fs.mounted, WriteBody(fs, i, data) + TableWrites(t), |data|)
  }

  /** The bytes of a file: `size` bytes in consecutive sectors. */
  function Content(d: seq<Sector>, n: Inode): seq<byte> {
    if n.startSector + Sectors(n.size) <= |d|
    then seq(n.size, b requires 0 <= b < n.size => d[n.startSector + b / 512][b % 512])
    else []
  }

  function ReadFile(fs: FS, i: int, m: nat): (r: (int, seq<byte>))
    ensures r.0 == |r.1| || (r.0 == -1 && r.1 == [])
  {
    if !Accessible(fs, i) then (-1, []) else
    var c := Content(fs.disk, fs.inodes[i]);
    if fs.inodes[i].startSector == 0 then (0, [])
    else if m < |c| then (m, c[..m]) else (|c|, c)
  }

  function Mount(fs: FS): Effect
    requires |fs.disk| >= DATA_SECTOR
  {
    var sb := LoadSuperblock(fs.disk);
    if sb.magic != MAGIC then Effect(sb, fs.inodes, fs.mounted, [], 0)
    else Effect(sb, LoadTable(fs.disk), true, [], 1)
  }

  function Unmount(fs: FS): Effect {
    if fs.mounted then Effect(fs.sb, fs.inodes, false, [SuperblockWrite(fs.sb)] + TableWrites(fs.inodes), 0)
    else Refuse(fs, 0)
  }

  /** Formatting keeps the two unused time fields of every inode. */
  function ClearedTable(t: InodeTable): InodeTable {
    seq(MAX_FILES, i requires 0 <= i < MAX_FILES =>
      t[i].(name := seq(MAX_FILENAME, _ => 0), size := 0, startSector := 0, kind := EMPTY))
  }

  function Format(fs: FS, volume: seq<byte>): Effect {
    var sb := Superblock(MAGIC, 1000, 0, 0, CopyName(fs.sb.volume, volume));
    var t := ClearedTable(fs.inodes);
    Effect(sb, t, fs.mounted, [SuperblockWrite(sb)] + TableWrites(t), 1)
  }
}
