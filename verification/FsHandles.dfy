/** Runs with handles: CreateFile and OpenFile return an inode index, and later reads and writes use
  it. Such runs refine a row of 64 slots, and what a handle reaches is a matter of the log of calls
  and replies. */
module FsHandles {
  import opened Bytes
  import opened FsCodec
  import opened FsModel
  import opened FsDisk
  import opened FsInvariant
  import opened FsOps
  import opened FsWrite

  datatype Op =
    | Create(f: seq<byte>)
    | Open(f: seq<byte>)
    | Delete(f: seq<byte>)
    | WriteAt(i: int, data: seq<byte>)
    | ReadAt(i: int, m: nat)
    | MountDisk
    | UnmountDisk

  datatype Reply = Handle(i: int) | Flag(ok: bool) | Written(n: int) | Read(n: int, data: seq<byte>)

  // The abstract machine

  datatype Slot = Free | Holds(name: seq<byte>, data: seq<byte>)

  type Slots = s: seq<Slot> | |s| == MAX_FILES witness seq(64, _ => Free)

  datatype Machine = Machine(slots: Slots, mounted: bool)

  /** The lowest free slot, or 64. */
  function FirstFree(s: seq<Slot>): (i: nat)
    ensures i <= |s| && (i < |s| ==> s[i].Free?) && forall j :: 0 <= j < i ==> s[j].Holds?
  {
    if s == [] || s[0].Free? then 0 else 1 + FirstFree(s[1..])
  }

  /** The lowest slot that holds f, or 64. */
  function SlotOf(s: seq<Slot>, f: seq<byte>): (i: nat)
    ensures i <= |s| && (i < |s| ==> s[i].Holds? && s[i].name == f)
    ensures forall j :: 0 <= j < i ==> !(s[j].Holds? && s[j].name == f)
  {
    if s == [] || (s[0].Holds? && s[0].name == f) then 0 else 1 + SlotOf(s[1..], f)
  }

  function Opened(a: Machine, f: seq<byte>): int {
    if a.mounted && SlotOf(a.slots, f) < MAX_FILES then SlotOf(a.slots, f) else -1
  }

  predicate Reaches(a: Machine, i: int) {
    a.mounted && 0 <= i < MAX_FILES && a.slots[i].Holds?
  }

  function ReadSlot(s: Slot, m: nat): Reply
    requires s.Holds?
  {
    var n := if m < |s.data| then m else |s.data|;
    Read(n, s.data[..n])
  }

  function Serve(a: Machine, op: Op): (Machine, Reply) {
    match op
    case Create(f) =>
      var i := FirstFree(a.slots);
      if a.mounted && Opened(a, f) < 0 && i < MAX_FILES
      then (a.(slots := a.slots[i := Holds(f, [])]), Handle(i)) else (a, Handle(-1))
    case Open(f) => (a, Handle(Opened(a, f)))
    case Delete(f) =>
      if Opened(a, f) >= 0 then (a.(slots := a.slots[Opened(a, f) := Free]), Flag(true)) else (a, Flag(false))
    case WriteAt(i, data) =>
      if Reaches(a, i) then (a.(slots := a.slots[i := Holds(a.slots[i].name, data)]), Written(|data|)) else (a, Written(-1))
    case ReadAt(i, m) => (a, if Reaches(a, i) then ReadSlot(a.slots[i], m) else Read(-1, []))
    case MountDisk => (a.(mounted := true), Flag(true))
    case UnmountDisk => (a.(mounted := false), Flag(true))
  }

  // The file system

  /** Handles need not be valid; otherwise as for calls by name. */
  ghost predicate Legal(fs: FS, op: Op) {
    match op
    case Create(f) => CString(f) && |f| < MAX_FILENAME
    case WriteAt(i, data) => Room(fs, i, |data|) && (Accessible(fs, i) ==> RewriteSafe(fs, i, |data|))
    case Open(f) => CString(f)
    case Delete(f) => CString(f)
    case _ => |fs.disk| >= DATA_SECTOR
  }

  ghost function EffectOf(fs: FS, op: Op): Effect
    requires Legal(fs, op)
  {
    match op
    case Create(f) => CreateFile(fs, f)
    case Open(f) => Refuse(fs, OpenFile(fs, f))
    case Delete(f) => DeleteFile(fs, f)
    case WriteAt(i, data) => WriteFile(fs, i, data)
    case ReadAt(i, m) => Refuse(fs, ReadFile(fs, i, m).0)
    case MountDisk => Mount(fs)
    case UnmountDisk => Unmount(fs)
  }

  ghost function ReplyOf(fs: FS, op: Op): Reply
    requires Legal(fs, op)
  {
    var ret := EffectOf(fs, op).ret;
    match op
    case Create(_) => Handle(ret)
    case Open(_) => Handle(ret)
    case Delete(_) => Flag(ret == 1)
    case WriteAt(_, _) => Written(ret)
    case ReadAt(i, m) => Read(ret, ReadFile(fs, i, m).1)
    case MountDisk => Flag(ret == 1)
    case UnmountDisk => Flag(true)
  }

  function SlotFor(d: seq<Sector>, n: Inode): Slot {
    if n.Live() then Holds(StoredName(n.name), Content(d, n)) else Free
  }

  function SlotsOf(fs: FS): Slots {
    seq(MAX_FILES, i requires 0 <= i < MAX_FILES => SlotFor(fs.disk, fs.inodes[i]))
  }

  function MachineOf(fs: FS): Machine {
    Machine(SlotsOf(fs), fs.mounted)
  }

  // One call

  lemma FirstFreeIs(fs: FS)
    ensures FirstFree(SlotsOf(fs)) == FirstEmpty(fs.inodes)
  {
    hide StoredName, Content;
    assert forall k :: 0 <= k < MAX_FILES ==> SlotsOf(fs)[k].Holds? == fs.inodes[k].Live();
  }

  lemma SlotOfIs(fs: FS, f: seq<byte>)
    requires NamesOk(fs.inodes) && CString(f)
    ensures SlotOf(SlotsOf(fs), f) == Find(fs.inodes, f)
    ensures Opened(MachineOf(fs), f) == OpenFile(fs, f)
  {
    forall k | 0 <= k < MAX_FILES && fs.inodes[k].Live() ensures Matches(fs.inodes[k].name, f) <==> StoredName(fs.inodes[k].name) == f {
      MatchesIsEquality(fs.inodes[k].name, f);
    }
    hide StoredName, Content, Matches;
    assert forall k :: 0 <= k < MAX_FILES ==>
      (SlotsOf(fs)[k].Holds? && SlotsOf(fs)[k].name == f <==> fs.inodes[k].Live() && Matches(fs.inodes[k].name, f));
  }

  /** Replacing one inode on a disk that keeps the sectors of the others replaces one slot. */
  lemma OneSlot(fs: FS, after: FS, i: nat, n: Inode)
    requires i < MAX_FILES && after.inodes == fs.inodes[i := n] && |after.disk| == |fs.disk|
    requires forall j, s :: 0 <= j < MAX_FILES && j != i && 0 <= s < |fs.disk| && Owns(fs.inodes[j], s) ==> after.disk[s] == fs.disk[s]
    ensures SlotsOf(after) == SlotsOf(fs)[i := SlotFor(after.disk, n)]
  {
    hide StoredName, Content;
    forall j | 0 <= j < MAX_FILES && j != i && fs.inodes[j].Live()
      ensures Content(after.disk, fs.inodes[j]) == Content(fs.disk, fs.inodes[j])
    {
      ContentSame(fs.disk, after.disk, fs.inodes[j]);
    }
  }

  /** Saving a table with one new inode, and then the superblock. */
  lemma MetadataSlot(fs: FS, e: Effect, i: nat, n: Inode)
    requires Consistent(fs) && i < MAX_FILES && e.inodes == fs.inodes[i := n]
    requires e.writes == TableWrites(e.inodes) + [SuperblockWrite(e.sb)]
    ensures SlotsOf(Commit(fs, e)) == SlotsOf(fs)[i := SlotFor(Commit(fs, e).disk, n)]
  {
    SaveTableFirst(fs.disk, e.sb, e.inodes);
    OwnedAboveMetadata(fs);
    hide StoredName, Content, Apply, TableWrites, SuperblockSector, InodeSector, Owns;
    OneSlot(fs, Commit(fs, e), i, n);
  }

  lemma CreateSlot(fs: FS, f: seq<byte>)
    requires Consistent(fs) && Legal(fs, Create(f))
    ensures var e := CreateFile(fs, f);
      Consistent(Commit(fs, e)) && Serve(MachineOf(fs), Create(f)) == (MachineOf(Commit(fs, e)), Handle(e.ret))
  {
    var e := CreateFile(fs, f);
    assert NamesOk(fs.inodes) && Truncated(f) == f;
    FirstFreeIs(fs);
    SlotOfIs(fs, f);
    CreateVerdict(fs, f);
    NoWrites(fs.disk);
    hide StoredName, Content, Apply, TableWrites, View, Consistent, Truncated;
    if e.ret >= 0 {
      var i, n := FirstEmpty(fs.inodes), CreatedInode(fs, f);
      CreateKeeps(fs, f);
      MetadataSlot(fs, e, i, n);
      NewSlot(fs, f, Commit(fs, e).disk);
    }
  }

  lemma NewSlot(fs: FS, f: seq<byte>, d: seq<Sector>)
    requires CString(f) && |f| < MAX_FILENAME && FirstEmpty(fs.inodes) < MAX_FILES
    ensures SlotFor(d, CreatedInode(fs, f)) == Holds(f, [])
  {
    CopyNameStores(fs.inodes[FirstEmpty(fs.inodes)].name, f);
    assert Truncated(f) == f;
    EmptyContent(d, CreatedInode(fs, f));
  }

  lemma DeleteSlot(fs: FS, f: seq<byte>)
    requires Consistent(fs) && CString(f)
    ensures var e := DeleteFile(fs, f);
      Consistent(Commit(fs, e)) && Serve(MachineOf(fs), Delete(f)) == (MachineOf(Commit(fs, e)), Flag(e.ret == 1))
  {
    var e := DeleteFile(fs, f);
    assert NamesOk(fs.inodes);
    SlotOfIs(fs, f);
    DeleteCorrect(fs, f);
    NoWrites(fs.disk);
    hide StoredName, Content, Apply, TableWrites, View, Consistent;
    if OpenFile(fs, f) >= 0 {
      DeleteParts(fs, f);
      var i := Find(fs.inodes, f);
      hide DeleteFile, Find, OpenFile;
      MetadataSlot(fs, e, i, fs.inodes[i].(kind := EMPTY, size := 0));
    }
  }

  lemma WriteSlot(fs: FS, i: int, data: seq<byte>)
    requires Consistent(fs) && Legal(fs, WriteAt(i, data))
    ensures var e := WriteFile(fs, i, data);
      Consistent(Commit(fs, e)) && Serve(MachineOf(fs), WriteAt(i, data)) == (MachineOf(Commit(fs, e)), Written(e.ret))
  {
    var e := WriteFile(fs, i, data);
    WriteCorrect(fs, i, data);
    NoWrites(fs.disk);
    if Accessible(fs, i) {
      WriteFileParts(fs, i, data);
      WriteFits(fs, i, data);
      WriteSparesOthers(fs, i, data);
      WrittenContent(fs, i, data);
      hide StoredName, Content, Apply, WriteFile, View, Consistent, Owns, RewriteSafe;
      OneSlot(fs, Commit(fs, e), i, e.inodes[i]);
    }
  }

  lemma ReadIsSlot(fs: FS, i: int, m: nat)
    requires Consistent(fs)
    ensures var r := ReadFile(fs, i, m); Serve(MachineOf(fs), ReadAt(i, m)).1 == Read(r.0, r.1)
  {
    if Accessible(fs, i) {
      assert Placed(fs.inodes[i], fs.sb.usedSectors);
      var c := Content(fs.disk, fs.inodes[i]);
      assert c[..|c|] == c;
    }
  }

  /** Every legal call, with any handle, replies and changes the slots just as the machine does. */
  lemma StepRefines(fs: FS, op: Op)
    requires Consistent(fs) && Legal(fs, op)
    ensures Consistent(Commit(fs, EffectOf(fs, op)))
    ensures Serve(MachineOf(fs), op) == (MachineOf(Commit(fs, EffectOf(fs, op))), ReplyOf(fs, op))
  {
    NoWrites(fs.disk);
    match op {
      case Create(f) => CreateSlot(fs, f);
      case Open(f) => SlotOfIs(fs, f);
      case Delete(f) => DeleteSlot(fs, f);
      case WriteAt(i, data) => WriteSlot(fs, i, data);
      case ReadAt(i, m) => ReadIsSlot(fs, i, m);
      case MountDisk => MountReproduces(fs, fs);
      case UnmountDisk => UnmountKeeps(fs);
    }
  }

  // Runs

  ghost predicate LegalRun(fs: FS, ops: seq<Op>)
    decreases |ops|
  {
    ops == [] || (Legal(fs, ops[0]) && LegalRun(Commit(fs, EffectOf(fs, ops[0])), ops[1..]))
  }

  ghost function Final(fs: FS, ops: seq<Op>): FS
    requires LegalRun(fs, ops)
    decreases |ops|
  {
    if ops == [] then fs else Final(Commit(fs, EffectOf(fs, ops[0])), ops[1..])
  }

  ghost function Replies(fs: FS, ops: seq<Op>): (replies: seq<Reply>)
    requires LegalRun(fs, ops)
    ensures |replies| == |ops|
    decreases |ops|
  {
    if ops == [] then [] else [ReplyOf(fs, ops[0])] + Replies(Commit(fs, EffectOf(fs, ops[0])), ops[1..])
  }

  /** What one call and its reply mean for slot i. */
  function Next(s: Slot, op: Op, reply: Reply, i: nat): Slot {
    if op.Create? && reply == Handle(i) then Holds(op.f, [])
    else if s.Free? then Free
    else if op.Delete? && reply == Flag(true) && op.f == s.name then Free
    else if op.WriteAt? && op.i == i && reply != Written(-1) then Holds(s.name, op.data)
    else s
  }

  /** What handle i reaches, from the log alone: the file of the last creation that returned i, until
      its name is deleted, with the data last written through i. */
  function Traced(s: Slot, ops: seq<Op>, replies: seq<Reply>, i: nat): Slot
    requires |replies| == |ops|
    decreases |ops|
  {
    if ops == [] then s else Traced(Next(s, ops[0], replies[0], i), ops[1..], replies[1..], i)
  }

  /** The mounted flag, from the log alone. */
  function MountedAfter(mounted: bool, ops: seq<Op>): bool
    decreases |ops|
  {
    if ops == [] then mounted
    else MountedAfter(if ops[0].MountDisk? then true else if ops[0].UnmountDisk? then false else mounted, ops[1..])
  }

  /** Different slots hold different names. */
  predicate NamesDiffer(s: Slots) {
    forall i, j :: 0 <= i < j < MAX_FILES && s[i].Holds? && s[j].Holds? ==> s[i].name != s[j].name
  }

  lemma ServeIsNext(a: Machine, op: Op, i: nat)
    requires NamesDiffer(a.slots) && i < MAX_FILES
    ensures Serve(a, op).0.slots[i] == Next(a.slots[i], op, Serve(a, op).1, i)
    ensures Serve(a, op).0.mounted == MountedAfter(a.mounted, [op])
  {
    assert [op][1..] == [];
    if op.Delete? {
      var j := SlotOf(a.slots, op.f);
      assert j < MAX_FILES && j != i && a.slots[i].Holds? ==> a.slots[i].name != op.f;
    }
  }

  lemma ConsistentDiffer(fs: FS)
    requires Consistent(fs)
    ensures NamesDiffer(SlotsOf(fs))
  {
    hide StoredName, Content;
  }

  /** After any legal run, slot i holds what the log of calls and replies says. */
  lemma {:induction false} HandleTraced(fs: FS, ops: seq<Op>, i: nat)
    requires Consistent(fs) && LegalRun(fs, ops) && i < MAX_FILES
    ensures Consistent(Final(fs, ops))
    ensures SlotsOf(Final(fs, ops))[i] == Traced(SlotsOf(fs)[i], ops, Replies(fs, ops), i)
    ensures Final(fs, ops).mounted == MountedAfter(fs.mounted, ops)
    decreases |ops|
  {
    if ops != [] {
      var next := Commit(fs, EffectOf(fs, ops[0]));
      StepRefines(fs, ops[0]);
      ConsistentDiffer(fs);
      ServeIsNext(MachineOf(fs), ops[0], i);
      hide Consistent, EffectOf, ReplyOf, Legal, Commit, Serve, Next, SlotFor;
      HandleTraced(next, ops[1..], i);
      assert [ops[0]][1..] == [];
      assert Replies(fs, ops)[1..] == Replies(next, ops[1..]);
    }
  }

  /** From Format on, a read through any number i is answered from the log: the file that handle i
      now reaches, or -1 if its file is gone, none was ever created there, or the disk is not
      mounted. */
  lemma ReadIsTraced(fs: FS, volume: seq<byte>, ops: seq<Op>, i: int, m: nat)
    requires DATA_SECTOR <= |fs.disk| <= 0x1000_0000 && LegalRun(Commit(fs, Format(fs, volume)), ops)
    ensures var start := Commit(fs, Format(fs, volume));
      var r := ReadFile(Final(start, ops), i, m);
      Read(r.0, r.1) ==
        if !MountedAfter(fs.mounted, ops) || !(0 <= i < MAX_FILES) then Read(-1, [])
        else match Traced(Free, ops, Replies(start, ops), i)
          case Free => Read(-1, [])
          case Holds(name, data) => ReadSlot(Holds(name, data), m)
  {
    var start := Commit(fs, Format(fs, volume));
    FormatCorrect(fs, volume);
    HandleTraced(start, ops, if 0 <= i < MAX_FILES then i else 0);
    assert 0 <= i < MAX_FILES ==> SlotsOf(start)[i] == Free;
    hide Consistent, StoredName, Content, SlotFor, Traced, Format, ReadFile, View, LegalRun;
    ReadIsSlot(Final(start, ops), i, m);
  }

  // Stale handles

  /** The handle of a deleted file reaches nothing. */
  lemma StaleAfterDelete(fs: FS, f: seq<byte>, mid: FS, m: nat, data: seq<byte>)
    requires Consistent(fs) && CString(f) && fs.mounted && f in Files(fs) && mid == Commit(fs, DeleteFile(fs, f))
    ensures Accessible(fs, OpenFile(fs, f)) && Consistent(mid) && Files(mid) == Files(fs) - {f}
    ensures ReadFile(mid, OpenFile(fs, f), m) == (-1, [])
    ensures Room(mid, OpenFile(fs, f), |data|) && WriteFile(mid, OpenFile(fs, f), data) == Refuse(mid, -1)
  {
    FindIsLookup(fs.disk, fs.inodes, f);
    DeleteCorrect(fs, f);
    DeleteParts(fs, f);
    hide Consistent, View, Content, StoredName, Find, CreateFile, DeleteFile, Apply;
  }

  /** The next creation takes its slot exactly when no lower slot is free; otherwise the handle still
      reaches nothing. */
  lemma StaleAfterCreate(fs: FS, f: seq<byte>, mid: FS, g: seq<byte>, after: FS)
    requires Consistent(fs) && CString(f) && fs.mounted && f in Files(fs) && mid == Commit(fs, DeleteFile(fs, f))
    requires CString(g) && |g| < MAX_FILENAME && g !in Files(fs) - {f} && after == Commit(mid, CreateFile(mid, g))
    ensures Consistent(after) && Files(after) == (Files(fs) - {f})[g := []]
    ensures var i, ret := OpenFile(fs, f), CreateFile(mid, g).ret;
      && 0 <= ret <= i < MAX_FILES
      && (ret == i <==> forall j :: 0 <= j < i ==> fs.inodes[j].Live())
      && (if ret == i then Accessible(after, i) && StoredName(after.inodes[i].name) == g else !Accessible(after, i))
  {
    StaleAfterDelete(fs, f, mid, 0, []);
    DeleteParts(fs, f);
    var i := OpenFile(fs, f);
    assert mid.mounted && mid.inodes == fs.inodes[i := mid.inodes[i]] && !mid.inodes[i].Live();
    hide Consistent, View, DeleteFile, StoredName, Content, OpenFile;
    LowestSlot(fs.inodes, mid.inodes, i);
    FirstEmptyTaken(mid, g, after);
  }

  lemma LowestSlot(t: InodeTable, u: InodeTable, i: nat)
    requires i < MAX_FILES && u == t[i := u[i]] && !u[i].Live()
    ensures FirstEmpty(u) <= i && (FirstEmpty(u) == i <==> forall j :: 0 <= j < i ==> t[j].Live())
  {
    assert forall k :: 0 <= k < MAX_FILES && k != i ==> t[k] == u[k];
  }

  lemma FirstEmptyTaken(mid: FS, g: seq<byte>, after: FS)
    requires Consistent(mid) && mid.mounted && CString(g) && |g| < MAX_FILENAME && g !in Files(mid)
    requires FirstEmpty(mid.inodes) < MAX_FILES && after == Commit(mid, CreateFile(mid, g))
    ensures Consistent(after) && after.mounted && Files(after) == Files(mid)[g := []]
    ensures CreateFile(mid, g).ret == FirstEmpty(mid.inodes)
    ensures after.inodes == mid.inodes[FirstEmpty(mid.inodes) := after.inodes[FirstEmpty(mid.inodes)]]
    ensures var n := after.inodes[FirstEmpty(mid.inodes)]; n.Live() && n.startSector == 0 && StoredName(n.name) == g
  {
    FindIsLookup(mid.disk, mid.inodes, g);
    assert Truncated(g) == g;
    CopyNameStores(mid.inodes[FirstEmpty(mid.inodes)].name, g);
    CreateKeeps(mid, g);
    hide Consistent, View, CopyName, StoredName, Content, Apply, Truncated;
  }

  /** When the slot was taken, a write through the old handle changes the new file. */
  lemma StaleWrite(fs: FS, f: seq<byte>, mid: FS, g: seq<byte>, after: FS, data: seq<byte>)
    requires Consistent(fs) && CString(f) && fs.mounted && f in Files(fs) && mid == Commit(fs, DeleteFile(fs, f))
    requires CString(g) && |g| < MAX_FILENAME && g !in Files(fs) - {f} && after == Commit(mid, CreateFile(mid, g))
    requires (forall j :: 0 <= j < OpenFile(fs, f) ==> fs.inodes[j].Live()) && Room(after, OpenFile(fs, f), |data|)
    ensures var e := WriteFile(after, OpenFile(fs, f), data);
      e.ret == |data| && Consistent(Commit(after, e)) && Files(Commit(after, e)) == (Files(fs) - {f})[g := data]
  {
    var i := OpenFile(fs, f);
    StaleAfterCreate(fs, f, mid, g, after);
    assert after.inodes[i].startSector == 0;
    hide View, Content, StoredName, WriteFile, OpenFile, CreateFile, DeleteFile, Apply;
    FirstWriteSafe(after, i, |data|);
    WriteCorrect(after, i, data);
    hide *;
    Overwritten(Files(fs) - {f}, g, [], data);
  }
}
