/** Whole runs of the file system, with crashes, refine a plain map from names to contents. */
module FsRuns {
  import opened Bytes
  import opened FsCodec
  import opened FsModel
  import opened FsDisk
  import opened FsInvariant
  import opened FsOps
  import opened FsWrite
  import opened FsCrash
  import opened FsFormat

  /** Calls as the shell makes them: files are opened by name, then read or written. */
  datatype Op =
    | Create(f: seq<byte>)
    | Open(f: seq<byte>)
    | Delete(f: seq<byte>)
    | WriteTo(f: seq<byte>, data: seq<byte>)
    | ReadFrom(f: seq<byte>, m: nat)
    | MountDisk
    | UnmountDisk

  datatype Reply = Flag(ok: bool) | Written(n: int) | Read(n: int, data: seq<byte>) | Lost

  // The abstract machine

  datatype Store = Store(files: map<seq<byte>, seq<byte>>, mounted: bool)

  function Serve(a: Store, op: Op): (Store, Reply) {
    match op
    case Create(f) =>
      if a.mounted && f !in a.files && |a.files| < MAX_FILES
      then (a.(files := a.files[f := []]), Flag(true)) else (a, Flag(false))
    case Open(f) => (a, Flag(a.mounted && f in a.files))
    case Delete(f) =>
      if a.mounted && f in a.files then (a.(files := a.files - {f}), Flag(true)) else (a, Flag(false))
    case WriteTo(f, data) =>
      if a.mounted && f in a.files then (a.(files := a.files[f := data]), Written(|data|)) else (a, Written(-1))
    case ReadFrom(f, m) =>
      if !a.mounted || f !in a.files then (a, Read(-1, []))
      else var n := if m < |a.files[f]| then m else |a.files[f]|; (a, Read(n, a.files[f][..n]))
    case MountDisk => (a.(mounted := true), Flag(true))
    case UnmountDisk => (a.(mounted := false), Flag(true))
  }

  // The file system

  /** What callers must respect: C strings, 31 characters, enough disk, and no rewrite that runs
      into another file. */
  ghost predicate Legal(fs: FS, op: Op) {
    match op
    case Create(f) => CString(f) && |f| < MAX_FILENAME
    case WriteTo(f, data) =>
      var i := OpenFile(fs, f);
      CString(f) && Room(fs, i, |data|) && (i >= 0 ==> RewriteSafe(fs, i, |data|))
    case Open(f) => CString(f)
    case Delete(f) => CString(f)
    case ReadFrom(f, m) => CString(f)
    case _ => true
  }

  /** Writes must fit on the disk. */
  predicate Possible(fs: FS, op: Op) {
    |fs.disk| >= DATA_SECTOR && (op.WriteTo? ==> Room(fs, OpenFile(fs, op.f), |op.data|))
  }

  function EffectOf(fs: FS, op: Op): Effect
    requires Possible(fs, op)
  {
    match op
    case Create(f) => CreateFile(fs, f)
    case Open(f) => Refuse(fs, OpenFile(fs, f))
    case Delete(f) => DeleteFile(fs, f)
    case WriteTo(f, data) => WriteFile(fs, OpenFile(fs, f), data)
    case ReadFrom(f, m) => Refuse(fs, ReadFile(fs, OpenFile(fs, f), m).0)
    case MountDisk => Mount(fs)
    case UnmountDisk => Unmount(fs)
  }

  function ReplyOf(fs: FS, op: Op): Reply
    requires Possible(fs, op)
  {
    var ret := EffectOf(fs, op).ret;
    match op
    case Create(_) => Flag(ret >= 0)
    case Open(_) => Flag(ret >= 0)
    case Delete(_) => Flag(ret == 1)
    case WriteTo(_, _) => Written(ret)
    case ReadFrom(f, m) => Read(ret, ReadFile(fs, OpenFile(fs, f), m).1)
    case MountDisk => Flag(ret == 1)
    case UnmountDisk => Flag(true)
  }

  ghost function StoreOf(fs: FS): Store
    requires NamesOk(fs.inodes)
  {
    Store(Files(fs), fs.mounted)
  }

  // Without any rule for callers but that the disk is large enough

  /** Whatever names are used and whatever is overwritten: memory and disk agree after every call,
      and no call writes beyond metadata and the sectors counted as used. */
  lemma StepDurable(fs: FS, op: Op)
    requires Durable(fs) && Possible(fs, op)
    ensures Durable(Commit(fs, EffectOf(fs, op)))
    ensures forall w :: w in EffectOf(fs, op).writes ==> AllowedWrite(fs, EffectOf(fs, op), w)
  {
    hide SuperblockSector, InodeSector, StoredName, CopyName, Content, TableWrites;
    NoWrites(fs.disk);
    match op {
      case Create(f) =>
        CreateDurable(fs, f);
      case Delete(f) =>
        DeleteDurable(fs, f);
      case WriteTo(f, data) =>
        WriteDurable(fs, OpenFile(fs, f), data);
      case MountDisk =>
        MountReproduces(fs, fs);
      case UnmountDisk =>
        UnmountKeeps(fs);
      case _ =>
    }
  }

  lemma CreateDurable(fs: FS, f: seq<byte>)
    requires Durable(fs)
    ensures var e := CreateFile(fs, f); Durable(Commit(fs, e)) && forall w :: w in e.writes ==> AllowedWrite(fs, e, w)
  {
    hide SuperblockSector, InodeSector, CopyName, TableWrites, Apply, Matches;
    var e := CreateFile(fs, f);
    NoWrites(fs.disk);
    SaveTableFirst(fs.disk, e.sb, e.inodes);
    forall k | 0 <= k < MAX_FILES ensures Placed(e.inodes[k], e.sb.usedSectors) {
      assert Placed(fs.inodes[k], fs.sb.usedSectors);
    }
  }

  lemma DeleteDurable(fs: FS, f: seq<byte>)
    requires Durable(fs)
    ensures var e := DeleteFile(fs, f); Durable(Commit(fs, e)) && forall w :: w in e.writes ==> AllowedWrite(fs, e, w)
  {
    hide SuperblockSector, InodeSector, TableWrites, Apply, Matches;
    var e := DeleteFile(fs, f);
    NoWrites(fs.disk);
    SaveTableFirst(fs.disk, e.sb, e.inodes);
    forall k | 0 <= k < MAX_FILES ensures Placed(e.inodes[k], e.sb.usedSectors) {
      assert Placed(fs.inodes[k], fs.sb.usedSectors);
    }
  }

  lemma WriteDurable(fs: FS, i: int, data: seq<byte>)
    requires Durable(fs) && Room(fs, i, |data|)
    ensures var e := WriteFile(fs, i, data); Durable(Commit(fs, e)) && forall w :: w in e.writes ==> AllowedWrite(fs, e, w)
  {
    HighWaterMark(fs, i, data);
    NoWrites(fs.disk);
    if Accessible(fs, i) {
      WriteSaved(fs, i, data);
    }
  }

  ghost predicate PossibleRun(fs: FS, ops: seq<Op>)
    decreases |ops|
  {
    ops == [] || (Possible(fs, ops[0]) && PossibleRun(Commit(fs, EffectOf(fs, ops[0])), ops[1..]))
  }

  ghost function Outcome(fs: FS, ops: seq<Op>): FS
    requires PossibleRun(fs, ops)
    decreases |ops|
  {
    if ops == [] then fs else Outcome(Commit(fs, EffectOf(fs, ops[0])), ops[1..])
  }

  /** All sector writes of a run, in order. */
  ghost function RunWrites(fs: FS, ops: seq<Op>): seq<Write>
    requires PossibleRun(fs, ops)
    decreases |ops|
  {
    if ops == [] then []
    else EffectOf(fs, ops[0]).writes + RunWrites(Commit(fs, EffectOf(fs, ops[0])), ops[1..])
  }

  /** A superblock whose mark is between two marks, part of an inode table with all files below the
      second mark, or a data sector below it. */
  ghost predicate WithinMarks(low: nat, high: nat, w: Write) {
    || (exists sb :: w == SuperblockWrite(sb) && sb.magic == MAGIC && low <= sb.usedSectors <= high)
    || (exists t :: w in TableWrites(t) && forall i :: 0 <= i < MAX_FILES ==> Placed(t[i], high))
    || DATA_SECTOR <= w.sector < DATA_SECTOR + high
  }

  lemma WriteWithinMarks(fs: FS, e: Effect, low: nat, high: nat, w: Write)
    requires Durable(fs) && BelowMark(Commit(fs, e)) && AllowedWrite(fs, e, w)
    requires low <= fs.sb.usedSectors && e.sb.usedSectors <= high
    ensures WithinMarks(low, high, w)
  {
    hide SuperblockSector, InodeSector, TableWrites, TableOnDisk, Apply;
    if w in TableWrites(e.inodes) {
      forall i | 0 <= i < MAX_FILES ensures Placed(e.inodes[i], high) {
        assert Placed(e.inodes[i], e.sb.usedSectors);
      }
    }
  }

  /** After any run, mounting the disk on whatever is in memory gives back superblock and table.
      All that the run wrote is metadata and data below the final mark. */
  lemma {:induction false} RunDurable(fs: FS, ops: seq<Op>, memory: FS)
    requires Durable(fs) && PossibleRun(fs, ops) && memory.disk == Outcome(fs, ops).disk
    ensures Durable(Outcome(fs, ops)) && fs.sb.usedSectors <= Outcome(fs, ops).sb.usedSectors
    ensures Outcome(fs, ops).disk == Apply(fs.disk, RunWrites(fs, ops))
    ensures forall w :: w in RunWrites(fs, ops) ==> WithinMarks(fs.sb.usedSectors, Outcome(fs, ops).sb.usedSectors, w)
    ensures Mount(memory).ret == 1
    ensures Commit(memory, Mount(memory)) == Outcome(fs, ops).(mounted := true)
    decreases |ops|
  {
    if ops == [] {
      MountReproduces(fs, memory);
      NoWrites(fs.disk);
    } else {
      var e := EffectOf(fs, ops[0]);
      var next := Commit(fs, e);
      StepDurable(fs, ops[0]);
      UsedGrows(fs, ops[0]);
      RunDurable(next, ops[1..], memory);
      hide Durable, EffectOf, Apply, WithinMarks, AllowedWrite, Possible, Mount;
      ApplyAppend(fs.disk, e.writes, RunWrites(next, ops[1..]));
      RunWritesWithin(fs, ops);
    }
  }

  lemma RunWritesWithin(fs: FS, ops: seq<Op>)
    requires Durable(fs) && PossibleRun(fs, ops) && ops != []
    requires var e := EffectOf(fs, ops[0]);
      && Durable(Commit(fs, e)) && (forall w :: w in e.writes ==> AllowedWrite(fs, e, w))
      && fs.sb.usedSectors <= e.sb.usedSectors <= Outcome(fs, ops).sb.usedSectors
      && forall w :: w in RunWrites(Commit(fs, e), ops[1..]) ==> WithinMarks(e.sb.usedSectors, Outcome(fs, ops).sb.usedSectors, w)
    ensures forall w :: w in RunWrites(fs, ops) ==> WithinMarks(fs.sb.usedSectors, Outcome(fs, ops).sb.usedSectors, w)
  {
    var e, high := EffectOf(fs, ops[0]), Outcome(fs, ops).sb.usedSectors;
    hide EffectOf, AllowedWrite, TableWrites, SuperblockSector, Placed;
    forall w | w in RunWrites(fs, ops) ensures WithinMarks(fs.sb.usedSectors, high, w) {
      if w in e.writes {
        WriteWithinMarks(fs, e, fs.sb.usedSectors, high, w);
      }
    }
  }

  lemma UsedGrows(fs: FS, op: Op)
    requires Durable(fs) && Possible(fs, op)
    ensures fs.sb.usedSectors <= EffectOf(fs, op).sb.usedSectors
  {
    if op == MountDisk {
      MountReproduces(fs, fs);
    }
  }

  // One call

  lemma OpenIsLookup(fs: FS, f: seq<byte>)
    requires Consistent(fs) && CString(f)
    ensures OpenFile(fs, f) >= 0 <==> fs.mounted && f in Files(fs)
    ensures OpenFile(fs, f) >= 0 ==> var i := OpenFile(fs, f);
      Accessible(fs, i) && StoredName(fs.inodes[i].name) == f && Files(fs)[f] == Content(fs.disk, fs.inodes[i])
  {
    FindIsLookup(fs.disk, fs.inodes, f);
  }

  lemma ReadRefines(fs: FS, f: seq<byte>, m: nat)
    requires Consistent(fs) && CString(f)
    ensures var r := ReadFile(fs, OpenFile(fs, f), m); Serve(StoreOf(fs), ReadFrom(f, m)).1 == Read(r.0, r.1)
  {
    OpenIsLookup(fs, f);
    var i := OpenFile(fs, f);
    if i >= 0 {
      assert Placed(fs.inodes[i], fs.sb.usedSectors);
      var c := Content(fs.disk, fs.inodes[i]);
      assert c[..|c|] == c;
    }
  }

  lemma WriteRefines(fs: FS, f: seq<byte>, data: seq<byte>)
    requires Consistent(fs) && Legal(fs, WriteTo(f, data))
    ensures var e := WriteFile(fs, OpenFile(fs, f), data);
      Consistent(Commit(fs, e)) && Serve(StoreOf(fs), WriteTo(f, data)) == (StoreOf(Commit(fs, e)), Written(e.ret))
  {
    OpenIsLookup(fs, f);
    WriteCorrect(fs, OpenFile(fs, f), data);
    NoWrites(fs.disk);
  }

  lemma CreateRefines(fs: FS, f: seq<byte>)
    requires Consistent(fs) && Legal(fs, Create(f))
    ensures var e := CreateFile(fs, f);
      Consistent(Commit(fs, e)) && Serve(StoreOf(fs), Create(f)) == (StoreOf(Commit(fs, e)), Flag(e.ret >= 0))
  {
    CreateVerdict(fs, f);
    assert Truncated(f) == f;
    NoWrites(fs.disk);
    hide Content, StoredName, View, Apply, SuperblockSector, InodeSector, TableOnDisk;
    if CreateFile(fs, f).ret >= 0 {
      CreateEffect(fs, f);
    }
  }

  /** Every legal call keeps the file system consistent, and replies and changes the files just as
      the abstract machine does. */
  lemma StepRefines(fs: FS, op: Op)
    requires Consistent(fs) && Legal(fs, op)
    ensures Consistent(Commit(fs, EffectOf(fs, op)))
    ensures Serve(StoreOf(fs), op) == (StoreOf(Commit(fs, EffectOf(fs, op))), ReplyOf(fs, op))
  {
    NoWrites(fs.disk);
    match op {
      case Create(f) => CreateRefines(fs, f);
      case Open(f) => OpenIsLookup(fs, f);
      case Delete(f) => DeleteCorrect(fs, f);
      case WriteTo(f, data) => WriteRefines(fs, f, data);
      case ReadFrom(f, m) => ReadRefines(fs, f, m);
      case MountDisk => MountReproduces(fs, fs);
      case UnmountDisk => UnmountKeeps(fs);
    }
  }

  // Crashes

  /** What a call that is cut off may leave of the files: all as before, all as after, or, for a
      write, other contents of the written file. */
  ghost predicate MayLeave(a: Store, op: Op, files: map<seq<byte>, seq<byte>>) {
    || files == a.files
    || files == Serve(a, op).0.files
    || (op.WriteTo? && a.mounted && op.f in a.files && TornFile(a.files, op.f, op.data, files))
  }

  /** Only file f differs: it holds the data, or its old bytes with some leading sectors of the data
      over them. */
  ghost predicate TornFile(before: map<seq<byte>, seq<byte>>, f: seq<byte>, data: seq<byte>, files: map<seq<byte>, seq<byte>>)
    requires f in before
  {
    exists c :: PartlyWritten(before[f], data, c) && files == before[f := c]
  }

  /** Every legal call may crash after any number of its writes: the disk mounts, the file system is
      consistent, and only an overwrite can leave anything but the old files or the new ones. */
  lemma CrashRefines(fs: FS, op: Op, k: nat)
    requires Consistent(fs) && Legal(fs, op) && k <= |EffectOf(fs, op).writes|
    ensures exists files :: MayLeave(StoreOf(fs), op, files) && Recovers(Crashed(fs, EffectOf(fs, op), k), files)
  {
    if op.WriteTo? && OpenFile(fs, op.f) >= 0 {
      OverwriteCrash(fs, op.f, op.data, k);
    } else {
      StepRefines(fs, op);
      CrashAtomic(fs, op, k);
      hide *;
      if Recovers(Crashed(fs, EffectOf(fs, op), k), Files(fs)) {
        MayDoNothing(StoreOf(fs), op);
      } else {
        MayFinish(StoreOf(fs), op);
      }
    }
  }

  /** Calls other than overwrites are all or nothing. */
  lemma CrashAtomic(fs: FS, op: Op, k: nat)
    requires Consistent(fs) && Legal(fs, op) && k <= |EffectOf(fs, op).writes|
    requires !(op.WriteTo? && OpenFile(fs, op.f) >= 0)
    ensures Consistent(Commit(fs, EffectOf(fs, op))) && Atomic(fs, EffectOf(fs, op), k)
  {
    StepRefines(fs, op);
    var e := EffectOf(fs, op);
    if e.writes == [] {
      assert e.writes[..k] == [];
      NoWrites(fs.disk);
      OwnDisk(fs);
    } else {
      match op {
        case Create(f) => CreateAtomic(fs, f, k);
        case Delete(f) => DeleteAtomic(fs, f, k);
        case UnmountDisk => UnmountAtomic(fs, k);
      }
    }
  }

  lemma MayDoNothing(a: Store, op: Op)
    ensures MayLeave(a, op, a.files)
  {
  }

  lemma MayFinish(a: Store, op: Op)
    ensures MayLeave(a, op, Serve(a, op).0.files)
  {
  }

  lemma OverwriteCrash(fs: FS, f: seq<byte>, data: seq<byte>, k: nat)
    requires Consistent(fs) && Legal(fs, WriteTo(f, data)) && OpenFile(fs, f) >= 0
    requires k <= |WriteFile(fs, OpenFile(fs, f), data).writes|
    ensures exists files :: MayLeave(StoreOf(fs), WriteTo(f, data), files)
                            && Recovers(Crashed(fs, WriteFile(fs, OpenFile(fs, f), data), k), files)
  {
    WriteToParts(fs, f, data);
    hide *;
    var i := OpenFile(fs, f);
    CrashConfined(fs, i, data, k);
    CrashContentShape(fs, i, data, k);
    MayTear(StoreOf(fs), f, data, CrashContent(fs, i, data, k));
  }

  lemma WriteToParts(fs: FS, f: seq<byte>, data: seq<byte>)
    requires Consistent(fs) && Legal(fs, WriteTo(f, data)) && OpenFile(fs, f) >= 0
    ensures var i, a := OpenFile(fs, f), StoreOf(fs);
      && Accessible(fs, i) && Room(fs, i, |data|) && RewriteSafe(fs, i, |data|)
      && StoredName(fs.inodes[i].name) == f && a.files == Files(fs)
      && a.mounted && f in a.files && a.files[f] == Content(fs.disk, fs.inodes[i])
  {
    hide Consistent, View, Content, StoredName, RewriteSafe;
    OpenIsLookup(fs, f);
  }

  lemma MayTear(a: Store, f: seq<byte>, data: seq<byte>, c: seq<byte>)
    requires a.mounted && f in a.files && PartlyWritten(a.files[f], data, c)
    ensures MayLeave(a, WriteTo(f, data), a.files[f := c])
  {
    assert TornFile(a.files, f, data, a.files[f := c]);
  }

  lemma UnmountAtomic(fs: FS, k: nat)
    requires Consistent(fs) && k <= |Unmount(fs).writes|
    ensures Consistent(Commit(fs, Unmount(fs))) && Atomic(fs, Unmount(fs), k)
  {
    hide SuperblockSector, InodeSector;
    UnmountKeeps(fs);
    var ws := Unmount(fs).writes;
    forall w | w in ws ensures w.sector < |fs.disk| && fs.disk[w.sector] == w.data {
      if w != SuperblockWrite(fs.sb) {
        var s :| 0 <= s < INODE_SECTORS && TableWrites(fs.inodes)[s] == w;
        assert fs.disk[INODE_SECTOR + s] == InodeSector(fs.inodes, s);
      }
    }
    ApplyNothing(fs.disk, ws[..k]);
    OwnDisk(fs);
  }

  lemma {:induction false} ApplyNothing(d: seq<Sector>, ws: seq<Write>)
    requires forall w | w in ws :: w.sector < |d| && d[w.sector] == w.data
    ensures Apply(d, ws) == d
    decreases |ws|
  {
    if ws != [] {
      assert ws[|ws| - 1] in ws;
      ApplyNothing(d, ws[..|ws| - 1]);
    }
  }

  // Runs

  datatype Event =
    | Call(op: Op)
    | Crash(op: Op, k: nat)
    | Reformat(volume: seq<byte>)
    | FormatCrash(volume: seq<byte>, k: nat)

  /** Calls may crash anywhere. A format may stop before its first write, or at a point where no
      file with sectors still has its inode (`FormatCrashExactly`). */
  ghost predicate LegalEvent(fs: FS, ev: Event) {
    match ev
    case Call(op) => Possible(fs, op) && Legal(fs, op)
    case Crash(op, k) => Possible(fs, op) && Legal(fs, op) && k <= |EffectOf(fs, op).writes|
    case Reformat(_) => true
    case FormatCrash(_, k) => |fs.disk| >= DATA_SECTOR && (0 < k ==> k <= INODE_SECTORS + 1 && SurvivorsUnwritten(fs.inodes, k - 1))
  }

  /** The state after an event; after a crash the disk is mounted again. */
  ghost function After(fs: FS, ev: Event): FS
    requires LegalEvent(fs, ev)
  {
    match ev
    case Call(op) => Commit(fs, EffectOf(fs, op))
    case Crash(op, k) => Remount(Crashed(fs, EffectOf(fs, op), k))
    case Reformat(volume) => Commit(fs, Format(fs, volume))
    case FormatCrash(volume, k) => Remount(Crashed(fs, Format(fs, volume), k))
  }

  ghost function EventReply(fs: FS, ev: Event): Reply
    requires LegalEvent(fs, ev)
  {
    match ev
    case Call(op) => ReplyOf(fs, op)
    case Reformat(volume) => Flag(Format(fs, volume).ret == 1)
    case _ => Lost
  }

  ghost predicate LegalRun(fs: FS, evs: seq<Event>)
    decreases |evs|
  {
    evs == [] || (LegalEvent(fs, evs[0]) && LegalRun(After(fs, evs[0]), evs[1..]))
  }

  ghost function Replies(fs: FS, evs: seq<Event>): seq<Reply>
    requires LegalRun(fs, evs)
    decreases |evs|
  {
    if evs == [] then [] else [EventReply(fs, evs[0])] + Replies(After(fs, evs[0]), evs[1..])
  }

  ghost function Final(fs: FS, evs: seq<Event>): FS
    requires LegalRun(fs, evs)
    decreases |evs|
  {
    if evs == [] then fs else Final(After(fs, evs[0]), evs[1..])
  }

  /** What a format that is cut off may leave: everything, or some of the empty files. */
  ghost predicate FormatMayLeave(a: Store, files: map<seq<byte>, seq<byte>>) {
    files == a.files || (Submap(files, a.files) && forall f :: f in files ==> files[f] == [])
  }

  /** One step of the abstract machine. */
  ghost predicate Explained(a: Store, ev: Event, reply: Reply, b: Store) {
    match ev
    case Call(op) => (b, reply) == Serve(a, op)
    case Crash(op, _) => reply == Lost && b.mounted && MayLeave(a, op, b.files)
    case Reformat(_) => reply == Flag(true) && b == Store(map[], a.mounted)
    case FormatCrash(_, _) => reply == Lost && b.mounted && FormatMayLeave(a, b.files)
  }

  /** The abstract machine can give these replies and end with these files. */
  ghost predicate Explains(a: Store, evs: seq<Event>, replies: seq<Reply>, last: Store)
    decreases |evs|
  {
    |replies| == |evs| &&
    if evs == [] then last == a
    else exists b :: Explained(a, evs[0], replies[0], b) && Explains(b, evs[1..], replies[1..], last)
  }

  /** Every event keeps the file system consistent and is a step of the abstract machine. */
  lemma EventRefines(fs: FS, ev: Event)
    requires Consistent(fs) && LegalEvent(fs, ev)
    ensures Consistent(After(fs, ev)) && Explained(StoreOf(fs), ev, EventReply(fs, ev), StoreOf(After(fs, ev)))
  {
    match ev {
      case Call(op) =>
        StepRefines(fs, op);
      case Crash(op, k) =>
        CrashRefines(fs, op, k);
        var files :| MayLeave(StoreOf(fs), op, files) && Recovers(Crashed(fs, EffectOf(fs, op), k), files);
        hide Consistent, MayLeave, Crashed, EffectOf, View, Mount;
      case Reformat(volume) =>
        FormatCorrect(fs, volume);
      case FormatCrash(volume, k) =>
        FormatCrashRefines(fs, volume, k);
    }
  }

  lemma FormatCrashRefines(fs: FS, volume: seq<byte>, k: nat)
    requires Consistent(fs) && LegalEvent(fs, FormatCrash(volume, k))
    ensures var d := Crashed(fs, Format(fs, volume), k);
      Consistent(Remount(d)) && FormatMayLeave(StoreOf(fs), Files(Remount(d)))
  {
    var d := Crashed(fs, Format(fs, volume), k);
    if k == 0 {
      NotFormatted(fs, volume);
      hide Consistent, View, Format, Crashed, Mount;
      assert Recovers(d, Files(fs));
    } else {
      var files := Survivors(fs, volume, k);
      hide Consistent, View, Format, Crashed, Mount, FormatMayLeave;
      assert Recovers(d, files);
    }
  }

  lemma Survivors(fs: FS, volume: seq<byte>, k: nat) returns (files: map<seq<byte>, seq<byte>>)
    requires Consistent(fs) && 0 < k <= INODE_SECTORS + 1 && SurvivorsUnwritten(fs.inodes, k - 1)
    ensures Recovers(Crashed(fs, Format(fs, volume), k), files) && FormatMayLeave(StoreOf(fs), files)
  {
    FormatCrashExactly(fs, volume, k - 1);
    files := View(fs.disk, HalfCleared(fs.inodes, k - 1));
    hide Consistent, View, Format, HalfCleared, Crashed, Recovers;
    SurvivorsAreFiles(fs, k - 1);
    SurvivorsAreEmpty(fs, k - 1);
  }

  lemma {:induction false} RunRefines(fs: FS, evs: seq<Event>)
    requires Consistent(fs) && LegalRun(fs, evs)
    ensures Consistent(Final(fs, evs))
    ensures Explains(StoreOf(fs), evs, Replies(fs, evs), StoreOf(Final(fs, evs)))
    decreases |evs|
  {
    if evs != [] {
      var next := After(fs, evs[0]);
      EventRefines(fs, evs[0]);
      hide Consistent, LegalEvent, After, EventReply, Explained, Files, View, NamesOk;
      RunRefines(next, evs[1..]);
      assert Replies(fs, evs)[1..] == Replies(next, evs[1..]);
    }
  }

  /** From formatting on, every legal run of calls, formats and crashes behaves like the map of
      files. */
  lemma FormattedRunRefines(fs: FS, volume: seq<byte>, evs: seq<Event>)
    requires DATA_SECTOR <= |fs.disk| <= 0x1000_0000
    requires LegalRun(Commit(fs, Format(fs, volume)), evs)
    ensures var start := Commit(fs, Format(fs, volume));
      && Consistent(Final(start, evs))
      && Explains(Store(map[], fs.mounted), evs, Replies(start, evs), StoreOf(Final(start, evs)))
  {
    FormatCorrect(fs, volume);
    RunRefines(Commit(fs, Format(fs, volume)), evs);
  }

  lemma CallCounts(fs: FS, op: Op)
    requires Consistent(fs) && CountOk(fs) && Possible(fs, op)
    ensures CountOk(Commit(fs, EffectOf(fs, op)))
  {
    match op {
      case Create(f) => CreateCounts(fs, f);
      case Delete(f) => DeleteCounts(fs, f);
      case WriteTo(f, data) => WriteCounts(fs, OpenFile(fs, f), data);
      case MountDisk => MountReproduces(fs, fs);
      case _ =>
    }
  }

  /** Without crashes the superblock counts the files exactly. */
  lemma {:induction false} RunCounts(fs: FS, evs: seq<Event>)
    requires Consistent(fs) && CountOk(fs) && LegalRun(fs, evs) && forall ev | ev in evs :: ev.Call? || ev.Reformat?
    ensures Consistent(Final(fs, evs)) && CountOk(Final(fs, evs))
    ensures Final(fs, evs).sb.inodeCount == |Files(Final(fs, evs))|
    decreases |evs|
  {
    if evs == [] {
      ViewSize(fs.disk, fs.inodes);
    } else {
      assert evs[0] in evs;
      EventRefines(fs, evs[0]);
      match evs[0] {
        case Call(op) => CallCounts(fs, op);
        case Reformat(volume) => FormatCorrect(fs, volume);
      }
      hide Consistent, CountOk, LegalEvent, After, View, NamesOk;
      RunCounts(After(fs, evs[0]), evs[1..]);
    }
  }
}
