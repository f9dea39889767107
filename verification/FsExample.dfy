/** Reachable states in which the code breaks a promise: a rewrite damages another file, and two
  files have one name. */
module FsExample {
  import opened Bytes
  import opened FsCodec
  import opened FsModel
  import opened FsInvariant
  import opened FsOps
  import opened FsWrite
  import opened FsRuns

  // Reachability

  /** Legal calls lead from one state to another. */
  ghost predicate Reachable(start: FS, fs: FS) {
    exists evs: seq<Event> :: LegalRun(start, evs) && (forall ev | ev in evs :: ev.Call?) && Final(start, evs) == fs
  }

  lemma {:induction false} OneMore(start: FS, evs: seq<Event>, ev: Event)
    requires LegalRun(start, evs) && LegalEvent(Final(start, evs), ev)
    ensures LegalRun(start, evs + [ev]) && Final(start, evs + [ev]) == After(Final(start, evs), ev)
    decreases |evs|
  {
    hide LegalEvent, After;
    if evs != [] {
      assert (evs + [ev])[1..] == evs[1..] + [ev];
      OneMore(After(start, evs[0]), evs[1..], ev);
    }
  }

  lemma ReachedFrom(start: FS)
    ensures Reachable(start, start)
  {
    assert LegalRun(start, []) && Final(start, []) == start;
  }

  lemma ReachedBy(start: FS, fs: FS, op: Op)
    requires Reachable(start, fs) && Possible(fs, op) && Legal(fs, op)
    ensures Reachable(start, Commit(fs, EffectOf(fs, op)))
  {
    hide Possible, Legal, EffectOf, Commit;
    var evs: seq<Event> :| LegalRun(start, evs) && (forall ev | ev in evs :: ev.Call?) && Final(start, evs) == fs;
    OneMore(start, evs, Call(op));
    assert forall ev | ev in evs + [Call(op)] :: ev.Call?;
  }

  // A rewrite that damages another file

  lemma Created(start: FS, fs: FS, f: seq<byte>) returns (r: FS)
    requires Consistent(fs) && fs.mounted && CString(f) && |f| < MAX_FILENAME && f !in Files(fs) && FirstEmpty(fs.inodes) < MAX_FILES
    requires Reachable(start, fs)
    ensures r == Commit(fs, CreateFile(fs, f)) && Reachable(start, r)
    ensures Consistent(r) && r.mounted && Files(r) == Files(fs)[f := []] && |r.disk| == |fs.disk|
    ensures r.sb.usedSectors == fs.sb.usedSectors
    ensures r.inodes == fs.inodes[FirstEmpty(fs.inodes) := CreatedInode(fs, f)]
    ensures StoredName(CreatedInode(fs, f).name) == f
  {
    ViewSize(fs.disk, fs.inodes);
    CountFull(fs.inodes);
    CreateVerdict(fs, f);
    CreateEffect(fs, f);
    CopyNameStores(fs.inodes[FirstEmpty(fs.inodes)].name, f);
    r := Commit(fs, CreateFile(fs, f));
    assert Truncated(f) == f;
    hide Consistent, View, StoredName, CopyName, Reachable, Apply;
    ReachedBy(start, fs, Create(f));
  }

  /** The first write of one byte, by name. */
  lemma OneByte(start: FS, fs: FS, f: seq<byte>, i: nat, x: byte) returns (r: FS)
    requires Consistent(fs) && Accessible(fs, i) && fs.inodes[i].startSector == 0
    requires CString(f) && StoredName(fs.inodes[i].name) == f
    requires DATA_SECTOR + fs.sb.usedSectors < |fs.disk| && Reachable(start, fs)
    ensures Consistent(r) && r.mounted && Files(r) == Files(fs)[f := [x]] && |r.disk| == |fs.disk| && Reachable(start, r)
    ensures r.sb.usedSectors == fs.sb.usedSectors + 1
    ensures r.inodes == fs.inodes[i := fs.inodes[i].(startSector := DATA_SECTOR + fs.sb.usedSectors, size := 1, modified := 0)]
  {
    FirstWriteSafe(fs, i, 1);
    FirstWriteExtent(fs, i, [x]);
    WriteCorrect(fs, i, [x]);
    WriteFileParts(fs, i, [x]);
    OpensAs(fs, f, i);
    r := Commit(fs, WriteFile(fs, i, [x]));
    hide Consistent, View, StoredName, Reachable, Apply, RewriteSafe, OpenFile;
    ReachedBy(start, fs, WriteTo(f, [x]));
  }

  lemma OpensAs(fs: FS, f: seq<byte>, i: nat)
    requires Consistent(fs) && Accessible(fs, i) && CString(f) && StoredName(fs.inodes[i].name) == f
    ensures OpenFile(fs, f) == i
  {
    ViewHas(fs.disk, fs.inodes, i);
    OpenIsLookup(fs, f);
    hide StoredName, Content, View;
    OneInode(fs.inodes, OpenFile(fs, f), i);
  }

  lemma OneInode(t: InodeTable, i: nat, j: nat)
    requires NamesOk(t) && i < MAX_FILES && j < MAX_FILES && t[i].Live() && t[j].Live()
    requires StoredName(t[i].name) == StoredName(t[j].name)
    ensures i == j
  {
    hide StoredName;
  }

  /** A new file of one byte. */
  lemma OneByteFile(start: FS, fs: FS, i: nat, f: seq<byte>, x: byte) returns (r: FS)
    requires Consistent(fs) && fs.mounted && CString(f) && |f| < MAX_FILENAME && f !in Files(fs) && i == FirstEmpty(fs.inodes) < MAX_FILES
    requires DATA_SECTOR + fs.sb.usedSectors < |fs.disk| && Reachable(start, fs)
    ensures Consistent(r) && r.mounted && Files(r) == Files(fs)[f := [x]] && |r.disk| == |fs.disk| && Reachable(start, r)
    ensures r.sb.usedSectors == fs.sb.usedSectors + 1
    ensures r.inodes[i].Live() && r.inodes[i].size == 1 && r.inodes[i].startSector == DATA_SECTOR + fs.sb.usedSectors
    ensures forall j :: 0 <= j < MAX_FILES && j != i ==> r.inodes[j] == fs.inodes[j]
  {
    var mid := Created(start, fs, f);
    var n := CreatedInode(fs, f);
    assert n.Live() && n.startSector == 0 && mid.inodes[i] == n;
    hide Reachable;
    r := OneByte(start, mid, f, i, x);
    hide *;
    Overwritten(Files(fs), f, [], [x]);
  }

  /** Two one-byte files are enough: from Format, calls lead to a state in which writing 513 bytes to
      the first can damage the second. */
  lemma RewriteExample(fs: FS)
    requires 13 <= |fs.disk| <= 0x1000_0000
    ensures exists two: FS, data: seq<byte> ::
      && Reachable(Commit(fs, Format(fs, [])), two)
      && Consistent(two) && two.mounted && Files(two) == map[[97] := [1], [98] := [2]]
      && |data| == 513 && Room(two, 0, 513) && !OthersKept(two, 0, data)
  {
    var two := TwoFiles(fs);
    hide Consistent, View, NamesOk, Files, Reachable;
    GrowingIsUnsafe(two, 0, 1, 513);
    RewriteSafeIsExact(two, 0, 513);
  }

  lemma TwoFiles(fs: FS) returns (two: FS)
    requires 13 <= |fs.disk| <= 0x1000_0000
    ensures Reachable(Commit(fs, Format(fs, [])), two)
    ensures Consistent(two) && two.mounted && Files(two) == map[[97] := [1], [98] := [2]]
    ensures |two.disk| == |fs.disk| && two.sb.usedSectors == 2
    ensures forall k :: 0 <= k < 2 ==> two.inodes[k].Live() && two.inodes[k].size == 1 && two.inodes[k].startSector == DATA_SECTOR + k
  {
    var one := OneFile(fs);
    hide Consistent, View, NamesOk, Files, Reachable;
    var g: seq<byte> := [98];
    assert [97] != g by {
      assert [97][0] != g[0];
    }
    two := OneByteFile(Commit(fs, Format(fs, [])), one, 1, g, 2);
  }

  lemma OneFile(fs: FS) returns (one: FS)
    requires 13 <= |fs.disk| <= 0x1000_0000
    ensures Reachable(Commit(fs, Format(fs, [])), one)
    ensures Consistent(one) && one.mounted && Files(one) == map[[97] := [1]]
    ensures |one.disk| == |fs.disk| && one.sb.usedSectors == 1 && FirstEmpty(one.inodes) == 1
    ensures one.inodes[0].Live() && one.inodes[0].size == 1 && one.inodes[0].startSector == DATA_SECTOR
  {
    var s1 := FreshlyMounted(fs);
    hide Consistent, View, NamesOk, Files, Reachable;
    one := OneByteFile(Commit(fs, Format(fs, [])), s1, 0, [97], 1);
    assert !one.inodes[1].Live();
  }

  lemma FreshlyMounted(fs: FS) returns (r: FS)
    requires DATA_SECTOR <= |fs.disk| <= 0x1000_0000
    ensures var start := Commit(fs, Format(fs, [])); Reachable(start, r) && r == Commit(start, Mount(start))
    ensures Consistent(r) && r.mounted && Files(r) == map[] && |r.disk| == |fs.disk| && r.sb.usedSectors == 0
    ensures forall i :: 0 <= i < MAX_FILES ==> !r.inodes[i].Live()
  {
    var start := Commit(fs, Format(fs, []));
    FormatCorrect(fs, []);
    r := Commit(start, Mount(start));
    MountReproduces(start, start);
    hide Reachable, Mount;
    ReachedFrom(start);
    ReachedBy(start, start, MountDisk);
  }

  // Two files with one name

  /** Creating one name of 32 characters or more twice succeeds both times, and leaves two files
      whose stored names are equal. */
  lemma LongNameTwice(fs: FS, f: seq<byte>)
    requires Consistent(fs) && fs.mounted && CString(f) && |f| >= MAX_FILENAME
    requires Truncated(f) !in Files(fs) && |Files(fs)| + 2 <= MAX_FILES
    ensures var one := Commit(fs, CreateFile(fs, f));
      var i, j, two := CreateFile(fs, f).ret, CreateFile(one, f).ret, Commit(one, CreateFile(one, f));
      && i >= 0 && j >= 0 && i != j && two.inodes[i].Live() && two.inodes[j].Live()
      && StoredName(two.inodes[i].name) == StoredName(two.inodes[j].name) == Truncated(f)
      && !Consistent(two)
  {
    var one := Commit(fs, CreateFile(fs, f));
    LongNameAccepted(fs, f);
    CreateEffect(fs, f);
    LongNameAccepted(one, f);
    CreateEffect(one, f);
    LongNameStored(fs, f);
    LongNameStored(one, f);
  }

  lemma LongNameAccepted(fs: FS, f: seq<byte>)
    requires Consistent(fs) && fs.mounted && CString(f) && |f| >= MAX_FILENAME && |Files(fs)| < MAX_FILES
    ensures CreateFile(fs, f).ret >= 0
  {
    if f in Files(fs) {
      var i :| 0 <= i < MAX_FILES && fs.inodes[i].Live() && StoredName(fs.inodes[i].name) == f;
      StoredNameIs(fs.inodes[i].name);
      assert false;
    }
    CreateVerdict(fs, f);
  }

  lemma LongNameStored(fs: FS, f: seq<byte>)
    requires CString(f) && CreateFile(fs, f).ret >= 0
    ensures var e := CreateFile(fs, f);
      && e.ret == FirstEmpty(fs.inodes) < MAX_FILES && !fs.inodes[e.ret].Live()
      && e.inodes == fs.inodes[e.ret := e.inodes[e.ret]]
      && e.inodes[e.ret].Live() && StoredName(e.inodes[e.ret].name) == Truncated(f)
      && e.mounted == fs.mounted
  {
    CopyNameStores(fs.inodes[FirstEmpty(fs.inodes)].name, f);
  }

  /** From Format on: mount, then create any such name twice. */
  lemma LongNameExample(fs: FS, f: seq<byte>)
    requires DATA_SECTOR <= |fs.disk| <= 0x1000_0000 && CString(f) && |f| >= MAX_FILENAME
    ensures var start, ops := Commit(fs, Format(fs, [])), [MountDisk, Create(f), Create(f)];
      && PossibleRun(start, ops)
      && var two := Outcome(start, ops);
      && two.mounted && two.inodes[0].Live() && two.inodes[1].Live()
      && StoredName(two.inodes[0].name) == StoredName(two.inodes[1].name) == Truncated(f)
  {
    var start := Commit(fs, Format(fs, []));
    var mounted := FreshlyMounted(fs);
    var one := Commit(mounted, CreateFile(mounted, f));
    var two := Commit(one, CreateFile(one, f));
    LongNameTwice(mounted, f);
    LongNameStored(mounted, f);
    LongNameStored(one, f);
    hide *;
    MountCreateTwice(start, f);
  }

  lemma MountCreateTwice(start: FS, f: seq<byte>)
    requires |start.disk| >= DATA_SECTOR
    ensures var ops := [MountDisk, Create(f), Create(f)];
      var mounted := Commit(start, Mount(start));
      var one := Commit(mounted, CreateFile(mounted, f));
      PossibleRun(start, ops) && Outcome(start, ops) == Commit(one, CreateFile(one, f))
  {
    assert EffectOf(start, MountDisk) == Mount(start);
    var mounted := Commit(start, Mount(start));
    CreateIsPossible(mounted, f);
    var one := Commit(mounted, CreateFile(mounted, f));
    CreateIsPossible(one, f);
    hide *;
    ThreeCalls(start, MountDisk, Create(f), Create(f));
  }

  lemma CreateIsPossible(fs: FS, f: seq<byte>)
    requires |fs.disk| >= DATA_SECTOR
    ensures Possible(fs, Create(f)) && EffectOf(fs, Create(f)) == CreateFile(fs, f)
  {
  }

  lemma FirstCall(fs: FS, op: Op, rest: seq<Op>)
    requires Possible(fs, op) && PossibleRun(Commit(fs, EffectOf(fs, op)), rest)
    ensures PossibleRun(fs, [op] + rest) && Outcome(fs, [op] + rest) == Outcome(Commit(fs, EffectOf(fs, op)), rest)
  {
    hide Possible, EffectOf, Commit;
    assert ([op] + rest)[1..] == rest;
  }

  lemma ThreeCalls(fs: FS, a: Op, b: Op, c: Op)
    requires Possible(fs, a) && Possible(Commit(fs, EffectOf(fs, a)), b)
    requires var mid := Commit(fs, EffectOf(fs, a)); Possible(Commit(mid, EffectOf(mid, b)), c)
    ensures PossibleRun(fs, [a, b, c])
    ensures var mid := Commit(fs, EffectOf(fs, a)); var last := Commit(mid, EffectOf(mid, b));
      Outcome(fs, [a, b, c]) == Commit(last, EffectOf(last, c))
  {
    hide Possible, EffectOf, Commit;
    var mid := Commit(fs, EffectOf(fs, a));
    var last := Commit(mid, EffectOf(mid, b));
    FirstCall(last, c, []);
    FirstCall(mid, b, [c]);
    FirstCall(fs, a, [b, c]);
    assert [a] + [b, c] == [a, b, c] && [b] + [c] == [b, c] && [c] + [] == [c];
  }
}
