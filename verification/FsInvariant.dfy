/** The invariant of the file system, and the map of files that it stands for. */
module FsInvariant {
  import opened Bytes
  import opened FsCodec
  import opened FsModel
  import opened FsDisk

  /** Sector s holds data of the file. */
  predicate Owns(n: Inode, s: int) {
    n.Live() && n.startSector <= s < n.startSector + Sectors(n.size)
  }

  /** A live file is empty and unplaced, or its sectors lie below the high-water mark. */
  predicate Placed(n: Inode, used: nat) {
    n.Live() ==>
      && n.size < 0x8000_0000
      && (n.startSector == 0 ==> n.size == 0)
      && (n.startSector > 0 ==> DATA_SECTOR <= n.startSector < DATA_SECTOR + used
                                && n.startSector + Sectors(n.size) <= DATA_SECTOR + used)
  }

  /** Names of live files are terminated, and different as C strings. */
  ghost predicate NamesOk(t: seq<Inode>) {
    && (forall i :: 0 <= i < |t| && t[i].Live() ==> 0 in t[i].name)
    && (forall i, j :: 0 <= i < j < |t| && t[i].Live() && t[j].Live() ==> StoredName(t[i].name) != StoredName(t[j].name))
  }

  ghost predicate Disjoint(t: seq<Inode>) {
    forall i, j, s :: 0 <= i < |t| && 0 <= j < |t| && i != j && Owns(t[i], s) ==> !Owns(t[j], s)
  }

  /** What every operation keeps. The inode count is separate (`CountOk`), because after a crash
      it may lag behind. */
  ghost predicate Consistent(fs: FS) {
    && fs.sb.magic == MAGIC
    && NamesOk(fs.inodes)
    && (forall i :: 0 <= i < MAX_FILES ==> Placed(fs.inodes[i], fs.sb.usedSectors))
    && Disjoint(fs.inodes)
    && DATA_SECTOR + fs.sb.usedSectors <= |fs.disk| <= 0x1000_0000
    && fs.disk[SUPERBLOCK_SECTOR] == SuperblockSector(fs.sb)
    && TableOnDisk(fs.disk, fs.inodes)
  }

  function CountLive(t: seq<Inode>): (c: nat)
    ensures c <= |t|
  {
    if t == [] then 0 else (if t[0].Live() then 1 else 0) + CountLive(t[1..])
  }

  ghost predicate CountOk(fs: FS) {
    fs.sb.inodeCount == CountLive(fs.inodes)
  }

  /** The files: names and contents. */
  ghost function View(d: seq<Sector>, t: seq<Inode>): map<seq<byte>, seq<byte>>
    requires NamesOk(t)
  {
    map i | 0 <= i < |t| && t[i].Live() :: StoredName(t[i].name) := Content(d, t[i])
  }

  ghost function Files(fs: FS): map<seq<byte>, seq<byte>>
    requires NamesOk(fs.inodes)
  {
    View(fs.disk, fs.inodes)
  }

  // Names

  lemma {:induction false} StoredNameIs(s: seq<byte>)
    requires 0 in s
    ensures var f := StoredName(s); |f| < |s| && s[..|f|] == f && s[|f|] == 0 && CString(f)
  {
    if s[0] != 0 {
      StoredNameIs(s[1..]);
      assert s == [s[0]] + s[1..];
    }
  }

  lemma {:induction false} StoredNameOf(s: seq<byte>, f: seq<byte>)
    requires CString(f) && |f| < |s| && s[..|f|] == f && s[|f|] == 0
    ensures StoredName(s) == f
  {
    if f != [] {
      assert s[0] == f[0];
      assert s[1..][..|f| - 1] == f[1..];
      StoredNameOf(s[1..], f[1..]);
    }
  }

  /** OpenFile's comparison is equality of C strings; a name of 32 characters or more matches
      nothing. */
  lemma MatchesIsEquality(s: Name, f: seq<byte>)
    requires 0 in s && CString(f)
    ensures Matches(s, f) <==> StoredName(s) == f
  {
    StoredNameIs(s);
    if |f| >= MAX_FILENAME {
      assert s[|StoredName(s)|] == 0 && f[|StoredName(s)|] in f;
    } else if Matches(s, f) {
      StoredNameOf(s, f);
    }
  }

  lemma CopyNameStores(previous: Name, f: seq<byte>)
    requires CString(f)
    ensures 0 in CopyName(previous, f) && StoredName(CopyName(previous, f)) == Truncated(f)
  {
    var s := CopyName(previous, f);
    assert s[|Truncated(f)|] == 0;
    StoredNameOf(s, Truncated(f));
  }

  // The map of files

  lemma ViewHas(d: seq<Sector>, t: seq<Inode>, i: nat)
    requires NamesOk(t) && i < |t| && t[i].Live()
    ensures StoredName(t[i].name) in View(d, t) && View(d, t)[StoredName(t[i].name)] == Content(d, t[i])
  {
  }

  /** Looking a name up in the table is looking it up in the map. */
  lemma FindIsLookup(d: seq<Sector>, t: seq<Inode>, f: seq<byte>)
    requires NamesOk(t) && CString(f)
    ensures Find(t, f) < |t| <==> f in View(d, t)
    ensures Find(t, f) < |t| ==> StoredName(t[Find(t, f)].name) == f && View(d, t)[f] == Content(d, t[Find(t, f)])
  {
    var i := Find(t, f);
    if i < |t| {
      MatchesIsEquality(t[i].name, f);
      ViewHas(d, t, i);
    }
    if f in View(d, t) {
      var j :| 0 <= j < |t| && t[j].Live() && StoredName(t[j].name) == f;
      MatchesIsEquality(t[j].name, f);
    }
  }

  lemma ContentSame(d: seq<Sector>, e: seq<Sector>, n: Inode)
    requires |d| == |e| && n.Live()
    requires forall s :: 0 <= s < |d| && Owns(n, s) ==> e[s] == d[s]
    ensures Content(e, n) == Content(d, n)
  {
    if n.startSector + Sectors(n.size) <= |d| {
      forall b | 0 <= b < n.size ensures e[n.startSector + b / 512][b % 512] == d[n.startSector + b / 512][b % 512] {
        assert b / 512 < Sectors(n.size);
        assert Owns(n, n.startSector + b / 512);
      }
    }
  }

  /** A disk that keeps every owned sector keeps every file. */
  lemma ViewSame(d: seq<Sector>, e: seq<Sector>, t: seq<Inode>)
    requires NamesOk(t) && |d| == |e|
    requires forall i, s :: 0 <= i < |t| && 0 <= s < |d| && Owns(t[i], s) ==> e[s] == d[s]
    ensures View(e, t) == View(d, t)
  {
    forall i | 0 <= i < |t| && t[i].Live() ensures Content(e, t[i]) == Content(d, t[i]) {
      ContentSame(d, e, t[i]);
    }
  }

  /** The map after inode i, which held file a, has become n. */
  ghost function Updated(m: map<seq<byte>, seq<byte>>, a: Inode, n: Inode, content: seq<byte>): map<seq<byte>, seq<byte>> {
    var rest := if a.Live() then m - {StoredName(a.name)} else m;
    if n.Live() then rest[StoredName(n.name) := content] else rest
  }

  ghost predicate Entry(m: map<seq<byte>, seq<byte>>, d: seq<Sector>, n: Inode) {
    StoredName(n.name) in m && m[StoredName(n.name)] == Content(d, n)
  }

  /** A map with an entry for every live inode, and no other key, is the map of files. */
  lemma ViewIs(d: seq<Sector>, t: seq<Inode>, m: map<seq<byte>, seq<byte>>)
    requires NamesOk(t)
    requires forall i :: 0 <= i < |t| && t[i].Live() ==> Entry(m, d, t[i])
    requires forall f :: f in m ==> f in NameSet(t)
    ensures View(d, t) == m
  {
    hide Content, StoredName;
    forall f | f in View(d, t) ensures f in m && m[f] == View(d, t)[f] {
      var i :| 0 <= i < |t| && t[i].Live() && StoredName(t[i].name) == f;
      assert Entry(m, d, t[i]);
      ViewHas(d, t, i);
    }
    forall f | f in m ensures f in View(d, t) {
      assert f in NameSet(t);
    }
  }

  /** Changing inode i while the other files keep their sectors. */
  lemma ViewUpdate(d: seq<Sector>, e: seq<Sector>, t: seq<Inode>, i: nat, n: Inode)
    requires NamesOk(t) && i < |t| && NamesOk(t[i := n]) && |d| == |e|
    requires forall j, s :: 0 <= j < |t| && j != i && 0 <= s < |d| && Owns(t[j], s) ==> e[s] == d[s]
    ensures View(e, t[i := n]) == Updated(View(d, t), t[i], n, Content(e, n))
  {
    var u := t[i := n];
    var goal := Updated(View(d, t), t[i], n, Content(e, n));
    forall j | 0 <= j < |u| && u[j].Live() ensures Entry(goal, e, u[j]) {
      if j != i {
        UpdatedKeeps(d, e, t, i, n, j);
      }
    }
    hide Content, StoredName, Owns, NamesOk;
    forall f | f in goal ensures f in NameSet(u) {
      if n.Live() && f == StoredName(n.name) {
        assert u[i].Live();
      } else {
        assert f in View(d, t);
        ViewKeys(d, t);
        var j :| 0 <= j < |t| && t[j].Live() && StoredName(t[j].name) == f;
        assert j != i && u[j] == t[j];
      }
    }
    ViewIs(e, u, goal);
  }

  lemma UpdatedKeeps(d: seq<Sector>, e: seq<Sector>, t: seq<Inode>, i: nat, n: Inode, j: nat)
    requires NamesOk(t) && i < |t| && NamesOk(t[i := n]) && |d| == |e|
    requires j < |t| && j != i && t[j].Live()
    requires forall s :: 0 <= s < |d| && Owns(t[j], s) ==> e[s] == d[s]
    ensures Entry(Updated(View(d, t), t[i], n, Content(e, n)), e, t[j])
  {
    hide View, Content, StoredName, NamesOk, Owns;
    ContentSame(d, e, t[j]);
    ViewHas(d, t, j);
    if t[i].Live() {
      DistinctNames(t, i, j);
    }
    if n.Live() {
      DistinctNames(t[i := n], i, j);
    }
    UpdatedElsewhere(View(d, t), t[i], n, Content(e, n), StoredName(t[j].name));
  }

  lemma UpdatedElsewhere(m: map<seq<byte>, seq<byte>>, a: Inode, n: Inode, content: seq<byte>, f: seq<byte>)
    requires f in m && (a.Live() ==> f != StoredName(a.name)) && (n.Live() ==> f != StoredName(n.name))
    ensures var r := Updated(m, a, n, content); f in r && r[f] == m[f]
  {
    hide StoredName;
  }

  lemma Overwritten(m: map<seq<byte>, seq<byte>>, f: seq<byte>, a: seq<byte>, b: seq<byte>)
    ensures m[f := a][f := b] == m[f := b]
  {
  }

  lemma DistinctNames(t: seq<Inode>, i: nat, j: nat)
    requires NamesOk(t) && i < |t| && j < |t| && i != j && t[i].Live() && t[j].Live()
    ensures StoredName(t[i].name) != StoredName(t[j].name)
  {
  }

  /** The names in use. */
  ghost function NameSet(t: seq<Inode>): set<seq<byte>> {
    set i | 0 <= i < |t| && t[i].Live() :: StoredName(t[i].name)
  }

  lemma ViewKeys(d: seq<Sector>, t: seq<Inode>)
    requires NamesOk(t)
    ensures View(d, t).Keys == NameSet(t)
  {
    hide StoredName, Content;
  }

  // Counting

  lemma {:induction false} CountUpdate(t: seq<Inode>, i: nat, n: Inode)
    requires i < |t|
    ensures CountLive(t[i := n]) == CountLive(t) - (if t[i].Live() then 1 else 0) + (if n.Live() then 1 else 0)
  {
    if i > 0 {
      assert t[i := n][1..] == t[1..][i - 1 := n];
      CountUpdate(t[1..], i - 1, n);
    } else {
      assert t[i := n][1..] == t[1..];
    }
  }

  lemma {:induction false} CountFull(t: seq<Inode>)
    ensures FirstEmpty(t) == |t| <==> CountLive(t) == |t|
  {
    if t != [] {
      CountFull(t[1..]);
    }
  }

  lemma {:induction false} NameSetSize(t: seq<Inode>)
    requires NamesOk(t)
    ensures |NameSet(t)| == CountLive(t)
  {
    if t != [] {
      var u := t[1..];
      assert NamesOk(u);
      NameSetSize(u);
      NameSetCons(t);
      assert t[0].Live() ==> StoredName(t[0].name) !in NameSet(u);
    }
  }

  lemma NameSetCons(t: seq<Inode>)
    requires t != []
    ensures NameSet(t) == NameSet(t[1..]) + (if t[0].Live() then {StoredName(t[0].name)} else {})
  {
    hide StoredName;
    var u := t[1..];
    forall g | g in NameSet(u) ensures g in NameSet(t) {
      var i :| 0 <= i < |u| && u[i].Live() && StoredName(u[i].name) == g;
      assert t[i + 1].Live();
    }
    forall g | g in NameSet(t) && !(t[0].Live() && g == StoredName(t[0].name)) ensures g in NameSet(u) {
      var i :| 0 <= i < |t| && t[i].Live() && StoredName(t[i].name) == g;
      assert u[i - 1].Live();
    }
  }

  /** There are as many names in the map as live inodes. */
  lemma ViewSize(d: seq<Sector>, t: seq<Inode>)
    requires NamesOk(t)
    ensures |View(d, t)| == CountLive(t)
  {
    NameSetSize(t);
    ViewKeys(d, t);
    assert |View(d, t)| == |View(d, t).Keys|;
  }
}
