/** When overwriting a file is crash-atomic, exactly. */
module FsRewrite {
  import opened Bytes
  import opened FsCodec
  import opened FsModel
  import opened FsInvariant
  import opened FsWrite
  import opened FsCrash

  /** The file is still empty, or gets no data, or keeps a size that fits one sector. */
  predicate AtomicSize(was: nat, size: nat) {
    was == 0 || size == 0 || (was == size && size <= 512)
  }

  /** A disk recovers one map of files at most. */
  lemma RecoversOne(d: seq<Sector>, m: map<seq<byte>, seq<byte>>, n: map<seq<byte>, seq<byte>>)
    requires Recovers(d, m) && Recovers(d, n)
    ensures m == n
  {
    hide Consistent, View, Remount;
  }

  /** All or nothing is a matter of the written file alone. */
  lemma AtomicIs(fs: FS, i: int, data: seq<byte>, k: nat)
    requires Consistent(fs) && Accessible(fs, i) && Room(fs, i, |data|) && RewriteSafe(fs, i, |data|)
    requires k <= |WriteFile(fs, i, data).writes|
    ensures Consistent(Commit(fs, WriteFile(fs, i, data))) && fs.sb.usedSectors + 1 + Sectors(|data|) < 0x1_0000_0000
    ensures Atomic(fs, WriteFile(fs, i, data), k)
      <==> CrashContent(fs, i, data, k) == data || CrashContent(fs, i, data, k) == Content(fs.disk, fs.inodes[i])
  {
    WriteCorrect(fs, i, data);
    CrashConfined(fs, i, data, k);
    hide StoredName, Content, WriteFile, CrashContent, Recovers, View, Consistent, Apply, RewriteSafe;
    SameEntry(fs, i);
    var f, c, d := StoredName(fs.inodes[i].name), CrashContent(fs, i, data, k), Crashed(fs, WriteFile(fs, i, data), k);
    var m := Files(fs);
    assert m[f := c] == m ==> c == m[f];
    assert m[f := c] == m[f := data] ==> c == data by {
      assert m[f := c][f] == c && m[f := data][f] == data;
    }
    if Recovers(d, m) {
      RecoversOne(d, m, m[f := c]);
    }
    if Recovers(d, m[f := data]) {
      RecoversOne(d, m[f := data], m[f := c]);
    }
  }

  // Overlays

  lemma OverlayOfAtomicSize(was: seq<byte>, data: seq<byte>, p: nat)
    requires AtomicSize(|was|, |data|) && p <= Sectors(|data|)
    ensures Overlay(was, data, p) == was || Overlay(was, data, p) == data
  {
    if p == 0 {
      assert Overlay(was, data, p) == was;
    } else if was != [] {
      assert p == 1 && |was| == |data| <= 512;
      assert Overlay(was, data, p) == data;
    }
  }

  /** Data that shows up a torn overwrite: every byte differs from the one it replaces. */
  function Opposite(was: seq<byte>, size: nat): (data: seq<byte>)
    ensures |data| == size
  {
    seq(size, b requires 0 <= b < size => if b < |was| then (was[b] as int + 1) % 256 else 0)
  }

  lemma OverlayIsTorn(was: seq<byte>, size: nat)
    requires !AtomicSize(|was|, size)
    ensures Overlay(was, Opposite(was, size), 1) != was
    ensures Overlay(was, Opposite(was, size), 1) != Opposite(was, size)
  {
    var data := Opposite(was, size);
    var r := Overlay(was, data, 1);
    assert r[0] == data[0] != was[0];
    if |was| == size {
      assert r[512] == was[512] != data[512];
    }
  }

  /** A crash after k writes leaves neither the old files nor the new ones. */
  ghost predicate Torn(fs: FS, i: int, data: seq<byte>, k: nat)
    requires Consistent(fs) && Room(fs, i, |data|) && k <= |WriteFile(fs, i, data).writes|
  {
    Consistent(Commit(fs, WriteFile(fs, i, data))) && !Atomic(fs, WriteFile(fs, i, data), k)
  }

  lemma TornOverwrite(fs: FS, i: int, size: nat)
    requires Consistent(fs) && Accessible(fs, i) && Room(fs, i, size) && RewriteSafe(fs, i, size)
    requires !AtomicSize(fs.inodes[i].size, size)
    ensures exists data: seq<byte>, k: nat :: |data| == size && k <= |WriteFile(fs, i, data).writes| && Torn(fs, i, data, k)
  {
    var was := Content(fs.disk, fs.inodes[i]);
    assert Placed(fs.inodes[i], fs.sb.usedSectors);
    var data := Opposite(was, size);
    OverlayIsTorn(was, size);
    WriteFileParts(fs, i, data);
    assert |WriteBody(fs, i, data)| >= 1 by {
      LaterBody(fs, i, data);
      DataLength(fs.sb, fs.inodes[i].startSector, data, Sectors(size));
    }
    assert CrashContent(fs, i, data, 1) == Overlay(was, data, 1);
    hide Overlay, Opposite, Content, WriteFile, WriteBody, Consistent, RewriteSafe;
    AtomicIs(fs, i, data, 1);
    assert Torn(fs, i, data, 1);
  }

  lemma AtomicOverwrite(fs: FS, i: int, data: seq<byte>, k: nat)
    requires Consistent(fs) && Accessible(fs, i) && Room(fs, i, |data|) && RewriteSafe(fs, i, |data|)
    requires AtomicSize(fs.inodes[i].size, |data|) && k <= |WriteFile(fs, i, data).writes|
    ensures !Torn(fs, i, data, k)
  {
    var was := Content(fs.disk, fs.inodes[i]);
    assert |was| == fs.inodes[i].size by {
      assert Placed(fs.inodes[i], fs.sb.usedSectors);
    }
    AtomicIs(fs, i, data, k);
    CrashContentShape(fs, i, data, k);
    if CrashContent(fs, i, data, k) != data {
      var p :| 0 <= p <= Sectors(|data|) && CrashContent(fs, i, data, k) == Overlay(was, data, p);
      OverlayOfAtomicSize(was, data, p);
    }
  }

  /** A WriteFile that spares the other files is crash-atomic for all data of a size, at every
      crash point, exactly when the file is still empty, the data is empty, or the size does not
      change and fits one sector. */
  lemma OverwriteAtomicExactly(fs: FS, i: int, size: nat)
    requires Consistent(fs) && Accessible(fs, i) && Room(fs, i, size) && RewriteSafe(fs, i, size)
    ensures AtomicSize(fs.inodes[i].size, size) <==>
      forall data: seq<byte>, k: nat :: |data| == size && k <= |WriteFile(fs, i, data).writes| ==> !Torn(fs, i, data, k)
  {
    if AtomicSize(fs.inodes[i].size, size) {
      forall data: seq<byte>, k: nat | |data| == size && k <= |WriteFile(fs, i, data).writes| ensures !Torn(fs, i, data, k) {
        AtomicOverwrite(fs, i, data, k);
      }
    } else {
      TornOverwrite(fs, i, size);
    }
  }
}
