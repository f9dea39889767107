/** What a sequence of sector writes leaves on the disk. */
module FsDisk {
  import opened Bytes
  import opened FsCodec
  import opened FsModel

  lemma {:induction false} ApplyAppend(d: seq<Sector>, a: seq<Write>, b: seq<Write>)
    ensures Apply(d, a + b) == Apply(Apply(d, a), b)
    decreases |b|
  {
    if b == [] {
      assert a + b == a;
    } else {
      assert (a + b)[..|a + b| - 1] == a + b[..|b| - 1];
      ApplyAppend(d, a, b[..|b| - 1]);
    }
  }

  lemma NoWrites(d: seq<Sector>)
    ensures Apply(d, []) == d
  {
  }

  lemma ApplyLast(d: seq<Sector>, ws: seq<Write>, w: Write)
    ensures Apply(d, ws + [w]) == Put(Apply(d, ws), w)
  {
    assert (ws + [w])[..|ws|] == ws;
  }

  lemma {:induction false} ApplyUntouched(d: seq<Sector>, ws: seq<Write>, s: nat)
    requires s < |d| && forall w | w in ws :: w.sector != s
    ensures Apply(d, ws)[s] == d[s]
    decreases |ws|
  {
    if ws != [] {
      ApplyUntouched(d, ws[..|ws| - 1], s);
      assert ws[|ws| - 1] in ws;
    }
  }

  /** A sector holds what it held, or what one of the writes put there. */
  lemma {:induction false} ApplyHit(d: seq<Sector>, ws: seq<Write>, s: nat)
    requires s < |d|
    ensures Apply(d, ws)[s] == d[s] || Write(s, Apply(d, ws)[s]) in ws
    decreases |ws|
  {
    if ws != [] {
      ApplyHit(d, ws[..|ws| - 1], s);
    }
  }

  /** Sector s after the first k writes of an inode table. */
  function AfterTable(d: seq<Sector>, t: InodeTable, k: nat, s: nat): Sector
    requires s < |d| && k <= INODE_SECTORS
  {
    if INODE_SECTOR <= s < INODE_SECTOR + k then InodeSector(t, s - INODE_SECTOR) else d[s]
  }

  /** Sector s after c rounds of WriteFile's loop. */
  function AfterData(d: seq<Sector>, sb: Superblock, start: nat, data: seq<byte>, c: nat, s: nat): Sector
    requires s < |d| && sb.usedSectors + c < 0x1_0000_0000
  {
    if start <= s < start + c then Chunk(data, s - start)
    else if s == SUPERBLOCK_SECTOR && c > 1 then SuperblockSector(Bump(sb, c - 1))
    else d[s]
  }

  /** The first k of the eight writes that save an inode table. */
  lemma {:induction false} ApplyTable(d: seq<Sector>, t: InodeTable, k: nat, s: nat)
    requires k <= INODE_SECTORS && s < |d| && |d| >= DATA_SECTOR
    ensures Apply(d, TableWrites(t)[..k])[s] == AfterTable(d, t, k, s)
    decreases k
  {
    hide InodeSector, Apply;
    if k == 0 {
      NoWrites(d);
      assert TableWrites(t)[..0] == [];
    } else {
      var w := Write(INODE_SECTOR + (k - 1), InodeSector(t, k - 1));
      assert TableWrites(t)[..k] == TableWrites(t)[..k - 1] + [w];
      ApplyLast(d, TableWrites(t)[..k - 1], w);
      ApplyTable(d, t, k - 1, s);
    }
  }

  /** Saving the table on top of earlier writes. */
  lemma ApplyThenTable(d: seq<Sector>, ws: seq<Write>, t: InodeTable)
    requires |d| >= DATA_SECTOR
    ensures forall s :: 0 <= s < |d| ==> Apply(d, ws + TableWrites(t))[s] == AfterTable(Apply(d, ws), t, INODE_SECTORS, s)
  {
    ApplyAppend(d, ws, TableWrites(t));
    assert TableWrites(t)[..INODE_SECTORS] == TableWrites(t);
    forall s | 0 <= s < |d| ensures Apply(d, ws + TableWrites(t))[s] == AfterTable(Apply(d, ws), t, INODE_SECTORS, s) {
      ApplyTable(Apply(d, ws), t, INODE_SECTORS, s);
    }
  }

  lemma ApplyRound(d: seq<Sector>, sb: Superblock, start: nat, data: seq<byte>, c: nat, s: nat)
    requires start >= DATA_SECTOR && start + c < |d| && sb.usedSectors + c < 0x1_0000_0000 && s < |d|
    ensures Apply(d, Round(sb, start, data, c))[s] ==
      if s == start + c then Chunk(data, c)
      else if s == SUPERBLOCK_SECTOR && c > 0 then SuperblockSector(Bump(sb, c))
      else d[s]
  {
    hide Chunk, SuperblockSector, Apply;
    var w := Write(start + c, Chunk(data, c));
    NoWrites(d);
    if c > 0 {
      var v := SuperblockWrite(Bump(sb, c));
      assert Round(sb, start, data, c) == ([] + [v]) + [w];
      ApplyLast(d, [], v);
      ApplyLast(d, [] + [v], w);
    } else {
      assert Round(sb, start, data, c) == [] + [w];
      ApplyLast(d, [], w);
    }
  }

  /** The data sectors land side by side, and the superblock sector holds the last bump. */
  lemma {:induction false} ApplyData(d: seq<Sector>, sb: Superblock, start: nat, data: seq<byte>, c: nat, s: nat)
    requires start >= DATA_SECTOR && start + c <= |d| && sb.usedSectors + c < 0x1_0000_0000 && s < |d|
    ensures Apply(d, DataWrites(sb, start, data, c))[s] == AfterData(d, sb, start, data, c, s)
    decreases c
  {
    hide Chunk, SuperblockSector, Apply, Round;
    if c == 0 {
      NoWrites(d);
    } else {
      var before := DataWrites(sb, start, data, c - 1);
      ApplyData(d, sb, start, data, c - 1, s);
      ApplyAppend(d, before, Round(sb, start, data, c - 1));
      ApplyRound(Apply(d, before), sb, start, data, c - 1, s);
    }
  }

  /** Every write of the data loop goes to a data sector of the file or bumps the superblock. */
  lemma {:induction false} DataWritesShape(sb: Superblock, start: nat, data: seq<byte>, c: nat, w: Write)
    requires sb.usedSectors + c < 0x1_0000_0000 && w in DataWrites(sb, start, data, c)
    ensures start <= w.sector < start + c || exists j :: 1 <= j < c && w == SuperblockWrite(Bump(sb, j))
  {
    if c > 0 && w in DataWrites(sb, start, data, c - 1) {
      DataWritesShape(sb, start, data, c - 1, w);
    }
  }
}
