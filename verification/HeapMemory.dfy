/** Chunk headers as bytes of memory: two pointers, a flag and a size in 16 bytes, as the 32-bit
  target lays out `MemoryChunk` (include/memory.h). */
module HeapMemory {
  import opened Bytes
  import opened HeapModel

  datatype Header = Header(next: uint32, prev: uint32, used: bool, size: uint32)

  function HeaderAt(m: seq<byte>, a: nat): Header
    requires a + HEADER <= |m|
  {
    Header(FromBytes(m[a..a + 4]), FromBytes(m[a + 4..a + 8]), m[a + 8] != 0, FromBytes(m[a + 12..a + 16]))
  }

  function Splice(m: seq<byte>, a: nat, s: seq<byte>): (r: seq<byte>)
    requires a + |s| <= |m|
    ensures |r| == |m|
  {
    m[..a] + s + m[a + |s|..]
  }

  /** Two headers that do not overlap. */
  predicate Apart(a: nat, b: nat) {
    a + HEADER <= b || b + HEADER <= a
  }

  /** Memory `r` is memory `m` except for the header at `a`, which is now `h`. */
  ghost predicate Stored(m: seq<byte>, r: seq<byte>, a: nat, h: Header) {
    && |r| == |m| && a + HEADER <= |m|
    && HeaderAt(r, a) == h
    && (forall b: nat {:trigger HeaderAt(r, b)} :: b + HEADER <= |m| && Apart(a, b) ==> HeaderAt(r, b) == HeaderAt(m, b))
    && (forall x {:trigger r[x]} :: 0 <= x < |m| && !(a <= x < a + HEADER) ==> r[x] == m[x])
  }

  /** Writing bytes inside a header leaves every header apart from it alone. */
  lemma SpliceFrame(m: seq<byte>, a: nat, off: nat, s: seq<byte>)
    requires a + HEADER <= |m| && off + |s| <= HEADER
    ensures var r := Splice(m, a + off, s);
      && (forall b: nat {:trigger HeaderAt(r, b)} :: b + HEADER <= |m| && Apart(a, b) ==> HeaderAt(r, b) == HeaderAt(m, b))
      && (forall x {:trigger r[x]} :: 0 <= x < |m| && !(a <= x < a + HEADER) ==> r[x] == m[x])
  {
    var r := Splice(m, a + off, s);
    forall b: nat | b + HEADER <= |m| && Apart(a, b) ensures HeaderAt(r, b) == HeaderAt(m, b) {
      assert r[b..b + 4] == m[b..b + 4];
      assert r[b + 4..b + 8] == m[b + 4..b + 8];
      assert r[b + 12..b + 16] == m[b + 12..b + 16];
    }
  }

  lemma StoreNext(m: seq<byte>, a: nat, v: uint32)
    requires a + HEADER <= |m|
    ensures Stored(m, Splice(m, a, ToBytes(v)), a, HeaderAt(m, a).(next := v))
  {
    var r := Splice(m, a, ToBytes(v));
    SpliceFrame(m, a, 0, ToBytes(v));
    assert r[a..a + 4] == ToBytes(v);
    assert r[a + 4..a + 8] == m[a + 4..a + 8] && r[a + 12..a + 16] == m[a + 12..a + 16];
    ToFromBytes(v);
  }

  lemma StorePrev(m: seq<byte>, a: nat, v: uint32)
    requires a + HEADER <= |m|
    ensures Stored(m, Splice(m, a + 4, ToBytes(v)), a, HeaderAt(m, a).(prev := v))
  {
    var r := Splice(m, a + 4, ToBytes(v));
    SpliceFrame(m, a, 4, ToBytes(v));
    assert r[a + 4..a + 8] == ToBytes(v);
    assert r[a..a + 4] == m[a..a + 4] && r[a + 12..a + 16] == m[a + 12..a + 16];
    ToFromBytes(v);
  }

  lemma StoreUsed(m: seq<byte>, a: nat, v: bool)
    requires a + HEADER <= |m|
    ensures Stored(m, Splice(m, a + 8, [if v then 1 else 0]), a, HeaderAt(m, a).(used := v))
  {
    var s: seq<byte> := [if v then 1 else 0];
    var r := Splice(m, a + 8, s);
    SpliceFrame(m, a, 8, s);
    assert r[a..a + 4] == m[a..a + 4] && r[a + 4..a + 8] == m[a + 4..a + 8];
    assert r[a + 12..a + 16] == m[a + 12..a + 16];
  }

  lemma StoreSize(m: seq<byte>, a: nat, v: uint32)
    requires a + HEADER <= |m|
    ensures Stored(m, Splice(m, a + 12, ToBytes(v)), a, HeaderAt(m, a).(size := v))
  {
    var r := Splice(m, a + 12, ToBytes(v));
    SpliceFrame(m, a, 12, ToBytes(v));
    assert r[a + 12..a + 16] == ToBytes(v);
    assert r[a..a + 4] == m[a..a + 4] && r[a + 4..a + 8] == m[a + 4..a + 8];
    ToFromBytes(v);
  }

  /** No unsigned expression of `malloc` wraps around on a chunk that lies in 32-bit memory and
      fits the request, although a request may be as large as 2^32 - 1. */
  lemma MallocNoWrap(a: uint32, s: uint32, n: uint32)
    requires 0 < a && a + HEADER + s <= 0x1_0000_0000 && s > n
    ensures Add32(Add32(n, HEADER), 1) == n + HEADER + 1
    ensures Add32(a, HEADER) == a + HEADER
    ensures Add32(Add32(a, HEADER), n) == a + HEADER + n
    ensures s >= n + HEADER + 1 ==> Sub32(Sub32(s, n), HEADER) == s - n - HEADER
  {
  }

  /** Neither does the sum that `free` forms when two neighbours merge. */
  lemma MergeNoWrap(a: uint32, s: uint32, t: uint32)
    requires 0 < a && a + HEADER + s + HEADER + t <= 0x1_0000_0000
    ensures Add32(s, Add32(t, HEADER)) == s + t + HEADER
  {
  }

  // The linked list in memory

  function NextAddr(cs: seq<Chunk>, i: nat): nat
    requires i < |cs|
  {
    if i + 1 < |cs| then cs[i + 1].addr else 0
  }

  function PrevAddr(cs: seq<Chunk>, i: nat): nat
    requires i < |cs|
  {
    if i > 0 then cs[i - 1].addr else 0
  }

  ghost predicate HeaderIs(m: seq<byte>, a: nat, next: nat, prev: nat, used: bool, size: nat) {
    && a + HEADER <= |m|
    && var h := HeaderAt(m, a); h.next == next && h.prev == prev && h.used == used && h.size == size
  }

  /** The header of chunk i is in memory, linked to its neighbours both ways. */
  ghost predicate LinkedAt(m: seq<byte>, cs: seq<Chunk>, i: nat)
    requires i < |cs|
  {
    HeaderIs(m, cs[i].addr, NextAddr(cs, i), PrevAddr(cs, i), cs[i].used, cs[i].size)
  }

  ghost predicate Linked(m: seq<byte>, cs: seq<Chunk>) {
    forall i :: 0 <= i < |cs| ==> LinkedAt(m, cs, i)
  }

  /** What the bytes of a chunk's header say: the address just behind the chunk as the next one, or
      0 at the end of the heap; the previous address, or 0; a flag; the size. */
  lemma HeaderBytesAre(m: seq<byte>, cs: seq<Chunk>, lo: nat, hi: nat, i: nat)
    requires Tiled(cs, lo, hi) && Linked(m, cs) && i < |cs|
    ensures var a, behind := cs[i].addr, cs[i].addr + 16 + cs[i].size;
      && a + 16 <= |m|
      && Word(m, a, if behind == hi then 0 else behind)
      && Word(m, a + 4, if i == 0 then 0 else cs[i - 1].addr)
      && (m[a + 8] != 0 <==> cs[i].used)
      && Word(m, a + 12, cs[i].size)
  {
    var a := cs[i].addr;
    assert LinkedAt(m, cs, i);
    if i < |cs| - 1 {
      assert cs[i].End() == cs[i + 1].addr;
      Bounded(cs, lo, hi, i + 1);
    }
    hide Word, FromBytes;
    LoadedWord(m, a);
    LoadedWord(m, a + 4);
    LoadedWord(m, a + 12);
  }

  /** Is byte x part of a chunk header? */
  ghost predicate InHeader(cs: seq<Chunk>, x: int) {
    exists c :: c in cs && c.addr <= x < c.addr + HEADER
  }

  /** A call changed memory only where a header was before it or is after it. */
  ghost predicate OnlyHeaders(m: seq<byte>, r: seq<byte>, cs: seq<Chunk>, ds: seq<Chunk>) {
    && |r| == |m|
    && forall x :: 0 <= x < |m| && r[x] != m[x] ==> InHeader(cs, x) || InHeader(ds, x)
  }

  ghost predicate SamePayload(m: seq<byte>, r: seq<byte>, c: Chunk) {
    c.End() <= |m| == |r| && m[c.Payload()..c.End()] == r[c.Payload()..c.End()]
  }

  /** A step changed memory only in headers of the list it started from. */
  ghost predicate HeaderBytes(m: seq<byte>, r: seq<byte>, cs: seq<Chunk>) {
    && |r| == |m|
    && forall x :: 0 <= x < |m| && r[x] != m[x] ==> InHeader(cs, x)
  }

  /** Payloads and headers do not overlap. */
  lemma PayloadIsNoHeader(cs: seq<Chunk>, c: Chunk, x: nat, lo: nat, hi: nat)
    requires Tiled(cs, lo, hi) && c in cs && c.Payload() <= x < c.End()
    ensures !InHeader(cs, x) && x < hi
  {
    var i :| 0 <= i < |cs| && cs[i] == c;
    Bounded(cs, lo, hi, i);
    forall d | d in cs ensures !(d.addr <= x < d.addr + HEADER) {
      var j :| 0 <= j < |cs| && cs[j] == d;
      if i < j {
        Ordered(cs, lo, hi, i, j);
      } else if j < i {
        Ordered(cs, lo, hi, j, i);
      }
    }
  }

  lemma BlockKept(m: seq<byte>, r: seq<byte>, cs: seq<Chunk>, ds: seq<Chunk>, lo: nat, hi: nat, c: Chunk)
    requires Tiled(cs, lo, hi) && Tiled(ds, lo, hi) && hi <= |m| && OnlyHeaders(m, r, cs, ds)
    requires c in cs && c in ds
    ensures SamePayload(m, r, c)
  {
    var i :| 0 <= i < |cs| && cs[i] == c;
    Bounded(cs, lo, hi, i);
    forall x: nat | c.Payload() <= x < c.End() ensures r[x] == m[x] {
      PayloadIsNoHeader(cs, c, x, lo, hi);
      PayloadIsNoHeader(ds, c, x, lo, hi);
    }
  }

  /** Hence a block that is live before and after a call keeps every payload byte, and bytes
      outside the heap are not touched. */
  lemma PayloadKept(m: seq<byte>, r: seq<byte>, cs: seq<Chunk>, ds: seq<Chunk>, lo: nat, hi: nat)
    requires Tiled(cs, lo, hi) && Tiled(ds, lo, hi) && hi <= |m| && OnlyHeaders(m, r, cs, ds)
    ensures forall c :: c in Live(cs) && c in Live(ds) ==> SamePayload(m, r, c)
    ensures forall x :: 0 <= x < |m| && !(lo <= x < hi) ==> r[x] == m[x]
  {
    forall c | c in Live(cs) && c in Live(ds) ensures SamePayload(m, r, c) {
      BlockKept(m, r, cs, ds, lo, hi, c);
    }
    forall x | 0 <= x < |m| && !(lo <= x < hi) ensures r[x] == m[x] {
      HeadersInside(cs, x, lo, hi);
      HeadersInside(ds, x, lo, hi);
    }
  }

  lemma HeadersInside(cs: seq<Chunk>, x: int, lo: nat, hi: nat)
    requires Tiled(cs, lo, hi) && !(lo <= x < hi)
    ensures !InHeader(cs, x)
  {
    forall c | c in cs ensures !(c.addr <= x < c.addr + HEADER) {
      var i :| 0 <= i < |cs| && cs[i] == c;
      Bounded(cs, lo, hi, i);
    }
  }

  // Effect of the stores on the linked list

  /** Chunk k cut after n payload bytes, both parts still free. */
  function Cut(cs: seq<Chunk>, k: nat, n: nat): seq<Chunk>
    requires k < |cs| && cs[k].size >= n + HEADER + 1
  {
    cs[..k] + [Chunk(cs[k].addr, n, cs[k].used), Chunk(cs[k].addr + HEADER + n, cs[k].size - n - HEADER, false)] + cs[k + 1..]
  }

  /** Headers in the list other than those of chunks i..j-1 are stored apart from them. */
  lemma OthersApart(cs: seq<Chunk>, lo: nat, hi: nat, i: nat, j: nat)
    requires Tiled(cs, lo, hi) && i < |cs| && j < |cs| && i != j
    ensures Apart(cs[i].addr, cs[j].addr)
    ensures i < j ==> cs[i].End() <= cs[j].addr
    ensures j < i ==> cs[j].End() <= cs[i].addr
  {
    if i < j {
      Ordered(cs, lo, hi, i, j);
    } else {
      Ordered(cs, lo, hi, j, i);
    }
  }

  /** What a linked list says about chunk k and its right neighbour. */
  lemma ListFacts(m: seq<byte>, cs: seq<Chunk>, k: nat, lo: nat, hi: nat)
    requires Tiled(cs, lo, hi) && Linked(m, cs) && k < |cs|
    ensures lo <= cs[k].addr && cs[k].End() <= hi && LinkedAt(m, cs, k)
    ensures k + 1 < |cs| ==> LinkedAt(m, cs, k + 1) && cs[k].End() == cs[k + 1].addr && cs[k + 1].End() <= hi
  {
    Bounded(cs, lo, hi, k);
    assert LinkedAt(m, cs, k);
    if k + 1 < |cs| {
      Bounded(cs, lo, hi, k + 1);
      assert LinkedAt(m, cs, k + 1);
    }
  }

  /** Changing one flag in the list and in memory. */
  lemma FlagLinked(m: seq<byte>, r: seq<byte>, cs: seq<Chunk>, k: nat, b: bool, lo: nat, hi: nat)
    requires Tiled(cs, lo, hi) && Linked(m, cs) && k < |cs|
    requires cs[k].addr + HEADER <= |m| && Stored(m, r, cs[k].addr, HeaderAt(m, cs[k].addr).(used := b))
    ensures Linked(r, cs[k := cs[k].(used := b)])
  {
    var ds := cs[k := cs[k].(used := b)];
    assert LinkedAt(m, cs, k);
    forall j | 0 <= j < |ds| ensures LinkedAt(r, ds, j) {
      assert LinkedAt(m, cs, j);
      if j != k {
        OthersApart(cs, lo, hi, k, j);
      }
    }
  }

  /** `malloc` cuts the chunk it found when that is worth it, and then takes the front part. */
  lemma MallocIsCut(cs: seq<Chunk>, n: nat)
    ensures var k := FirstFit(cs, n);
      k < |cs| ==> var ds := if cs[k].size >= n + HEADER + 1 then Cut(cs, k, n) else cs;
                   Malloc(cs, n) == ds[k := ds[k].(used := true)]
  {
    var k := FirstFit(cs, n);
    if k < |cs| {
      assert Fits(cs[k], n);
      hide FirstFit, Cut;
      if cs[k].size >= n + HEADER + 1 {
        CutTaken(cs, k, n);
      } else {
        WholeTaken(cs, k);
      }
    }
  }

  lemma CutTaken(cs: seq<Chunk>, k: nat, n: nat)
    requires k < |cs| && cs[k].size >= n + HEADER + 1 && Fits(cs[k], n)
    ensures |Cut(cs, k, n)| == |cs| + 1
    ensures var ds := Cut(cs, k, n); ds[k := ds[k].(used := true)] == cs[..k] + Carve(cs[k], n) + cs[k + 1..]
  {
    var front, rest := Chunk(cs[k].addr, n, cs[k].used), Chunk(cs[k].addr + HEADER + n, cs[k].size - n - HEADER, false);
    assert Cut(cs, k, n)[k] == front;
    TakeFirst(cs[..k], front, [rest] + cs[k + 1..]);
    assert Cut(cs, k, n) == cs[..k] + [front] + ([rest] + cs[k + 1..]);
    assert cs[..k] + Carve(cs[k], n) + cs[k + 1..] == cs[..k] + [front.(used := true)] + ([rest] + cs[k + 1..]);
  }

  lemma WholeTaken(cs: seq<Chunk>, k: nat)
    requires k < |cs|
    ensures cs[k := cs[k].(used := true)] == cs[..k] + [cs[k].(used := true)] + cs[k + 1..]
  {
  }

  lemma TakeFirst(left: seq<Chunk>, c: Chunk, right: seq<Chunk>)
    ensures (left + [c] + right)[|left| := c.(used := true)] == left + [c.(used := true)] + right
  {
  }

  lemma CutTiled(cs: seq<Chunk>, k: nat, n: nat, lo: nat, hi: nat)
    requires Tiled(cs, lo, hi) && k < |cs| && cs[k].size >= n + HEADER + 1
    ensures Tiled(Cut(cs, k, n), lo, hi)
  {
    var ds := Cut(cs, k, n);
    forall i | 0 <= i < |ds| - 1 ensures ds[i].End() == ds[i + 1].addr {
      if i < k {
        assert cs[i].End() == cs[i + 1].addr;
      } else if i > k {
        assert cs[i - 1].End() == cs[i].addr;
      }
    }
  }

  /** Every header of r other than those at a, b and c is as in m (0 stands for none). */
  ghost predicate Elsewhere(m: seq<byte>, r: seq<byte>, a: nat, b: nat, c: nat) {
    && |r| == |m|
    && forall x: nat {:trigger HeaderAt(r, x)} :: x + HEADER <= |m| && Apart(a, x) && (b == 0 || Apart(b, x)) && (c == 0 || Apart(c, x))
                                                  ==> HeaderAt(r, x) == HeaderAt(m, x)
  }

  /** A byte of r outside the headers at a, b and c is as in m (0 stands for none). */
  ghost predicate BytesElsewhere(m: seq<byte>, r: seq<byte>, a: nat, b: nat, c: nat) {
    && |r| == |m|
    && forall x {:trigger r[x]} :: 0 <= x < |m| && !(a <= x < a + HEADER) && (b == 0 || !(b <= x < b + HEADER)) && (c == 0 || !(c <= x < c + HEADER))
                                   ==> r[x] == m[x]
  }

  /** The stores that cut chunk k: its own header, a new one inside it, and the back pointer of
      its right neighbour. */
  ghost predicate CutStores(m: seq<byte>, r: seq<byte>, cs: seq<Chunk>, k: nat, n: nat)
    requires k < |cs| && cs[k].size >= n + HEADER + 1
  {
    var a, t := cs[k].addr, cs[k].addr + HEADER + n;
    && HeaderIs(r, a, t, PrevAddr(cs, k), cs[k].used, n)
    && HeaderIs(r, t, NextAddr(cs, k), a, false, cs[k].size - n - HEADER)
    && (k + 1 < |cs| ==> HeaderIs(r, cs[k + 1].addr, NextAddr(cs, k + 1), t, cs[k + 1].used, cs[k + 1].size))
    && Elsewhere(m, r, a, t, NextAddr(cs, k))
    && BytesElsewhere(m, r, a, t, NextAddr(cs, k))
  }

  /** Two stores to one header act as one. */
  lemma StoredTwice(m: seq<byte>, m1: seq<byte>, r: seq<byte>, a: nat, h: Header, g: Header)
    requires Stored(m, m1, a, h) && Stored(m1, r, a, g)
    ensures Stored(m, r, a, g)
  {
    forall b: nat | b + HEADER <= |m| && Apart(a, b) ensures HeaderAt(r, b) == HeaderAt(m, b) {
      assert HeaderAt(r, b) == HeaderAt(m1, b);
    }
  }

  /** Stores to different headers add up. */
  lemma StoredElsewhere(m: seq<byte>, m1: seq<byte>, m2: seq<byte>, r: seq<byte>, a: nat, b: nat, c: nat, f: Header, g: Header, h: Header)
    requires if b == 0 then m1 == m else Stored(m, m1, b, f)
    requires if c == 0 then m2 == m1 else Stored(m1, m2, c, g)
    requires Stored(m2, r, a, h)
    ensures Elsewhere(m, r, a, b, c) && BytesElsewhere(m, r, a, b, c)
  {
    forall x: nat | x + HEADER <= |m| && Apart(a, x) && (b == 0 || Apart(b, x)) && (c == 0 || Apart(c, x)) ensures HeaderAt(r, x) == HeaderAt(m, x) {
      assert HeaderAt(r, x) == HeaderAt(m2, x) == HeaderAt(m1, x);
    }
  }

  /** The stores of a cut one by one: the new header, the back pointer of the right neighbour,
      then size and next of the chunk itself. */
  lemma CutStored(m: seq<byte>, m1: seq<byte>, m2: seq<byte>, m3: seq<byte>, r: seq<byte>,
                  cs: seq<Chunk>, k: nat, n: uint32, lo: nat, hi: nat)
    requires Tiled(cs, lo, hi) && Linked(m, cs) && 0 < lo && hi <= |m| <= 0x1_0000_0000
    requires k < |cs| && cs[k].size >= n + HEADER + 1
    requires var t := cs[k].addr + HEADER + n;
      && 0 <= t < 0x1_0000_0000 && cs[k].addr + HEADER <= |m| && cs[k].size < 0x1_0000_0000
      && Stored(m, m1, t, Header(HeaderAt(m, cs[k].addr).next, cs[k].addr, false, cs[k].size - n - HEADER))
      && (if k + 1 == |cs| then m2 == m1
          else cs[k + 1].addr + HEADER <= |m1| && Stored(m1, m2, cs[k + 1].addr, HeaderAt(m1, cs[k + 1].addr).(prev := t)))
      && |m2| == |m| && Stored(m2, m3, cs[k].addr, HeaderAt(m2, cs[k].addr).(size := n))
      && Stored(m3, r, cs[k].addr, HeaderAt(m3, cs[k].addr).(next := t))
    ensures CutStores(m, r, cs, k, n)
  {
    ListFacts(m, cs, k, lo, hi);
    var a, t, nx := cs[k].addr, cs[k].addr + HEADER + n, NextAddr(cs, k);
    StoredTwice(m2, m3, r, a, HeaderAt(m3, a), HeaderAt(r, a));
    if nx == 0 {
      StoredElsewhere(m, m1, m2, r, a, t, nx, HeaderAt(m1, t), HeaderAt(m1, t), HeaderAt(r, a));
    } else {
      StoredElsewhere(m, m1, m2, r, a, t, nx, HeaderAt(m1, t), HeaderAt(m2, nx), HeaderAt(r, a));
    }
  }

  lemma CutLinked(m: seq<byte>, r: seq<byte>, cs: seq<Chunk>, k: nat, n: nat, lo: nat, hi: nat)
    requires Tiled(cs, lo, hi) && Linked(m, cs) && k < |cs| && cs[k].size >= n + HEADER + 1
    requires CutStores(m, r, cs, k, n)
    ensures Linked(r, Cut(cs, k, n))
    ensures OnlyHeaders(m, r, cs, Cut(cs, k, n))
  {
    hide HeaderAt;
    var ds := Cut(cs, k, n);
    assert cs[k] in cs && ds[k + 1] in ds && (k + 1 < |cs| ==> cs[k + 1] in cs);
    forall j | 0 <= j < |ds| ensures LinkedAt(r, ds, j) {
      if j < k || j > k + 2 {
        var i := if j < k then j else j - 1;
        assert ds[j] == cs[i] && LinkedAt(m, cs, i);
        OthersApart(cs, lo, hi, k, i);
        if k + 1 < |cs| {
          OthersApart(cs, lo, hi, k + 1, i);
        }
        assert NextAddr(ds, j) == NextAddr(cs, i);
        assert PrevAddr(ds, j) == PrevAddr(cs, i);
      }
    }
  }

  /** The stores that let chunk k swallow its right neighbour. */
  ghost predicate MergeStores(m: seq<byte>, r: seq<byte>, cs: seq<Chunk>, k: nat)
    requires k + 1 < |cs|
  {
    var a := cs[k].addr;
    && HeaderIs(r, a, NextAddr(cs, k + 1), PrevAddr(cs, k), cs[k].used, cs[k].size + cs[k + 1].size + HEADER)
    && (k + 2 < |cs| ==> HeaderIs(r, cs[k + 2].addr, NextAddr(cs, k + 2), a, cs[k + 2].used, cs[k + 2].size))
    && Elsewhere(m, r, a, 0, NextAddr(cs, k + 1))
    && BytesElsewhere(m, r, a, 0, NextAddr(cs, k + 1))
  }

  lemma MergeKeepsRight(m: seq<byte>, m1: seq<byte>, cs: seq<Chunk>, k: nat)
    requires k + 1 < |cs| && cs[k].End() == cs[k + 1].addr && cs[k + 1].addr + HEADER <= |m| == |m1|
    requires Stored(m, m1, cs[k].addr, HeaderAt(m1, cs[k].addr))
    ensures HeaderAt(m1, cs[k + 1].addr) == HeaderAt(m, cs[k + 1].addr)
  {
  }

  /** The stores of a merge one by one: size and next of the chunk, then the back pointer of the
      chunk behind the swallowed one. */
  lemma MergeStored(m: seq<byte>, m1: seq<byte>, m2: seq<byte>, r: seq<byte>, cs: seq<Chunk>, k: nat, lo: nat, hi: nat)
    requires Tiled(cs, lo, hi) && Linked(m, cs) && 0 < lo && hi <= |m| <= 0x1_0000_0000
    requires k + 1 < |cs| && cs[k].size + cs[k + 1].size + HEADER < 0x1_0000_0000 && NextAddr(cs, k + 1) < 0x1_0000_0000
    requires var a := cs[k].addr;
      && 0 <= a < 0x1_0000_0000 && a + HEADER <= |m|
      && Stored(m, m1, a, HeaderAt(m, a).(size := cs[k].size + cs[k + 1].size + HEADER))
      && Stored(m1, m2, a, HeaderAt(m1, a).(next := NextAddr(cs, k + 1)))
      && (if k + 2 == |cs| then r == m2
          else cs[k + 2].addr + HEADER <= |m2| && Stored(m2, r, cs[k + 2].addr, HeaderAt(m2, cs[k + 2].addr).(prev := a)))
    ensures MergeStores(m, r, cs, k)
  {
    hide HeaderAt;
    ListFacts(m, cs, k, lo, hi);
    ListFacts(m, cs, k + 1, lo, hi);
    var a, nx := cs[k].addr, NextAddr(cs, k + 1);
    StoredTwice(m, m1, m2, a, HeaderAt(m1, a), HeaderAt(m2, a));
    if nx != 0 {
      assert LinkedAt(m, cs, k + 2);
      StoredElsewhere(m, m, m2, r, nx, 0, a, HeaderAt(m, a), HeaderAt(m2, a), HeaderAt(r, nx));
    }
  }

  lemma MergeLinked(m: seq<byte>, r: seq<byte>, cs: seq<Chunk>, k: nat, lo: nat, hi: nat)
    requires Tiled(cs, lo, hi) && Linked(m, cs) && k + 1 < |cs|
    requires MergeStores(m, r, cs, k)
    ensures Linked(r, Merge(cs, k))
    ensures HeaderBytes(m, r, cs)
  {
    hide HeaderAt;
    var ds := Merge(cs, k);
    assert cs[k] in cs && (k + 2 < |cs| ==> cs[k + 2] in cs);
    forall j | 0 <= j < |ds| ensures LinkedAt(r, ds, j) {
      if j < k || j > k + 1 {
        var i := if j < k then j else j + 1;
        assert ds[j] == cs[i] && LinkedAt(m, cs, i);
        OthersApart(cs, lo, hi, k, i);
        if k + 2 < |cs| {
          OthersApart(cs, lo, hi, k + 2, i);
        }
        assert NextAddr(ds, j) == NextAddr(cs, i);
        assert PrevAddr(ds, j) == PrevAddr(cs, i);
      }
    }
  }

  /** Setting the flag of chunk k after other header stores leaves payloads alone. */
  lemma FlagBytes(m: seq<byte>, m1: seq<byte>, r: seq<byte>, cs: seq<Chunk>, ds: seq<Chunk>, k: nat, b: bool)
    requires OnlyHeaders(m, m1, cs, ds) && k < |ds| && ds[k].addr + HEADER <= |m1|
    requires Stored(m1, r, ds[k].addr, HeaderAt(m1, ds[k].addr).(used := b))
    ensures OnlyHeaders(m, r, cs, ds[k := ds[k].(used := b)])
  {
    var es := ds[k := ds[k].(used := b)];
    forall x | 0 <= x < |m| && r[x] != m[x] ensures InHeader(cs, x) || InHeader(es, x) {
      if ds[k].addr <= x < ds[k].addr + HEADER {
        assert es[k] in es;
      } else if !InHeader(cs, x) {
        assert m1[x] != m[x];
        var i :| 0 <= i < |ds| && ds[i].addr <= x < ds[i].addr + HEADER;
        assert es[i] in es;
      }
    }
  }

  // The steps of `free`

  function MergedNext(cs: seq<Chunk>, k: nat): seq<Chunk>
    requires k < |cs|
  {
    if k + 1 < |cs| && !cs[k + 1].used then Merge(cs, k) else cs
  }

  function MergedPrev(cs: seq<Chunk>, k: nat): seq<Chunk>
    requires k < |cs|
  {
    if k > 0 && !cs[k - 1].used then Merge(cs, k - 1) else cs
  }

  lemma MergedNextKeeps(cs: seq<Chunk>, k: nat)
    requires k < |cs|
    ensures k < |MergedNext(cs, k)| && MergedNext(cs, k)[k].addr == cs[k].addr
  {
  }

  lemma FreeInSteps(cs: seq<Chunk>, k: nat)
    requires k < |cs|
    ensures k < |MergedNext(cs[k := cs[k].(used := false)], k)|
    ensures FreeAt(cs, k) == MergedPrev(MergedNext(cs[k := cs[k].(used := false)], k), k)
  {
  }

  lemma FreeBytes(m: seq<byte>, m1: seq<byte>, m2: seq<byte>, r: seq<byte>, cs: seq<Chunk>, k: nat)
    requires k < |cs| && cs[k].addr + HEADER <= |m|
    requires Stored(m, m1, cs[k].addr, HeaderAt(m, cs[k].addr).(used := false))
    requires HeaderBytes(m1, m2, cs[k := cs[k].(used := false)])
    requires HeaderBytes(m2, r, MergedNext(cs[k := cs[k].(used := false)], k))
    ensures OnlyHeaders(m, r, cs, FreeAt(cs, k))
  {
    hide HeaderAt;
    var cs1 := cs[k := cs[k].(used := false)];
    forall x | 0 <= x < |m| && r[x] != m[x] ensures InHeader(cs, x) {
      assert cs[k] in cs;
      if r[x] != m2[x] {
        HeadersShrink(cs1, k, x);
        FlagHeaders(cs, k, x);
      } else if m2[x] != m1[x] {
        FlagHeaders(cs, k, x);
      }
    }
  }

  lemma FlagHeaders(cs: seq<Chunk>, k: nat, x: int)
    requires k < |cs| && InHeader(cs[k := cs[k].(used := false)], x)
    ensures InHeader(cs, x)
  {
    var cs1 := cs[k := cs[k].(used := false)];
    var i :| 0 <= i < |cs1| && cs1[i].addr <= x < cs1[i].addr + HEADER;
    assert cs[i] in cs;
  }

  lemma HeadersShrink(cs: seq<Chunk>, k: nat, x: int)
    requires k < |cs| && InHeader(MergedNext(cs, k), x)
    ensures InHeader(cs, x)
  {
    var ds := MergedNext(cs, k);
    var i :| 0 <= i < |ds| && ds[i].addr <= x < ds[i].addr + HEADER;
    assert cs[if i <= k then i else i + |cs| - |ds|] in cs;
  }
}
