/** The heap allocator of src/memory.cpp as a function on its list of chunks.

  A chunk is a 16-byte header followed by `size` payload bytes. The list is ordered by address
  and tiles the heap [lo, hi) without gaps. Class `MemoryManager` (module Heap) shows that the
  linked headers in memory follow the functions of this module. */
module HeapModel {

  const HEADER := 16

  datatype Chunk = Chunk(addr: nat, size: nat, used: bool) {
    function Payload(): nat {
      addr + HEADER
    }

    function End(): nat {
      addr + HEADER + size
    }
  }

  // Heap shape

  /** The chunks cover [lo, hi) exactly, in address order. */
  ghost predicate Tiled(cs: seq<Chunk>, lo: nat, hi: nat) {
    && |cs| > 0
    && cs[0].addr == lo
    && cs[|cs| - 1].End() == hi
    && forall i {:trigger cs[i].End()} :: 0 <= i < |cs| - 1 ==> cs[i].End() == cs[i + 1].addr
  }

  /** Of chunk i and its right neighbour at least one is in use. */
  ghost predicate PairOk(cs: seq<Chunk>, i: nat)
    requires i + 1 < |cs|
  {
    cs[i].used || cs[i + 1].used
  }

  ghost predicate NoAdjacentFree(cs: seq<Chunk>) {
    forall i :: 0 <= i < |cs| - 1 ==> PairOk(cs, i)
  }

  ghost predicate WellFormed(cs: seq<Chunk>, lo: nat, hi: nat) {
    Tiled(cs, lo, hi) && NoAdjacentFree(cs)
  }

  /** The chunks handed out to callers. */
  ghost function Live(cs: seq<Chunk>): set<Chunk> {
    set c | c in cs && c.used
  }

  // Operations

  predicate Fits(c: Chunk, n: nat) {
    !c.used && c.size > n
  }

  /** Index of the first chunk that fits a request of `n` bytes, or |cs|. */
  function FirstFit(cs: seq<Chunk>, n: nat): (k: nat)
    ensures k <= |cs|
    ensures k < |cs| ==> Fits(cs[k], n)
    ensures forall i :: 0 <= i < k ==> !Fits(cs[i], n)
  {
    if cs == [] then 0 else if Fits(cs[0], n) then 0 else 1 + FirstFit(cs[1..], n)
  }

  /** What becomes of the chosen chunk: cut in two when a header and one byte are left over. */
  function Carve(c: Chunk, n: nat): seq<Chunk>
    requires Fits(c, n)
  {
    if c.size >= n + HEADER + 1
    then [Chunk(c.addr, n, true), Chunk(c.addr + HEADER + n, c.size - n - HEADER, false)]
    else [c.(used := true)]
  }

  function Malloc(cs: seq<Chunk>, n: nat): seq<Chunk> {
    var k := FirstFit(cs, n);
    if k == |cs| then cs else cs[..k] + Carve(cs[k], n) + cs[k + 1..]
  }

  /** The pointer returned; 0 is the null pointer. */
  function MallocResult(cs: seq<Chunk>, n: nat): nat {
    var k := FirstFit(cs, n);
    if k == |cs| then 0 else cs[k].Payload()
  }

  /** Chunk k swallows its right neighbour. */
  function Merge(cs: seq<Chunk>, k: nat): seq<Chunk>
    requires k + 1 < |cs|
  {
    cs[..k] + [cs[k].(size := cs[k].size + cs[k + 1].size + HEADER)] + cs[k + 2..]
  }

  /** Freeing chunk k: merge with a free right neighbour, then with a free left neighbour. */
  function FreeAt(cs: seq<Chunk>, k: nat): seq<Chunk>
    requires k < |cs|
  {
    var cs1 := cs[k := cs[k].(used := false)];
    var cs2 := if k + 1 < |cs| && !cs[k + 1].used then Merge(cs1, k) else cs1;
    if k > 0 && !cs[k - 1].used then Merge(cs2, k - 1) else cs2
  }

  /** Is `p` a pointer currently handed out? */
  predicate IsLive(cs: seq<Chunk>, p: nat) {
    exists i :: 0 <= i < |cs| && cs[i].used && cs[i].Payload() == p
  }

  function IndexOf(cs: seq<Chunk>, p: nat): (k: nat)
    requires IsLive(cs, p)
    ensures k < |cs| && cs[k].used && cs[k].Payload() == p
  {
    if cs[0].used && cs[0].Payload() == p then 0 else 1 + IndexOf(cs[1..], p)
  }

  function Free(cs: seq<Chunk>, p: nat): seq<Chunk>
    requires IsLive(cs, p)
  {
    FreeAt(cs, IndexOf(cs, p))
  }

  // Basic facts about tilings

  /** Earlier chunks end before later ones begin. */
  lemma {:induction false} Ordered(cs: seq<Chunk>, lo: nat, hi: nat, i: nat, j: nat)
    requires Tiled(cs, lo, hi) && i < j < |cs|
    ensures cs[i].End() <= cs[j].addr
    decreases j - i
  {
    if i + 1 < j {
      Ordered(cs, lo, hi, i + 1, j);
      assert cs[i].End() == cs[i + 1].addr;
    }
  }

  lemma Bounded(cs: seq<Chunk>, lo: nat, hi: nat, i: nat)
    requires Tiled(cs, lo, hi) && i < |cs|
    ensures lo <= cs[i].addr && cs[i].End() <= hi
  {
    if i > 0 {
      Ordered(cs, lo, hi, 0, i);
    }
    if i < |cs| - 1 {
      Ordered(cs, lo, hi, i, |cs| - 1);
    }
  }

  /** A chunk of a tiling is known by its address. */
  lemma SameAddress(cs: seq<Chunk>, lo: nat, hi: nat, i: nat, j: nat)
    requires Tiled(cs, lo, hi) && i < |cs| && j < |cs| && cs[i].addr == cs[j].addr
    ensures i == j
  {
    if i < j {
      Ordered(cs, lo, hi, i, j);
    } else if j < i {
      Ordered(cs, lo, hi, j, i);
    }
  }

  /** Live blocks lie inside the heap and do not overlap. */
  lemma LiveDisjoint(cs: seq<Chunk>, lo: nat, hi: nat, a: Chunk, b: Chunk)
    requires Tiled(cs, lo, hi) && a in Live(cs) && b in Live(cs)
    ensures lo + HEADER <= a.Payload() && a.Payload() + a.size <= hi
    ensures a != b ==> a.Payload() + a.size <= b.addr || b.Payload() + b.size <= a.addr
  {
    var i :| 0 <= i < |cs| && cs[i] == a;
    var j :| 0 <= j < |cs| && cs[j] == b;
    Bounded(cs, lo, hi, i);
    if i < j {
      Ordered(cs, lo, hi, i, j);
    } else if j < i {
      Ordered(cs, lo, hi, j, i);
    }
  }

  // Preservation

  lemma FlagTiled(cs: seq<Chunk>, k: nat, b: bool, lo: nat, hi: nat)
    requires Tiled(cs, lo, hi) && k < |cs|
    ensures Tiled(cs[k := cs[k].(used := b)], lo, hi)
  {
    var ds := cs[k := cs[k].(used := b)];
    forall i | 0 <= i < |ds| - 1 ensures ds[i].End() == ds[i + 1].addr {
      assert cs[i].End() == cs[i + 1].addr;
    }
  }

  lemma MallocWellFormed(cs: seq<Chunk>, n: nat, lo: nat, hi: nat)
    requires WellFormed(cs, lo, hi)
    ensures WellFormed(Malloc(cs, n), lo, hi)
  {
    var k := FirstFit(cs, n);
    if k < |cs| {
      var ds := Malloc(cs, n);
      if cs[k].size >= n + HEADER + 1 {
        forall i | 0 <= i < |ds| - 1
          ensures ds[i].End() == ds[i + 1].addr && PairOk(ds, i)
        {
          if i < k {
            assert cs[i].End() == cs[i + 1].addr && PairOk(cs, i);
          } else if i == k + 1 {
            assert cs[k].End() == cs[k + 1].addr && PairOk(cs, k);
          } else if i > k + 1 {
            assert ds[i] == cs[i - 1];
            assert cs[i - 1].End() == cs[i].addr && PairOk(cs, i - 1);
          }
        }
      } else {
        assert ds == cs[k := cs[k].(used := true)];
        FlagTiled(cs, k, true, lo, hi);
        assert forall i :: 0 <= i < |cs| - 1 && PairOk(cs, i) ==> PairOk(ds, i);
      }
    }
  }

  lemma MergeTiled(cs: seq<Chunk>, k: nat, lo: nat, hi: nat)
    requires Tiled(cs, lo, hi) && k + 1 < |cs|
    ensures Tiled(Merge(cs, k), lo, hi)
  {
    var ds := Merge(cs, k);
    assert cs[k].End() == cs[k + 1].addr;
    forall i | 0 <= i < |ds| - 1
      ensures ds[i].End() == ds[i + 1].addr
    {
      if i < k {
        assert cs[i].End() == cs[i + 1].addr;
      } else {
        assert cs[i + 1].End() == cs[i + 2].addr;
      }
    }
  }

  /** Merging two free chunks shifts the neighbour pairs behind them by one. */
  lemma MergePairs(cs: seq<Chunk>, k: nat)
    requires k + 1 < |cs| && !cs[k].used && !cs[k + 1].used
    ensures forall i :: 0 <= i < k ==> PairOk(Merge(cs, k), i) == PairOk(cs, i)
    ensures forall i :: k <= i < |cs| - 2 ==> PairOk(Merge(cs, k), i) == PairOk(cs, i + 1)
  {
  }

  lemma FreeTiled(cs: seq<Chunk>, k: nat, lo: nat, hi: nat)
    requires Tiled(cs, lo, hi) && k < |cs|
    ensures Tiled(FreeAt(cs, k), lo, hi)
  {
    var cs1 := cs[k := cs[k].(used := false)];
    FlagTiled(cs, k, false, lo, hi);
    var cs2 := if k + 1 < |cs| && !cs[k + 1].used then Merge(cs1, k) else cs1;
    if k + 1 < |cs| && !cs[k + 1].used {
      MergeTiled(cs1, k, lo, hi);
    }
    if k > 0 && !cs[k - 1].used {
      MergeTiled(cs2, k - 1, lo, hi);
    }
  }

  lemma FreeNoAdjacent(cs: seq<Chunk>, k: nat)
    requires NoAdjacentFree(cs) && k < |cs| && cs[k].used
    ensures NoAdjacentFree(FreeAt(cs, k))
  {
    assert forall i :: 0 <= i < |cs| - 1 ==> PairOk(cs, i);
    var cs1 := cs[k := cs[k].(used := false)];
    assert forall i :: 0 <= i < |cs| - 1 && i != k && i + 1 != k ==> PairOk(cs1, i) by {
      assert forall i :: 0 <= i < |cs| - 1 && i != k && i + 1 != k ==> PairOk(cs1, i) == PairOk(cs, i);
    }
    var cs2 := if k + 1 < |cs| && !cs[k + 1].used then Merge(cs1, k) else cs1;
    RightPairs(cs1, k);
    if k > 0 && !cs[k - 1].used {
      MergePairs(cs2, k - 1);
      assert k > 1 ==> PairOk(cs2, k - 2) && cs2[k - 2].used;
      var cs3 := Merge(cs2, k - 1);
      forall i | 0 <= i < |cs3| - 1 ensures PairOk(cs3, i) {
        assert PairOk(cs3, i) == PairOk(cs2, if i < k - 1 then i else i + 1);
      }
    } else {
      assert k > 0 ==> PairOk(cs2, k - 1);
    }
  }

  /** After merging to the right only the pair left of k can be free. */
  lemma RightPairs(cs: seq<Chunk>, k: nat)
    requires k < |cs| && !cs[k].used
    requires forall i :: 0 <= i < |cs| - 1 && i != k && i + 1 != k ==> PairOk(cs, i)
    ensures var ds := if k + 1 < |cs| && !cs[k + 1].used then Merge(cs, k) else cs;
      forall i :: 0 <= i < |ds| - 1 && i + 1 != k ==> PairOk(ds, i)
  {
    if k + 1 < |cs| && !cs[k + 1].used {
      MergePairs(cs, k);
    } else if k + 1 < |cs| {
      assert PairOk(cs, k);
    }
  }

  lemma FreeWellFormed(cs: seq<Chunk>, k: nat, lo: nat, hi: nat)
    requires WellFormed(cs, lo, hi) && k < |cs| && cs[k].used
    ensures WellFormed(FreeAt(cs, k), lo, hi)
  {
    FreeTiled(cs, k, lo, hi);
    FreeNoAdjacent(cs, k);
  }

  // Effect on the set of live blocks

  lemma MallocLive(cs: seq<Chunk>, n: nat, lo: nat, hi: nat)
    requires Tiled(cs, lo, hi)
    ensures var k := FirstFit(cs, n); k < |cs| ==>
      Live(Malloc(cs, n)) == Live(cs) + {Carve(cs[k], n)[0]} && Carve(cs[k], n)[0] !in Live(cs)
  {
    var k := FirstFit(cs, n);
    if k < |cs| {
      var ds := Malloc(cs, n);
      var c := Carve(cs[k], n)[0];
      assert ds[k] == c;
      forall x | x in Live(cs) ensures x in Live(ds) && x != c {
        var i :| 0 <= i < |cs| && cs[i] == x;
        assert if i < k then ds[i] == x else ds[|ds| - |cs| + i] == x;
        if x == c {
          SameAddress(cs, lo, hi, i, k);
        }
      }
      forall x | x in Live(ds) ensures x in Live(cs) + {c} {
        var i :| 0 <= i < |ds| && ds[i] == x;
        if i < k {
          assert cs[i] == x;
        } else if i >= k + |Carve(cs[k], n)| {
          assert cs[i + |cs| - |ds|] == x;
        }
      }
    }
  }

  lemma MergeLive(cs: seq<Chunk>, k: nat)
    requires k + 1 < |cs| && !cs[k].used && !cs[k + 1].used
    ensures Live(Merge(cs, k)) == Live(cs)
  {
    var ds := Merge(cs, k);
    forall x | x in Live(cs) ensures x in Live(ds) {
      var i :| 0 <= i < |cs| && cs[i] == x;
      assert if i < k then ds[i] == x else ds[i - 1] == x;
    }
    forall x | x in Live(ds) ensures x in Live(cs) {
      var i :| 0 <= i < |ds| && ds[i] == x;
      assert if i < k then cs[i] == x else cs[i + 1] == x;
    }
  }

  lemma FreeLive(cs: seq<Chunk>, k: nat, lo: nat, hi: nat)
    requires Tiled(cs, lo, hi) && k < |cs| && cs[k].used
    ensures Live(FreeAt(cs, k)) == Live(cs) - {cs[k]}
  {
    var cs1 := cs[k := cs[k].(used := false)];
    assert Live(cs1) == Live(cs) - {cs[k]} by {
      forall x | x in Live(cs) && x != cs[k] ensures x in Live(cs1) {
        var i :| 0 <= i < |cs| && cs[i] == x;
        assert cs1[i] == x;
      }
      forall x | x in Live(cs1) ensures x in Live(cs) && x != cs[k] {
        var i :| 0 <= i < |cs1| && cs1[i] == x;
        assert cs[i] == x;
        if x == cs[k] {
          SameAddress(cs, lo, hi, i, k);
        }
      }
    }
    var cs2 := if k + 1 < |cs| && !cs[k + 1].used then Merge(cs1, k) else cs1;
    if k + 1 < |cs| && !cs[k + 1].used {
      MergeLive(cs1, k);
    }
    if k > 0 && !cs[k - 1].used {
      MergeLive(cs2, k - 1);
    }
  }
}
