/** What the allocator promises over whole runs.

  The central fact is `Canonical`: a well-formed chunk list is determined by the heap bounds and
  its live blocks alone. Order-independence of freeing, exact undo of an allocation, and complete
  recovery of the heap all follow from it. */
module HeapTheorems {
  import opened HeapModel

  // Canonicity

  lemma TailWellFormed(cs: seq<Chunk>, lo: nat, hi: nat)
    requires WellFormed(cs, lo, hi) && |cs| > 1
    ensures WellFormed(cs[1..], cs[0].End(), hi)
    ensures Live(cs[1..]) == Live(cs) - {cs[0]}
    ensures cs[0].End() < hi
  {
    var tail := cs[1..];
    assert cs[0].End() == cs[1].addr;
    forall i | 0 <= i < |tail| - 1 ensures tail[i].End() == tail[i + 1].addr && PairOk(tail, i) {
      assert cs[i + 1].End() == cs[i + 2].addr && PairOk(cs, i + 1);
    }
    forall x | x in Live(cs) && x != cs[0] ensures x in Live(tail) {
      var i :| 0 <= i < |cs| && cs[i] == x;
      assert tail[i - 1] == x;
    }
    if cs[0] in tail {
      var i :| 0 <= i < |tail| && tail[i] == cs[0];
      SameAddress(cs, lo, hi, 0, i + 1);
    }
    Bounded(tail, cs[0].End(), hi, 0);
  }

  /** The first chunk of one list cannot end inside the first chunk of the other. */
  lemma FirstEnds(cs: seq<Chunk>, ds: seq<Chunk>, lo: nat, hi: nat)
    requires WellFormed(cs, lo, hi) && WellFormed(ds, lo, hi)
    requires Live(cs) == Live(ds) && !cs[0].used && !ds[0].used
    ensures cs[0].End() >= ds[0].End()
  {
    Bounded(ds, lo, hi, 0);
    if cs[0].End() < ds[0].End() {
      assert |cs| > 1 && PairOk(cs, 0);
      assert cs[0].End() == cs[1].addr;
      assert cs[1] in Live(ds);
      var j :| 0 <= j < |ds| && ds[j] == cs[1];
      Ordered(ds, lo, hi, 0, j);
    }
  }

  lemma SameFirst(cs: seq<Chunk>, ds: seq<Chunk>, lo: nat, hi: nat)
    requires WellFormed(cs, lo, hi) && WellFormed(ds, lo, hi) && Live(cs) == Live(ds)
    ensures cs[0] == ds[0]
  {
    if cs[0].used {
      assert cs[0] in Live(ds);
      var j :| 0 <= j < |ds| && ds[j] == cs[0];
      SameAddress(ds, lo, hi, 0, j);
    } else if ds[0].used {
      assert ds[0] in Live(cs);
      var j :| 0 <= j < |cs| && cs[j] == ds[0];
      SameAddress(cs, lo, hi, 0, j);
    } else {
      FirstEnds(cs, ds, lo, hi);
      FirstEnds(ds, cs, lo, hi);
    }
  }

  /** Two well-formed lists over the same heap with the same live blocks are equal. */
  lemma {:induction false} Canonical(cs: seq<Chunk>, ds: seq<Chunk>, lo: nat, hi: nat)
    requires WellFormed(cs, lo, hi) && WellFormed(ds, lo, hi) && Live(cs) == Live(ds)
    ensures cs == ds
    decreases |cs|
  {
    SameFirst(cs, ds, lo, hi);
    if |cs| > 1 {
      TailWellFormed(cs, lo, hi);
    }
    if |ds| > 1 {
      TailWellFormed(ds, lo, hi);
    }
    assert |cs| > 1 <==> |ds| > 1;
    if |cs| > 1 {
      Canonical(cs[1..], ds[1..], cs[0].End(), hi);
      assert cs == [cs[0]] + cs[1..] && ds == [ds[0]] + ds[1..];
    }
  }

  // Single calls

  /** A request is served from the lowest fitting chunk, and refused only when none fits. */
  lemma MallocIsFirstFit(cs: seq<Chunk>, n: nat, lo: nat, hi: nat)
    requires WellFormed(cs, lo, hi) && lo > 0
    ensures MallocResult(cs, n) == 0 <==> forall c | c in cs :: c.used || c.size <= n
    ensures MallocResult(cs, n) == 0 ==> Malloc(cs, n) == cs
    ensures MallocResult(cs, n) != 0 ==>
      exists c: Chunk, b: Chunk :: c in cs && !c.used && c.size > n && (forall d | d in cs && !d.used && d.size > n :: c.addr <= d.addr)
                  && b == Chunk(c.addr, if c.size > n + 16 then n else c.size, true)
                  && MallocResult(cs, n) == c.addr + 16
                  && b !in Live(cs) && Live(Malloc(cs, n)) == Live(cs) + {b}
  {
    var k := FirstFit(cs, n);
    if k < |cs| {
      var c, b := cs[k], Carve(cs[k], n)[0];
      MallocLive(cs, n, lo, hi);
      forall d | d in cs && Fits(d, n) ensures c.addr <= d.addr {
        var j :| 0 <= j < |cs| && cs[j] == d;
        if k < j {
          Ordered(cs, lo, hi, k, j);
        }
      }
      assert c in cs && Fits(c, n) && b == Chunk(c.addr, if c.size > n + 16 then n else c.size, true);
    }
  }

  /** The only live block with payload pointer p is the one that `Free` releases. */
  lemma FreeReleases(cs: seq<Chunk>, b: Chunk, lo: nat, hi: nat)
    requires WellFormed(cs, lo, hi) && b in Live(cs)
    ensures IsLive(cs, b.Payload())
    ensures WellFormed(Free(cs, b.Payload()), lo, hi)
    ensures Live(Free(cs, b.Payload())) == Live(cs) - {b}
  {
    var i :| 0 <= i < |cs| && cs[i] == b;
    var k := IndexOf(cs, b.Payload());
    SameAddress(cs, lo, hi, i, k);
    FreeWellFormed(cs, k, lo, hi);
    FreeLive(cs, k, lo, hi);
  }

  /** Freeing a block just allocated restores the list, whether or not the chunk was cut. */
  lemma MallocThenFree(cs: seq<Chunk>, n: nat, lo: nat, hi: nat)
    requires WellFormed(cs, lo, hi) && lo > 0 && MallocResult(cs, n) != 0
    ensures IsLive(Malloc(cs, n), MallocResult(cs, n))
    ensures Free(Malloc(cs, n), MallocResult(cs, n)) == cs
  {
    var b := Carve(cs[FirstFit(cs, n)], n)[0];
    MallocWellFormed(cs, n, lo, hi);
    MallocLive(cs, n, lo, hi);
    FreeReleases(Malloc(cs, n), b, lo, hi);
    assert Live(cs) + {b} - {b} == Live(cs);
    Canonical(Free(Malloc(cs, n), b.Payload()), cs, lo, hi);
  }

  // Runs

  datatype Op = Alloc(n: nat) | Release(p: nat)

  /** The list that the constructor builds. */
  function Initial(lo: nat, hi: nat): seq<Chunk>
    requires lo + HEADER <= hi
  {
    [Chunk(lo, hi - lo - HEADER, false)]
  }

  predicate Allowed(cs: seq<Chunk>, op: Op) {
    op.Release? ==> IsLive(cs, op.p)
  }

  function Step(cs: seq<Chunk>, op: Op): seq<Chunk>
    requires Allowed(cs, op)
  {
    match op
    case Alloc(n) => Malloc(cs, n)
    case Release(p) => Free(cs, p)
  }

  /** Callers free only what they hold. */
  predicate LegalRun(cs: seq<Chunk>, ops: seq<Op>)
    decreases |ops|
  {
    ops == [] || (Allowed(cs, ops[0]) && LegalRun(Step(cs, ops[0]), ops[1..]))
  }

  function Run(cs: seq<Chunk>, ops: seq<Op>): seq<Chunk>
    requires LegalRun(cs, ops)
    decreases |ops|
  {
    if ops == [] then cs else Run(Step(cs, ops[0]), ops[1..])
  }

  lemma {:induction false} RunWellFormed(cs: seq<Chunk>, ops: seq<Op>, lo: nat, hi: nat)
    requires WellFormed(cs, lo, hi) && LegalRun(cs, ops)
    ensures WellFormed(Run(cs, ops), lo, hi)
    decreases |ops|
  {
    if ops != [] {
      match ops[0] {
        case Alloc(n) => MallocWellFormed(cs, n, lo, hi);
        case Release(p) => FreeWellFormed(cs, IndexOf(cs, p), lo, hi);
      }
      RunWellFormed(Step(cs, ops[0]), ops[1..], lo, hi);
    }
  }

  /** The heap has no memory of how it got there: any two runs that end with the same live
      blocks end with the same chunk list. */
  lemma HistoryIndependent(lo: nat, hi: nat, xs: seq<Op>, ys: seq<Op>)
    requires lo + HEADER <= hi
    requires LegalRun(Initial(lo, hi), xs) && LegalRun(Initial(lo, hi), ys)
    requires Live(Run(Initial(lo, hi), xs)) == Live(Run(Initial(lo, hi), ys))
    ensures Run(Initial(lo, hi), xs) == Run(Initial(lo, hi), ys)
  {
    RunWellFormed(Initial(lo, hi), xs, lo, hi);
    RunWellFormed(Initial(lo, hi), ys, lo, hi);
    Canonical(Run(Initial(lo, hi), xs), Run(Initial(lo, hi), ys), lo, hi);
  }

  /** A run that leaves nothing live has recovered the whole heap as one free chunk. */
  lemma FullRecovery(lo: nat, hi: nat, ops: seq<Op>)
    requires lo + HEADER <= hi
    requires LegalRun(Initial(lo, hi), ops) && Live(Run(Initial(lo, hi), ops)) == {}
    ensures Run(Initial(lo, hi), ops) == [Chunk(lo, hi - lo - HEADER, false)]
  {
    HistoryIndependent(lo, hi, ops, []);
  }

  /** Releasing the pointers of `ps` one after the other. */
  function Releases(ps: seq<nat>): (ops: seq<Op>)
    ensures |ops| == |ps|
  {
    seq(|ps|, i requires 0 <= i < |ps| => Release(ps[i]))
  }

  ghost predicate Distinct(ps: seq<nat>) {
    forall i, j :: 0 <= i < j < |ps| ==> ps[i] != ps[j]
  }

  lemma {:induction false} ReleasesRemove(cs: seq<Chunk>, ps: seq<nat>, lo: nat, hi: nat)
    requires WellFormed(cs, lo, hi) && Distinct(ps)
    requires forall p | p in ps :: IsLive(cs, p)
    ensures LegalRun(cs, Releases(ps))
    ensures Live(Run(cs, Releases(ps))) == set c | c in Live(cs) && c.Payload() !in ps
    decreases |ps|
  {
    var ops := Releases(ps);
    if ps != [] {
      var b := cs[IndexOf(cs, ps[0])];
      assert b in Live(cs);
      FreeReleases(cs, b, lo, hi);
      var ds := Free(cs, ps[0]);
      assert ops[0] == Release(ps[0]) && ops[1..] == Releases(ps[1..]);
      forall p | p in ps[1..] ensures IsLive(ds, p) {
        assert p != ps[0] && p in ps;
        var c := cs[IndexOf(cs, p)];
        assert c in Live(ds);
      }
      ReleasesRemove(ds, ps[1..], lo, hi);
      forall c | c in Live(cs) && c.Payload() == ps[0] ensures c == b {
        var i :| 0 <= i < |cs| && cs[i] == c;
        SameAddress(cs, lo, hi, i, IndexOf(cs, ps[0]));
      }
      assert forall p :: p in ps <==> p == ps[0] || p in ps[1..];
    }
  }

  /** Freeing a set of live blocks in any two orders ends in the same chunk list. */
  lemma FreeOrderIrrelevant(cs: seq<Chunk>, ps: seq<nat>, qs: seq<nat>, lo: nat, hi: nat)
    requires WellFormed(cs, lo, hi) && Distinct(ps) && Distinct(qs)
    requires forall p :: p in ps <==> p in qs
    requires forall p | p in ps :: IsLive(cs, p)
    ensures LegalRun(cs, Releases(ps)) && LegalRun(cs, Releases(qs))
    ensures Run(cs, Releases(ps)) == Run(cs, Releases(qs))
  {
    ReleasesRemove(cs, ps, lo, hi);
    ReleasesRemove(cs, qs, lo, hi);
    RunWellFormed(cs, Releases(ps), lo, hi);
    RunWellFormed(cs, Releases(qs), lo, hi);
    Canonical(Run(cs, Releases(ps)), Run(cs, Releases(qs)), lo, hi);
  }

  // Fragmentation

  function Count(cs: seq<Chunk>, used: bool): nat {
    if cs == [] then 0 else (if cs[0].used == used then 1 else 0) + Count(cs[1..], used)
  }

  /** Coalescing keeps free chunks from outnumbering live ones by more than one. */
  lemma {:induction false} FragmentationBound(cs: seq<Chunk>)
    requires NoAdjacentFree(cs)
    ensures Count(cs, false) <= Count(cs, true) + 1
    ensures cs != [] && cs[0].used ==> Count(cs, false) <= Count(cs, true)
  {
    if cs != [] {
      var tail := cs[1..];
      assert forall i :: 0 <= i < |tail| - 1 && PairOk(cs, i + 1) ==> PairOk(tail, i);
      FragmentationBound(tail);
      if tail != [] {
        assert PairOk(cs, 0);
      }
    }
  }
}
