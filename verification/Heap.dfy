/** `MemoryManager` (src/memory.cpp): a first-fit heap whose chunk headers live in memory. */
module Heap {
  import opened Bytes
  import opened HeapModel
  import opened HeapMemory

  class MemoryManager {
    const mem: array<byte>    // physical memory, indexed by address
    var first: uint32         // address of the first chunk, or the null pointer 0
    ghost const lo: nat       // the heap is [lo, hi)
    ghost const hi: nat
    ghost var chunks: seq<Chunk>

    ghost predicate Valid()
      reads this, mem
    {
      && hi <= mem.Length <= 0x1_0000_0000
      && 0 < lo
      && (chunks == [] ==> first == 0)
      && (chunks != [] ==> first == lo && WellFormed(chunks, lo, hi) && Linked(mem[..], chunks))
    }

    constructor (mem: array<byte>, start: uint32, size: uint32)
      requires 0 < start && start + size <= mem.Length <= 0x1_0000_0000
      modifies mem
      ensures Valid() && this.mem == mem && lo == start && hi == start + size
      ensures chunks == if size < HEADER then [] else [Chunk(start, size - HEADER, false)]
      ensures forall x :: 0 <= x < mem.Length && !(start <= x < start + HEADER) ==> mem[x] == old(mem[x])
    {
      this.mem := mem;
      lo, hi := start, start + size;
      first := if size < HEADER then 0 else start;
      chunks := if size < HEADER then [] else [Chunk(start, size - HEADER, false)];
      new;
      if size >= HEADER {
        SetFree(first, size - HEADER, 0, 0);
      }
    }

    // Header fields

    function Next(a: uint32): uint32
      requires a + HEADER <= mem.Length
      reads mem
    {
      HeaderAt(mem[..], a).next
    }

    function Prev(a: uint32): uint32
      requires a + HEADER <= mem.Length
      reads mem
    {
      HeaderAt(mem[..], a).prev
    }

    predicate Used(a: uint32)
      requires a + HEADER <= mem.Length
      reads mem
    {
      HeaderAt(mem[..], a).used
    }

    function Size(a: uint32): uint32
      requires a + HEADER <= mem.Length
      reads mem
    {
      HeaderAt(mem[..], a).size
    }

    method StoreWord(a: nat, v: uint32)
      requires a + 4 <= mem.Length
      modifies mem
      ensures mem[..] == Splice(old(mem[..]), a, ToBytes(v))
    {
      var b := ToBytes(v);
      mem[a], mem[a + 1], mem[a + 2], mem[a + 3] := b[0], b[1], b[2], b[3];
    }

    method SetNext(a: uint32, v: uint32)
      requires a + HEADER <= mem.Length
      modifies mem
      ensures Stored(old(mem[..]), mem[..], a, HeaderAt(old(mem[..]), a).(next := v))
      ensures HeaderAt(mem[..], a) == HeaderAt(old(mem[..]), a).(next := v)
    {
      StoreNext(mem[..], a, v);
      StoreWord(a, v);
    }

    method SetPrev(a: uint32, v: uint32)
      requires a + HEADER <= mem.Length
      modifies mem
      ensures Stored(old(mem[..]), mem[..], a, HeaderAt(old(mem[..]), a).(prev := v))
      ensures HeaderAt(mem[..], a) == HeaderAt(old(mem[..]), a).(prev := v)
    {
      StorePrev(mem[..], a, v);
      StoreWord(a + 4, v);
    }

    method SetUsed(a: uint32, v: bool)
      requires a + HEADER <= mem.Length
      modifies mem
      ensures Stored(old(mem[..]), mem[..], a, HeaderAt(old(mem[..]), a).(used := v))
      ensures HeaderAt(mem[..], a) == HeaderAt(old(mem[..]), a).(used := v)
    {
      StoreUsed(mem[..], a, v);
      ghost var m := mem[..];
      mem[a + 8] := if v then 1 else 0;
      assert mem[..] == Splice(m, a + 8, [if v then 1 else 0]);
    }

    method SetSize(a: uint32, v: uint32)
      requires a + HEADER <= mem.Length
      modifies mem
      ensures Stored(old(mem[..]), mem[..], a, HeaderAt(old(mem[..]), a).(size := v))
      ensures HeaderAt(mem[..], a) == HeaderAt(old(mem[..]), a).(size := v)
    {
      StoreSize(mem[..], a, v);
      StoreWord(a + 12, v);
    }

    /** Stores all four fields of a free chunk. */
    method SetFree(a: uint32, size: uint32, prev: uint32, next: uint32)
      requires a + HEADER <= mem.Length
      modifies mem
      ensures Stored(old(mem[..]), mem[..], a, Header(next, prev, false, size))
      ensures HeaderAt(mem[..], a) == Header(next, prev, false, size)
    {
      SetUsed(a, false);
      SetSize(a, size);
      SetPrev(a, prev);
      SetNext(a, next);
    }

    // Allocation

    /** The first-fit walk along the `next` pointers. */
    method Search(size: uint32) returns (result: uint32)
      requires Valid()
      ensures var k := FirstFit(chunks, size); result == if k < |chunks| then chunks[k].addr else 0
      ensures result == 0 <==> FirstFit(chunks, size) == |chunks|
    {
      ghost var cs, m := chunks, mem[..];
      result := 0;
      var chunk := first;
      ghost var i := 0;  // index of `chunk` in the list
      while chunk != 0 && result == 0
        invariant i <= |cs| && if i < |cs| then chunk == cs[i].addr > 0 else chunk == 0
        invariant result == 0 ==> forall j :: 0 <= j < i ==> !Fits(cs[j], size)
        invariant result != 0 ==> var k := FirstFit(cs, size); k < |cs| && result == cs[k].addr
        decreases |cs| - i
      {
        Bounded(cs, lo, hi, i);
        assert LinkedAt(m, cs, i);
        if Size(chunk) > size && !Used(chunk) {
          result := chunk;
        }
        chunk := Next(chunk);
        i := i + 1;
        if i < |cs| {
          Bounded(cs, lo, hi, i);
        }
      }
    }

    /** Cutting the chunk at `result` after `size` payload bytes. */
    method Split(result: uint32, size: uint32, ghost cs: seq<Chunk>, ghost k: nat)
      requires hi <= mem.Length <= 0x1_0000_0000 && 0 < lo && Tiled(cs, lo, hi) && Linked(mem[..], cs)
      requires k < |cs| && result == cs[k].addr && cs[k].size >= size + HEADER + 1
      modifies mem
      ensures Linked(mem[..], Cut(cs, k, size))
      ensures OnlyHeaders(old(mem[..]), mem[..], cs, Cut(cs, k, size))
    {
      hide HeaderAt, Stored;
      ghost var m := mem[..];
      ListFacts(m, cs, k, lo, hi);
      MallocNoWrap(result, Size(result), size);
      var temp := Add32(Add32(result, HEADER), size);
      SetFree(temp, Sub32(Sub32(Size(result), size), HEADER), result, Next(result));
      ghost var m1 := mem[..];
      if Next(temp) != 0 {
        SetPrev(Next(temp), temp);
      }
      ghost var m2 := mem[..];
      SetSize(result, size);
      ghost var m3 := mem[..];
      SetNext(result, temp);
      CutStored(m, m1, m2, m3, mem[..], cs, k, size, lo, hi);
      CutLinked(m, mem[..], cs, k, size, lo, hi);
    }

    method Malloc(size: uint32) returns (ptr: uint32)
      requires Valid()
      modifies this`chunks, mem
      ensures Valid()
      ensures chunks == HeapModel.Malloc(old(chunks), size)
      ensures ptr == MallocResult(old(chunks), size)
      ensures OnlyHeaders(old(mem[..]), mem[..], old(chunks), chunks)
      ensures forall c :: c in Live(old(chunks)) ==> c in Live(chunks) && SamePayload(old(mem[..]), mem[..], c)
      ensures forall x :: 0 <= x < mem.Length && !(lo <= x < hi) ==> mem[x] == old(mem[x])
    {
      hide HeaderAt, Stored;
      ghost var cs, m := chunks, mem[..];
      var result := Search(size);
      if result == 0 {
        if cs != [] {
          PayloadKept(m, m, cs, cs, lo, hi);
        }
        return 0;
      }
      ghost var k := FirstFit(cs, size);
      ListFacts(m, cs, k, lo, hi);
      MallocNoWrap(result, Size(result), size);

      ghost var ds := cs;
      if Size(result) >= Add32(Add32(size, HEADER), 1) {
        Split(result, size, cs, k);
        ds := Cut(cs, k, size);
        CutTiled(cs, k, size, lo, hi);
      }
      ghost var m1 := mem[..];
      assert LinkedAt(m1, ds, k);

      SetUsed(result, true);
      FlagLinked(m1, mem[..], ds, k, true, lo, hi);
      chunks := ds[k := ds[k].(used := true)];
      MallocIsCut(cs, size);
      MallocWellFormed(cs, size, lo, hi);
      MallocLive(cs, size, lo, hi);
      FlagBytes(m, m1, mem[..], cs, ds, k, true);
      PayloadKept(m, mem[..], cs, chunks, lo, hi);
      ptr := Add32(result, HEADER);
    }

    /** The chunk at `a`, number k, swallows its right neighbour at `b`. */
    method Absorb(a: uint32, b: uint32, ghost cs: seq<Chunk>, ghost k: nat)
      requires hi <= mem.Length <= 0x1_0000_0000 && 0 < lo && Tiled(cs, lo, hi) && Linked(mem[..], cs)
      requires k + 1 < |cs| && a == cs[k].addr && b == cs[k + 1].addr
      modifies mem
      ensures Linked(mem[..], Merge(cs, k)) && Tiled(Merge(cs, k), lo, hi)
      ensures HeaderBytes(old(mem[..]), mem[..], cs)
    {
      hide HeaderAt, Stored;
      ghost var m := mem[..];
      ListFacts(m, cs, k, lo, hi);
      ListFacts(m, cs, k + 1, lo, hi);
      MergeNoWrap(a, Size(a), Size(b));
      SetSize(a, Add32(Size(a), Add32(Size(b), HEADER)));
      ghost var m1 := mem[..];
      MergeKeepsRight(m, m1, cs, k);
      SetNext(a, Next(b));
      ghost var m2 := mem[..];
      if Next(a) != 0 {
        SetPrev(Next(a), a);
      }
      MergeStored(m, m1, m2, mem[..], cs, k, lo, hi);
      MergeLinked(m, mem[..], cs, k, lo, hi);
      MergeTiled(cs, k, lo, hi);
    }

    /** Merge with the next chunk if it is free. */
    method MergeNext(chunk: uint32, ghost cs: seq<Chunk>, ghost k: nat)
      requires hi <= mem.Length <= 0x1_0000_0000 && 0 < lo && Tiled(cs, lo, hi) && Linked(mem[..], cs)
      requires k < |cs| && chunk == cs[k].addr
      modifies mem
      ensures Linked(mem[..], MergedNext(cs, k)) && Tiled(MergedNext(cs, k), lo, hi)
      ensures HeaderBytes(old(mem[..]), mem[..], cs)
    {
      hide HeaderAt, Tiled, Linked, Merge;
      ListFacts(mem[..], cs, k, lo, hi);
      if Next(chunk) != 0 && !Used(Next(chunk)) {
        Absorb(chunk, Next(chunk), cs, k);
      }
    }

    /** Merge with the previous chunk if it is free. */
    method MergePrev(chunk: uint32, ghost cs: seq<Chunk>, ghost k: nat)
      requires hi <= mem.Length <= 0x1_0000_0000 && 0 < lo && Tiled(cs, lo, hi) && Linked(mem[..], cs)
      requires k < |cs| && chunk == cs[k].addr
      modifies mem
      ensures Linked(mem[..], MergedPrev(cs, k)) && Tiled(MergedPrev(cs, k), lo, hi)
      ensures HeaderBytes(old(mem[..]), mem[..], cs)
    {
      hide HeaderAt, Tiled, Linked, Merge;
      ListFacts(mem[..], cs, k, lo, hi);
      if k > 0 {
        ListFacts(mem[..], cs, k - 1, lo, hi);
      }
      if Prev(chunk) != 0 && !Used(Prev(chunk)) {
        Absorb(Prev(chunk), chunk, cs, k - 1);
      }
    }

    method Free(ptr: uint32)
      requires Valid() && IsLive(chunks, ptr)
      modifies this`chunks, mem
      ensures Valid()
      ensures chunks == HeapModel.Free(old(chunks), ptr)
      ensures OnlyHeaders(old(mem[..]), mem[..], old(chunks), chunks)
      ensures forall c :: c in Live(chunks) ==> c in Live(old(chunks)) && SamePayload(old(mem[..]), mem[..], c)
      ensures forall x :: 0 <= x < mem.Length && !(lo <= x < hi) ==> mem[x] == old(mem[x])
    {
      hide HeaderAt, Stored, Merge, Linked;
      ghost var cs, m := chunks, mem[..];
      ghost var k := IndexOf(cs, ptr);
      ListFacts(m, cs, k, lo, hi);
      var chunk := Sub32(ptr, HEADER);

      SetUsed(chunk, false);
      ghost var cs1, m1 := cs[k := cs[k].(used := false)], mem[..];
      FlagTiled(cs, k, false, lo, hi);
      FlagLinked(m, m1, cs, k, false, lo, hi);

      MergeNext(chunk, cs1, k);
      ghost var cs2, m2 := MergedNext(cs1, k), mem[..];
      MergedNextKeeps(cs1, k);
      MergePrev(chunk, cs2, k);

      chunks := MergedPrev(cs2, k);
      FreeInSteps(cs, k);
      FreeWellFormed(cs, k, lo, hi);
      FreeLive(cs, k, lo, hi);
      FreeBytes(m, m1, m2, mem[..], cs, k);
      PayloadKept(m, mem[..], cs, chunks, lo, hi);
    }
  }
}
