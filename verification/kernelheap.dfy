/**
 The allocator of src/memory/malloc.c over raw bytes, proved against `HeapSpec`.
 Physical memory below 4 MB is one byte array; an address is an index into it.
 */
module KernelHeap {
  import opened Words
  import opened HeapSpec

  // ---------- bytes ----------

  /** The little-endian 32-bit word at address `p`. */
  function Read32(m: array<byte>, p: nat): uint32
    requires p + 4 <= m.Length
    reads m
  {
    m[p] as int + 0x100 * (m[p + 1] as int) + 0x1_0000 * (m[p + 2] as int) + 0x100_0000 * (m[p + 3] as int)
  }

  method Write32(m: array<byte>, p: nat, v: uint32)
    requires p + 4 <= m.Length
    modifies m
    ensures Read32(m, p) == v && m[p] == v % 0x100
    ensures forall i :: 0 <= i < m.Length && !(p <= i < p + 4) ==> m[i] == old(m[i])
  {
    var v1 := v / 0x100;
    var v2 := v1 / 0x100;
    m[p], m[p + 1], m[p + 2], m[p + 3] := v % 0x100, v1 % 0x100, v2 % 0x100, v2 / 0x100;
  }

  /** src/memory/memutils.c: `memset`. */
  method Memset(m: array<byte>, p: nat, value: byte, num: nat)
    requires p + num <= m.Length
    modifies m
    ensures forall i :: p <= i < p + num ==> m[i] == value
    ensures forall i :: 0 <= i < m.Length && !(p <= i < p + num) ==> m[i] == old(m[i])
  {
    var at, left: int := p, num;
    while left != 0
      invariant p <= at <= p + num && at + left == p + num
      invariant forall i :: p <= i < at ==> m[i] == value
      invariant forall i :: 0 <= i < m.Length && !(p <= i < at) ==> m[i] == old(m[i])
      decreases left
    {
      m[at] := value;
      at := at + 1;
      left := left - 1;
    }
  }

  /** The header bytes of `b` say what `b` says. */
  ghost predicate HeaderAt(m: array<byte>, b: Block)
    reads m
  {
    b.addr + HEADER <= m.Length && m[b.addr] == (if b.live then 1 else 0) && Read32(m, b.addr + 4) == b.size
  }

  ghost predicate HeadersAt(m: array<byte>, bs: seq<Block>)
    reads m
  {
    forall i :: 0 <= i < |bs| ==> HeaderAt(m, bs[i])
  }

  /** Turns the free header at `p` into a live one and clears `size` bytes behind it. */
  method TakeBytes(m: array<byte>, p: nat, size: nat, ghost bs: seq<Block>, ghost k: nat)
    requires k < |bs| && bs[k].addr == p && size <= bs[k].size && p + HEADER + size <= m.Length
    requires HeadersAt(m, bs)
    requires forall j :: 0 <= j < |bs| && j != k ==> bs[j].Payload() <= p || bs[k].Next() <= bs[j].addr
    modifies m
    ensures HeadersAt(m, bs[k := bs[k].(live := true)])
    ensures forall i :: p + HEADER <= i < p + HEADER + size ==> m[i] == 0
    ensures forall i :: 0 <= i < m.Length && !(p <= i < p + HEADER + size) ==> m[i] == old(m[i])
  {
    m[p] := 1;
    Memset(m, p + HEADER, 0, size);
  }

  /** Writes a live header for `size` bytes at `p` and clears them. */
  method PlaceBytes(m: array<byte>, p: nat, size: uint32)
    requires p + HEADER + size <= m.Length
    modifies m
    ensures HeaderAt(m, Block(p, size, true))
    ensures forall i :: p + HEADER <= i < p + HEADER + size ==> m[i] == 0
    ensures forall i :: 0 <= i < m.Length && !(p <= i < p + HEADER + size) ==> m[i] == old(m[i])
  {
    m[p] := 1;
    Write32(m, p + 4, size);
    Memset(m, p + HEADER, 0, size);
  }

  // ---------- the allocator ----------

  lemma WalkLandsOnBlock(h: Heap, k: nat)
    requires Tiled(h) && k <= |h.blocks|
    ensures Start(h.begin, h.blocks, k) < h.last <==> k < |h.blocks|
    ensures k < |h.blocks| ==> Start(h.begin, h.blocks, k) == h.blocks[k].addr
  {
    if k < |h.blocks| {
      TileInside(h, k);
    }
  }

  class Memory {
    const mem: array<byte>
    const heapBegin: nat
    var lastAlloc: nat
    var memoryUsed: uint32
    var pheapDesc: nat

    /** The abstract heap: the blocks whose headers are in memory, and the slack no header records. */
    ghost var heap: Heap

    ghost predicate HeapValid()
      reads this, mem
    {
      && mem.Length == PHEAP_END && heapBegin < HEAP_END
      && heap.begin == heapBegin && heap.last == lastAlloc && heap.used == memoryUsed
      && HeapSpec.Valid(heap)
      && HeadersAt(mem, heap.blocks)
    }

    /** The page map is the payload of the first block, which is never freed. */
    ghost predicate Valid()
      reads this, mem
    {
      && HeapValid()
      && 0 < |heap.blocks| && heap.blocks[0] == Block(heapBegin, PAGES, true)
      && pheapDesc == heapBegin + HEADER && pheapDesc + PAGES <= HEAP_END
    }

    ghost predicate PageTaken(i: nat)
      requires pheapDesc + i < mem.Length
      reads this, mem
    {
      mem[pheapDesc + i] != 0
    }

    /** Indices of the pages handed out by `Pmalloc`. */
    ghost function Held(): set<nat>
      requires pheapDesc + PAGES <= mem.Length
      reads this, mem
    {
      set i: nat | i < PAGES && PageTaken(i)
    }

    /** `mm_init`.  The kernel image must leave room for the page map. */
    constructor (kernelEnd: nat)
      requires kernelEnd + 0x1000 + PAGES + HEADER < HEAP_END
      ensures fresh(mem) && Valid() && Held() == {}
      ensures heap == Extend(Heap(kernelEnd + 0x1000, [], kernelEnd + 0x1000, 0, 0), PAGES)
    {
      mem := new byte[PHEAP_END];
      heapBegin := kernelEnd + 0x1000;
      lastAlloc := kernelEnd + 0x1000;
      memoryUsed := 0;
      pheapDesc := 0;
      heap := Heap(kernelEnd + 0x1000, [], kernelEnd + 0x1000, 0, 0);
      new;
      Memset(mem, heapBegin, 0, HEAP_END - heapBegin);
      var r := Malloc(PAGES);
      assert r == Pointer(heapBegin + HEADER);
      pheapDesc := r.addr;
      assert forall i: nat :: i < PAGES ==> !PageTaken(i);
    }

    /** Reuses free block `k` at `p`: marks it and clears the first `size` bytes. */
    method Take(p: nat, size: uint32, ghost k: nat)
      requires HeapValid() && k < |heap.blocks| && heap.blocks[k].addr == p && Fits(heap.blocks[k], size)
      modifies this`memoryUsed, this`heap, mem
      ensures HeapValid() && heap == Reuse(old(heap), k, size)
      ensures forall i :: p + HEADER <= i < p + HEADER + size < HEAP_END ==> mem[i] == 0
      ensures forall i :: 0 <= i < mem.Length && !(p <= i < p + HEADER + size) ==> mem[i] == old(mem[i])
    {
      ghost var h := heap;
      TileInside(h, k);
      HeadersOutside(h, k);
      ReuseKeepsValid(h, k, size);
      hide HeapSpec.Valid, Tiled, Accounted, Wrap, HeaderAt;
      TakeBytes(mem, p, size, heap.blocks, k);
      memoryUsed := Wrap(memoryUsed + size + HEADER);
      heap := Reuse(heap, k, size);
    }

    /** Makes a block of exactly `size` bytes at `lastAlloc`. */
    method Place(size: uint32)
      requires HeapValid() && 0 < size && lastAlloc + size + HEADER < HEAP_END
      modifies this`lastAlloc, this`memoryUsed, this`heap, mem
      ensures HeapValid() && heap == Extend(old(heap), size)
      ensures forall i :: old(lastAlloc) + HEADER <= i < old(lastAlloc) + HEADER + size ==> mem[i] == 0
      ensures forall i :: 0 <= i < mem.Length && !(old(lastAlloc) <= i < old(lastAlloc) + HEADER + size) ==> mem[i] == old(mem[i])
    {
      ghost var h := heap;
      var alloc := lastAlloc;
      PlaceBytes(mem, alloc, size);
      lastAlloc := lastAlloc + size + HEADER + PAD;
      memoryUsed := Wrap(memoryUsed + size + HEADER + PAD);
      heap := Extend(heap, size);
      HeadersBelow(h);
      ExtendKeepsValid(h, size);
    }

    /** The search loop of `malloc`: stops at the first block that fits, or at `lastAlloc`. */
    method Walk(size: uint32) returns (p: nat, fits: bool, ghost k: nat)
      requires HeapValid()
      ensures k == FirstFit(heap.blocks, size)
      ensures fits <==> FirstFit(heap.blocks, size) < |heap.blocks|
      ensures fits ==> p == heap.blocks[FirstFit(heap.blocks, size)].addr
      ensures !fits ==> p == lastAlloc
    {
      hide Accounted, FirstFit;
      ghost var h := heap;
      k := 0;
      p := heapBegin;
      while p < lastAlloc
        invariant k <= |heap.blocks| && p == Start(heapBegin, heap.blocks, k)
        invariant forall i :: 0 <= i < k ==> !Fits(heap.blocks[i], size)
        decreases |heap.blocks| - k
      {
        WalkLandsOnBlock(h, k);
        assert HeaderAt(mem, heap.blocks[k]);
        var status, bsize := mem[p], Read32(mem, p + 4);
        if bsize == 0 {
          break;
        }
        if status == 0 && bsize >= size {
          FirstFitIs(heap.blocks, size, k);
          fits := true;
          return;
        }
        k := k + 1;
        p := p + bsize + HEADER + PAD;
      }
      WalkLandsOnBlock(h, k);
      FirstFitIs(heap.blocks, size, k);
      fits := false;
    }

    /**
     A request that passes the out-of-memory test because its sum wraps: the header is written, and
     clearing runs to the end of memory and, around the address space, from its start to `end`.
     */
    method Wreck(size: uint32, end: nat)
      requires HeapValid() && end == lastAlloc + size + HEADER - TWO_32 <= lastAlloc + HEADER <= mem.Length
      modifies this`lastAlloc, this`memoryUsed, mem
      ensures lastAlloc == Wrap(old(lastAlloc) + size + HEADER + PAD)
      ensures memoryUsed == Wrap(old(memoryUsed) + size + HEADER + PAD)
      ensures forall i :: 0 <= i < end || old(lastAlloc) + HEADER <= i < mem.Length ==> mem[i] == 0
      ensures forall i :: end <= i < old(lastAlloc) ==> mem[i] == old(mem[i])
      ensures end <= old(lastAlloc) ==> mem[old(lastAlloc)] == 1 && Read32(mem, old(lastAlloc) + 4) == size
    {
      var alloc := lastAlloc;
      mem[alloc] := 1;
      Write32(mem, alloc + 4, size);
      lastAlloc := Wrap(lastAlloc + size + HEADER + PAD);
      memoryUsed := Wrap(memoryUsed + size + HEADER + PAD);
      Memset(mem, alloc + HEADER, 0, mem.Length - (alloc + HEADER));
      Memset(mem, 0, 0, end);
    }

    lemma LastIsLow()
      requires HeapValid()
      ensures lastAlloc + HEADER <= mem.Length
    {
      if heap.blocks != [] {
        TileInside(heap, |heap.blocks| - 1);
        assert heap.last == heap.blocks[|heap.blocks| - 1].Next();
      }
    }

    /** `malloc`, on any size. */
    method Malloc(size: uint32) returns (r: Outcome)
      requires HeapValid()
      modifies this`lastAlloc, this`memoryUsed, this`heap, mem
      ensures (heap, r) == HeapSpec.Malloc(old(heap), size)
      ensures !r.Overrun? ==> HeapValid()
      ensures r.Pointer? ==> HEADER <= r.addr && r.addr + size < HEAP_END
      ensures r.Pointer? ==> forall i :: r.addr <= i < r.addr + size ==> mem[i] == 0
      ensures !r.Overrun? ==>
                forall i :: 0 <= i < mem.Length && !(r.Pointer? && r.addr - HEADER <= i < r.addr + size) ==> mem[i] == old(mem[i])
      ensures r.Overrun? ==>
                var end := old(lastAlloc) + size + HEADER - TWO_32;
                0 <= end && (forall i :: 0 <= i < end || old(lastAlloc) + HEADER <= i < mem.Length ==> mem[i] == 0) &&
                (forall i :: end <= i < old(lastAlloc) && i < mem.Length ==> mem[i] == old(mem[i])) &&
                (end <= old(lastAlloc) ==>
                   old(lastAlloc) + HEADER <= mem.Length && mem[old(lastAlloc)] == 1 && Read32(mem, old(lastAlloc) + 4) == size)
    {
      hide FirstFit, Tiled, Accounted;
      if size == 0 {
        return Null;
      }
      var p, fits, k := Walk(size);
      if fits {
        TileInside(heap, k);
        Take(p, size, k);
        return Pointer(p + HEADER);
      }
      var sum := lastAlloc + size + HEADER;
      if Wrap(sum) >= HEAP_END {
        return Panic;
      }
      if sum >= HEAP_END {
        LastIsLow();
        assert sum >= TWO_32;
        Wreck(size, sum - TWO_32);
        return Overrun;
      }
      r := Pointer(lastAlloc + HEADER);
      Place(size);
    }

    twostate lemma MapSurvives()
      requires pheapDesc == old(pheapDesc) && pheapDesc + PAGES <= mem.Length
      requires forall i :: pheapDesc <= i < pheapDesc + PAGES ==> mem[i] == old(mem[i])
      ensures Held() == old(Held())
    {
      forall i: nat | i < PAGES
        ensures PageTaken(i) == old(PageTaken(i))
      {
        assert mem[pheapDesc + i] == old(mem[pheapDesc + i]);
      }
    }

    lemma LastBelowPages(h: Heap)
      requires HeapSpec.Valid(h) && h.blocks != []
      ensures h.last + HEADER <= PHEAP_BEGIN + PAGE_SIZE
    {
      TileInside(h, |h.blocks| - 1);
      assert h.last == h.blocks[|h.blocks| - 1].Next();
    }

    /** An allocation through the interface: the page map and all live data survive, unless it overruns memory. */
    method Allocate(size: uint32) returns (r: Outcome)
      requires Valid()
      modifies this`lastAlloc, this`memoryUsed, this`heap, mem
      ensures (heap, r) == HeapSpec.Malloc(old(heap), size)
      ensures !r.Overrun? ==> Valid() && Held() == old(Held())
      ensures r.Pointer? ==> forall i :: r.addr <= i < r.addr + size ==> mem[i] == 0
      ensures !r.Overrun? ==> forall b :: b in old(heap.blocks) && b.live ==>
                forall i :: b.Payload() <= i < b.Payload() + b.size ==> mem[i] == old(mem[i])
      ensures !r.Overrun? ==> forall i :: PHEAP_BEGIN <= i < PHEAP_END ==> mem[i] == old(mem[i])
      ensures r.Overrun? ==> forall i :: PHEAP_BEGIN + PAGE_SIZE <= i < PHEAP_END ==> mem[i] == 0
    {
      hide HeadersAt, Accounted, FirstFit;
      ghost var h := heap;
      r := Malloc(size);
      if r.Pointer? {
        MallocSparesLive(h, size);
        assert r == HeapSpec.Malloc(h, size).1;
        assert h.blocks[0].live;
      }
      if !r.Overrun? {
        MapSurvives();
      } else {
        LastBelowPages(h);
      }
    }

    /** The writes of `free`. */
    method FreeBlock(p: nat, ghost k: nat)
      requires HeapValid() && LiveAt(heap, k, p)
      modifies this`memoryUsed, this`heap, mem
      ensures HeapValid() && heap == HeapSpec.Free(old(heap), k)
      ensures forall i :: 0 <= i < mem.Length && i != p - HEADER ==> mem[i] == old(mem[i])
    {
      ghost var h := heap;
      TileInside(h, k);
      HeadersOutside(h, k);
      FreeKeepsValid(h, k);
      hide HeapSpec.Valid, Tiled, Accounted, Wrap;
      assert HeaderAt(mem, h.blocks[k]);
      var alloc := p - HEADER;
      memoryUsed := Wrap(memoryUsed - (Read32(mem, alloc + 4) + HEADER));
      mem[alloc] := 0;
      heap := HeapSpec.Free(h, k);
    }

    /** `free`, on the payload address of live block `k`; the page map is not the callers' to free. */
    method Free(p: nat, ghost k: nat)
      requires Valid() && 0 < k && LiveAt(heap, k, p)
      modifies this`memoryUsed, this`heap, mem
      ensures Valid() && Held() == old(Held())
      ensures heap == HeapSpec.Free(old(heap), k)
      ensures forall i :: 0 <= i < mem.Length && i != p - HEADER ==> mem[i] == old(mem[i])
    {
      TilesApart(heap, 0, k);
      TileInside(heap, k);
      FreeBlock(p, k);
      MapSurvives();
    }

    // ---------- pages ----------

    /** A write to the page map or to the padding behind it leaves every header alone. */
    twostate lemma HeadersSurviveMapWrite()
      requires old(Valid()) && unchanged(this)
      requires forall i :: 0 <= i < mem.Length && !(pheapDesc <= i < heapBegin + HEADER + PAGES + PAD) ==> mem[i] == old(mem[i])
      ensures Valid()
    {
      HeadersOutside(heap, 0);
    }

    /** `pmalloc`: the first free page, or 0 when all 32 are held. */
    method Pmalloc() returns (r: nat)
      requires Valid()
      modifies mem
      ensures Valid() && heap == old(heap)
      ensures r == 0 <==> forall i :: 0 <= i < PAGES ==> i in old(Held())
      ensures r == 0 ==> mem[..] == old(mem[..])
      ensures r != 0 ==>
                var page := (r - PHEAP_BEGIN) / PAGE_SIZE;
                r == PHEAP_BEGIN + page * PAGE_SIZE && 0 <= page < PAGES &&
                page !in old(Held()) && Held() == old(Held()) + {page} &&
                (forall i :: 0 <= i < page ==> i in old(Held())) &&
                mem[..] == old(mem[..])[pheapDesc + page := 1]
    {
      for i := 0 to PAGES
        invariant mem[..] == old(mem[..])
        invariant forall j :: 0 <= j < i ==> j in old(Held())
      {
        if mem[pheapDesc + i] != 0 {
          assert old(PageTaken(i));
          continue;
        }
        assert i !in old(Held());
        mem[pheapDesc + i] := 1;
        HeadersSurviveMapWrite();
        forall j: nat | j < PAGES
          ensures PageTaken(j) == (j == i || old(PageTaken(j)))
        {}
        return PHEAP_BEGIN + i * PAGE_SIZE;
      }
      return 0;
    }

    /**
     `pfree`, on any address.  One past the last page passes the range test and clears byte 32 of the
     page map: that byte is the padding of the first block, so nothing is lost.
     */
    method Pfree(p: uint32)
      requires Valid()
      modifies mem
      ensures Valid() && heap == old(heap)
      ensures Held() == old(Held()) - (if PHEAP_BEGIN <= p < PHEAP_END then {(p - PHEAP_BEGIN) / PAGE_SIZE} else {})
      ensures mem[..] == if PHEAP_BEGIN <= p <= PHEAP_END
                         then old(mem[..])[pheapDesc + (p - PHEAP_BEGIN) / PAGE_SIZE := 0]
                         else old(mem[..])
    {
      if p < PHEAP_BEGIN || p > PHEAP_END {
        return;
      }
      var page := (p - PHEAP_BEGIN) / PAGE_SIZE;
      mem[pheapDesc + page] := 0;
      HeadersSurviveMapWrite();
      forall j: nat | j < PAGES
        ensures PageTaken(j) == (j != page && old(PageTaken(j)))
      {}
    }
  }
}
