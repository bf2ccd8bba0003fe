/**
 The abstract kernel heap of src/memory/malloc.c: a row of blocks that tile the memory from
 `heap_begin` to `last_alloc`.  A block is an 8-byte header, the payload and 4 bytes of padding.
 */
module HeapSpec {
  import opened Words

  const HEADER: nat := 8
  const PAD: nat := 4
  const PAGE_SIZE: nat := 4096
  const PAGES: nat := 32
  const PHEAP_END: nat := 0x400000
  const PHEAP_BEGIN: nat := PHEAP_END - PAGES * PAGE_SIZE
  const HEAP_END: nat := PHEAP_BEGIN

  datatype Block = Block(addr: nat, size: nat, live: bool) {
    function Payload(): nat { addr + HEADER }

    function Next(): nat { addr + HEADER + size + PAD }
  }

  /**
   `used` is the kernel's 32-bit counter; `slack` is what the counter cannot see: the total of
   block size minus requested size over all reuses so far.
   */
  datatype Heap = Heap(begin: nat, blocks: seq<Block>, last: nat, used: uint32, slack: nat)

  /**
   `Panic` is the endless loop of the out-of-memory path.  `Overrun` is a request that passes the
   out-of-memory test because its sum wraps: clearing the payload would run over all of memory.
   */
  datatype Outcome = Null | Panic | Overrun | Pointer(addr: nat)

  // ---------- tiling ----------

  /** Where block `i` starts when the blocks before it leave no gap. */
  function Start(begin: nat, blocks: seq<Block>, i: nat): nat
    requires i <= |blocks|
  {
    if i == 0 then begin else blocks[i - 1].Next()
  }

  ghost predicate Tiled(h: Heap) {
    && (forall i {:trigger Start(h.begin, h.blocks, i)} :: 0 <= i < |h.blocks| ==> h.blocks[i].addr == Start(h.begin, h.blocks, i))
    && (forall i :: 0 <= i < |h.blocks| ==> 0 < h.blocks[i].size)
    && (forall i :: 0 <= i < |h.blocks| ==> h.blocks[i].Payload() + h.blocks[i].size < HEAP_END)
    && h.last == Start(h.begin, h.blocks, |h.blocks|)
  }

  lemma {:induction false} TilesAreOrdered(h: Heap, i: nat, j: nat)
    requires Tiled(h) && i < j <= |h.blocks|
    ensures h.begin <= h.blocks[i].addr
    ensures h.blocks[i].Next() <= Start(h.begin, h.blocks, j)
    decreases j
  {
    assert Start(h.begin, h.blocks, i) == h.blocks[i].addr;
    if i + 1 < j {
      assert Start(h.begin, h.blocks, j - 1) == h.blocks[j - 1].addr;
      TilesAreOrdered(h, i, j - 1);
    } else if i > 0 {
      TilesAreOrdered(h, i - 1, i);
    }
  }

  /** Every block lies between `begin` and `last`, and no two of them share a byte. */
  lemma TilesAreDisjoint(h: Heap)
    requires Tiled(h)
    ensures forall i :: 0 <= i < |h.blocks| ==> h.begin <= h.blocks[i].addr && h.blocks[i].Next() <= h.last
    ensures forall i, j :: 0 <= i < j < |h.blocks| ==> h.blocks[i].Next() <= h.blocks[j].addr
  {
    forall i | 0 <= i < |h.blocks|
      ensures h.begin <= h.blocks[i].addr && h.blocks[i].Next() <= h.last
    {
      TilesAreOrdered(h, i, |h.blocks|);
    }
    forall i, j | 0 <= i < j < |h.blocks|
      ensures h.blocks[i].Next() <= h.blocks[j].addr
    {
      TilesAreOrdered(h, i, j);
      assert Start(h.begin, h.blocks, j) == h.blocks[j].addr;
    }
  }

  lemma TilesApart(h: Heap, i: nat, j: nat)
    requires Tiled(h) && i < |h.blocks| && j < |h.blocks| && i != j
    ensures h.blocks[i].Next() <= h.blocks[j].addr || h.blocks[j].Next() <= h.blocks[i].addr
  {
    TilesAreDisjoint(h);
  }

  /** The headers of all blocks but `k` lie outside block `k`. */
  lemma HeadersOutside(h: Heap, k: nat)
    requires Tiled(h) && k < |h.blocks|
    ensures forall j :: 0 <= j < |h.blocks| && j != k ==>
              h.blocks[j].Payload() <= h.blocks[k].addr || h.blocks[k].Next() <= h.blocks[j].addr
  {
    forall j | 0 <= j < |h.blocks| && j != k
      ensures h.blocks[j].Payload() <= h.blocks[k].addr || h.blocks[k].Next() <= h.blocks[j].addr
    {
      TilesApart(h, j, k);
    }
  }

  lemma HeadersBelow(h: Heap)
    requires Tiled(h)
    ensures forall j :: 0 <= j < |h.blocks| ==> h.blocks[j].Payload() <= h.last
  {
    TilesAreDisjoint(h);
  }

  lemma TileInside(h: Heap, i: nat)
    requires Tiled(h) && i < |h.blocks|
    ensures h.begin <= h.blocks[i].addr && h.blocks[i].Next() <= h.last
    ensures h.blocks[i].Payload() + h.blocks[i].size < HEAP_END
  {
    TilesAreDisjoint(h);
  }

  /**
   Headers and payloads stay off the page heap.  The padding of the last block may reach up to
   3 bytes into the first page, but no more.
   */
  lemma PagesAreApart(h: Heap, i: nat, page: nat)
    requires Tiled(h) && i < |h.blocks| && page < PAGES
    ensures (PHEAP_BEGIN + page * PAGE_SIZE) % PAGE_SIZE == 0
    ensures h.blocks[i].Payload() + h.blocks[i].size < PHEAP_BEGIN + page * PAGE_SIZE
    ensures h.blocks[i].Next() <= PHEAP_BEGIN + 3
    ensures h.blocks[i].Next() > PHEAP_BEGIN ==> i == |h.blocks| - 1
  {
    if i + 1 < |h.blocks| {
      TilesApart(h, i, i + 1);
      TilesAreOrdered(h, i, i + 1);
      assert Start(h.begin, h.blocks, i + 1) == h.blocks[i + 1].addr;
    }
  }

  // ---------- first fit ----------

  predicate Fits(b: Block, size: nat) {
    !b.live && size <= b.size
  }

  /** Index of the first free block of at least `size` bytes, or the number of blocks. */
  function FirstFit(blocks: seq<Block>, size: nat): (k: nat)
    ensures k <= |blocks|
    ensures forall i :: 0 <= i < k ==> !Fits(blocks[i], size)
    ensures k < |blocks| ==> Fits(blocks[k], size)
  {
    if blocks == [] then 0
    else if Fits(blocks[0], size) then 0
    else
      var k := FirstFit(blocks[1..], size);
      assert forall i :: 1 <= i < k + 1 ==> blocks[i] == blocks[1..][i - 1];
      k + 1
  }

  lemma FirstFitIs(blocks: seq<Block>, size: nat, k: nat)
    requires k <= |blocks|
    requires forall i :: 0 <= i < k ==> !Fits(blocks[i], size)
    requires k < |blocks| ==> Fits(blocks[k], size)
    ensures FirstFit(blocks, size) == k
  {
    var f := FirstFit(blocks, size);
  }

  // ---------- operations ----------

  function Wrap(n: int): uint32 { n % TWO_32 }

  function Reuse(h: Heap, k: nat, size: nat): Heap
    requires k < |h.blocks| && size <= h.blocks[k].size
  {
    h.(blocks := h.blocks[k := h.blocks[k].(live := true)],
       used := Wrap(h.used + size + HEADER),
       slack := h.slack + (h.blocks[k].size - size))
  }

  function Extend(h: Heap, size: nat): Heap {
    h.(blocks := h.blocks + [Block(h.last, size, true)],
       last := h.last + HEADER + size + PAD,
       used := Wrap(h.used + size + HEADER + PAD))
  }

  function Malloc(h: Heap, size: nat): (Heap, Outcome) {
    if size == 0 then (h, Null)
    else
      var k := FirstFit(h.blocks, size);
      if k < |h.blocks| then (Reuse(h, k, size), Pointer(h.blocks[k].Payload()))
      else if Wrap(h.last + size + HEADER) >= HEAP_END then (h, Panic)
      else if h.last + size + HEADER >= HEAP_END then (h, Overrun)
      else (Extend(h, size), Pointer(h.last + HEADER))
  }

  /** Block `k` is allocated and `p` points to its payload. */
  predicate LiveAt(h: Heap, k: nat, p: nat) {
    k < |h.blocks| && h.blocks[k].live && h.blocks[k].Payload() == p
  }

  function Free(h: Heap, k: nat): Heap
    requires k < |h.blocks|
  {
    h.(blocks := h.blocks[k := h.blocks[k].(live := false)],
       used := Wrap(h.used - (h.blocks[k].size + HEADER)))
  }

  /** A live pointer names one block. */
  lemma LivePointerIsUnique(h: Heap, i: nat, j: nat, p: nat)
    requires Tiled(h) && LiveAt(h, i, p) && LiveAt(h, j, p)
    ensures i == j
  {
    TilesAreDisjoint(h);
  }

  // ---------- the accounting law ----------

  function Charge(b: Block): nat {
    if b.live then b.size + HEADER else 0
  }

  /** Header and payload bytes of the live blocks. */
  function LiveBytes(blocks: seq<Block>): nat {
    if blocks == [] then 0
    else LiveBytes(blocks[..|blocks| - 1]) + Charge(blocks[|blocks| - 1])
  }

  lemma {:induction false} LiveBytesUpdate(blocks: seq<Block>, k: nat, b: Block)
    requires k < |blocks|
    ensures LiveBytes(blocks[k := b]) == LiveBytes(blocks) - Charge(blocks[k]) + Charge(b)
  {
    var n := |blocks| - 1;
    if k == n {
      assert blocks[k := b][..n] == blocks[..n];
    } else {
      assert blocks[k := b][..n] == blocks[..n][k := b];
      LiveBytesUpdate(blocks[..n], k, b);
    }
  }

  lemma LiveBytesAppend(blocks: seq<Block>, b: Block)
    ensures LiveBytes(blocks + [b]) == LiveBytes(blocks) + Charge(b)
  {
    assert (blocks + [b])[..|blocks|] == blocks;
  }

  /** What the counter stands for, without wrap-around. */
  function Exact(h: Heap): int {
    PAD * |h.blocks| + LiveBytes(h.blocks) - h.slack
  }

  ghost predicate Accounted(h: Heap) {
    h.used == Wrap(Exact(h))
  }

  lemma WrapAdd(a: int, d: int)
    ensures Wrap(Wrap(a) + d) == Wrap(a + d)
  {
    var q := a / TWO_32;
    assert a + d == (Wrap(a) + d) + q * TWO_32;
  }

  // ---------- every step, every run ----------

  ghost predicate Valid(h: Heap) {
    Tiled(h) && Accounted(h)
  }

  lemma UpdateKeepsTiled(h: Heap, k: nat, live: bool)
    requires Tiled(h) && k < |h.blocks|
    ensures Tiled(h.(blocks := h.blocks[k := h.blocks[k].(live := live)]))
  {
    var blocks := h.blocks[k := h.blocks[k].(live := live)];
    forall i | 0 <= i <= |blocks|
      ensures Start(h.begin, blocks, i) == Start(h.begin, h.blocks, i)
    {}
  }

  lemma ReuseKeepsValid(h: Heap, k: nat, size: nat)
    requires Valid(h) && k < |h.blocks| && Fits(h.blocks[k], size)
    ensures Valid(Reuse(h, k, size))
  {
    LiveBytesUpdate(h.blocks, k, h.blocks[k].(live := true));
    WrapAdd(Exact(h), size + HEADER);
    assert Exact(Reuse(h, k, size)) == Exact(h) + size + HEADER;
    UpdateKeepsTiled(h, k, true);
  }

  lemma ExtendKeepsTiled(h: Heap, size: nat)
    requires Tiled(h) && 0 < size && h.last + size + HEADER < HEAP_END
    ensures Tiled(Extend(h, size))
  {
    var blocks := Extend(h, size).blocks;
    forall i | 0 <= i < |blocks|
      ensures blocks[i].addr == Start(h.begin, blocks, i)
    {
      assert Start(h.begin, blocks, i) == Start(h.begin, h.blocks, i);
    }
  }

  lemma ExtendKeepsValid(h: Heap, size: nat)
    requires Valid(h) && 0 < size && h.last + size + HEADER < HEAP_END
    ensures Valid(Extend(h, size))
  {
    LiveBytesAppend(h.blocks, Block(h.last, size, true));
    WrapAdd(Exact(h), size + HEADER + PAD);
    assert Exact(Extend(h, size)) == Exact(h) + size + HEADER + PAD;
    ExtendKeepsTiled(h, size);
  }

  lemma MallocKeepsValid(h: Heap, size: nat)
    requires Valid(h)
    ensures Valid(Malloc(h, size).0)
  {
    var k := FirstFit(h.blocks, size);
    if size > 0 && k < |h.blocks| {
      ReuseKeepsValid(h, k, size);
    } else if size > 0 && h.last + size + HEADER < HEAP_END {
      ExtendKeepsValid(h, size);
    }
  }

  /** What an allocation returns shares no byte, header included, with a block that was live before. */
  lemma MallocSparesLive(h: Heap, size: nat)
    requires Tiled(h) && Malloc(h, size).1.Pointer?
    ensures forall i :: 0 <= i < |h.blocks| && h.blocks[i].live ==>
              h.blocks[i].Next() <= Malloc(h, size).1.addr - HEADER ||
              Malloc(h, size).1.addr + size <= h.blocks[i].addr
    ensures Malloc(h, size).1.addr + size < HEAP_END
  {
    var k := FirstFit(h.blocks, size);
    forall i | 0 <= i < |h.blocks| && h.blocks[i].live
      ensures h.blocks[i].Next() <= Malloc(h, size).1.addr - HEADER || Malloc(h, size).1.addr + size <= h.blocks[i].addr
    {
      TileInside(h, i);
      if k < |h.blocks| {
        TilesApart(h, i, k);
      }
    }
  }

  /** A request of at least one byte is served by the first free block large enough, or else behind the last one. */
  lemma MallocAnswers(h: Heap, size: nat)
    requires Valid(h)
    ensures Malloc(h, size).1 == Null <==> size == 0
    ensures forall k :: 0 < size && 0 <= k < |h.blocks| && !h.blocks[k].live && size <= h.blocks[k].size &&
                        (forall i :: 0 <= i < k ==> h.blocks[i].live || h.blocks[i].size < size) ==>
                          Malloc(h, size).1 == Pointer(h.blocks[k].addr + 8)
    ensures 0 < size && (forall i :: 0 <= i < |h.blocks| ==> h.blocks[i].live || h.blocks[i].size < size) ==>
              (Malloc(h, size).1.Pointer? <==> h.last + 8 + size < HEAP_END) &&
              (Malloc(h, size).1.Pointer? ==> Malloc(h, size).1.addr == h.last + 8)
  {
    forall k | 0 <= k < |h.blocks| && !h.blocks[k].live && size <= h.blocks[k].size &&
               forall i :: 0 <= i < k ==> h.blocks[i].live || h.blocks[i].size < size
      ensures FirstFit(h.blocks, size) == k
    {
      FirstFitIs(h.blocks, size, k);
    }
    hide Valid;
  }

  lemma FreeKeepsValid(h: Heap, k: nat)
    requires Valid(h) && k < |h.blocks| && h.blocks[k].live
    ensures Valid(Free(h, k))
  {
    LiveBytesUpdate(h.blocks, k, h.blocks[k].(live := false));
    WrapAdd(Exact(h), -(h.blocks[k].size + HEADER));
    assert Exact(Free(h, k)) == Exact(h) - (h.blocks[k].size + HEADER);
    UpdateKeepsTiled(h, k, false);
  }

  datatype Op = Alloc(size: nat) | Release(k: nat)

  function Step(h: Heap, op: Op): Heap
    requires op.Release? ==> op.k < |h.blocks|
  {
    match op
    case Alloc(size) => Malloc(h, size).0
    case Release(k) => Free(h, k)
  }

  /** Callers free only what they hold; the first block, the page map, belongs to the heap itself. */
  predicate LegalRun(h: Heap, ops: seq<Op>)
    decreases |ops|
  {
    ops == [] ||
    ((ops[0].Release? ==> 0 < ops[0].k < |h.blocks| && h.blocks[ops[0].k].live) &&
     LegalRun(Step(h, ops[0]), ops[1..]))
  }

  function Run(h: Heap, ops: seq<Op>): Heap
    requires LegalRun(h, ops)
    decreases |ops|
  {
    if ops == [] then h else Run(Step(h, ops[0]), ops[1..])
  }

  /** `later` still has every block of `earlier`, at the same place and size. */
  ghost predicate Extends(earlier: Heap, later: Heap) {
    && later.begin == earlier.begin
    && |earlier.blocks| <= |later.blocks|
    && (forall i :: 0 <= i < |earlier.blocks| ==>
          later.blocks[i].addr == earlier.blocks[i].addr && later.blocks[i].size == earlier.blocks[i].size)
  }

  lemma StepExtends(h: Heap, op: Op)
    requires op.Release? ==> op.k < |h.blocks|
    ensures Extends(h, Step(h, op))
  {}

  lemma StepKeepsValid(h: Heap, op: Op)
    requires Valid(h) && (op.Release? ==> op.k < |h.blocks| && h.blocks[op.k].live)
    ensures Valid(Step(h, op))
  {
    match op {
      case Alloc(size) => MallocKeepsValid(h, size);
      case Release(k) => FreeKeepsValid(h, k);
    }
  }

  /**
   Over every run of allocations and frees: the blocks tile the heap, the counter obeys the
   accounting law, and a block once made never moves, splits, merges or changes size.
   */
  lemma {:induction false} EveryRunIsSafe(h: Heap, ops: seq<Op>)
    requires Valid(h) && LegalRun(h, ops)
    ensures Valid(Run(h, ops))
    ensures Extends(h, Run(h, ops))
    ensures Run(h, ops).slack >= h.slack
    decreases |ops|
  {
    if ops != [] {
      StepKeepsValid(h, ops[0]);
      StepExtends(h, ops[0]);
      EveryRunIsSafe(Step(h, ops[0]), ops[1..]);
    }
  }

  /** In every reachable heap two different live payloads share no byte, and both lie inside the heap. */
  lemma LivePayloadsAreDisjoint(h: Heap, ops: seq<Op>, i: nat, j: nat)
    requires Valid(h) && LegalRun(h, ops)
    requires i < j < |Run(h, ops).blocks|
    ensures var r := Run(h, ops);
      h.begin + HEADER <= r.blocks[i].Payload() &&
      r.blocks[i].Payload() + r.blocks[i].size + PAD + HEADER <= r.blocks[j].Payload() &&
      r.blocks[j].Payload() + r.blocks[j].size < HEAP_END
  {
    EveryRunIsSafe(h, ops);
    TilesAreDisjoint(Run(h, ops));
  }

  /** The heap grows only when no free block is large enough, and never past its end. */
  lemma GrowsOnlyWhenNothingFits(h: Heap, size: nat)
    requires Valid(h)
    ensures |Malloc(h, size).0.blocks| > |h.blocks| <==>
            0 < size && h.last + HEADER + size < HEAP_END &&
            forall i :: 0 <= i < |h.blocks| ==> h.blocks[i].live || h.blocks[i].size < size
  {
    var k := FirstFit(h.blocks, size);
  }

  // ---------- the counter over a run, from what the callers see ----------

  /** The block whose payload starts at `p`, if there is one. */
  function BlockAt(blocks: seq<Block>, p: nat): Option<Block> {
    if blocks == [] then None
    else if blocks[0].Payload() == p then Some(blocks[0])
    else BlockAt(blocks[1..], p)
  }

  /** Bytes of the block a request was given that it did not ask for; none if the block is new. */
  function Excess(h: Heap, op: Op): int {
    match op
    case Release(_) => 0
    case Alloc(size) =>
      match Malloc(h, size).1
      case Pointer(p) => (match BlockAt(h.blocks, p)
                          case Some(b) => b.size - size
                          case None => 0)
      case _ => 0
  }

  /** What one operation adds to the counter. */
  function Debit(h: Heap, op: Op): int
    requires op.Release? ==> op.k < |h.blocks|
  {
    match op
    case Release(k) => -(h.blocks[k].size + 8)
    case Alloc(size) =>
      if !Malloc(h, size).1.Pointer? then 0
      else if |Step(h, op).blocks| > |h.blocks| then size + 8 + 4
      else size + 8
  }

  function TotalExcess(h: Heap, ops: seq<Op>): int
    requires LegalRun(h, ops)
    decreases |ops|
  {
    if ops == [] then 0 else Excess(h, ops[0]) + TotalExcess(Step(h, ops[0]), ops[1..])
  }

  function TotalDebit(h: Heap, ops: seq<Op>): int
    requires LegalRun(h, ops)
    decreases |ops|
  {
    if ops == [] then 0 else Debit(h, ops[0]) + TotalDebit(Step(h, ops[0]), ops[1..])
  }

  lemma {:induction false} BlockAtIs(blocks: seq<Block>, p: nat, k: nat)
    requires k <= |blocks| && forall i :: 0 <= i < k ==> blocks[i].Payload() != p
    requires k < |blocks| ==> blocks[k].Payload() == p
    ensures BlockAt(blocks, p) == if k < |blocks| then Some(blocks[k]) else None
  {
    if k > 0 {
      BlockAtIs(blocks[1..], p, k - 1);
    }
  }

  lemma StepExcess(h: Heap, op: Op)
    requires Valid(h) && (op.Release? ==> op.k < |h.blocks|)
    ensures Step(h, op).slack == h.slack + Excess(h, op)
  {
    if op.Alloc? && op.size > 0 {
      var k := FirstFit(h.blocks, op.size);
      TilesAreDisjoint(h);
      if k < |h.blocks| {
        BlockAtIs(h.blocks, h.blocks[k].Payload(), k);
      } else {
        BlockAtIs(h.blocks, h.last + HEADER, k);
      }
    }
  }

  lemma StepDebit(h: Heap, op: Op)
    requires Valid(h) && (op.Release? ==> op.k < |h.blocks|)
    ensures Step(h, op).used == Wrap(h.used + Debit(h, op))
  {}

  lemma NoOps(h: Heap)
    ensures LegalRun(h, []) && Run(h, []) == h && TotalExcess(h, []) == TotalDebit(h, []) == 0 && Wrap(h.used) == h.used
  {}

  lemma FirstOp(h: Heap, ops: seq<Op>)
    requires LegalRun(h, ops) && ops != []
    ensures ops[0].Release? ==> 0 < ops[0].k < |h.blocks| && h.blocks[ops[0].k].live
    ensures var g := Step(h, ops[0]);
      LegalRun(g, ops[1..]) && Run(h, ops) == Run(g, ops[1..]) &&
      TotalExcess(h, ops) == Excess(h, ops[0]) + TotalExcess(g, ops[1..]) &&
      TotalDebit(h, ops) == Debit(h, ops[0]) + TotalDebit(g, ops[1..])
  {
    hide Step, Excess, Debit;
  }

  /**
   Over every run, with neither `Reuse` nor `Extend` in sight: a successful request is charged what
   was asked for and 8 bytes, 4 more if the row grew; a release is credited the block and 8 bytes;
   and the slack is what reused blocks were larger than the requests they served.
   */
  lemma {:induction false} CounterOverRun(h: Heap, ops: seq<Op>)
    requires Valid(h) && LegalRun(h, ops)
    ensures Run(h, ops).slack == h.slack + TotalExcess(h, ops)
    ensures Run(h, ops).used == Wrap(h.used + TotalDebit(h, ops))
    decreases |ops|
  {
    hide *;
    if ops == [] {
      NoOps(h);
    } else {
      FirstOp(h, ops);
      var g, op := Step(h, ops[0]), ops[0];
      StepKeepsValid(h, op);
      StepExcess(h, op);
      StepDebit(h, op);
      CounterOverRun(g, ops[1..]);
      WrapAdd(h.used + Debit(h, op), TotalDebit(g, ops[1..]));
    }
  }

  lemma {:induction false} OnlyFirstLive(blocks: seq<Block>)
    requires 0 < |blocks| && forall i :: 0 < i < |blocks| ==> !blocks[i].live
    ensures LiveBytes(blocks) == Charge(blocks[0])
  {
    if |blocks| > 1 {
      OnlyFirstLive(blocks[..|blocks| - 1]);
    } else {
      assert blocks[..0] == [];
    }
  }

  /** The page map is never freed. */
  lemma {:induction false} FirstStays(h: Heap, ops: seq<Op>)
    requires LegalRun(h, ops) && |h.blocks| > 0 && h.blocks[0].live
    ensures |Run(h, ops).blocks| > 0 && Run(h, ops).blocks[0] == h.blocks[0]
    decreases |ops|
  {
    if ops != [] {
      assert Step(h, ops[0]).blocks[0] == h.blocks[0];
      FirstStays(Step(h, ops[0]), ops[1..]);
    }
  }

  lemma WrapsBackIff(a: int, d: int)
    ensures Wrap(a + d) == Wrap(a) <==> d % TWO_32 == 0
  {
    var p, q, r := a / TWO_32, (a + d) / TWO_32, d / TWO_32;
    if d % TWO_32 == 0 {
      assert a + d == Wrap(a) + (p + r) * TWO_32;
    }
    if Wrap(a + d) == Wrap(a) {
      assert d == (q - p) * TWO_32;
    }
  }

  /**
   Once everything but the page map is freed, the counter is back at its first value exactly when
   4 bytes per extra block equal the slack lost to reuses (modulo 2^32): it drifts otherwise.
   */
  lemma CounterDrift(h: Heap, n: nat, mapSize: nat)
    requires Valid(h) && |h.blocks| == n + 1
    requires h.blocks[0].live && h.blocks[0].size == mapSize
    requires forall i :: 0 < i < |h.blocks| ==> !h.blocks[i].live
    ensures Exact(h) == PAD + HEADER + mapSize + (PAD * n - h.slack)
    ensures h.used == Wrap(PAD + HEADER + mapSize + (PAD * n - h.slack))
    ensures h.used == Wrap(PAD + HEADER + mapSize) <==> (PAD * n - h.slack) % TWO_32 == 0
  {
    OnlyFirstLive(h.blocks);
    WrapsBackIff(PAD + HEADER + mapSize, PAD * n - h.slack);
  }

  /** It drifts at once: one byte allocated and freed again leaves the counter 4 higher. */
  lemma OneByteDrifts(begin: nat)
    requires begin + HEADER + PAGES + PAD + HEADER + 1 < HEAP_END
    ensures var h := Extend(Heap(begin, [], begin, 0, 0), PAGES);
      LegalRun(h, [Alloc(1), Release(1)]) && Run(h, [Alloc(1), Release(1)]).used == h.used + 4
  {
    var h := Extend(Heap(begin, [], begin, 0, 0), PAGES);
    var ops := [Alloc(1), Release(1)];
    assert ops[1..] == [Release(1)] && ops[1..][1..] == [];
    FirstFitIs(h.blocks, 1, 1);
    var g := Step(h, Alloc(1));
    assert g == Extend(h, 1);
    assert Run(g, ops[1..]) == Free(g, 1);
  }

  /** The same drift over a run: 4 bytes for every block made, less what reused blocks were too large. */
  lemma DriftOverRun(h: Heap, ops: seq<Op>)
    requires Valid(h) && LegalRun(h, ops) && |h.blocks| == 1 && h.blocks[0].live
    requires forall i :: 0 < i < |Run(h, ops).blocks| ==> !Run(h, ops).blocks[i].live
    ensures Run(h, ops).used == Wrap(h.used + PAD * (|Run(h, ops).blocks| - 1) - TotalExcess(h, ops))
    ensures Run(h, ops).used == h.used <==> (PAD * (|Run(h, ops).blocks| - 1) - TotalExcess(h, ops)) % TWO_32 == 0
  {
    var r := Run(h, ops);
    EveryRunIsSafe(h, ops);
    CounterOverRun(h, ops);
    FirstStays(h, ops);
    var first, drift := PAD + HEADER + h.blocks[0].size - h.slack, PAD * (|r.blocks| - 1) - TotalExcess(h, ops);
    CounterDrift(h, 0, h.blocks[0].size);
    CounterDrift(r, |r.blocks| - 1, h.blocks[0].size);
    hide *;
    WrapAdd(first, drift);
    WrapsBackIff(first, drift);
  }

  /** A reused block is charged the request: 100 bytes, freed, and 10 in their place leave 22 charged. */
  lemma ReuseIsChargedTheRequest(begin: nat)
    requires begin + HEADER + PAGES + PAD + HEADER + 100 < HEAP_END
    ensures var h := Extend(Heap(begin, [], begin, 0, 0), PAGES);
      var ops := [Alloc(100), Release(1), Alloc(10)];
      LegalRun(h, ops) && Run(h, ops).used == h.used + 22
  {
    var h := Extend(Heap(begin, [], begin, 0, 0), PAGES);
    var ops := [Alloc(100), Release(1), Alloc(10)];
    assert ops[1..] == [Release(1), Alloc(10)] && ops[1..][1..] == [Alloc(10)] && ops[1..][1..][1..] == [];
    FirstFitIs(h.blocks, 100, 1);
    var g := Step(h, Alloc(100));
    assert g == Extend(h, 100);
    var f := Step(g, Release(1));
    FirstFitIs(f.blocks, 10, 1);
    assert Run(h, ops) == Run(g, ops[1..]) == Run(f, ops[1..][1..]) == Step(f, Alloc(10));
  }

  /**
   The out-of-memory test adds in 32 bits.  It answers the true question exactly when the sum does
   not wrap; a request near 2^32 passes it although nothing is left.
   */
  lemma GuardIsExactIffNoWrap(last: nat, size: uint32)
    requires last + HEADER <= HEAP_END
    ensures (Wrap(last + size + HEADER) >= HEAP_END <==> last + size + HEADER >= HEAP_END)
        <==> last + size + HEADER < TWO_32
  {
    var sum := last + size + HEADER;
    if sum >= TWO_32 {
      assert Wrap(sum) == sum - TWO_32;
    }
  }

  /** A request overruns memory exactly when no free block fits and its sum wraps to below the end of the heap. */
  lemma OverrunIffWraps(h: Heap, size: uint32)
    requires Valid(h) && h.blocks != []
    ensures Malloc(h, size).1.Overrun? <==>
            0 < size && TWO_32 <= h.last + size + HEADER < TWO_32 + HEAP_END &&
            forall i :: 0 <= i < |h.blocks| ==> h.blocks[i].live || h.blocks[i].size < size
  {
    var k, sum := FirstFit(h.blocks, size), h.last + size + HEADER;
    assert h.last == h.blocks[|h.blocks| - 1].Next();
    if sum >= TWO_32 {
      assert Wrap(sum) == sum - TWO_32;
    }
  }

  /** Such a request exists as long as the heap is not full to its last bytes: the largest one. */
  lemma LargestRequestOverruns(h: Heap)
    requires Valid(h) && h.blocks != [] && h.last + HEADER - 1 < HEAP_END
    ensures Malloc(h, 0xFFFF_FFFF).1 == Overrun
  {
    OverrunIffWraps(h, 0xFFFF_FFFF);
  }
}
