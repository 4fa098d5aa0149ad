/** The kernel heap as a state machine, and what holds over every run of
    kmalloc, kfree and krealloc. */
module HeapRuns {
  import opened HeapChain

  /** The chain and the counters, read as unbounded integers; `count` is the
      number of allocations that have succeeded. */
  datatype Heap = Heap(chain: Chain, totalAllocated: nat, totalFreed: int, usage: int, count: nat)

  datatype Op = Malloc(size: nat) | Free(ptr: nat) | Realloc(ptr: nat, size: nat)

  /** Index of the block whose header is at `addr`. */
  function IndexOf(c: Chain, addr: nat): (i: nat)
    ensures i <= |c|
    ensures i < |c| ==> c[i].addr == addr
    ensures i == |c| ==> forall j | 0 <= j < |c| :: c[j].addr != addr
  {
    if c == [] then 0
    else if c[0].addr == addr then 0
    else 1 + IndexOf(c[1..], addr)
  }

  /** The block kmalloc picks, or -1. */
  function Pick(c: Chain, size: nat): (r: int)
    ensures -1 <= r < |c|
    ensures r >= 0 ==> Fits(c[r], Need(size))
  {
    if size == 0 || size > MAX_SIZE then -1 else BestFit(c, Need(size), |c|)
  }

  /** The pointer kmalloc returns; 0 is NULL. */
  function MallocPtr(h: Heap, size: nat): nat
  {
    var r := Pick(h.chain, size);
    if r < 0 then 0 else h.chain[r].addr + HEADER
  }

  function MallocStep(h: Heap, size: nat): Heap
  {
    var r := Pick(h.chain, size);
    if r < 0 then h
    else
      var c := Take(h.chain, r, Need(size));
      Heap(c, h.totalAllocated + size, h.totalFreed, h.usage + c[r].size, h.count + 1)
  }

  /** `ptr` is the payload address of the block at index `i`. */
  predicate Known(c: Chain, ptr: nat)
  {
    ptr >= HEADER && IndexOf(c, ptr - HEADER) < |c|
  }

  /** The index of the block whose payload starts at `ptr`. */
  function BlockOf(c: Chain, ptr: nat): (i: nat)
    requires Known(c, ptr)
    ensures i < |c| && c[i].addr + HEADER == ptr
  {
    IndexOf(c, ptr - HEADER)
  }

  predicate Live(c: Chain, ptr: nat)
  {
    Known(c, ptr) && !c[BlockOf(c, ptr)].free
  }

  /** NULL and blocks already free are left alone. */
  function FreeStep(h: Heap, ptr: nat): Heap
    requires ptr == 0 || Known(h.chain, ptr)
  {
    if ptr == 0 then h
    else
      var i := BlockOf(h.chain, ptr);
      if h.chain[i].free then h
      else Heap(Give(h.chain, i), h.totalAllocated, h.totalFreed + h.chain[i].size - HEADER,
          h.usage - h.chain[i].size, h.count)
  }

  function ReallocStep(h: Heap, ptr: nat, size: nat): Heap
    requires ptr == 0 || Live(h.chain, ptr)
  {
    if ptr == 0 then MallocStep(h, size)
    else if size == 0 then FreeStep(h, ptr)
    else if size + HEADER <= h.chain[BlockOf(h.chain, ptr)].size then h
    else if MallocPtr(h, size) == 0 then h
    else
      var m := MallocStep(h, size);
      if Known(m.chain, ptr) then FreeStep(m, ptr) else m
  }

  predicate Legal(h: Heap, op: Op)
  {
    match op
    case Malloc(_) => true
    case Free(ptr) => ptr == 0 || Known(h.chain, ptr)
    case Realloc(ptr, _) => ptr == 0 || Live(h.chain, ptr)
  }

  function Step(h: Heap, op: Op): Heap
    requires Legal(h, op)
  {
    match op
    case Malloc(size) => MallocStep(h, size)
    case Free(ptr) => FreeStep(h, ptr)
    case Realloc(ptr, size) => ReallocStep(h, ptr, size)
  }

  // ----- the counters

  function UsedBytes(c: Chain): nat
  {
    if c == [] then 0 else (if c[0].free then 0 else c[0].size) + UsedBytes(c[1..])
  }

  function UsedCount(c: Chain): nat
  {
    if c == [] then 0 else (if c[0].free then 0 else 1) + UsedCount(c[1..])
  }

  lemma {:induction false} UsedConcat(a: Chain, b: Chain)
    ensures UsedBytes(a + b) == UsedBytes(a) + UsedBytes(b)
    ensures UsedCount(a + b) == UsedCount(a) + UsedCount(b)
  {
    if a == [] {
      assert a + b == b;
    } else {
      assert (a + b)[1..] == a[1..] + b;
      UsedConcat(a[1..], b);
    }
  }

  /** The totals of a chain whose blocks i..j are replaced by `m`. */
  lemma UsedSplice(c: Chain, i: nat, j: nat, m: Chain)
    requires i <= j <= |c|
    ensures UsedBytes(c[..i] + m + c[j..]) == UsedBytes(c) - UsedBytes(c[i..j]) + UsedBytes(m)
    ensures UsedCount(c[..i] + m + c[j..]) == UsedCount(c) - UsedCount(c[i..j]) + UsedCount(m)
  {
    assert c == c[..i] + c[i..j] + c[j..];
    UsedConcat(c[..i] + c[i..j], c[j..]);
    UsedConcat(c[..i], c[i..j]);
    UsedConcat(c[..i] + m, c[j..]);
    UsedConcat(c[..i], m);
  }

  lemma UsedOne(b: Blk)
    ensures UsedBytes([b]) == if b.free then 0 else b.size
    ensures UsedCount([b]) == if b.free then 0 else 1
  {
    assert UsedBytes([b][1..]) == 0;
  }

  lemma UsedTwo(a: Blk, b: Blk)
    ensures UsedBytes([a, b]) == UsedBytes([a]) + UsedBytes([b])
    ensures UsedCount([a, b]) == UsedCount([a]) + UsedCount([b])
  {
    assert [a, b] == [a] + [b];
    UsedConcat([a], [b]);
  }

  lemma SetOne(c: Chain, i: nat, b: Blk)
    requires i < |c|
    ensures UsedBytes(c[i := b]) == UsedBytes(c) - UsedBytes([c[i]]) + UsedBytes([b])
    ensures UsedCount(c[i := b]) == UsedCount(c) - UsedCount([c[i]]) + UsedCount([b])
  {
    assert c[i := b] == c[..i] + [b] + c[i + 1..];
    assert c[i..i + 1] == [c[i]];
    UsedSplice(c, i, i + 1, [b]);
  }

  lemma CutCounts(c: Chain, i: nat, a: Blk, b: Blk)
    requires i < |c| && c[i].free && b.free
    ensures UsedBytes(c[..i] + [a, b] + c[i + 1..]) == UsedBytes(c) + UsedBytes([a])
    ensures UsedCount(c[..i] + [a, b] + c[i + 1..]) == UsedCount(c) + UsedCount([a])
  {
    assert c[i..i + 1] == [c[i]];
    UsedSplice(c, i, i + 1, [a, b]);
    UsedTwo(a, b);
    UsedOne(c[i]);
    UsedOne(b);
  }

  lemma TakeCounts(c: Chain, i: nat, need: nat)
    requires i < |c| && Fits(c[i], need)
    ensures UsedBytes(Take(c, i, need)) == UsedBytes(c) + Take(c, i, need)[i].size
    ensures UsedCount(Take(c, i, need)) == UsedCount(c) + 1
  {
    var b := Take(c, i, need)[i];
    UsedOne(c[i]);
    UsedOne(b);
    if c[i].size >= need + HEADER + MIN_SIZE {
      var rest := Blk(c[i].addr + need, c[i].size - need, true);
      assert Take(c, i, need) == c[..i] + [b, rest] + c[i + 1..];
      CutCounts(c, i, b, rest);
    } else {
      SetOne(c, i, b);
    }
  }

  lemma JoinCounts(c: Chain, i: nat)
    requires i + 1 < |c| && c[i].free && c[i + 1].free
    ensures UsedBytes(Join(c, i)) == UsedBytes(c) && UsedCount(Join(c, i)) == UsedCount(c)
  {
    var b := Blk(c[i].addr, c[i].size + c[i + 1].size, c[i].free);
    assert c[i..i + 2] == [c[i], c[i + 1]];
    UsedSplice(c, i, i + 2, [b]);
    UsedTwo(c[i], c[i + 1]);
    UsedOne(c[i]);
    UsedOne(c[i + 1]);
    UsedOne(b);
  }

  lemma GiveCounts(c: Chain, i: nat)
    requires i < |c| && !c[i].free
    ensures UsedBytes(Give(c, i)) == UsedBytes(c) - c[i].size
    ensures UsedCount(Give(c, i)) == UsedCount(c) - 1
  {
    var b := c[i].(free := true);
    SetOne(c, i, b);
    UsedOne(c[i]);
    UsedOne(b);
    var c1 := c[i := b];
    if i + 1 < |c1| && c1[i + 1].free { JoinCounts(c1, i); }
    var c2 := JoinNext(c1, i);
    if i > 0 && c2[i - 1].free { JoinCounts(c2, i - 1); }
  }

  // ----- the used blocks

  lemma TakeUsed(c: Chain, i: nat, need: nat)
    requires i < |c| && Fits(c[i], need)
    ensures Used(Take(c, i, need)) == Used(c) + {Take(c, i, need)[i]}
    ensures Take(c, i, need)[i].addr == c[i].addr && !Take(c, i, need)[i].free
  {
    var d := Take(c, i, need);
    TakeAt(c, i, need);
    forall b | b in Used(c)
      ensures b in Used(d)
    {
      var j :| 0 <= j < |c| && c[j] == b;
      assert j != i;
      if c[i].size < need + HEADER + MIN_SIZE || j < i { assert d[j] == b; } else { assert d[j + 1] == b; }
    }
  }

  lemma JoinUsed(c: Chain, i: nat)
    requires i + 1 < |c| && c[i].free && c[i + 1].free
    ensures Used(Join(c, i)) == Used(c)
  {
    JoinAt(c, i);
    var d := Join(c, i);
    forall b | b in Used(c)
      ensures b in Used(d)
    {
      var j :| 0 <= j < |c| && c[j] == b;
      assert if j < i then d[j] == b else d[j - 1] == b;
    }
  }

  lemma FlagUsed(c: Chain, start: nat, i: nat)
    requires WellFormed(c, start) && i < |c| && !c[i].free
    ensures Used(c[i := c[i].(free := true)]) == Used(c) - {c[i]}
  {
    var d := c[i := c[i].(free := true)];
    forall j | 0 <= j < |c| && j != i
      ensures c[j] != c[i] && d[j] == c[j]
    {
      if i < j { Ordered(c, start, start + REGION, i, j); } else { Ordered(c, start, start + REGION, j, i); }
    }
    forall b | b in Used(c) - {c[i]}
      ensures b in Used(d)
    {
      var j :| 0 <= j < |c| && c[j] == b;
      assert d[j] == b;
    }
  }

  lemma GiveUsed(c: Chain, start: nat, i: nat)
    requires WellFormed(c, start) && i < |c| && !c[i].free
    ensures Used(Give(c, i)) == Used(c) - {c[i]}
  {
    FlagUsed(c, start, i);
    var c1 := c[i := c[i].(free := true)];
    if i + 1 < |c1| && c1[i + 1].free { JoinUsed(c1, i); }
    var c2 := JoinNext(c1, i);
    if i > 0 && c2[i - 1].free { JoinUsed(c2, i - 1); }
  }

  // ----- one step

  /** The reachable states of a heap at `start`. */
  ghost predicate Inv(h: Heap, start: nat)
  {
    && start > 0 && start % 8 == 0
    && WellFormed(h.chain, start)
    && h.usage == UsedBytes(h.chain)
    && h.totalAllocated <= h.totalFreed + h.usage - HEADER * UsedCount(h.chain) <= h.totalAllocated + 31 * h.count
  }

  lemma MallocFields(h: Heap, size: nat)
    requires Pick(h.chain, size) >= 0
    ensures var r, t := Pick(h.chain, size), MallocStep(h, size);
            && t.chain == Take(h.chain, r, Need(size))
            && t.totalAllocated == h.totalAllocated + size && t.totalFreed == h.totalFreed
            && t.usage == h.usage + t.chain[r].size
            && MallocPtr(h, size) == h.chain[r].addr + HEADER
  {
  }

  lemma FreeFields(h: Heap, ptr: nat)
    requires Live(h.chain, ptr) && ptr != 0
    ensures var i, t := BlockOf(h.chain, ptr), FreeStep(h, ptr);
            && t.chain == Give(h.chain, i) && t.totalAllocated == h.totalAllocated
            && t.totalFreed == h.totalFreed + h.chain[i].size - HEADER
            && t.usage == h.usage - h.chain[i].size
  {
  }

  lemma MallocKeeps(h: Heap, start: nat, size: nat)
    requires Inv(h, start)
    ensures Inv(MallocStep(h, size), start)
  {
    var r := Pick(h.chain, size);
    if r >= 0 {
      TakeKeeps(h.chain, start, r, Need(size));
      TakeCounts(h.chain, r, Need(size));
      TakenSize(h.chain, start, r, size);
    }
  }

  /** Waste: a block taken for `size` bytes has between 0 and 31 usable bytes more. */
  lemma TakenSize(c: Chain, start: nat, r: nat, size: nat)
    requires WellFormed(c, start) && r < |c| && Fits(c[r], Need(size))
    ensures size <= Take(c, r, Need(size))[r].size - HEADER <= size + 31
  {
  }

  lemma FreeKeeps(h: Heap, start: nat, ptr: nat)
    requires Inv(h, start) && (ptr == 0 || Known(h.chain, ptr))
    ensures Inv(FreeStep(h, ptr), start)
  {
    if ptr != 0 && !h.chain[BlockOf(h.chain, ptr)].free {
      var i := BlockOf(h.chain, ptr);
      GiveKeeps(h.chain, start, i);
      GiveCounts(h.chain, i);
    }
  }

  /** The index of a block is determined by its address. */
  lemma IndexUnique(c: Chain, start: nat, i: nat)
    requires WellFormed(c, start) && i < |c|
    ensures IndexOf(c, c[i].addr) == i
  {
    var j := IndexOf(c, c[i].addr);
    if i < j { Ordered(c, start, start + REGION, i, j); }
    if j < i { Ordered(c, start, start + REGION, j, i); }
  }

  lemma UsedIndex(c: Chain, start: nat, b: Blk)
    requires WellFormed(c, start) && b in Used(c)
    ensures Live(c, b.addr + HEADER) && c[BlockOf(c, b.addr + HEADER)] == b
  {
    var j :| 0 <= j < |c| && c[j] == b;
    IndexUnique(c, start, j);
  }

  lemma TakeFacts(c: Chain, start: nat, r: nat, size: nat)
    requires size > 0 && WellFormed(c, start) && r < |c| && Fits(c[r], Need(size))
    ensures var d := Take(c, r, Need(size));
            && WellFormed(d, start) && r < |d| && d[r].addr == c[r].addr
            && Used(d) == Used(c) + {d[r]} && d[r] !in Used(c)
            && Live(d, c[r].addr + HEADER) && d[BlockOf(d, c[r].addr + HEADER)] == d[r]
  {
    var d := Take(c, r, Need(size));
    TakeKeeps(c, start, r, Need(size));
    TakeUsed(c, r, Need(size));
    assert d[r] in Used(d);
    UsedIndex(d, start, d[r]);
    NotUsedAt(c, start, r, d[r]);
  }

  lemma NotUsedAt(c: Chain, start: nat, r: nat, b: Blk)
    requires WellFormed(c, start) && r < |c| && c[r].free && b.addr == c[r].addr
    ensures b !in Used(c)
  {
    if b in Used(c) { UsedIndex(c, start, b); IndexUnique(c, start, r); }
  }

  lemma LiveIn(c: Chain, d: Chain, start: nat, ptr: nat)
    requires WellFormed(d, start) && Live(c, ptr) && Used(c) <= Used(d)
    ensures Live(d, ptr) && d[BlockOf(d, ptr)] == c[BlockOf(c, ptr)]
  {
    UsedIndex(d, start, c[BlockOf(c, ptr)]);
  }

  /** Allocation leaves a live block where and as it is. */
  lemma LiveStays(h: Heap, start: nat, size: nat, ptr: nat)
    requires Inv(h, start) && Live(h.chain, ptr)
    ensures var m := MallocStep(h, size);
            Live(m.chain, ptr) && m.chain[BlockOf(m.chain, ptr)] == h.chain[BlockOf(h.chain, ptr)]
  {
    var r := Pick(h.chain, size);
    if r >= 0 {
      TakeFacts(h.chain, start, r, size);
      LiveIn(h.chain, Take(h.chain, r, Need(size)), start, ptr);
    }
  }

  /** The pointer allocation returns is not one already live. */
  lemma FreshPointer(h: Heap, start: nat, size: nat, ptr: nat)
    requires Inv(h, start) && Live(h.chain, ptr)
    ensures ptr != MallocPtr(h, size)
  {
    var r, b := Pick(h.chain, size), h.chain[BlockOf(h.chain, ptr)];
    if r >= 0 && b.addr == h.chain[r].addr { NotUsedAt(h.chain, start, r, b); }
  }

  /** From `h` to `t` one block was put in use, the one at `p`; nothing changed if there is none. */
  ghost predicate Gained(h: Heap, t: Heap, p: nat)
  {
    if p == 0 then t == h
    else
      && Live(t.chain, p) && t.chain[BlockOf(t.chain, p)] !in Used(h.chain)
      && Used(t.chain) == Used(h.chain) + {t.chain[BlockOf(t.chain, p)]}
  }

  /** From `h` to `t` the block at `ptr`, and no other, went out of use. */
  ghost predicate Lost(h: Heap, t: Heap, ptr: nat)
    requires Live(h.chain, ptr)
  {
    Used(t.chain) == Used(h.chain) - {h.chain[BlockOf(h.chain, ptr)]}
  }

  /** From `h` to `t` a new block, the one at `p`, replaced the one at `ptr`. */
  ghost predicate Swapped(h: Heap, t: Heap, ptr: nat, p: nat)
    requires Live(h.chain, ptr)
  {
    && Live(t.chain, p) && t.chain[BlockOf(t.chain, p)] !in Used(h.chain)
    && Used(t.chain) == Used(h.chain) - {h.chain[BlockOf(h.chain, ptr)]} + {t.chain[BlockOf(t.chain, p)]}
  }

  /** The block allocation returns is live and the only new one in use; failing, it changes nothing. */
  lemma MallocResult(h: Heap, start: nat, size: nat)
    requires Inv(h, start)
    ensures Gained(h, MallocStep(h, size), MallocPtr(h, size))
  {
    var r := Pick(h.chain, size);
    if r >= 0 { TakeFacts(h.chain, start, r, size); }
  }

  /** Freeing a live block takes that block, and nothing else, out of use. */
  lemma FreeResult(h: Heap, start: nat, ptr: nat)
    requires Inv(h, start) && ptr != 0 && Live(h.chain, ptr)
    ensures Lost(h, FreeStep(h, ptr), ptr)
  {
    GiveUsed(h.chain, start, BlockOf(h.chain, ptr));
  }

  /** A block in use stays where and as it is when another one is freed. */
  lemma OtherFreed(m: Heap, start: nat, ptr: nat, p: nat)
    requires Inv(m, start) && ptr != 0 && Live(m.chain, ptr) && Live(m.chain, p)
    requires m.chain[BlockOf(m.chain, p)] != m.chain[BlockOf(m.chain, ptr)]
    ensures var d := FreeStep(m, ptr).chain;
            && Live(d, p) && d[BlockOf(d, p)] == m.chain[BlockOf(m.chain, p)]
            && Used(d) == Used(m.chain) - {m.chain[BlockOf(m.chain, ptr)]}
  {
    FreeKeeps(m, start, ptr);
    FreeResult(m, start, ptr);
    UsedIndex(FreeStep(m, ptr).chain, start, m.chain[BlockOf(m.chain, p)]);
  }

  /** Reallocation of NULL is allocation, and to size 0 it is freeing.  Else it changes nothing if the block
      is large enough already or no other can be had, and puts one new block in place of the old one if not. */
  lemma ReallocResult(h: Heap, start: nat, ptr: nat, size: nat)
    requires Inv(h, start) && (ptr == 0 || Live(h.chain, ptr))
    ensures var t, p := ReallocStep(h, ptr, size), MallocPtr(h, size);
            if ptr == 0 then Gained(h, t, p)
            else if size == 0 then Lost(h, t, ptr)
            else if size + HEADER <= h.chain[BlockOf(h.chain, ptr)].size || p == 0 then t == h
            else Swapped(h, t, ptr, p)
  {
    if ptr == 0 {
      MallocResult(h, start, size);
    } else if size == 0 {
      FreeResult(h, start, ptr);
    } else if size + HEADER > h.chain[BlockOf(h.chain, ptr)].size && MallocPtr(h, size) != 0 {
      Replaced(h, start, ptr, size);
    }
  }

  lemma Replaced(h: Heap, start: nat, ptr: nat, size: nat)
    requires Inv(h, start) && ptr != 0 && Live(h.chain, ptr) && MallocPtr(h, size) != 0
    ensures Known(MallocStep(h, size).chain, ptr)
    ensures Swapped(h, FreeStep(MallocStep(h, size), ptr), ptr, MallocPtr(h, size))
  {
    MallocResult(h, start, size);
    MallocKeeps(h, start, size);
    LiveStays(h, start, size, ptr);
    OtherFreed(MallocStep(h, size), start, ptr, MallocPtr(h, size));
  }

  lemma ReallocKeeps(h: Heap, start: nat, ptr: nat, size: nat)
    requires Inv(h, start) && (ptr == 0 || Live(h.chain, ptr))
    ensures Inv(ReallocStep(h, ptr, size), start)
  {
    MallocKeeps(h, start, size);
    if ptr != 0 { LiveStays(h, start, size, ptr); }
    if ptr != 0 && size == 0 { FreeKeeps(h, start, ptr); }
    if ptr != 0 && MallocPtr(h, size) != 0 { FreeKeeps(MallocStep(h, size), start, ptr); }
  }

  lemma StepKeeps(h: Heap, start: nat, op: Op)
    requires Inv(h, start) && Legal(h, op)
    ensures Inv(Step(h, op), start)
  {
    match op
    case Malloc(size) => MallocKeeps(h, start, size);
    case Free(ptr) => FreeKeeps(h, start, ptr);
    case Realloc(ptr, size) => ReallocKeeps(h, start, ptr, size);
  }

  // ----- whole runs

  predicate LegalRun(h: Heap, ops: seq<Op>)
    decreases |ops|
  {
    ops == [] || (Legal(h, ops[0]) && LegalRun(Step(h, ops[0]), ops[1..]))
  }

  function Run(h: Heap, ops: seq<Op>): Heap
    requires LegalRun(h, ops)
    decreases |ops|
  {
    if ops == [] then h else Run(Step(h, ops[0]), ops[1..])
  }

  function Initial(start: nat): Heap
  {
    Heap([Blk(start, REGION, true)], 0, 0, 0, 0)
  }

  lemma InitialInv(start: nat)
    requires start > 0 && start % 8 == 0
    ensures Inv(Initial(start), start)
  {
    UsedOne(Blk(start, REGION, true));
  }

  /** Every run keeps the tiling, the coalescing and the ledger. */
  lemma {:induction false} RunKeeps(h: Heap, start: nat, ops: seq<Op>)
    requires Inv(h, start) && LegalRun(h, ops)
    ensures Inv(Run(h, ops), start)
    decreases |ops|
  {
    if ops != [] {
      StepKeeps(h, start, ops[0]);
      RunKeeps(Step(h, ops[0]), start, ops[1..]);
    }
  }

  /** Any two runs that end with the same blocks in use end with the same chain. */
  lemma RunHistoryIndependent(start: nat, ops: seq<Op>, ops': seq<Op>)
    requires start > 0 && start % 8 == 0
    requires LegalRun(Initial(start), ops) && LegalRun(Initial(start), ops')
    requires Used(Run(Initial(start), ops).chain) == Used(Run(Initial(start), ops').chain)
    ensures Run(Initial(start), ops).chain == Run(Initial(start), ops').chain
  {
    InitialInv(start);
    RunKeeps(Initial(start), start, ops);
    RunKeeps(Initial(start), start, ops');
    UsedDeterminesChain(Run(Initial(start), ops).chain, Run(Initial(start), ops').chain, start);
  }

  /** Once everything allocated has been freed, in whatever order, one free block of 1 MiB remains. */
  lemma RunFreeingAll(start: nat, ops: seq<Op>)
    requires start > 0 && start % 8 == 0 && LegalRun(Initial(start), ops)
    requires Used(Run(Initial(start), ops).chain) == {}
    ensures Run(Initial(start), ops).chain == [Blk(start, REGION, true)]
  {
    assert Used(Initial(start).chain) == {};
    assert Run(Initial(start), []) == Initial(start);
    RunHistoryIndependent(start, ops, []);
  }

  /** Ledger: usage is the used bytes, and the totals differ by at most 31 bytes an allocation. */
  lemma RunLedger(start: nat, ops: seq<Op>)
    requires start > 0 && start % 8 == 0 && LegalRun(Initial(start), ops)
    ensures var h := Run(Initial(start), ops);
            && h.usage == UsedBytes(h.chain)
            && 0 <= h.totalFreed + h.usage - HEADER * UsedCount(h.chain) - h.totalAllocated <= 31 * h.count
  {
    InitialInv(start);
    RunKeeps(Initial(start), start, ops);
  }

  /** kmalloc then kfree restores the exact chain. */
  lemma MallocFree(h: Heap, start: nat, size: nat)
    requires Inv(h, start) && MallocPtr(h, size) != 0
    ensures Known(MallocStep(h, size).chain, MallocPtr(h, size))
    ensures FreeStep(MallocStep(h, size), MallocPtr(h, size)).chain == h.chain
  {
    MallocKeeps(h, start, size);
    MallocResult(h, start, size);
    var d, p := MallocStep(h, size).chain, MallocPtr(h, size);
    GiveRestores(h.chain, d, start, BlockOf(d, p));
  }

  /** Freeing the one block that another chain does not use gives that chain. */
  lemma GiveRestores(c: Chain, d: Chain, start: nat, i: nat)
    requires WellFormed(c, start) && WellFormed(d, start) && i < |d| && !d[i].free
    requires Used(d) == Used(c) + {d[i]} && d[i] !in Used(c)
    ensures Give(d, i) == c
  {
    GiveKeeps(d, start, i);
    GiveUsed(d, start, i);
    UsedDeterminesChain(Give(d, i), c, start);
  }

  // ----- completeness

  ghost predicate Covers(c: Chain, i: nat, x: nat)
    requires i < |c|
  {
    c[i].addr <= x < End(c[i])
  }

  /** The byte at `x` is in the region and in no block in use. */
  ghost predicate FreeByte(c: Chain, start: nat, x: nat)
  {
    start <= x < start + REGION && forall i | 0 <= i < |c| && !c[i].free :: !Covers(c, i, x)
  }

  ghost predicate FreeRange(c: Chain, start: nat, a: nat, n: nat)
  {
    forall x: nat | a <= x < a + n :: FreeByte(c, start, x)
  }

  /** Such a byte is in a free block. */
  lemma FreeByteBlock(c: Chain, start: nat, x: nat) returns (i: nat)
    requires WellFormed(c, start) && FreeByte(c, start, x)
    ensures i < |c| && c[i].free && Covers(c, i, x)
  {
    i := Locate(c, start, start + REGION, x);
    assert Covers(c, i, x);
  }

  /** The bytes of a free block are in no other. */
  lemma FreeBlockBytes(c: Chain, start: nat, i: nat, x: nat)
    requires WellFormed(c, start) && i < |c| && c[i].free && Covers(c, i, x)
    ensures FreeByte(c, start, x)
  {
    InRegion(c, start, start + REGION, i);
    forall j | 0 <= j < |c| && !c[j].free
      ensures !Covers(c, j, x)
    {
      if i < j { Ordered(c, start, start + REGION, i, j); }
      if j < i { Ordered(c, start, start + REGION, j, i); }
    }
  }

  /** kmalloc fails, for a positive size, exactly when no run of unused bytes is as long as the request needs. */
  lemma MallocCompleteness(h: Heap, start: nat, size: nat)
    requires Inv(h, start) && size > 0
    ensures MallocPtr(h, size) == 0 <==> !(exists a: nat :: FreeRange(h.chain, start, a, Need(size)))
  {
    var c, need := h.chain, Need(size);
    BestFitMeaning(c, need, |c|);
    var r := Pick(c, size);
    if r >= 0 {
      forall x: nat | c[r].addr <= x < c[r].addr + need
        ensures FreeByte(c, start, x)
      {
        FreeBlockBytes(c, start, r, x);
      }
      assert FreeRange(c, start, c[r].addr, need);
    }
    if a: nat :| FreeRange(c, start, a, need) {
      var i := RangeInOneBlock(c, start, a, need);
      InRegion(c, start, start + REGION, i);
      assert Fits(c[i], need);
    }
  }

  /** A free block ends where a block in use or nothing begins. */
  lemma EndNotFree(c: Chain, start: nat, i: nat)
    requires WellFormed(c, start) && i < |c| && c[i].free
    ensures !FreeByte(c, start, End(c[i]))
  {
    if i + 1 < |c| {
      assert Meets(c, i) && Apart(c, i);
      assert Covers(c, i + 1, End(c[i]));
    }
  }

  /** So a run of unused bytes lies in one block. */
  lemma RangeInOneBlock(c: Chain, start: nat, a: nat, n: nat) returns (i: nat)
    requires WellFormed(c, start) && n > 0 && FreeRange(c, start, a, n)
    ensures i < |c| && c[i].free && c[i].size >= n
  {
    assert FreeByte(c, start, a);
    i := FreeByteBlock(c, start, a);
    var e := End(c[i]);
    EndNotFree(c, start, i);
    assert a + n > e ==> FreeByte(c, start, e);
  }

  /** What kmalloc takes: the first smallest block that fits, at an 8-byte aligned address. */
  lemma MallocChoice(h: Heap, start: nat, size: nat)
    requires Inv(h, start) && MallocPtr(h, size) != 0
    ensures var c, r, p := h.chain, Pick(h.chain, size), MallocPtr(h, size);
            && p % 8 == 0 && 0 <= r && p == c[r].addr + HEADER && c[r].free
            && (forall j | 0 <= j < |c| && Fits(c[j], Need(size)) :: c[r].size <= c[j].size)
            && (forall j | 0 <= j < r && Fits(c[j], Need(size)) :: c[r].size < c[j].size)
  {
    BestFitMeaning(h.chain, Need(size), |h.chain|);
    AlignedBlocks(h.chain, start, Pick(h.chain, size));
  }

  /** What becomes of the block: with 32 bytes or more to spare it is cut, and the rest is free behind it;
      with fewer all of it is taken. */
  lemma MallocSplits(h: Heap, start: nat, size: nat) returns (r: nat, need: nat)
    requires Inv(h, start) && MallocPtr(h, size) != 0
    ensures r < |h.chain| && h.chain[r].free && h.chain[r].addr + 16 == MallocPtr(h, size)
    ensures need % 8 == 0 && size + 16 <= need < size + 24 && need <= h.chain[r].size
    ensures var b, d := h.chain[r], MallocStep(h, size).chain;
            if b.size >= need + 32 then
              d == h.chain[..r] + [Blk(b.addr, need, false), Blk(b.addr + need, b.size - need, true)] + h.chain[r + 1..]
            else d == h.chain[r := Blk(b.addr, b.size, false)]
  {
    r, need := Pick(h.chain, size), Need(size);
  }

  /** What kmalloc returns has at least `size` and at most `size + 31` usable bytes. */
  lemma MallocUsable(h: Heap, start: nat, size: nat)
    requires Inv(h, start) && MallocPtr(h, size) != 0
    ensures var d, p := MallocStep(h, size).chain, MallocPtr(h, size);
            Live(d, p) && size <= d[BlockOf(d, p)].size - HEADER <= size + 31
  {
    var r := Pick(h.chain, size);
    TakeFacts(h.chain, start, r, size);
    TakenSize(h.chain, start, r, size);
  }

  lemma {:induction false} AlignedBlocks(c: Chain, start: nat, i: nat)
    requires WellFormed(c, start) && start % 8 == 0 && i < |c|
    ensures c[i].addr % 8 == 0
  {
    if i > 0 {
      AlignedBlocks(c, start, i - 1);
      assert Meets(c, i - 1);
    }
  }

  /** Payloads and headers: the payload of a block meets no header and no other payload. */
  lemma PayloadsApart(c: Chain, start: nat, i: nat, j: nat)
    requires WellFormed(c, start) && i < |c| && j < |c|
    ensures c[j].addr + HEADER <= c[i].addr + HEADER || End(c[i]) <= c[j].addr
    ensures i != j ==> End(c[i]) <= c[j].addr + HEADER || End(c[j]) <= c[i].addr + HEADER
  {
    if i < j { Ordered(c, start, start + REGION, i, j); }
    if j < i { Ordered(c, start, start + REGION, j, i); }
  }
}
