/** The objects put together, as the boot sequence does: page allocator, temporary
    mappings, heap, process table. */
module Boot {
  import opened Paging
  import opened BitArith
  import opened BuddyBlocks
  import BuddyLists
  import opened BuddyArith
  import BuddyRuns
  import opened IntrusiveList
  import opened PageAllocator
  import opened PagePool
  import TempMapping
  import opened PageTables
  import opened PageLog
  import opened Vmm
  import opened ProcessRuns
  import opened ProcessTable
  import HeapChain
  import HeapRuns
  import opened KernelHeap
  import HeapClients

  /** `kmalloc_init` begins with taking 256 pages from the allocator. */
  method TakeRegion(pmm: BuddySystem) returns (addr: nat)
    requires pmm.Valid()
    modifies pmm`s, pmm.nrFree, pmm.bitmap, pmm.heads, pmm.frames
    ensures pmm.Valid() && addr % PAGE_SIZE == 0
    ensures addr == 0 <==> BuddyLists.Allocate(old(pmm.s.lists), 8).NoBlock?
    ensures if addr == 0 then pmm.s == old(pmm.s) else pmm.s.live == old(pmm.s.live)[addr / PAGE_SIZE := 8]
    ensures addr != 0 ==> |pmm.FreePages()| + 256 == old(|pmm.FreePages()|)
  {
    RegionAddress(pmm.s);
    pmm.FreeTotal();
    if BuddyLists.Allocate(pmm.s.lists, 8).Taken? {
      BuddyRuns.AllocSize(pmm.s, pmm.arena, 8);
    }
    addr := pmm.AllocPages(8);
    pmm.FreeTotal();
    PowEight();
  }

  lemma PowEight()
    ensures Pow2(8) == 256
  {
    assert Pow2(4) == 16;
  }

  lemma RegionAddress(s: BuddyRuns.Pmm)
    requires |s.lists| == MAX_ORDER + 1
    ensures var addr, t := BuddyRuns.AllocAddr(s, 8), BuddyRuns.AllocStep(s, 8);
            && addr % PAGE_SIZE == 0
            && if BuddyLists.Allocate(s.lists, 8).NoBlock? then t == s else t.live == s.live[addr / PAGE_SIZE := 8]
  {
  }

  /** The heap on the 256 pages at `addr`, whose bytes are `region`. */
  method HeapAt(addr: nat, region: array<bv8>) returns (heap: KernelHeap)
    requires addr > 0 && addr % PAGE_SIZE == 0 && region.Length == HeapChain.REGION
    ensures fresh(heap) && heap.Valid() && heap.s == HeapRuns.Initial(addr) && heap.start == addr
    ensures fresh(heap.repr) && heap.mem == region
  {
    heap := new KernelHeap(addr, region);
  }

  /** What `pmm_init` demands of its range, and of the page headers and of the bytes in front of the first block. */
  ghost predicate Range(start: nat, end: nat, memory: seq<ListHead>, gap: array<bv8>)
  {
    && start <= end < 0x1_0000_0000 && start % MAX_BLOCK_BYTES == 0 && BitmapFits(start, end)
    && Injective(memory) && (forall i | 0 <= i < |memory| :: memory[i].addr == i * PAGE_SIZE)
    && ArenaEnd(start, end) <= |memory| * PAGE_SIZE && gap.Length == FirstBlock(start, end) - start
  }

  /** The allocator has a block for the heap exactly if it has a block. */
  lemma FirstAllocation(first: nat, n: nat)
    ensures BuddyLists.Allocate(BuddyRuns.InitialLists(first, n), 8).Taken? <==> n > 0
    ensures |BuddyRuns.Arena(first, n)| == n * MAX_BLOCK_PAGES
  {
    var lists := BuddyRuns.InitialLists(first, n);
    assert lists[MAX_ORDER] == BuddyRuns.InitialList(first, n);
    BuddyLists.FirstNonEmptyIs(lists, 8, if n > 0 then MAX_ORDER else MAX_ORDER + 1);
    BuddyLists.RangeSize(BuddyRuns.Arena(first, n), first, n * MAX_BLOCK_PAGES);
  }

  lemma InitialFacts(s: BuddyRuns.Pmm, arena: set<nat>, base: nat, first: nat, n: nat)
    requires s == BuddyRuns.Initial(base, first, n) && arena == BuddyRuns.Arena(first, n)
    ensures s.live == map[] && (BuddyLists.Allocate(s.lists, 8).Taken? <==> n > 0)
    ensures |arena - BuddyRuns.LivePages(s.live)| == n * MAX_BLOCK_PAGES
  {
    FirstAllocation(first, n);
    assert BuddyRuns.LiveBlocks(map[]) == {};
    assert arena - BuddyRuns.LivePages(s.live) == arena;
  }

  /** `pmm_init`, which lists `n` blocks from page `first` on. */
  method InitAllocator(start: nat, end: nat, memory: seq<ListHead>, gap: array<bv8>, ghost first: nat, ghost n: nat)
    returns (pmm: BuddySystem)
    requires Range(start, end, memory, gap)
    requires first == FirstBlock(start, end) / PAGE_SIZE && n == BlockCount(start, end)
    modifies memory, gap
    ensures pmm.Valid() && fresh(pmm) && fresh(pmm.nrFree) && fresh(pmm.heads)
    ensures pmm.frames == memory && pmm.bitmap == gap
    ensures pmm.s == BuddyRuns.Initial(start / PAGE_SIZE, first, n) && pmm.arena == BuddyRuns.Arena(first, n)
  {
    WholePages(start);
    pmm := new BuddySystem(start, end, memory, gap);
  }

  lemma WholePages(start: nat)
    requires start % MAX_BLOCK_BYTES == 0
    ensures start % PAGE_SIZE == 0
  {
    var k := start / MAX_BLOCK_BYTES;
    assert start == k * MAX_BLOCK_PAGES * PAGE_SIZE;
  }

  /** The allocator in order, with the region for the heap taken if there is one. */
  method InitPool(start: nat, end: nat, memory: seq<ListHead>, gap: array<bv8>) returns (pool: Pool, addr: nat)
    requires Range(start, end, memory, gap)
    modifies memory, gap
    ensures pool.Valid() && fresh({pool, pool.pmm}) && fresh(pool.pmm.nrFree) && fresh(pool.pmm.heads)
    ensures pool.pmm.frames == memory && pool.pmm.bitmap == gap
    ensures addr % PAGE_SIZE == 0 && (addr != 0 <==> BlockCount(start, end) > 0)
    ensures pool.live == if addr == 0 then map[] else map[addr / PAGE_SIZE := 8]
    ensures |pool.free| == if addr == 0 then 0 else BlockCount(start, end) * MAX_BLOCK_PAGES - 256
  {
    ghost var first, n := FirstBlock(start, end) / PAGE_SIZE, BlockCount(start, end);
    var pmm := InitAllocator(start, end, memory, gap, first, n);
    InitialFacts(pmm.s, pmm.arena, start / PAGE_SIZE, first, n);
    addr := TakeRegion(pmm);
    pool := new Pool(pmm);
  }

  /** `pmm_init` and `kmalloc_init`.  There is no heap if the allocator has no pages for it, which the
      source does not check. */
  method InitPages(start: nat, end: nat, memory: seq<ListHead>, gap: array<bv8>, region: array<bv8>)
    returns (pages: LoggedPool, heap: KernelHeap?)
    requires Range(start, end, memory, gap) && region.Length == HeapChain.REGION
    modifies memory, gap
    ensures pages.Valid() && fresh({pages, pages.pool, pages.pool.pmm}) && fresh(pages.pool.pmm.nrFree)
    ensures fresh(pages.pool.pmm.heads) && pages.pool.pmm.frames == memory && pages.pool.pmm.bitmap == gap
    ensures heap != null ==> fresh(heap) && heap.Valid() && heap.s == HeapRuns.Initial(heap.start)
    ensures heap != null ==> fresh(heap.repr) && heap.mem == region
    ensures heap != null <==> BlockCount(start, end) > 0
    ensures pages.pool.live == if heap == null then map[] else map[heap.start / PAGE_SIZE := 8]
    ensures |pages.pool.free| == if heap == null then 0 else BlockCount(start, end) * MAX_BLOCK_PAGES - 256
    ensures heap != null ==> |pages.pool.free| >= 1792
  {
    var pool, addr := InitPool(start, end, memory, gap);
    pages := new LoggedPool(pool);
    heap := null;
    if addr != 0 {
      heap := HeapAt(addr, region);
    }
  }

  /** The same, and then the test of the heap, which leaves it with the one free block it began with. */
  method InitTested(start: nat, end: nat, memory: seq<ListHead>, gap: array<bv8>, region: array<bv8>,
                    texts: HeapClients.Texts) returns (pages: LoggedPool, heap: KernelHeap?)
    requires Range(start, end, memory, gap) && region.Length == HeapChain.REGION && region != gap
    requires HeapClients.Fitting(texts)
    modifies memory, gap, region
    ensures pages.Valid() && fresh({pages, pages.pool, pages.pool.pmm}) && fresh(pages.pool.pmm.nrFree)
    ensures fresh(pages.pool.pmm.heads) && pages.pool.pmm.frames == memory && pages.pool.pmm.bitmap == gap
    ensures heap != null ==> fresh(heap) && heap.Valid() && heap.s.chain == HeapRuns.Initial(heap.start).chain
    ensures heap != null ==> fresh(heap.repr) && heap.mem == region
    ensures heap != null <==> BlockCount(start, end) > 0
    ensures pages.pool.live == if heap == null then map[] else map[heap.start / PAGE_SIZE := 8]
    ensures |pages.pool.free| == if heap == null then 0 else BlockCount(start, end) * MAX_BLOCK_PAGES - 256
    ensures heap != null ==> |pages.pool.free| >= 1792
  {
    pages, heap := InitPages(start, end, memory, gap, region);
    if heap != null {
      var zero, large, moved := HeapClients.TestHeap(heap, texts);
    }
  }

  /** What is left of the pages once the heap is there and tested. */
  method StartMemory(start: nat, end: nat, memory: seq<ListHead>, gap: array<bv8>, region: array<bv8>,
                     texts: HeapClients.Texts) returns (pages: LoggedPool)
    requires Range(start, end, memory, gap) && region.Length == HeapChain.REGION && region != gap
    requires HeapClients.Fitting(texts)
    modifies memory, gap, region
    ensures pages.Valid() && fresh({pages, pages.pool, pages.pool.pmm}) && fresh(pages.pool.pmm.nrFree)
    ensures fresh(pages.pool.pmm.heads) && pages.pool.pmm.frames == memory && pages.pool.pmm.bitmap == gap
    ensures |pages.pool.live| == if BlockCount(start, end) > 0 then 1 else 0
    ensures if BlockCount(start, end) > 0 then |pages.pool.free| >= 1792 else |pages.pool.free| == 0
  {
    ghost var heap;
    pages, heap := InitTested(start, end, memory, gap, region, texts);
  }

  /** Temporary mappings, address spaces and the process table over the pages. */
  method InitProcesses(pages: LoggedPool, directory: array<nat>, table: array<nat>, contents: map<nat, Content>)
    returns (procs: Processes)
    requires pages.Valid() && {pages.pool.pmm.nrFree as object, pages.pool.pmm.bitmap} !! {table as object, directory}
    requires directory.Length == 1024 && table.Length == 1024 && directory != table && directory[768] % 2 == 1
    ensures procs.Valid() && fresh({procs, procs.spaces, procs.spaces.mapper}) && fresh(procs.processes)
    ensures fresh(procs.spaces.mapper.refCount) && fresh(procs.spaces.mapper.available)
    ensures procs.spaces.pages == pages && procs.spaces.mapper.table == table && procs.spaces.mapper.peak == 0
    ensures procs.View() == Initial(pages.pool.live, pages.pool.free) && procs.spaces.memory == contents
    ensures procs.others == pages.pool.live
  {
    var mapper := new TempMapping.Mapper(directory, table);
    var spaces := new AddressSpaces(pages, mapper, contents);
    procs := new Processes(spaces);
  }

  /** From nothing to a process that has run and exited: the whole stack of constructors, the test of the
      heap, which leaves it as it began, and then creation, start and exit.  It ends with the heap and
      four pages of the process allocated, or, where there are fewer than six pages, with what the failed
      creation leaves. */
  method RunOneProcess(start: nat, end: nat, memory: seq<ListHead>, gap: array<bv8>, region: array<bv8>,
                       texts: HeapClients.Texts, directory: array<nat>, table: array<nat>,
                       contents: map<nat, Content>, binary: nat, size: nat)
    returns (procs: Processes, pid: nat)
    requires Range(start, end, memory, gap) && region.Length == HeapChain.REGION && region != gap
    requires HeapClients.Fitting(texts)
    requires directory.Length == 1024 && table.Length == 1024 && directory != table && directory[768] % 2 == 1
    requires binary % PAGE_SIZE == 0 && size <= PAGE_SIZE
    modifies memory, gap, table, region
    ensures procs.Valid() && procs.spaces.mapper.held == map[] && procs.spaces.mapper.peak <= 3
    ensures if BlockCount(start, end) > 0 then
              pid == 1 && |procs.View().live| == 5 && procs.View().procs[0].state == Terminated
            else
              pid == 0 && procs.View().live == map[]
  {
    var pages := StartMemory(start, end, memory, gap, region, texts);
    procs, pid := RunTable(pages, directory, table, contents, binary, size);
  }

  /** The process table over `pages`, and one process. */
  method RunTable(pages: LoggedPool, directory: array<nat>, table: array<nat>, contents: map<nat, Content>,
                  binary: nat, size: nat) returns (procs: Processes, pid: nat)
    requires pages.Valid() && {pages.pool.pmm.nrFree as object, pages.pool.pmm.bitmap} !! {table as object, directory}
    requires directory.Length == 1024 && table.Length == 1024 && directory != table && directory[768] % 2 == 1
    requires binary % PAGE_SIZE == 0 && size <= PAGE_SIZE
    modifies pages, pages.pool, pages.pool.pmm`s, pages.pool.pmm.nrFree, pages.pool.pmm.bitmap
    modifies pages.pool.pmm.heads, pages.pool.pmm.frames, table
    ensures procs.Valid() && procs.spaces.mapper.held == map[] && procs.spaces.mapper.peak <= 3
    ensures var live, free := old(pages.pool.live), old(|pages.pool.free|);
            if free >= 6 then
              pid == 1 && |procs.View().live| == |live| + 4 && procs.View().procs[0].state == Terminated
            else
              pid == 0 && |procs.View().live| == |live| + (if free == 5 then 4 else 0)
  {
    procs := InitProcesses(pages, directory, table, contents);
    pid := OneProcess(procs, binary, size);
  }

  /** Create a process, start it and let it exit. */
  method OneProcess(procs: Processes, binary: nat, size: nat) returns (pid: nat)
    requires procs.Valid() && binary % PAGE_SIZE == 0 && size <= PAGE_SIZE
    requires procs.View() == Initial(procs.spaces.pages.pool.live, procs.spaces.pages.pool.free)
    requires procs.spaces.pages.pool.live == procs.others
    modifies procs`nextPid, procs`rest, procs`leaked, procs`stackFailures, procs`current, procs.processes
    modifies procs.spaces`memory, procs.spaces.pages, procs.spaces.pages.pool, procs.spaces.pages.pool.pmm`s
    modifies procs.spaces.pages.pool.pmm.nrFree, procs.spaces.pages.pool.pmm.bitmap
    modifies procs.spaces.pages.pool.pmm.heads, procs.spaces.pages.pool.pmm.frames
    modifies procs.spaces.mapper, procs.spaces.mapper.refCount, procs.spaces.mapper.table, procs.spaces.mapper.available
    ensures procs.Valid() && procs.spaces.mapper.peak <= Max(old(procs.spaces.mapper.peak), 3)
    ensures var live, free := old(procs.spaces.pages.pool.live), old(|procs.spaces.pages.pool.free|);
            if free >= 6 then
              pid == 1 && |procs.View().live| == |live| + 4 && procs.View().procs[0].state == Terminated
            else
              pid == 0 && |procs.View().live| == |live| + (if free == 5 then 4 else 0)
  {
    ghost var w := procs.View();
    procs.spaces.pages.pool.Separate();
    ghost var ps;
    pid, ps := procs.Create(true, binary, size);
    LifeOfOne(w, procs.View(), pid);
    StartThenExit(procs, pid);
  }

  method StartThenExit(procs: Processes, pid: nat)
    requires procs.Valid()
    modifies procs`current, procs.processes, procs.spaces.pages, procs.spaces.pages.pool
    modifies procs.spaces.pages.pool.pmm`s, procs.spaces.pages.pool.pmm.nrFree, procs.spaces.pages.pool.pmm.bitmap
    modifies procs.spaces.pages.pool.pmm.heads, procs.spaces.pages.pool.pmm.frames
    ensures StartStep(old(procs.View()), pid).current < |StartStep(old(procs.View()), pid).procs|
    ensures procs.Valid() && procs.View() == ExitStep(StartStep(old(procs.View()), pid))
  {
    procs.Start(pid);
    procs.Exit();
  }

  lemma LifeOfOne(w: World, t: World, pid: nat)
    requires w == Initial(w.live, w.free) && w.free !! w.live.Keys && CreateStep(w, t, true, pid)
    ensures StartStep(t, pid).current < |StartStep(t, pid).procs|
    ensures var u := ExitStep(StartStep(t, pid));
            if |w.free| >= 6 then pid == 1 && |u.live| == |w.live| + 4 && u.procs[0].state == Terminated
            else pid == 0 && |u.live| == |w.live| + (if |w.free| == 5 then 4 else 0)
  {
    assert w.procs[0].state == Unused;
    if |w.free| >= 6 {
      CreatedLife(w, t);
    } else {
      InitialInv(w.live, w.free);
      FailedCreation(w, t, w.live, true);
      assert t.procs == w.procs;
    }
  }

  lemma CreatedLife(w: World, t: World)
    requires w == Initial(w.live, w.free) && w.free !! w.live.Keys && CreateStep(w, t, true, 1) && |w.free| >= 6
    ensures StartStep(t, 1).current < |StartStep(t, 1).procs|
    ensures var u := ExitStep(StartStep(t, 1)); |u.live| == |w.live| + 4 && u.procs[0].state == Terminated
  {
    assert w.procs[0].state == Unused && FirstUnused(w.procs, 0) == 0;
    var dir: nat, rest: set<nat>, kstack: nat :| SixPages(w, dir, rest, kstack)
                                                  && t == CreatedWorld(w, 0, dir, rest, kstack);
    SixAndTwo(w.live, dir, rest, kstack);
    StartAndExit(t, dir, kstack);
  }

  lemma StartAndExit(t: World, dir: nat, kstack: nat)
    requires |t.procs| > 0 && t.procs[0] == Proc(Ready, 1, dir * PAGE_SIZE, kstack * PAGE_SIZE + PAGE_SIZE)
    ensures StartStep(t, 1).current < |StartStep(t, 1).procs|
    ensures var u := ExitStep(StartStep(t, 1)); u.live == t.live - {dir, kstack} && u.procs[0].state == Terminated
  {
    var r := t.procs[0].(state := Running);
    assert FirstReady(t.procs, 1, 0) == 0;
    OwnPages(r, dir, kstack);
  }

  lemma OwnPages(p: Proc, dir: nat, kstack: nat)
    requires p.pageDirectory == dir * PAGE_SIZE && p.kernelStack == kstack * PAGE_SIZE + PAGE_SIZE
    ensures DirectoryPage(p) == dir && StackPage(p) == kstack
  {
  }

  lemma SixAndTwo(live: map<nat, nat>, dir: nat, rest: set<nat>, kstack: nat)
    requires |rest| == 4 && |rest + {dir, kstack}| == 6 && rest + {dir, kstack} !! live.Keys
    ensures |Adding(live, rest + {dir, kstack}) - {dir, kstack}| == |live| + 4
  {
    AddingSize(live, rest + {dir, kstack});
    TwoPages(rest, dir, kstack);
    RemovingSize(Adding(live, rest + {dir, kstack}), {dir, kstack});
  }
}
