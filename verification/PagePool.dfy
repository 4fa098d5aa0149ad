/** Single pages from the page allocator, seen as a set of free pages and a map of
    live allocations. */
module PagePool {
  import opened Paging
  import opened PageAllocator
  import opened PageLog
  import opened Sequences
  import BuddyBlocks
  import BuddyLists
  import BuddyRuns

  /** The allocator with the free pages and the live allocations as fields. */
  class Pool {
    const pmm: BuddySystem
    const depth: nat
    ghost var live: map<nat, nat>    // order of every live allocation, by its first page
    ghost var free: set<nat>

    /** The allocator is in order, and the fields describe it.  Said `n` levels down, so that clients
        reason from the fields and not from the allocator's own invariant. */
    ghost predicate Describes(n: nat)
      reads this, pmm, pmm.heads, pmm.frames, pmm.nrFree, pmm.bitmap
    {
      if n > 0 then Describes(n - 1)
      else pmm.Valid() && live == pmm.s.live && free == pmm.FreePages()
    }

    ghost predicate Valid()
      reads this, pmm, pmm.heads, pmm.frames, pmm.nrFree, pmm.bitmap
    {
      depth >= 3 && Describes(depth)
    }

    lemma {:induction false} Unfold(n: nat)
      ensures Describes(n) <==> pmm.Valid() && live == pmm.s.live && free == pmm.FreePages()
    {
      if n > 0 { Unfold(n - 1); }
    }

    constructor (pmm: BuddySystem)
      requires pmm.Valid()
      ensures Valid() && this.pmm == pmm && live == pmm.s.live && free == pmm.FreePages()
    {
      this.pmm, depth := pmm, 3;
      live, free := pmm.s.live, pmm.FreePages();
      new;
      Unfold(depth);
    }

    /** A free page is not live. */
    lemma Separate()
      requires Valid()
      ensures free !! live.Keys
    {
      Unfold(depth);
      forall p | p in live
        ensures p !in free
      {
        BuddyRuns.LiveStart(pmm.s.live, p);
      }
    }

    /** `pmm_alloc_pages(0)`: the address of a free page, or 0 exactly when there is none. */
    method Alloc() returns (addr: nat)
      requires Valid()
      modifies this, pmm`s, pmm.nrFree, pmm.bitmap, pmm.heads, pmm.frames
      ensures Valid() && addr % PAGE_SIZE == 0
      ensures addr == 0 <==> old(free) == {}
      ensures addr == 0 ==> live == old(live) && free == old(free)
      ensures addr != 0 ==>
                var p := addr / PAGE_SIZE;
                && p in old(free) && p !in old(live)
                && live == old(live)[p := 0] && free == old(free) - {p}
    {
      Unfold(depth);
      addr := pmm.AllocPage();
      Refresh();
    }

    /** `pmm_free_pages(addr, 0)` of a live page. */
    method Free(addr: nat)
      requires Valid() && addr % PAGE_SIZE == 0
      requires addr / PAGE_SIZE in live && live[addr / PAGE_SIZE] == 0
      modifies this, pmm`s, pmm.nrFree, pmm.bitmap, pmm.heads, pmm.frames
      ensures Valid()
      ensures live == old(live) - {addr / PAGE_SIZE} && free == old(free) + {addr / PAGE_SIZE}
    {
      Unfold(depth);
      pmm.FreePage(addr);
      Refresh();
    }

    /** Read the fields off the allocator again. */
    ghost method Refresh()
      requires pmm.Valid() && depth >= 3
      modifies this
      ensures Valid() && live == pmm.s.live && free == pmm.FreePages()
    {
      live, free := pmm.s.live, pmm.FreePages();
      Unfold(depth);
    }

    twostate lemma {:induction false} WasUnfolded(n: nat)
      requires old(Describes(n))
      ensures old(pmm.Valid() && live == pmm.s.live && free == pmm.FreePages())
    {
      if n > 0 { WasUnfolded(n - 1); }
    }

    /** Other free pages are on other lists. */
    twostate lemma OtherLists()
      requires old(Valid()) && Valid() && free != old(free)
      ensures BuddyLists.Blocks(pmm.s.lists) != old(BuddyLists.Blocks(pmm.s.lists))
    {
      Unfold(depth);
      WasUnfolded(depth);
      BuddyBlocks.CoversUnique(BuddyLists.Blocks(pmm.s.lists), free, old(free));
    }

    /** When the same pages are live again, the same blocks are on the same free lists again. */
    twostate lemma SameLists()
      requires old(Valid()) && Valid() && live == old(live)
      ensures BuddyLists.Blocks(pmm.s.lists) == old(BuddyLists.Blocks(pmm.s.lists))
    {
      Unfold(depth);
      WasUnfolded(depth);
      BuddyBlocks.TilingUnique(BuddyLists.Blocks(pmm.s.lists), old(BuddyLists.Blocks(pmm.s.lists)), pmm.FreePages());
    }
  }

  /** A pool with a log: which pages have been taken since the log was begun and not given back. */
  class LoggedPool {
    const pool: Pool
    const depth: nat
    ghost var live0: map<nat, nat>   // what was live and free when the log was begun
    ghost var free0: set<nat>
    ghost var taken: seq<nat>

    ghost predicate Agrees(n: nat)
      reads this, pool
    {
      if n > 0 then Agrees(n - 1) else TookAll(live0, free0, taken, pool.live, pool.free)
    }

    ghost predicate Valid()
      reads this, pool, pool.pmm, pool.pmm.heads, pool.pmm.frames, pool.pmm.nrFree, pool.pmm.bitmap
    {
      pool.Valid() && depth >= 3 && Agrees(depth)
    }

    lemma {:induction false} Unfold(n: nat)
      ensures Agrees(n) <==> TookAll(live0, free0, taken, pool.live, pool.free)
    {
      if n > 0 { Unfold(n - 1); }
    }

    constructor (pool: Pool)
      requires pool.Valid()
      ensures Valid() && this.pool == pool && taken == [] && live0 == pool.live && free0 == pool.free
    {
      this.pool, depth := pool, 3;
      live0, free0, taken := pool.live, pool.free, [];
      new;
      TookNone(live0, free0);
      Unfold(depth);
    }

    /** Begin the log anew. */
    ghost method Mark()
      requires Valid()
      modifies this
      ensures Valid() && taken == [] && live0 == pool.live && free0 == pool.free
    {
      live0, free0, taken := pool.live, pool.free, [];
      TookNone(live0, free0);
      Unfold(depth);
    }

    /** What the log says. */
    lemma Log()
      requires Valid()
      ensures TookAll(live0, free0, taken, pool.live, pool.free)
    {
      Unfold(depth);
    }

    /** No more pages are taken than were free. */
    lemma Room()
      requires Valid()
      ensures |taken| <= |free0|
    {
      Log();
    }

    /** Every page taken was free, and they are all different. */
    lemma WereFree()
      requires Valid()
      ensures forall i | 0 <= i < |taken| :: taken[i] in free0
      ensures forall i, j | 0 <= i < j < |taken| :: taken[i] != taken[j]
    {
      Log();
      AllDifferent(taken);
    }

    /** The address of a page that was free, or 0 exactly when all the pages that were free at the
        beginning of the log are taken. */
    method Alloc() returns (addr: nat)
      requires Valid()
      modifies this`taken, pool, pool.pmm`s, pool.pmm.nrFree, pool.pmm.bitmap, pool.pmm.heads, pool.pmm.frames
      ensures Valid() && addr % PAGE_SIZE == 0
      ensures addr == 0 <==> |free0| == |old(taken)|
      ensures taken == if addr == 0 then old(taken) else old(taken) + [addr / PAGE_SIZE]
    {
      Log();
      addr := pool.Alloc();
      if addr != 0 {
        TookOneMore(live0, free0, taken, old(pool.live), old(pool.free), addr / PAGE_SIZE);
        taken := taken + [addr / PAGE_SIZE];
      }
      Unfold(depth);
    }

    /** Free the `i`-th page in the log. */
    method GiveBack(addr: nat, ghost i: nat)
      requires Valid() && addr % PAGE_SIZE == 0 && i < |taken| && taken[i] == addr / PAGE_SIZE
      modifies this`taken, pool, pool.pmm`s, pool.pmm.nrFree, pool.pmm.bitmap, pool.pmm.heads, pool.pmm.frames
      ensures Valid() && taken == Without(old(taken), i)
    {
      Log();
      TookOneLess(live0, free0, taken, pool.live, pool.free, i);
      pool.Free(addr);
      taken := Without(taken, i);
      Unfold(depth);
    }

    /** Free a live page from before; the log begins anew. */
    method Free(addr: nat)
      requires Valid() && addr % PAGE_SIZE == 0
      requires addr / PAGE_SIZE in pool.live && pool.live[addr / PAGE_SIZE] == 0
      modifies this, pool, pool.pmm`s, pool.pmm.nrFree, pool.pmm.bitmap, pool.pmm.heads, pool.pmm.frames
      ensures Valid() && taken == [] && live0 == pool.live && free0 == pool.free
      ensures pool.live == old(pool.live) - {addr / PAGE_SIZE}
      ensures pool.free == old(pool.free) + {addr / PAGE_SIZE}
    {
      pool.Free(addr);
      live0, free0, taken := pool.live, pool.free, [];
      TookNone(live0, free0);
      Unfold(depth);
    }
  }
}
