/** Single pages of the page allocator in terms of the free and the live pages, as
    its clients see them. */
module PageLedger {
  import opened Paging
  import opened BuddyBlocks
  import opened BuddyLists
  import opened BuddyRuns

  // ----- single pages

  /** The page an order-0 allocation returns; 0 when it fails. */
  function NextPage(s: Pmm): nat
    requires |s.lists| == MAX_ORDER + 1
  {
    match Allocate(s.lists, 0)
    case NoBlock => 0
    case Taken(_, p, _) => p
  }

  function TakePage(s: Pmm): (t: Pmm)
    requires |s.lists| == MAX_ORDER + 1
    ensures |t.lists| == MAX_ORDER + 1
  {
    AllocStep(s, 0)
  }

  function GivePage(s: Pmm, p: nat): (t: Pmm)
    requires |s.lists| == MAX_ORDER + 1
    ensures |t.lists| == MAX_ORDER + 1
  {
    FreeStep(s, p, 0)
  }

  function FreePages(s: Pmm, arena: set<nat>): set<nat>
  {
    arena - LivePages(s.live)
  }

  /** Page 0 is not managed, so a returned 0 always means failure. */
  ghost predicate Sound(s: Pmm, arena: set<nat>)
  {
    Inv(s, arena) && 0 !in arena
  }

  lemma OnePage(p: nat)
    ensures Pages(Block(p, 0)) == {p} && WellPlaced(Block(p, 0))
  {
  }

  /** An order-0 allocation fails exactly when no page is free; otherwise it takes one free page. */
  lemma TakeMeaning(s: Pmm, arena: set<nat>)
    requires Sound(s, arena)
    ensures NextPage(s) == 0 <==> FreePages(s, arena) == {}
    ensures NextPage(s) == 0 ==> TakePage(s) == s
    ensures var p := NextPage(s); p != 0 ==>
              && p in FreePages(s, arena) && p !in s.live
              && Sound(TakePage(s), arena)
              && TakePage(s).live == s.live[p := 0]
              && FreePages(TakePage(s), arena) == FreePages(s, arena) - {p}
  {
    AllocateMeaning(s.lists, FreePages(s, arena), 0);
    AllocKeeps(s, arena, 0);
    match Allocate(s.lists, 0) {
      case NoBlock => NothingFree(s, arena);
      case Taken(_, p, _) =>
        OnePage(p);
        AddLive(s.live, p, 0);
    }
  }

  lemma NothingFree(s: Pmm, arena: set<nat>)
    requires Sound(s, arena) && Allocate(s.lists, 0).NoBlock?
    ensures FreePages(s, arena) == {}
  {
    AllocateMeaning(s.lists, FreePages(s, arena), 0);
    forall x: nat
      ensures x !in FreePages(s, arena)
    {
      OnePage(x);
      var pages := Pages(Block(x, 0));
      assert x in FreePages(s, arena) ==> pages <= FreePages(s, arena);
    }
  }

  lemma AddressOfPage(s: Pmm)
    requires |s.lists| == MAX_ORDER + 1
    ensures AllocAddr(s, 0) == NextPage(s) * PAGE_SIZE
  {
  }

  /** The same, about the address that is returned. */
  lemma TakeByAddress(s: Pmm, arena: set<nat>)
    requires Sound(s, arena)
    ensures var addr, t := AllocAddr(s, 0), AllocStep(s, 0);
            && (addr == 0 <==> FreePages(s, arena) == {})
            && (addr == 0 ==> t == s)
            && (addr != 0 ==>
                  var p := addr / PAGE_SIZE;
                  && addr == p * PAGE_SIZE && p in FreePages(s, arena) && p !in s.live
                  && t.live == s.live[p := 0] && FreePages(t, arena) == FreePages(s, arena) - {p})
  {
    AddressOfPage(s);
    Scaled(NextPage(s));
    TakeMeaning(s, arena);
  }

  lemma Scaled(p: nat)
    ensures p * PAGE_SIZE / PAGE_SIZE == p && (p * PAGE_SIZE == 0 <==> p == 0)
  {
  }

  /** Giving back a live page makes exactly that page free again. */
  lemma GiveMeaning(s: Pmm, arena: set<nat>, p: nat)
    requires Sound(s, arena) && p in s.live && s.live[p] == 0
    ensures Sound(GivePage(s, p), arena)
    ensures GivePage(s, p).live == s.live - {p}
    ensures p in arena && FreePages(GivePage(s, p), arena) == FreePages(s, arena) + {p}
  {
    OnePage(p);
    RemoveLive(s.live, p);
    assert p in Pages(Block(p, 0)) && p in LivePages(s.live);
    FreeKeeps(s, arena, p, 0);
  }
}
