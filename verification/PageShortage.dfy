/** The failed creation that loses pages, from the page allocator's initial state on. */
module PageShortage {
  import opened BitArith
  import opened BuddyBlocks
  import opened BuddyLists
  import BuddyRuns
  import opened PageLedger
  import ProcessRuns

  /** `n` allocations of a single page. */
  function Singles(n: nat): seq<BuddyRuns.Op>
  {
    if n == 0 then [] else [BuddyRuns.Alloc(0)] + Singles(n - 1)
  }

  /** `k` pages are free in a reachable state, said `n` levels down as in `PagePool`. */
  ghost predicate Left(s: BuddyRuns.Pmm, arena: set<nat>, k: nat, n: nat)
  {
    if n > 0 then Left(s, arena, k, n - 1) else Sound(s, arena) && |FreePages(s, arena)| == k
  }

  lemma {:induction false} Unfold(s: BuddyRuns.Pmm, arena: set<nat>, k: nat, n: nat)
    ensures Left(s, arena, k, n) <==> Sound(s, arena) && |FreePages(s, arena)| == k
  {
    if n > 0 { Unfold(s, arena, k, n - 1); }
  }

  lemma OneTaken(s: BuddyRuns.Pmm, arena: set<nat>, k: nat, n: nat)
    requires |s.lists| == MAX_ORDER + 1 && Left(s, arena, k, n) && k > 0
    ensures Left(TakePage(s), arena, k - 1, n)
  {
    Unfold(s, arena, k, n);
    TakeMeaning(s, arena);
    Unfold(TakePage(s), arena, k - 1, n);
  }

  lemma {:induction false} SinglesLegal(s: BuddyRuns.Pmm, n: nat)
    requires |s.lists| == MAX_ORDER + 1
    ensures BuddyRuns.LegalRun(s, Singles(n))
    decreases n
  {
    if n > 0 {
      assert Singles(n)[1..] == Singles(n - 1);
      SinglesLegal(TakePage(s), n - 1);
    }
  }

  lemma OneMore(s: BuddyRuns.Pmm, n: nat)
    requires |s.lists| == MAX_ORDER + 1 && n > 0
    ensures BuddyRuns.Run(s, Singles(n)) == BuddyRuns.Run(TakePage(s), Singles(n - 1))
  {
    assert Singles(n)[1..] == Singles(n - 1);
  }

  /** Where as many pages are free, all of them succeed, and so many fewer are free then. */
  lemma {:induction false} SinglesTaken(s: BuddyRuns.Pmm, arena: set<nat>, k: nat, n: nat, d: nat)
    requires |s.lists| == MAX_ORDER + 1 && Left(s, arena, k, d) && d >= 3 && n <= k
    ensures Left(BuddyRuns.Run(s, Singles(n)), arena, k - n, d)
    decreases n
  {
    if n > 0 {
      OneTaken(s, arena, k, d);
      SinglesTaken(TakePage(s), arena, k - 1, n - 1, d);
      OneMore(s, n);
    }
  }

  lemma AllLeft(base: nat, first: nat, n: nat, d: nat)
    requires Aligned(base, MAX_ORDER) && Aligned(first, MAX_ORDER) && base <= first && first > 0
    ensures Left(BuddyRuns.Initial(base, first, n), BuddyRuns.Arena(first, n), n * MAX_BLOCK_PAGES, d)
  {
    var s, arena := BuddyRuns.Initial(base, first, n), BuddyRuns.Arena(first, n);
    BuddyRuns.InitialInv(base, first, n);
    RangeSize(arena, first, n * MAX_BLOCK_PAGES);
    assert BuddyRuns.LiveBlocks(map[]) == {};
    assert FreePages(s, arena) == arena;
    Unfold(s, arena, n * MAX_BLOCK_PAGES, d);
  }

  lemma AllButFive(base: nat, first: nat, n: nat, d: nat) returns (s: BuddyRuns.Pmm)
    requires Aligned(base, MAX_ORDER) && Aligned(first, MAX_ORDER) && base <= first && first > 0 && n > 0
    requires d >= 3
    ensures var ops := Singles(n * MAX_BLOCK_PAGES - 5);
            BuddyRuns.LegalRun(BuddyRuns.Initial(base, first, n), ops)
            && s == BuddyRuns.Run(BuddyRuns.Initial(base, first, n), ops)
    ensures |FreePages(s, BuddyRuns.Arena(first, n))| == 5
  {
    var i, arena, k := BuddyRuns.Initial(base, first, n), BuddyRuns.Arena(first, n), n * MAX_BLOCK_PAGES - 5;
    SinglesLegal(i, k);
    AllLeft(base, first, n, d);
    SinglesTaken(i, arena, k + 5, k, d);
    s := BuddyRuns.Run(i, Singles(k));
    FreeIsLeft(s, arena, 5, d);
  }

  lemma FreeIsLeft(s: BuddyRuns.Pmm, arena: set<nat>, k: nat, n: nat)
    requires Left(s, arena, k, n)
    ensures |FreePages(s, arena)| == k
  {
    Unfold(s, arena, k, n);
  }

  /** Over every allocator with a block: once all but five of its pages have been taken one by one,
      creating the first process fails and four of the five are lost. */
  lemma FivePages(base: nat, first: nat, n: nat) returns (s: BuddyRuns.Pmm, t: ProcessRuns.World)
    requires Aligned(base, MAX_ORDER) && Aligned(first, MAX_ORDER) && base <= first && first > 0 && n > 0
    ensures var ops := Singles(n * MAX_BLOCK_PAGES - 5);
            BuddyRuns.LegalRun(BuddyRuns.Initial(base, first, n), ops)
            && s == BuddyRuns.Run(BuddyRuns.Initial(base, first, n), ops)
    ensures var w := ProcessRuns.Initial(s.live, FreePages(s, BuddyRuns.Arena(first, n)));
            && ProcessRuns.Inv(w, s.live) && |w.free| == 5
            && ProcessRuns.CreateStep(w, t, true, 0)
            && |t.live| == |w.live| + 4 && |t.free| == 1
  {
    s := AllButFive(base, first, n, 3);
    LiveNotFree(s, BuddyRuns.Arena(first, n));
    t := LosesFour(s.live, FreePages(s, BuddyRuns.Arena(first, n)));
  }

  lemma LiveNotFree(s: BuddyRuns.Pmm, arena: set<nat>)
    ensures FreePages(s, arena) !! s.live.Keys
  {
    forall p | p in s.live
      ensures p !in FreePages(s, arena)
    {
      BuddyRuns.LiveStart(s.live, p);
    }
  }

  lemma LosesFour(live: map<nat, nat>, free: set<nat>) returns (t: ProcessRuns.World)
    requires |free| == 5 && free !! live.Keys
    ensures var w := ProcessRuns.Initial(live, free);
            && ProcessRuns.Inv(w, live) && ProcessRuns.CreateStep(w, t, true, 0)
            && |t.live| == |live| + 4 && |t.free| == 1
  {
    var w := ProcessRuns.Initial(live, free);
    var p :| p in free;
    var lost := free - {p};
    assert |lost| == 4;
    assert w.procs[0].state == ProcessRuns.Unused;
    t := ProcessRuns.StackFailedWorld(w, lost);
    ProcessRuns.InitialInv(live, free);
    ProcessRuns.LosingStep(w, lost);
    ProcessRuns.FourLess(w, lost);
  }
}
