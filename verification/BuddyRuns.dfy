/** The page allocator as a state machine, and what holds over every run of
    matched allocations and releases. */
module BuddyRuns {
  import opened Paging
  import opened Sequences
  import opened BitArith
  import opened BuddyBlocks
  import opened BuddyLists

  /** `marked` is the set of pages whose bitmap bit is set; `live` maps the first
      page of every allocation that has not been released to its order. */
  datatype Pmm = Pmm(base: nat, lists: Lists, marked: set<nat>, live: map<nat, nat>)

  datatype Op = Alloc(order: nat) | Free(pfn: nat, order: nat)

  function AllocStep(s: Pmm, order: nat): Pmm
    requires |s.lists| == MAX_ORDER + 1
  {
    match Allocate(s.lists, order)
    case NoBlock => s
    case Taken(lists, p, from) =>
      s.(lists := lists,
         marked := SplitMarks(s.marked, p, from, order) + Pages(Block(p, order)),
         live := s.live[p := order])
  }

  /** What a successful allocation leaves, field by field. */
  lemma AllocTakes(s: Pmm, order: nat)
    requires |s.lists| == MAX_ORDER + 1 && order <= MAX_ORDER && FirstNonEmpty(s.lists, order) <= MAX_ORDER
    ensures var k, t := FirstNonEmpty(s.lists, order), AllocStep(s, order);
            var p, rest := s.lists[k][0], s.lists[k := s.lists[k][1..]];
            && Allocate(s.lists, order) == Taken(SplitDown(rest, p, k, order), p, k)
            && t.lists == SplitDown(rest, p, k, order)
            && t.marked == SplitMarks(s.marked, p, k, order) + Pages(Block(p, order))
            && t.live == s.live[p := order] && t.base == s.base
  {
  }

  /** The byte address an allocation returns; 0 is failure. */
  function AllocAddr(s: Pmm, order: nat): nat
    requires |s.lists| == MAX_ORDER + 1
  {
    match Allocate(s.lists, order)
    case NoBlock => 0
    case Taken(_, p, _) => p * PAGE_SIZE
  }

  predicate Rejected(s: Pmm, pfn: nat, order: nat)
  {
    order > MAX_ORDER || pfn < s.base
  }

  function FreeStep(s: Pmm, pfn: nat, order: nat): Pmm
    requires |s.lists| == MAX_ORDER + 1
  {
    if Rejected(s, pfn, order) then s
    else s.(lists := Release(s.lists, s.base, pfn, order),
            marked := s.marked - Pages(Block(pfn, order)),
            live := s.live - {pfn})
  }

  function Step(s: Pmm, op: Op): Pmm
    requires |s.lists| == MAX_ORDER + 1
  {
    match op
    case Alloc(order) => AllocStep(s, order)
    case Free(pfn, order) => FreeStep(s, pfn, order)
  }

  /** A release must name a live allocation with its own order, or be one the allocator rejects. */
  predicate Legal(s: Pmm, op: Op)
  {
    op.Free? ==> Rejected(s, op.pfn, op.order) || (op.pfn in s.live && s.live[op.pfn] == op.order)
  }

  function LiveBlocks(live: map<nat, nat>): (bs: set<Block>)
    ensures forall b :: b in bs <==> b.pfn in live && live[b.pfn] == b.order
  {
    set p | p in live :: Block(p, live[p])
  }

  function Union(bs: set<Block>): (pages: set<nat>)
    ensures Covers(bs, pages)
  {
    set b, x | b in bs && x in Pages(b) && In(x, b) :: x
  }

  function LivePages(live: map<nat, nat>): set<nat>
  {
    Union(LiveBlocks(live))
  }

  /** The reachable states over the arena `arena`. */
  ghost predicate Inv(s: Pmm, arena: set<nat>)
  {
    && Aligned(s.base, MAX_ORDER)
    && (forall x | x in arena :: s.base <= x)
    && (forall b | b in LiveBlocks(s.live) :: WellPlaced(b))
    && PairwiseDisjoint(LiveBlocks(s.live))
    && LivePages(s.live) <= arena
    && LivePages(s.live) <= s.marked
    && Holds(s.lists, arena - LivePages(s.live))
  }

  lemma LiveStart(live: map<nat, nat>, p: nat)
    requires p in live
    ensures p in LivePages(live)
  {
    assert Block(p, live[p]) in LiveBlocks(live) && In(p, Block(p, live[p]));
  }

  lemma AddLive(live: map<nat, nat>, p: nat, order: nat)
    requires Pages(Block(p, order)) !! LivePages(live)
    ensures p !in live
    ensures LiveBlocks(live[p := order]) == LiveBlocks(live) + {Block(p, order)}
    ensures LivePages(live[p := order]) == LivePages(live) + Pages(Block(p, order))
    ensures PairwiseDisjoint(LiveBlocks(live)) ==> PairwiseDisjoint(LiveBlocks(live[p := order]))
  {
    var b := Block(p, order);
    assert In(p, b);
    if p in live {
      assert Block(p, live[p]) in LiveBlocks(live) && In(p, Block(p, live[p]));
    }
    forall c | c in LiveBlocks(live) && (Overlap(b, c) || Overlap(c, b))
      ensures false
    {
      var x := CommonPage(b, c);
    }
  }

  lemma RemoveLive(live: map<nat, nat>, p: nat)
    requires p in live && PairwiseDisjoint(LiveBlocks(live))
    ensures LiveBlocks(live - {p}) == LiveBlocks(live) - {Block(p, live[p])}
    ensures LivePages(live - {p}) == LivePages(live) - Pages(Block(p, live[p]))
    ensures PairwiseDisjoint(LiveBlocks(live - {p}))
    ensures Pages(Block(p, live[p])) <= LivePages(live)
  {
    var b := Block(p, live[p]);
    assert b in LiveBlocks(live);
    forall x | x in LivePages(live - {p})
      ensures x !in Pages(b)
    {
      var c :| c in LiveBlocks(live - {p}) && In(x, c);
      assert In(x, b) ==> Overlap(b, c);
    }
  }

  // ----- one step

  lemma AllocKeeps(s: Pmm, arena: set<nat>, order: nat)
    requires Inv(s, arena)
    ensures Inv(AllocStep(s, order), arena)
  {
    var free := arena - LivePages(s.live);
    AllocateMeaning(s.lists, free, order);
    var r := Allocate(s.lists, order);
    if r.Taken? {
      AddLive(s.live, r.pfn, order);
      var t := AllocStep(s, order);
      assert arena - LivePages(t.live) == free - Pages(Block(r.pfn, order));
    }
  }

  lemma FreeKeeps(s: Pmm, arena: set<nat>, pfn: nat, order: nat)
    requires Inv(s, arena) && Legal(s, Free(pfn, order))
    ensures Inv(FreeStep(s, pfn, order), arena)
  {
    if !Rejected(s, pfn, order) {
      var b := Block(pfn, order);
      assert b in LiveBlocks(s.live);
      RemoveLive(s.live, pfn);
      ReleaseMeaning(s.lists, arena - LivePages(s.live), s.base, pfn, order);
      var t := FreeStep(s, pfn, order);
      assert arena - LivePages(t.live) == arena - LivePages(s.live) + Pages(b);
    }
  }

  /** Releasing what was just allocated is legal and gives every list back as it was, in the same order. */
  lemma AllocFree(s: Pmm, arena: set<nat>, order: nat)
    requires Inv(s, arena) && AllocAddr(s, order) != 0
    ensures var p, t := AllocAddr(s, order) / PAGE_SIZE, AllocStep(s, order);
            && !Rejected(t, p, order) && Legal(t, Free(p, order))
            && var u := FreeStep(t, p, order); u.lists == s.lists && u.live == s.live && u.base == s.base
  {
    var free, p := arena - LivePages(s.live), AllocAddr(s, order) / PAGE_SIZE;
    assert Allocate(s.lists, order).pfn == p;
    AllocateMeaning(s.lists, free, order);
    AllocateRelease(s.lists, free, s.base, order);
    assert In(p, Block(p, order));
    AddLive(s.live, p, order);
    assert s.live[p := order] - {p} == s.live;
  }

  // ----- whole runs

  function Run(s: Pmm, ops: seq<Op>): (t: Pmm)
    requires |s.lists| == MAX_ORDER + 1
    ensures |t.lists| == MAX_ORDER + 1
    decreases |ops|
  {
    if ops == [] then s else Run(Step(s, ops[0]), ops[1..])
  }

  predicate LegalRun(s: Pmm, ops: seq<Op>)
    requires |s.lists| == MAX_ORDER + 1
    decreases |ops|
  {
    ops == [] || (Legal(s, ops[0]) && LegalRun(Step(s, ops[0]), ops[1..]))
  }

  /** Every run keeps the invariant. */
  lemma {:induction false} RunKeeps(s: Pmm, arena: set<nat>, ops: seq<Op>)
    requires Inv(s, arena) && LegalRun(s, ops)
    ensures Inv(Run(s, ops), arena)
    decreases |ops|
  {
    if ops != [] {
      match ops[0]
      case Alloc(order) => AllocKeeps(s, arena, order); RunKeeps(Step(s, ops[0]), arena, ops[1..]);
      case Free(pfn, order) => FreeKeeps(s, arena, pfn, order); RunKeeps(Step(s, ops[0]), arena, ops[1..]);
    }
  }

  /** Partition: free blocks and live allocations together are pairwise disjoint,
      well placed, cover exactly the arena, and no two free buddies stay apart. */
  lemma RunPartition(s: Pmm, arena: set<nat>, ops: seq<Op>)
    requires Inv(s, arena) && LegalRun(s, ops)
    ensures var t := Run(s, ops); var all := Blocks(t.lists) + LiveBlocks(t.live);
            && (forall b | b in all :: WellPlaced(b))
            && PairwiseDisjoint(all)
            && Covers(all, arena)
            && Coalesced(Blocks(t.lists))
            && Blocks(t.lists) !! LiveBlocks(t.live)
  {
    RunKeeps(s, arena, ops);
    var t := Run(s, ops);
    var free, live := Blocks(t.lists), LiveBlocks(t.live);
    forall b, c | b in free && c in live && (Overlap(b, c) || Overlap(c, b))
      ensures false
    {
      var x := CommonPage(b, c);
    }
    forall b | b in free
      ensures b !in live
    {
      assert In(b.pfn, b);
    }
    forall x | x in arena
      ensures exists b :: b in free + live && In(x, b)
    {
      if x in LivePages(t.live) {
        var b :| b in live && In(x, b);
        assert b in free + live;
      } else {
        assert x in arena - LivePages(t.live);
        var b :| b in free && In(x, b);
        assert b in free + live;
      }
    }
  }

  /** History independence: any two runs that end with the same pages live end
      with the same blocks on the same lists, namely the maximal free ones. */
  lemma RunCanonical(s: Pmm, arena: set<nat>, ops: seq<Op>, ops': seq<Op>)
    requires Inv(s, arena) && LegalRun(s, ops) && LegalRun(s, ops')
    requires LivePages(Run(s, ops).live) == LivePages(Run(s, ops').live)
    ensures Blocks(Run(s, ops).lists) == Blocks(Run(s, ops').lists)
    ensures forall b :: b in Blocks(Run(s, ops).lists) <==> Maximal(b, arena - LivePages(Run(s, ops).live))
  {
    RunKeeps(s, arena, ops);
    RunKeeps(s, arena, ops');
    var free := arena - LivePages(Run(s, ops).live);
    TilingUnique(Blocks(Run(s, ops).lists), Blocks(Run(s, ops').lists), free);
    CanonicalForm(Blocks(Run(s, ops).lists), free);
  }

  /** A run that releases everything live, in whatever order, restores the lists it started from. */
  lemma RunReleasingAll(s: Pmm, arena: set<nat>, ops: seq<Op>)
    requires Inv(s, arena) && LegalRun(s, ops)
    requires s.live == map[] && Run(s, ops).live == map[]
    ensures Blocks(Run(s, ops).lists) == Blocks(s.lists)
    ensures forall o | 0 <= o <= MAX_ORDER :: |Run(s, ops).lists[o]| == |s.lists[o]|
  {
    RunCanonical(s, arena, ops, []);
    assert Run(s, []) == s;
    RunKeeps(s, arena, ops);
    forall o | 0 <= o <= MAX_ORDER
      ensures |Run(s, ops).lists[o]| == |s.lists[o]|
    {
      SameBlocksSameLength(s.lists, Run(s, ops).lists, o);
    }
  }

  lemma SameBlocksSameLength(a: Lists, b: Lists, o: nat)
    requires NoDuplicates(a) && NoDuplicates(b) && |a| == |b| && o < |a|
    requires Blocks(a) == Blocks(b)
    ensures |a[o]| == |b[o]|
  {
    forall p: nat
      ensures p in a[o] <==> p in b[o]
    {
      assert Block(p, o) in Blocks(a) <==> Block(p, o) in Blocks(b);
    }
    DistinctSize(a[o]);
    DistinctSize(b[o]);
    assert Elements(a[o]) == Elements(b[o]);
  }

  /** Conservation: the free total of the statistics report plus the live pages is the arena. */
  lemma RunConserves(s: Pmm, arena: set<nat>, ops: seq<Op>)
    requires Inv(s, arena) && LegalRun(s, ops)
    ensures var t := Run(s, ops);
            FreeCount(t.lists, |t.lists|) + |LivePages(t.live)| == |arena|
  {
    RunKeeps(s, arena, ops);
    var t := Run(s, ops);
    FreeCountIsPages(t.lists, arena - LivePages(t.live));
    SizeOfRest(arena, LivePages(t.live));
  }

  lemma SizeOfRest(a: set<nat>, b: set<nat>)
    requires b <= a
    ensures |a - b| + |b| == |a|
  {
    assert a == (a - b) + b;
  }

  lemma SizeOfSum(a: set<nat>, b: set<nat>)
    requires a !! b
    ensures |a + b| == |a| + |b|
  {
  }

  /** A successful allocation makes exactly 2^order more pages live. */
  lemma AllocSize(s: Pmm, arena: set<nat>, order: nat)
    requires Inv(s, arena) && Allocate(s.lists, order).Taken?
    ensures |LivePages(AllocStep(s, order).live)| == |LivePages(s.live)| + Pow2(order)
  {
    AllocateMeaning(s.lists, arena - LivePages(s.live), order);
    var r := Allocate(s.lists, order);
    AddLive(s.live, r.pfn, order);
    BlockSize(Block(r.pfn, order));
    SizeOfSum(LivePages(s.live), Pages(Block(r.pfn, order)));
  }

  /** An accepted release makes exactly 2^order fewer pages live. */
  lemma FreeSize(s: Pmm, arena: set<nat>, pfn: nat, order: nat)
    requires Inv(s, arena) && Legal(s, Free(pfn, order)) && !Rejected(s, pfn, order)
    ensures |LivePages(FreeStep(s, pfn, order).live)| + Pow2(order) == |LivePages(s.live)|
  {
    RemoveLive(s.live, pfn);
    SizeMinus(LivePages(s.live), Block(pfn, order));
  }

  /** Bitmap soundness: a page of the arena whose bit is clear is free and lies in a listed block. */
  lemma RunBitmap(s: Pmm, arena: set<nat>, ops: seq<Op>, x: nat)
    requires Inv(s, arena) && LegalRun(s, ops)
    requires x in arena && x !in Run(s, ops).marked
    ensures x !in LivePages(Run(s, ops).live)
    ensures exists b :: b in Blocks(Run(s, ops).lists) && In(x, b)
  {
    RunKeeps(s, arena, ops);
    assert x in arena - LivePages(Run(s, ops).live);
  }

  /** `x` is the first page of an upper half, when the block at `p` is halved from order `from` to `order`. */
  ghost predicate HalfStart(p: nat, order: nat, from: nat, x: nat)
  {
    exists k: nat :: order <= k < from && x == p + Pow2(k)
  }

  /** These are the pages whose bits a split sets. */
  lemma {:induction false} SplitMarksAre(marked: set<nat>, p: nat, from: nat, order: nat, x: nat)
    requires order <= from && Aligned(p, from)
    ensures x in SplitMarks(marked, p, from, order)
            <==> x in marked || HalfStart(p, order, from, x)
    decreases from
  {
    if order < from {
      var q := Flip(p, from - 1);
      AlignedDown(p, from - 1, from);
      FlipAligned(p, from - 1);
      assert q == p + Pow2(from - 1);
      SplitMarksAre(marked + {q}, p, from - 1, order, x);
    }
  }

  /** An allocation of `order` with the outcome `r` sets the bit of page `x`: it is one of its pages, or
      the first page of an upper half that the split lists. */
  ghost predicate SetsBit(r: Outcome, order: nat, x: nat)
  {
    && r.Taken?
    && (r.pfn <= x < r.pfn + Pow2(order) || HalfStart(r.pfn, order, r.from, x))
  }

  /** It sets those bits and no other. */
  lemma AllocBits(s: Pmm, arena: set<nat>, order: nat, x: nat)
    requires Inv(s, arena)
    ensures x in AllocStep(s, order).marked <==> x in s.marked || SetsBit(Allocate(s.lists, order), order, x)
  {
    var r := Allocate(s.lists, order);
    if r.Taken? {
      TakenPlace(s, arena, order);
      AllocTakes(s, order);
      SplitMarksAre(s.marked, r.pfn, r.from, order, x);
      assert x in Pages(Block(r.pfn, order)) <==> In(x, Block(r.pfn, order));
    }
  }

  lemma TakenPlace(s: Pmm, arena: set<nat>, order: nat)
    requires Inv(s, arena) && Allocate(s.lists, order).Taken?
    ensures order <= MAX_ORDER && FirstNonEmpty(s.lists, order) <= MAX_ORDER
    ensures var r := Allocate(s.lists, order); order <= r.from && Aligned(r.pfn, r.from)
  {
    AllocateMeaning(s.lists, arena - LivePages(s.live), order);
    assert WellPlaced(Block(Allocate(s.lists, order).pfn, Allocate(s.lists, order).from));
  }

  /** A release clears the bits of its pages and no other; one that is rejected clears none. */
  lemma FreeBits(s: Pmm, pfn: nat, order: nat, x: nat)
    requires |s.lists| == MAX_ORDER + 1
    ensures x in FreeStep(s, pfn, order).marked
            <==> x in s.marked && !(order <= MAX_ORDER && s.base <= pfn <= x < pfn + Pow2(order))
  {
    assert x in Pages(Block(pfn, order)) <==> In(x, Block(pfn, order));
  }

  // ----- the initial state

  predicate Between(x: nat, lo: nat, hi: nat)
  {
    lo <= x < hi
  }

  function Range(lo: nat, hi: nat): (r: set<nat>)
    ensures forall x :: x in r <==> lo <= x < hi
  {
    set x: nat | lo <= x < hi && Between(x, lo, hi)
  }

  /** The pages of the `n` blocks of maximal order from page `first` on. */
  function Arena(first: nat, n: nat): (a: set<nat>)
    ensures forall x :: x in a <==> first <= x < first + n * MAX_BLOCK_PAGES
  {
    Range(first, first + n * MAX_BLOCK_PAGES)
  }

  /** The list of maximal blocks after `n` insertions at its front. */
  function InitialList(first: nat, n: nat): seq<nat>
  {
    if n == 0 then [] else [first + (n - 1) * MAX_BLOCK_PAGES] + InitialList(first, n - 1)
  }

  function InitialLists(first: nat, n: nat): (lists: Lists)
    ensures |lists| == MAX_ORDER + 1
  {
    seq(MAX_ORDER, i => []) + [InitialList(first, n)]
  }

  function Initial(base: nat, first: nat, n: nat): Pmm
  {
    Pmm(base, InitialLists(first, n), Arena(first, n), map[])
  }

  /** The last of `n` blocks continues the arena of the others. */
  lemma NextBlock(first: nat, n: nat)
    requires Aligned(first, MAX_ORDER) && n > 0
    ensures var b := Block(first + (n - 1) * MAX_BLOCK_PAGES, MAX_ORDER);
            && WellPlaced(b) && Pages(b) !! Arena(first, n - 1)
            && Arena(first, n) == Arena(first, n - 1) + Pages(b)
  {
    MaxBlock();
    AlignedIsDivisible((n - 1) * MAX_BLOCK_PAGES, MAX_ORDER);
    AlignedSum(first, (n - 1) * MAX_BLOCK_PAGES, MAX_ORDER);
  }

  lemma {:induction false} InitialHolds(first: nat, n: nat)
    requires Aligned(first, MAX_ORDER)
    ensures Holds(InitialLists(first, n), Arena(first, n))
  {
    var lists := InitialLists(first, n);
    if n == 0 {
      assert Blocks(lists) == {} && Arena(first, n) == {};
    } else {
      var b, before := Block(first + (n - 1) * MAX_BLOCK_PAGES, MAX_ORDER), InitialLists(first, n - 1);
      InitialHolds(first, n - 1);
      NextBlock(first, n);
      assert lists == Push(before, MAX_ORDER, b.pfn);
      NextHolds(before, Arena(first, n - 1), b);
    }
  }

  lemma NextHolds(lists: Lists, pages: set<nat>, b: Block)
    requires Holds(lists, pages) && WellPlaced(b) && b.order == MAX_ORDER && Pages(b) !! pages
    ensures Holds(Push(lists, MAX_ORDER, b.pfn), pages + Pages(b))
  {
    assert In(b.pfn, b);
    AddBlock(Blocks(lists), pages, b);
    PushBlock(lists, MAX_ORDER, b.pfn);
  }

  lemma InitialInv(base: nat, first: nat, n: nat)
    requires Aligned(base, MAX_ORDER) && Aligned(first, MAX_ORDER) && base <= first
    ensures Inv(Initial(base, first, n), Arena(first, n))
  {
    InitialHolds(first, n);
    assert LiveBlocks(map[]) == {};
    assert LivePages(map[]) == {};
    assert Arena(first, n) - LivePages(map[]) == Arena(first, n);
  }

  /** Bits do get clear: after any block has been allocated and released again, those of all its pages are. */
  lemma ReleasedBitsClear(base: nat, first: nat, n: nat, order: nat) returns (p: nat, ops: seq<Op>)
    requires Aligned(base, MAX_ORDER) && Aligned(first, MAX_ORDER) && base <= first && 0 < first
    requires n > 0 && order <= MAX_ORDER
    ensures LegalRun(Initial(base, first, n), ops) && Aligned(p, order)
    ensures forall x | p <= x < p + Pow2(order) ::
              x in Arena(first, n) && x !in Run(Initial(base, first, n), ops).marked
  {
    var s := Initial(base, first, n);
    p := FirstTaken(base, first, n, order);
    InitialInv(base, first, n);
    AllocFree(s, Arena(first, n), order);
    ops := [Alloc(order), Free(p, order)];
    RunTwo(s, Alloc(order), Free(p, order));
    AllocKeeps(s, Arena(first, n), order);
    forall x | p <= x < p + Pow2(order)
      ensures x in Arena(first, n) && x !in Run(s, ops).marked
    {
      FreeBits(AllocStep(s, order), p, order, x);
      assert In(x, Block(p, order));
    }
  }

  lemma RunTwo(s: Pmm, a: Op, b: Op)
    requires |s.lists| == MAX_ORDER + 1
    ensures Run(s, [a, b]) == Step(Step(s, a), b)
    ensures LegalRun(s, [a, b]) <==> Legal(s, a) && Legal(Step(s, a), b)
  {
    assert [a, b][1..] == [b] && [b][1..] == [];
    assert Run(Step(s, a), [b]) == Step(Step(s, a), b);
    assert LegalRun(Step(s, a), [b]) <==> Legal(Step(s, a), b);
  }

  /** From the initial state the first allocation of any order succeeds. */
  lemma FirstTaken(base: nat, first: nat, n: nat, order: nat) returns (p: nat)
    requires Aligned(base, MAX_ORDER) && Aligned(first, MAX_ORDER) && base <= first && 0 < first
    requires n > 0 && order <= MAX_ORDER
    ensures AllocAddr(Initial(base, first, n), order) == p * PAGE_SIZE && p > 0 && base <= p
    ensures Aligned(p, order) && Pages(Block(p, order)) <= Arena(first, n)
  {
    var s := Initial(base, first, n);
    InitialHolds(first, n);
    FirstFits(first, n, order);
    AllocateMeaning(s.lists, Arena(first, n), order);
    p := Allocate(s.lists, order).pfn;
    assert In(p, Block(p, order));
  }

  lemma FirstFits(first: nat, n: nat, order: nat)
    requires Aligned(first, MAX_ORDER) && n > 0 && order <= MAX_ORDER
    ensures Aligned(first, order) && Pages(Block(first, order)) <= Arena(first, n)
  {
    AlignedDown(first, order, MAX_ORDER);
    AlignedPow2(order, MAX_ORDER);
    MaxBlock();
  }
}
