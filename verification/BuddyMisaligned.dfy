/** What the allocator does when its base is not aligned to the largest block: merging
    looks for the wrong buddy.  So allocation and release undo each other, over every
    run, exactly when the base is aligned. */
module BuddyMisaligned {
  import opened BitArith
  import opened BuddyBlocks
  import opened BuddyLists
  import opened BuddyRuns

  // ----- the lowest bit at which the base is misaligned

  lemma {:induction false} LowestBit(base: nat, k: nat) returns (o: nat)
    requires !Aligned(base, k)
    ensures o < k && Aligned(base, o) && !Aligned(base, o + 1)
  {
    if Aligned(base, k - 1) {
      o := k - 1;
    } else {
      o := LowestBit(base, k - 1);
    }
  }

  lemma {:induction false} AlignedRest(x: nat, y: nat, k: nat)
    requires Aligned(x, k) && Aligned(x + y, k)
    ensures Aligned(y, k)
  {
    if k > 0 {
      HalfOfSum(x, y);
      AlignedRest(x / 2, y / 2, k - 1);
    }
  }

  /** At that order the buddy that merging looks for is below the first block. */
  lemma BuddyBelow(base: nat, first: nat, o: nat)
    requires Aligned(first, MAX_ORDER) && base <= first && o < MAX_ORDER
    requires Aligned(base, o) && !Aligned(base, o + 1)
    ensures MergeBuddy(base, first, o) + Pow2(o) == first && Flip(first, o) == first + Pow2(o)
  {
    var x := first - base;
    AlignedDown(first, o, MAX_ORDER);
    AlignedDown(first, o + 1, MAX_ORDER);
    AlignedRest(base, x, o);
    if Aligned(x, o + 1) { AlignedRest(x, base, o + 1); }
    FlipAligned(x, o);
    FlipUp(first, o);
  }

  // ----- allocating and releasing one block of that order

  lemma {:induction false} SplitLeaves(lists: Lists, p: nat, from: nat, order: nat)
    requires |lists| == MAX_ORDER + 1 && order < from <= MAX_ORDER
    ensures SplitDown(lists, p, from, order)[order] == [Flip(p, order)] + lists[order]
    decreases from
  {
    var pushed := Push(lists, from - 1, Flip(p, from - 1));
    if order < from - 1 {
      SplitLeaves(pushed, p, from - 1, order);
    }
  }

  lemma OnlyBlockTaken(first: nat, o: nat)
    requires o < MAX_ORDER
    ensures var lists := InitialLists(first, 1);
            && lists[MAX_ORDER] == [first] && lists[o] == []
            && Allocate(lists, o) == Taken(SplitDown(lists[MAX_ORDER := []], first, MAX_ORDER, o), first, MAX_ORDER)
  {
    var lists := InitialLists(first, 1);
    assert InitialList(first, 0) == [] && lists[MAX_ORDER] == [first];
    FirstNonEmptyIs(lists, o, MAX_ORDER);
  }

  lemma NotRestored(base: nat, first: nat, o: nat)
    requires Aligned(first, MAX_ORDER) && base <= first && o < MAX_ORDER
    requires Aligned(base, o) && !Aligned(base, o + 1)
    ensures var lists := InitialLists(first, 1); var r := Allocate(lists, o);
            && r.Taken? && r.pfn == first
            && Block(first, o) in Blocks(Release(r.lists, base, first, o)) && Block(first, o) !in Blocks(lists)
  {
    var lists := InitialLists(first, 1);
    OnlyBlockTaken(first, o);
    var r := Allocate(lists, o);
    SplitLeaves(lists[MAX_ORDER := []], first, MAX_ORDER, o);
    BuddyBelow(base, first, o);
    assert r.lists[o] == [first + Pow2(o)];
    assert !BuddyIsFree(r.lists, base, first, o);
  }

  ghost predicate AtOrAbove(pages: set<nat>, base: nat)
  {
    forall x | x in pages :: base <= x
  }

  ghost predicate Restored(lists: Lists, base: nat, order: nat)
    requires |lists| == MAX_ORDER + 1
  {
    var r := Allocate(lists, order);
    r.Taken? ==> base <= r.pfn && Blocks(Release(r.lists, base, r.pfn, order)) == Blocks(lists)
  }

  /** Allocating and releasing restores every well-formed set of free lists. */
  ghost predicate RoundTrips(base: nat)
  {
    forall lists, pages, order: nat | Holds(lists, pages) && AtOrAbove(pages, base) :: Restored(lists, base, order)
  }

  lemma AlignedAbove(base: nat) returns (first: nat)
    ensures base <= first && Aligned(first, MAX_ORDER)
  {
    first := base * MAX_BLOCK_PAGES;
    MaxBlock();
    AlignedIsDivisible(first, MAX_ORDER);
  }

  /** One allocation and its release undo each other in all states exactly when the base is aligned. */
  lemma RoundTripsIffAligned(base: nat)
    ensures RoundTrips(base) <==> Aligned(base, MAX_ORDER)
  {
    if Aligned(base, MAX_ORDER) {
      forall lists, pages, order: nat | Holds(lists, pages) && AtOrAbove(pages, base)
        ensures Restored(lists, base, order)
      {
        AllocateRelease(lists, pages, base, order);
      }
    } else {
      var o := LowestBit(base, MAX_ORDER);
      var first := AlignedAbove(base);
      NotRestored(base, first, o);
      InitialHolds(first, 1);
      assert AtOrAbove(Arena(first, 1), base) && !Restored(InitialLists(first, 1), base, o);
    }
  }

  // ----- runs

  /** Every run from every initial state with this base that releases all it allocates ends with the
      lists it began with. */
  ghost predicate Restores(base: nat)
  {
    forall first: nat, n: nat, ops: seq<Op> |
      Aligned(first, MAX_ORDER) && base <= first && Settles(base, first, n, ops) ::
      Blocks(Run(Initial(base, first, n), ops).lists) == Blocks(InitialLists(first, n))
  }

  ghost predicate Settles(base: nat, first: nat, n: nat, ops: seq<Op>)
  {
    LegalRun(Initial(base, first, n), ops) && Run(Initial(base, first, n), ops).live == map[]
  }

  lemma RunOne(s: Pmm, op: Op, ops: seq<Op>)
    requires |s.lists| == MAX_ORDER + 1
    ensures Run(s, [op] + ops) == Run(Step(s, op), ops)
    ensures LegalRun(s, [op] + ops) <==> Legal(s, op) && LegalRun(Step(s, op), ops)
  {
    assert ([op] + ops)[1..] == ops;
  }

  /** For every base that is not aligned, and every place of the first block, a run of two operations
      that does not restore the lists. */
  lemma RunNotRestored(base: nat, first: nat) returns (ops: seq<Op>)
    requires !Aligned(base, MAX_ORDER) && Aligned(first, MAX_ORDER) && base <= first
    ensures Settles(base, first, 1, ops)
    ensures Blocks(Run(Initial(base, first, 1), ops).lists) != Blocks(InitialLists(first, 1))
  {
    var o := LowestBit(base, MAX_ORDER);
    var s := Initial(base, first, 1);
    NotRestored(base, first, o);
    var t := Step(s, Alloc(o));
    ops := [Alloc(o)] + [Free(first, o)];
    RunOne(s, Alloc(o), [Free(first, o)]);
    RunOne(t, Free(first, o), []);
    assert [Free(first, o)] + [] == [Free(first, o)];
    assert Step(t, Free(first, o)).live == map[];
  }

  /** The allocator restores its lists over every run exactly when its base is aligned. */
  lemma RestoresIffAligned(base: nat)
    ensures Restores(base) <==> Aligned(base, MAX_ORDER)
  {
    if Aligned(base, MAX_ORDER) {
      forall first: nat, n: nat, ops: seq<Op> |
        Aligned(first, MAX_ORDER) && base <= first && Settles(base, first, n, ops)
        ensures Blocks(Run(Initial(base, first, n), ops).lists) == Blocks(InitialLists(first, n))
      {
        InitialInv(base, first, n);
        RunReleasingAll(Initial(base, first, n), Arena(first, n), ops);
      }
    } else {
      var first := AlignedAbove(base);
      var ops := RunNotRestored(base, first);
    }
  }

  // ----- a run from a base of 4 MiB with two blocks, at 8 and 16 MiB

  function TopLists(l10: seq<nat>, l11: seq<nat>): (lists: Lists)
    ensures |lists| == MAX_ORDER + 1 && lists[10] == l10 && lists[11] == l11
    ensures forall o | 0 <= o < 10 :: lists[o] == []
  {
    seq(10, i => []) + [l10, l11]
  }

  lemma AllocTen(l10: seq<nat>, l11: seq<nat>)
    requires l10 != [] || l11 != []
    ensures Allocate(TopLists(l10, l11), 10)
            == if l10 != [] then Taken(TopLists(l10[1..], l11), l10[0], 10)
               else Taken(TopLists([Flip(l11[0], 10)], l11[1..]), l11[0], 11)
  {
    var lists := TopLists(l10, l11);
    if l10 != [] {
      FirstNonEmptyIs(lists, 10, 10);
      assert lists[10 := l10[1..]] == TopLists(l10[1..], l11);
    } else {
      FirstNonEmptyIs(lists, 10, 11);
      var q := l11[0];
      var rest := lists[11 := l11[1..]];
      var pushed := Push(rest, 10, Flip(q, 10));
      assert SplitDown(pushed, q, 10, 10) == pushed;
      assert pushed[10] == [Flip(q, 10)] && pushed[11] == l11[1..];
      assert pushed == TopLists([Flip(q, 10)], l11[1..]);
    }
  }

  lemma FreeTen(l10: seq<nat>, l11: seq<nat>, base: nat, p: nat)
    requires base <= p && |l10| <= 1
    ensures Release(TopLists(l10, l11), base, p, 10)
            == if l10 == [MergeBuddy(base, p, 10)] then TopLists([], [Lower(base, p, 10)] + l11)
               else TopLists([p] + l10, l11)
  {
    var lists := TopLists(l10, l11);
    if l10 == [MergeBuddy(base, p, 10)] {
      var taken := TakeBuddy(lists, base, p, 10);
      assert taken == TopLists([], l11);
      assert Push(taken, 11, Lower(base, p, 10)) == TopLists([], [Lower(base, p, 10)] + l11);
    } else {
      assert Push(lists, 10, p) == TopLists([p] + l10, l11);
    }
  }

  lemma BitTen()
    ensures Flip(2048, 10) == 3072 && Flip(3072, 10) == 2048 && Flip(4096, 10) == 5120
  {
    assert Flip(2, 0) == 3 && Flip(3, 0) == 2 && Flip(4, 0) == 5;
    assert Flip(8, 2) == 12 && Flip(12, 2) == 8 && Flip(16, 2) == 20;
    assert Flip(32, 4) == 48 && Flip(48, 4) == 32 && Flip(64, 4) == 80;
    assert Flip(128, 6) == 192 && Flip(192, 6) == 128 && Flip(256, 6) == 320;
    assert Flip(512, 8) == 768 && Flip(768, 8) == 512 && Flip(1024, 8) == 1280;
  }

  /** A state of that allocator, its bits aside. */
  ghost predicate Looks(s: Pmm, l10: seq<nat>, l11: seq<nat>, live: map<nat, nat>)
  {
    s.base == 1024 && s.lists == TopLists(l10, l11) && s.live == live
  }

  lemma Takes(s: Pmm, l10: seq<nat>, l11: seq<nat>, live: map<nat, nat>)
    requires Looks(s, l10, l11, live) && (l10 != [] || l11 != [])
    ensures var t := Step(s, Alloc(10));
            if l10 != [] then Looks(t, l10[1..], l11, live[l10[0] := 10])
            else Looks(t, [Flip(l11[0], 10)], l11[1..], live[l11[0] := 10])
  {
    AllocTen(l10, l11);
  }

  lemma Gives(s: Pmm, l10: seq<nat>, live: map<nat, nat>, p: nat)
    requires Looks(s, l10, [], live) && |l10| <= 1 && 1024 <= p && p in live && live[p] == 10
    ensures Legal(s, Free(p, 10))
    ensures var t := Step(s, Free(p, 10));
            if l10 == [MergeBuddy(1024, p, 10)] then Looks(t, [], [Lower(1024, p, 10)], live - {p})
            else Looks(t, [p] + l10, [], live - {p})
  {
    FreeTen(l10, [], 1024, p);
    assert [Lower(1024, p, 10)] + [] == [Lower(1024, p, 10)];
  }

  /** Four allocations of 4 MiB, then `ops`. */
  function Four(ops: seq<Op>): seq<Op>
  {
    [Alloc(10)] + ([Alloc(10)] + ([Alloc(10)] + ([Alloc(10)] + ops)))
  }

  lemma FourTaken(ops: seq<Op>) returns (t: Pmm)
    ensures |t.lists| == MAX_ORDER + 1
    ensures var s := Initial(1024, 2048, 2);
            Run(s, Four(ops)) == Run(t, ops) && (LegalRun(s, Four(ops)) <==> LegalRun(t, ops))
    ensures Looks(t, [], [], map[4096 := 10, 5120 := 10, 2048 := 10, 3072 := 10])
  {
    var s := Initial(1024, 2048, 2);
    BitTen();
    assert InitialList(2048, 0) == [] && InitialList(2048, 1) == [2048] && InitialList(2048, 2) == [4096, 2048];
    assert s.lists == TopLists([], [4096, 2048]);
    Takes(s, [], [4096, 2048], map[]);
    var s1 := Step(s, Alloc(10));
    Takes(s1, [5120], [2048], map[4096 := 10]);
    var s2 := Step(s1, Alloc(10));
    Takes(s2, [], [2048], map[4096 := 10, 5120 := 10]);
    var s3 := Step(s2, Alloc(10));
    Takes(s3, [3072], [], map[4096 := 10, 5120 := 10, 2048 := 10]);
    t := Step(s3, Alloc(10));
    RunOne(s3, Alloc(10), ops);
    RunOne(s2, Alloc(10), [Alloc(10)] + ops);
    RunOne(s1, Alloc(10), [Alloc(10)] + ([Alloc(10)] + ops));
    RunOne(s, Alloc(10), [Alloc(10)] + ([Alloc(10)] + ([Alloc(10)] + ops)));
  }

  /** Of the four, the one at 16 MiB and the one at 12 MiB are released, in this order; then `ops`. */
  function MiddleReleased(ops: seq<Op>): seq<Op>
  {
    Four([Free(4096, 10)] + ([Free(3072, 10)] + ops))
  }

  lemma MiddleStates(s: Pmm) returns (s1: Pmm, t: Pmm)
    requires Looks(s, [], [], map[4096 := 10, 5120 := 10, 2048 := 10, 3072 := 10])
    ensures |s1.lists| == |t.lists| == MAX_ORDER + 1
    ensures Legal(s, Free(4096, 10)) && s1 == Step(s, Free(4096, 10))
    ensures Legal(s1, Free(3072, 10)) && t == Step(s1, Free(3072, 10))
    ensures Looks(t, [], [3072], map[5120 := 10, 2048 := 10])
  {
    BitTen();
    Gives(s, [], map[4096 := 10, 5120 := 10, 2048 := 10, 3072 := 10], 4096);
    s1 := Step(s, Free(4096, 10));
    assert [4096] + [] == [4096];
    assert map[4096 := 10, 5120 := 10, 2048 := 10, 3072 := 10] - {4096} == map[5120 := 10, 2048 := 10, 3072 := 10];
    Gives(s1, [4096], map[5120 := 10, 2048 := 10, 3072 := 10], 3072);
    t := Step(s1, Free(3072, 10));
    assert map[5120 := 10, 2048 := 10, 3072 := 10] - {3072} == map[5120 := 10, 2048 := 10];
  }

  lemma MiddleMerged(ops: seq<Op>) returns (t: Pmm)
    ensures |t.lists| == MAX_ORDER + 1
    ensures var s := Initial(1024, 2048, 2);
            && Run(s, MiddleReleased(ops)) == Run(t, ops)
            && (LegalRun(s, MiddleReleased(ops)) <==> LegalRun(t, ops))
    ensures Looks(t, [], [3072], map[5120 := 10, 2048 := 10])
  {
    var s := FourTaken([Free(4096, 10)] + ([Free(3072, 10)] + ops));
    var s1;
    s1, t := MiddleStates(s);
    RunOne(s1, Free(3072, 10), ops);
    RunOne(s, Free(4096, 10), [Free(3072, 10)] + ops);
  }

  /** The two merge, though they are no buddies: the run ends with a listed block of 8 MiB at 12 MiB. */
  lemma FourMiBBaseMisplaces()
    ensures var s, ops := Initial(1024, 2048, 2), MiddleReleased([]);
            && LegalRun(s, ops)
            && Block(3072, 11) in Blocks(Run(s, ops).lists) && !WellPlaced(Block(3072, 11))
  {
    var t := MiddleMerged([]);
    assert Pow2(5) == 32;
    assert Pow2(11) == 2048;
    assert !Aligned(3, 1) && !Aligned(12, 3) && !Aligned(48, 5) && !Aligned(192, 7) && !Aligned(768, 9);
  }

  /** One allocation more splits that block towards 8 MiB: it lists a block that is still allocated. */
  lemma FourMiBBaseBooksTwice()
    ensures var s, ops := Initial(1024, 2048, 2), MiddleReleased([Alloc(10)]);
            var t := Run(s, ops);
            LegalRun(s, ops) && 2048 in t.live && t.live[2048] == 10 && Block(2048, 10) in Blocks(t.lists)
  {
    var t := MiddleMerged([Alloc(10)]);
    BitTen();
    Takes(t, [], [3072], map[5120 := 10, 2048 := 10]);
    RunOne(t, Alloc(10), []);
    assert [Alloc(10)] + [] == [Alloc(10)];
  }
}
