/** The page allocator as it runs: circular lists threaded through the free pages
    themselves, counters and a packed bitmap, all updated in place. */
module PageAllocator {
  import opened BitArith
  import opened BuddyBlocks
  import opened BuddyLists
  import opened BuddyArith
  import opened Paging
  import opened BuddyRuns
  import opened IntrusiveList
  import opened Bitmap
  import opened PageLedger

  /** List elements of a free list given by page frame numbers. */
  ghost function Nodes(frames: seq<ListHead>, l: seq<nat>): (s: seq<ListHead>)
    requires forall i | 0 <= i < |l| :: l[i] < |frames|
    ensures |s| == |l|
    ensures forall i | 0 <= i < |l| :: s[i] == frames[l[i]]
    ensures forall x | x in s :: x in frames
  {
    seq(|l|, i requires 0 <= i < |l| => frames[l[i]])
  }

  ghost predicate Injective(s: seq<ListHead>)
  {
    forall i, j | 0 <= i < j < |s| :: s[i] != s[j]
  }

  /** No page heads two listed blocks, and all listed blocks start in the arena. */
  ghost predicate Separate(lists: Lists, arena: set<nat>)
  {
    && |lists| == MAX_ORDER + 1 && NoDuplicates(lists)
    && (forall o1, i, o2, j | 0 <= o1 < o2 < |lists| && 0 <= i < |lists[o1]| && 0 <= j < |lists[o2]| ::
          lists[o1][i] != lists[o2][j])
    && (forall o, i | 0 <= o < |lists| && 0 <= i < |lists[o]| :: lists[o][i] in arena)
  }

  lemma HoldsSeparate(lists: Lists, pages: set<nat>)
    requires Holds(lists, pages)
    ensures Separate(lists, pages)
  {
    forall o, i | 0 <= o < |lists| && 0 <= i < |lists[o]|
      ensures lists[o][i] in pages
    {
      var b := Block(lists[o][i], o);
      assert b in Blocks(lists) && In(b.pfn, b);
    }
    forall o1, i, o2, j | 0 <= o1 < o2 < |lists| && 0 <= i < |lists[o1]| && 0 <= j < |lists[o2]|
      ensures lists[o1][i] != lists[o2][j]
    {
      var b, c := Block(lists[o1][i], o1), Block(lists[o2][j], o2);
      assert b in Blocks(lists) && c in Blocks(lists);
      assert b.pfn == c.pfn ==> Overlap(b, c);
    }
  }

  lemma PushSeparate(lists: Lists, o: nat, p: nat, arena: set<nat>)
    requires o < |lists| && Separate(lists, arena) && p in arena
    requires NotIn(lists, p)
    ensures Separate(Push(lists, o, p), arena)
  {
  }

  lemma EmptySeparate(lists: Lists, arena: set<nat>)
    requires |lists| == MAX_ORDER + 1 && forall o | 0 <= o <= MAX_ORDER :: lists[o] == []
    ensures Separate(lists, arena)
  {
  }

  function Drop(l: seq<nat>, i: nat): seq<nat>
    requires i < |l|
  {
    l[..i] + l[i + 1..]
  }

  lemma DropSeparate(lists: Lists, o: nat, i: nat, arena: set<nat>)
    requires o < |lists| && Separate(lists, arena) && i < |lists[o]|
    ensures Separate(lists[o := Drop(lists[o], i)], arena)
  {
  }

  ghost predicate NotIn(lists: Lists, p: nat)
  {
    forall k, i | 0 <= k < |lists| && 0 <= i < |lists[k]| :: lists[k][i] != p
  }

  /** Every page the split loop lists is managed and on no list when its turn comes. */
  ghost predicate SplitSafe(lists: Lists, p: nat, from: nat, order: nat, base: nat, arena: set<nat>)
    requires |lists| == MAX_ORDER + 1 && order <= from <= MAX_ORDER
    decreases from
  {
    from > order ==>
      var q := Flip(p, from - 1);
      && q in arena && base <= q && NotIn(lists, q)
      && SplitSafe(Push(lists, from - 1, q), p, from - 1, order, base, arena)
  }

  lemma {:induction false} SplitIsSafe(lists: Lists, pages: set<nat>, p: nat, from: nat, order: nat, base: nat,
      arena: set<nat>)
    requires Holds(lists, pages) && order <= from && base <= p
    requires WellPlaced(Block(p, from)) && Pages(Block(p, from)) !! pages
    requires pages + Pages(Block(p, from)) <= arena
    ensures SplitSafe(lists, p, from, order, base, arena)
    decreases from
  {
    if from > order {
      var b, r := Block(p, from), Block(Flip(p, from - 1), from - 1);
      SplitOnce(lists, pages, b);
      assert In(r.pfn, r) && r.pfn in Pages(r) && r.pfn in Pages(b);
      HoldsSeparate(lists, pages);
      SplitIsSafe(Push(lists, from - 1, r.pfn), pages + Pages(r), p, from - 1, order, base, arena);
    }
  }

  /** The page the merge loop ends up listing is managed and on no list by then. */
  ghost predicate ReleaseSafe(lists: Lists, base: nat, p: nat, order: nat, arena: set<nat>)
    requires |lists| == MAX_ORDER + 1 && order <= MAX_ORDER && base <= p
    decreases MAX_ORDER - order
  {
    if order < MAX_ORDER && BuddyIsFree(lists, base, p, order) then
      ReleaseSafe(TakeBuddy(lists, base, p, order), base, Lower(base, p, order), order + 1, arena)
    else p in arena && NotIn(lists, p)
  }

  lemma {:induction false} ReleaseIsSafe(lists: Lists, pages: set<nat>, base: nat, p: nat, order: nat, arena: set<nat>)
    requires Holds(lists, pages) && Aligned(base, MAX_ORDER) && base <= p
    requires WellPlaced(Block(p, order)) && Pages(Block(p, order)) !! pages
    requires pages + Pages(Block(p, order)) <= arena
    ensures ReleaseSafe(lists, base, p, order, arena)
    decreases MAX_ORDER - order
  {
    var b := Block(p, order);
    if order < MAX_ORDER { BaseBuddy(base, b); }
    if order < MAX_ORDER && BuddyIsFree(lists, base, p, order) {
      MergeOnce(lists, pages, b);
      ReleaseIsSafe(TakeBuddy(lists, base, p, order), pages - Pages(Buddy(b)), base, Parent(b).pfn, order + 1, arena);
    } else {
      assert In(p, b) && p in Pages(b);
      HoldsSeparate(lists, pages);
    }
  }

  lemma FirstBlockAligned(start: nat, end: nat)
    requires start <= end
    ensures FirstBlock(start, end) % MAX_BLOCK_BYTES == 0
    ensures start + BitmapBytes(start, end) <= FirstBlock(start, end)
  {
  }

  lemma AlignedFrames(addr: nat)
    requires addr % MAX_BLOCK_BYTES == 0
    ensures Aligned(addr / PAGE_SIZE, MAX_ORDER) && addr / PAGE_SIZE * PAGE_SIZE == addr
  {
    MaxBlock();
    AlignedIsDivisible(addr / PAGE_SIZE, MAX_ORDER);
  }

  /** The bits of all listed pages lie before the first listed block. */
  predicate BitmapFits(start: nat, end: nat)
    requires start <= end
  {
    var gap := FirstBlock(start, end) - start;
    gap / PAGE_SIZE + BlockCount(start, end) * MAX_BLOCK_PAGES <= 8 * gap
  }

  /** They do, except where the range has exactly as many pages as the gap has bits: the bitmap is indexed
      from the base, but has no bits for the pages of the gap. */
  lemma BitmapFitsIff(start: nat, end: nat)
    requires start <= end < 0x1_0000_0000 && start % PAGE_SIZE == 0 && BlockCount(start, end) > 0
    ensures BitmapFits(start, end) <==> TotalPages(start, end) != 8 * (FirstBlock(start, end) - start)
    ensures start % MAX_BLOCK_BYTES == 0 ==> BitmapFits(start, end)
  {
    GapFacts(start, end);
    GapBits((FirstBlock(start, end) - start) / PAGE_SIZE, TotalPages(start, end), BlockCount(start, end));
    if start % MAX_BLOCK_BYTES == 0 {
      MergeableBaseOverruns(start, end);
    }
  }

  /** A page-aligned range of 128 MiB whose bitmap does not fit: the gap in front of the first block is one
      page, as many bits as the range has pages. */
  lemma BitmapOverruns()
    ensures FirstBlock(0x7F_F000, 0x87F_F000) == 0x80_0000 && TotalPages(0x7F_F000, 0x87F_F000) == 8 * PAGE_SIZE
    ensures !BitmapFits(0x7F_F000, 0x87F_F000)
  {
    BitmapFitsIff(0x7F_F000, 0x87F_F000);
  }

  lemma GapFacts(start: nat, end: nat)
    requires start <= end < 0x1_0000_0000 && start % PAGE_SIZE == 0 && BlockCount(start, end) > 0
    ensures var gap := FirstBlock(start, end) - start;
            && gap == gap / PAGE_SIZE * PAGE_SIZE && gap / PAGE_SIZE > 0
            && TotalPages(start, end) <= 8 * gap && TotalPages(start, end) < 0x10_0000
  {
    FirstBlockAligned(start, end);
    Multiple(start, FirstBlock(start, end));
  }

  lemma Multiple(a: nat, b: nat)
    requires a % PAGE_SIZE == 0 && b % MAX_BLOCK_BYTES == 0
    ensures (b - a) % PAGE_SIZE == 0
  {
  }

  lemma GapBits(m: nat, total: nat, n: nat)
    requires n == total / MAX_BLOCK_PAGES && total <= 32768 * m && total < 0x10_0000 && m > 0
    ensures m + n * MAX_BLOCK_PAGES <= 32768 * m <==> total != 32768 * m
  {
    assert total == 32768 * m <==> n == 16 * m;
    if m <= 32 {
      assert n < 16 * m ==> m + n * MAX_BLOCK_PAGES <= 32768 * m;
    }
  }

  /** The blocks `pmm_init` lists are aligned and within reach of the bitmap in front of them. */
  lemma ArenaFits(start: nat, end: nat)
    requires start <= end < 0x1_0000_0000 && start % PAGE_SIZE == 0 && BitmapFits(start, end)
    ensures start <= FirstBlock(start, end)
    ensures var base, first, n := start / PAGE_SIZE, FirstBlock(start, end) / PAGE_SIZE, BlockCount(start, end);
            && Aligned(first, MAX_ORDER) && base <= first
            && first * PAGE_SIZE == FirstBlock(start, end)
            && (n > 0 ==> 0 < first)
            && first + n * MAX_BLOCK_PAGES <= base + 8 * (FirstBlock(start, end) - start)
            && BitmapBytes(start, end) <= FirstBlock(start, end) - start
            && |Arena(first, n)| <= TotalPages(start, end)
  {
    var first, n := FirstBlock(start, end) / PAGE_SIZE, BlockCount(start, end);
    FirstBlockAligned(start, end);
    AlignedFrames(FirstBlock(start, end));
    RangeSize(Arena(first, n), first, n * MAX_BLOCK_PAGES);
  }

  /** The `k`-th block `pmm_init` lists extends the list of the first `k`. */
  lemma InitBlock(start: nat, end: nat, k: nat)
    requires start <= end < 0x1_0000_0000 && start % PAGE_SIZE == 0 && BitmapFits(start, end)
    requires k < BlockCount(start, end)
    ensures var first := FirstBlock(start, end) / PAGE_SIZE; var p := first + k * MAX_BLOCK_PAGES;
            && (FirstBlock(start, end) + k * MAX_BLOCK_BYTES) / PAGE_SIZE == p
            && NotIn(InitialLists(first, k), p)
            && Pages(Block(p, MAX_ORDER)) <= Arena(first, BlockCount(start, end))
            && Arena(first, k + 1) == Arena(first, k) + Pages(Block(p, MAX_ORDER))
            && p in Arena(first, BlockCount(start, end)) && start / PAGE_SIZE <= p
            && Push(InitialLists(first, k), MAX_ORDER, p) == InitialLists(first, k + 1)
  {
    ArenaFits(start, end);
    MaxBlock();
    var first := FirstBlock(start, end) / PAGE_SIZE;
    InitialHolds(first, k);
    HoldsSeparate(InitialLists(first, k), Arena(first, k));
  }

  class BuddySystem {
    const baseAddr: nat
    const totalPages: nat
    const heads: seq<ListHead>      // free_area[i].free_list
    const nrFree: array<nat>        // free_area[i].nr_free
    const bitmap: array<bv8>
    const frames: seq<ListHead>     // the page header at the start of every page frame
    ghost var s: Pmm
    ghost const arena: set<nat>

    /** What never changes. */
    ghost predicate Layout()
    {
      && |heads| == MAX_ORDER + 1 && Injective(heads) && Injective(frames)
      && (forall h | h in heads :: h !in frames)
      && (forall i | 0 <= i < |frames| :: frames[i].addr == i * PAGE_SIZE)
      && nrFree.Length == MAX_ORDER + 1 && nrFree as object != bitmap
      && (forall x | x in arena :: 0 < x < |frames| && x < baseAddr / PAGE_SIZE + 8 * bitmap.Length)
      && baseAddr % PAGE_SIZE == 0
    }

    /** Every free list is a well-formed circle through the headers of its blocks. */
    ghost predicate Circles(lists: Lists)
      requires Layout() && Separate(lists, arena)
      reads heads, frames
    {
      forall o | 0 <= o <= MAX_ORDER :: Circular(heads[o], Nodes(frames, lists[o]))
    }

    /** The heap realises the lists `lists`. */
    ghost predicate Realises(lists: Lists)
      requires Layout()
      reads heads, frames, nrFree
    {
      && Separate(lists, arena)
      && Circles(lists)
      && (forall o | 0 <= o <= MAX_ORDER :: nrFree[o] == |lists[o]|)
      && (forall o, x | 0 <= o <= MAX_ORDER && x in Nodes(frames, lists[o]) :: x.order == o)
    }

    /** The bit of every managed page is set exactly when the page is in `marked`. */
    ghost predicate Marks(marked: set<nat>)
      requires Layout()
      reads bitmap
    {
      forall x | x in arena && baseAddr / PAGE_SIZE <= x :: Bit(bitmap, x - baseAddr / PAGE_SIZE) <==> x in marked
    }

    ghost predicate Shape()
      reads this, heads, frames, nrFree, bitmap
    {
      && Layout()
      && s.base == baseAddr / PAGE_SIZE
      && Realises(s.lists)
      && Marks(s.marked)
    }

    ghost predicate Valid()
      reads this, heads, frames, nrFree, bitmap
    {
      Shape() && Inv(s, arena) && |arena| <= totalPages
    }

    /** `pmm_init` on the byte range [start, end).  `memory` gives the page header at the
        start of every page frame, `gap` the bytes from `start` to the first listed block,
        the first of which become the bitmap.  The state is a working allocator if the base is
        aligned to the largest block. */
    constructor (start: nat, end: nat, memory: seq<ListHead>, gap: array<bv8>)
      requires start <= end < 0x1_0000_0000 && start % PAGE_SIZE == 0 && BitmapFits(start, end)
      requires Injective(memory) && forall i | 0 <= i < |memory| :: memory[i].addr == i * PAGE_SIZE
      requires ArenaEnd(start, end) <= |memory| * PAGE_SIZE
      requires gap.Length == FirstBlock(start, end) - start
      modifies memory, gap
      ensures Shape() && (start % MAX_BLOCK_BYTES == 0 ==> Valid())
      ensures baseAddr == start && totalPages == TotalPages(start, end) && frames == memory && bitmap == gap
      ensures fresh(nrFree) && fresh(heads)
      ensures var first, n := FirstBlock(start, end) / PAGE_SIZE, BlockCount(start, end);
              s == Initial(start / PAGE_SIZE, first, n) && arena == Arena(first, n)
      ensures forall x | x in arena :: PageBit(x)
    {
      var hs: seq<ListHead> := [];
      while |hs| < MAX_ORDER + 1
        invariant |hs| <= MAX_ORDER + 1
        invariant Injective(hs)
        invariant forall i | 0 <= i < |hs| :: fresh(hs[i]) && hs[i] !in memory
      {
        var h := new ListHead(0);
        hs := hs + [h];
      }
      heads := hs;
      nrFree := new nat[MAX_ORDER + 1](i => 0);
      bitmap, frames := gap, memory;
      baseAddr, totalPages := start, TotalPages(start, end);
      arena := Arena(FirstBlock(start, end) / PAGE_SIZE, BlockCount(start, end));
      new;
      assert forall i | 0 <= i < |heads| :: fresh(heads[i]);
      ArenaFits(start, end);
      InitEmpty(start, end);
      AddBlocks(start, end);
      if start % MAX_BLOCK_BYTES == 0 {
        AlignedFrames(start);
        InitialInv(start / PAGE_SIZE, FirstBlock(start, end) / PAGE_SIZE, BlockCount(start, end));
      }
    }

    /** Empty lists, and a bitmap cleared in whole bytes as far as the range has pages. */
    method InitEmpty(start: nat, end: nat)
      requires start <= end && baseAddr == start && totalPages == TotalPages(start, end)
      requires Layout() && (forall o | 0 <= o <= MAX_ORDER :: nrFree[o] == 0)
      requires BitmapBytes(start, end) <= bitmap.Length
      modifies this`s, bitmap, heads
      ensures Shape() && s.marked <= arena && s.live == map[] && s.base == start / PAGE_SIZE
      ensures s.lists == InitialLists(FirstBlock(start, end) / PAGE_SIZE, 0)
    {
      InitHeads();
      ClearRange(bitmap, 0, 8 * BitmapBytes(start, end));
      Begin(start / PAGE_SIZE, InitialLists(FirstBlock(start, end) / PAGE_SIZE, 0));
    }

    /** The state where nothing is listed and nothing live, and the bits are what they are. */
    ghost method Begin(base: nat, lists: Lists)
      requires Layout() && base == baseAddr / PAGE_SIZE
      requires |lists| == MAX_ORDER + 1 && forall o | 0 <= o <= MAX_ORDER :: lists[o] == []
      requires forall o | 0 <= o <= MAX_ORDER :: nrFree[o] == 0 && Circular(heads[o], [])
      modifies this`s
      ensures Shape() && s.marked <= arena && s.live == map[] && s.base == base && s.lists == lists
    {
      s := Pmm(base, lists, set x | x in arena && base <= x && Bit(bitmap, x - base), map[]);
      EmptySeparate(lists, arena);
      assert forall o | 0 <= o <= MAX_ORDER :: Nodes(frames, lists[o]) == [];
    }

    method InitHeads()
      requires Layout()
      modifies heads`next, heads`prev
      ensures forall o | 0 <= o <= MAX_ORDER :: Circular(heads[o], [])
    {
      for i := 0 to MAX_ORDER + 1
        invariant forall o | 0 <= o < i :: Circular(heads[o], [])
      {
        assert heads[i] in heads;
        ListInit(heads[i]);
      }
    }

    /** List the block at address `addr`, the `k + 1`-st, and mark its pages. */
    method ListBlock(start: nat, end: nat, addr: nat, ghost k: nat)
      requires start <= end < 0x1_0000_0000 && start % PAGE_SIZE == 0 && BitmapFits(start, end)
      requires k < BlockCount(start, end)
      requires baseAddr == start && addr == FirstBlock(start, end) + k * MAX_BLOCK_BYTES
      requires arena == Arena(FirstBlock(start, end) / PAGE_SIZE, BlockCount(start, end))
      requires Shape() && s.lists == InitialLists(FirstBlock(start, end) / PAGE_SIZE, k)
      modifies this`s, nrFree, bitmap, heads, frames
      ensures Shape() && s.live == old(s.live) && s.base == old(s.base)
      ensures s.lists == InitialLists(FirstBlock(start, end) / PAGE_SIZE, k + 1)
      ensures var first := FirstBlock(start, end) / PAGE_SIZE;
              Arena(first, k) <= old(s.marked) <= arena ==> Arena(first, k + 1) <= s.marked <= arena
    {
      InitBlock(start, end, k);
      PushFree(MAX_ORDER, addr / PAGE_SIZE);
      MarkBlock(addr / PAGE_SIZE, MAX_ORDER);
    }

    /** The loop of `pmm_init`: list the range as blocks of the largest order and mark all their pages. */
    method AddBlocks(start: nat, end: nat)
      requires start <= end < 0x1_0000_0000 && start % PAGE_SIZE == 0 && BitmapFits(start, end)
      requires baseAddr == start && totalPages == TotalPages(start, end)
      requires arena == Arena(FirstBlock(start, end) / PAGE_SIZE, BlockCount(start, end))
      requires Shape() && s.marked <= arena && s.live == map[]
      requires s.lists == InitialLists(FirstBlock(start, end) / PAGE_SIZE, 0)
      modifies this`s, nrFree, bitmap, heads, frames
      ensures Shape()
      ensures s == Initial(start / PAGE_SIZE, FirstBlock(start, end) / PAGE_SIZE, BlockCount(start, end))
    {
      var current, remaining := FirstBlock(start, end), totalPages;
      ghost var first, n, k := FirstBlock(start, end) / PAGE_SIZE, BlockCount(start, end), 0;
      while remaining >= MAX_BLOCK_PAGES
        invariant remaining == totalPages - k * MAX_BLOCK_PAGES && 0 <= k <= n
        invariant current == FirstBlock(start, end) + k * MAX_BLOCK_BYTES
        invariant Shape() && s.base == start / PAGE_SIZE && s.lists == InitialLists(first, k) && s.live == map[]
        invariant Arena(first, k) <= s.marked <= arena
      {
        AnotherBlock(totalPages, k);
        ListBlock(start, end, current, k);
        current, remaining := current + MAX_BLOCK_BYTES, remaining - MAX_BLOCK_PAGES;
        k := k + 1;
      }
      AllBlocks(totalPages, k);
    }

    lemma AnotherBlock(total: nat, k: nat)
      requires total - k * MAX_BLOCK_PAGES >= MAX_BLOCK_PAGES
      ensures k < total / MAX_BLOCK_PAGES
    {
    }

    lemma AllBlocks(total: nat, k: nat)
      requires k <= total / MAX_BLOCK_PAGES && total - k * MAX_BLOCK_PAGES < MAX_BLOCK_PAGES
      ensures k == total / MAX_BLOCK_PAGES
    {
    }

    /** The pages that are free. */
    ghost function FreePages(): set<nat>
      reads this
    {
      arena - LivePages(s.live)
    }

    /** The circles of two different orders share no element, head included. */
    lemma Disjoint(lists: Lists, o: nat, k: nat)
      requires Layout() && Separate(lists, arena) && o <= MAX_ORDER && k <= MAX_ORDER && o != k
      ensures forall x | x == heads[k] || x in Nodes(frames, lists[k]) ::
                x != heads[o] && x !in Nodes(frames, lists[o])
    {
      forall i, j | 0 <= i < |lists[k]| && 0 <= j < |lists[o]|
        ensures frames[lists[k][i]] != frames[lists[o][j]]
      {
        assert lists[k][i] != lists[o][j];
      }
    }

    lemma NotListed(lists: Lists, k: nat, p: nat)
      requires Layout() && Separate(lists, arena) && k <= MAX_ORDER && p in arena
      requires forall i | 0 <= i < |lists[k]| :: lists[k][i] != p
      ensures frames[p] != heads[k] && frames[p] !in Nodes(frames, lists[k])
    {
      assert heads[k] in heads && frames[p] in frames;
    }

    lemma NowhereListed(lists: Lists, p: nat)
      requires Layout() && Separate(lists, arena) && p in arena && NotIn(lists, p)
      ensures forall k | 0 <= k <= MAX_ORDER :: frames[p] !in Nodes(frames, lists[k])
    {
      forall k | 0 <= k <= MAX_ORDER
        ensures frames[p] !in Nodes(frames, lists[k])
      {
        NotListed(lists, k, p);
      }
    }

    /** `list_add` of the page at frame `p` to the list of order `o`. */
    method Link(o: nat, p: nat, ghost lists: Lists)
      requires Layout() && Separate(lists, arena) && Circles(lists) && o <= MAX_ORDER && p in arena
      requires NotIn(lists, p)
      modifies heads`next, heads`prev, frames`next, frames`prev
      ensures Separate(Push(lists, o, p), arena) && Circles(Push(lists, o, p))
    {
      forall k | 0 <= k <= MAX_ORDER
        ensures frames[p] != heads[k] && frames[p] !in Nodes(frames, lists[k])
        ensures k != o ==> forall x | x == heads[k] || x in Nodes(frames, lists[k]) ::
                             x != heads[o] && x !in Nodes(frames, lists[o])
      {
        NotListed(lists, k, p);
        if k != o { Disjoint(lists, o, k); }
      }
      ListAdd(frames[p], heads[o], Nodes(frames, lists[o]));
      PushSeparate(lists, o, p, arena);
      assert Nodes(frames, [p] + lists[o]) == [frames[p]] + Nodes(frames, lists[o]);
    }

    /** Write the order into the header at frame `p` and link it to the list of that order. */
    method LinkFree(o: nat, p: nat)
      requires Shape() && o <= MAX_ORDER && p in arena && NotIn(s.lists, p)
      modifies heads, frames
      ensures Layout() && Separate(Push(s.lists, o, p), arena) && Circles(Push(s.lists, o, p))
      ensures forall k, x | 0 <= k <= MAX_ORDER && x in Nodes(frames, Push(s.lists, o, p)[k]) :: x.order == k
    {
      NowhereListed(s.lists, p);
      frames[p].order := o;
      Link(o, p, s.lists);
      assert Nodes(frames, [p] + s.lists[o]) == [frames[p]] + Nodes(frames, s.lists[o]);
    }

    /** Put the block at frame `p` at the front of the list of order `o`. */
    method PushFree(o: nat, p: nat)
      requires Shape() && o <= MAX_ORDER && p in arena && NotIn(s.lists, p)
      modifies this`s, nrFree, heads, frames
      ensures Shape() && s == old(s).(lists := Push(old(s.lists), o, p))
    {
      LinkFree(o, p);
      nrFree[o] := nrFree[o] + 1;
      s := s.(lists := Push(s.lists, o, p));
    }

    /** `list_del` of the `i`-th element of the list of order `o`. */
    method Unlink(o: nat, ghost i: nat, entry: ListHead, ghost lists: Lists)
      requires Layout() && Separate(lists, arena) && Circles(lists)
      requires o <= MAX_ORDER && i < |lists[o]| && entry == frames[lists[o][i]]
      modifies heads`next, heads`prev, frames`next, frames`prev
      ensures Separate(lists[o := Drop(lists[o], i)], arena) && Circles(lists[o := Drop(lists[o], i)])
    {
      ghost var l := lists[o];
      forall k | 0 <= k <= MAX_ORDER && k != o
        ensures forall x | x == heads[k] || x in Nodes(frames, lists[k]) ::
                  x != heads[o] && x !in Nodes(frames, l)
      {
        Disjoint(lists, o, k);
      }
      ListDel(entry, heads[o], Nodes(frames, l), i);
      DropSeparate(lists, o, i, arena);
      assert Nodes(frames, Drop(l, i)) == Nodes(frames, l)[..i] + Nodes(frames, l)[i + 1..];
    }

    /** Take the `i`-th block off the list of order `o`. */
    method PopFree(o: nat, ghost i: nat, entry: ListHead)
      requires Shape() && o <= MAX_ORDER && i < |s.lists[o]| && entry == frames[s.lists[o][i]]
      modifies this`s, nrFree, heads, frames
      ensures Shape() && s == old(s).(lists := old(s.lists)[o := Drop(old(s.lists)[o], i)])
    {
      ghost var was := s.lists;
      Unlink(o, i, entry, was);
      nrFree[o] := nrFree[o] - 1;
      s := s.(lists := was[o := Drop(was[o], i)]);
      assert Nodes(frames, Drop(was[o], i)) == Nodes(frames, was[o])[..i] + Nodes(frames, was[o])[i + 1..];
    }

    /** Set the bit of page `p`. */
    method MarkPage(p: nat)
      requires Shape() && p in arena && baseAddr / PAGE_SIZE <= p
      modifies this`s, bitmap
      ensures Shape() && s == old(s).(marked := old(s.marked) + {p})
    {
      SetBit(bitmap, p - baseAddr / PAGE_SIZE);
      s := s.(marked := s.marked + {p});
    }

    /** Set the bits of the block of `order` at page `p`. */
    method MarkBlock(p: nat, order: nat)
      requires Shape() && Pages(Block(p, order)) <= arena && baseAddr / PAGE_SIZE <= p
      modifies this`s, bitmap
      ensures Shape() && s == old(s).(marked := old(s.marked) + Pages(Block(p, order)))
    {
      BlockBound(p, order);
      SetRange(bitmap, p - baseAddr / PAGE_SIZE, Pow2(order));
      s := s.(marked := s.marked + Pages(Block(p, order)));
    }

    /** Clear the bits of the block of `order` at page `p`. */
    method UnmarkBlock(p: nat, order: nat)
      requires Shape() && Pages(Block(p, order)) <= arena && baseAddr / PAGE_SIZE <= p
      modifies this`s, bitmap
      ensures Shape() && s == old(s).(marked := old(s.marked) - Pages(Block(p, order)))
    {
      BlockBound(p, order);
      ClearRange(bitmap, p - baseAddr / PAGE_SIZE, Pow2(order));
      s := s.(marked := s.marked - Pages(Block(p, order)));
    }

    lemma BlockBound(p: nat, order: nat)
      requires Layout() && Pages(Block(p, order)) <= arena
      ensures p in arena
      ensures p + Pow2(order) <= |frames|
      ensures p + Pow2(order) <= baseAddr / PAGE_SIZE + 8 * bitmap.Length
    {
      assert In(p, Block(p, order));
      var last := p + Pow2(order) - 1;
      assert In(last, Block(p, order));
      assert last in arena;
    }

    /** The smallest order, from `order` on, whose list is not empty. */
    method FindOrder(order: nat) returns (current: nat)
      requires Shape() && order <= MAX_ORDER
      ensures current == FirstNonEmpty(s.lists, order)
    {
      current := order;
      while current <= MAX_ORDER
        invariant order <= current <= MAX_ORDER + 1
        invariant forall j | order <= j < current :: s.lists[j] == []
      {
        var empty := ListEmpty(heads[current], Nodes(frames, s.lists[current]));
        if !empty { break; }
        current := current + 1;
      }
      FirstNonEmptyIs(s.lists, order, current);
    }

    /** Take the first block off the list of order `o`. */
    method PopFirst(o: nat) returns (pageAddr: nat)
      requires Shape() && o <= MAX_ORDER && s.lists[o] != []
      modifies this`s, nrFree, heads, frames
      ensures Shape() && s == old(s).(lists := old(s.lists)[o := old(s.lists)[o][1..]])
      ensures pageAddr == old(s.lists)[o][0] * PAGE_SIZE
    {
      assert At(heads[o], Nodes(frames, s.lists[o]), 0).next == At(heads[o], Nodes(frames, s.lists[o]), 1);
      assert Drop(s.lists[o], 0) == s.lists[o][1..];
      var entry := heads[o].next;
      PopFree(o, 0, entry);
      pageAddr := entry.addr;
    }

    /** One turn of the split loop: list the upper half of the block of order `current + 1` at `pageAddr`. */
    method SplitStep(pageAddr: nat, current: nat, ghost p: nat)
      requires Shape() && current < MAX_ORDER && pageAddr == p * PAGE_SIZE
      requires Flip(p, current) in arena && baseAddr / PAGE_SIZE <= Flip(p, current)
      requires NotIn(s.lists, Flip(p, current))
      modifies this`s, nrFree, bitmap, heads, frames
      ensures Shape()
      ensures s == old(s).(lists := Push(old(s.lists), current, Flip(p, current)),
                           marked := old(s.marked) + {Flip(p, current)})
    {
      var buddyAddr := SplitBuddyAddr(pageAddr, current);
      BuddiesAreFlips(p, current);
      PushFree(current, buddyAddr / PAGE_SIZE);
      MarkPage(buddyAddr / PAGE_SIZE);
    }

    /** The split loop: halve the block at `pageAddr` down to `order`. */
    method SplitBlock(pageAddr: nat, from: nat, order: nat, ghost p: nat)
      requires Shape() && order <= from <= MAX_ORDER && pageAddr == p * PAGE_SIZE
      requires SplitSafe(s.lists, p, from, order, baseAddr / PAGE_SIZE, arena)
      modifies this`s, nrFree, bitmap, heads, frames
      ensures Shape()
      ensures s == old(s).(lists := SplitDown(old(s.lists), p, from, order),
                           marked := SplitMarks(old(s.marked), p, from, order))
    {
      var current := from;
      while current > order
        invariant order <= current <= from && Shape()
        invariant SplitSafe(s.lists, p, current, order, baseAddr / PAGE_SIZE, arena)
        invariant SplitDown(s.lists, p, current, order) == SplitDown(old(s.lists), p, from, order)
        invariant SplitMarks(s.marked, p, current, order) == SplitMarks(old(s.marked), p, from, order)
        invariant s.live == old(s.live) && s.base == old(s.base)
      {
        current := current - 1;
        SplitStep(pageAddr, current, p);
      }
    }

    /** Write the order into the header of a page that is not listed. */
    method SetOrder(p: nat, order: nat)
      requires Shape() && p in arena
      requires NotIn(s.lists, p)
      modifies frames`order
      ensures Shape() && frames[p].order == order
    {
      NowhereListed(s.lists, p);
      frames[p].order := order;
    }

    /** Whatever the search finds is a block of the arena that the split loop can cut. */
    ghost predicate AllocSafe(order: nat)
      requires |s.lists| == MAX_ORDER + 1 && order <= MAX_ORDER
      reads this
    {
      var k := FirstNonEmpty(s.lists, order);
      k <= MAX_ORDER ==>
        var p := s.lists[k][0];
        var rest := s.lists[k := s.lists[k][1..]];
        && p in arena && baseAddr / PAGE_SIZE <= p && Pages(Block(p, order)) <= arena
        && SplitSafe(rest, p, k, order, baseAddr / PAGE_SIZE, arena)
        && NotIn(SplitDown(rest, p, k, order), p)
    }

    lemma AllocIsSafe(order: nat)
      requires Valid() && order <= MAX_ORDER
      ensures AllocSafe(order)
    {
      var k := FirstNonEmpty(s.lists, order);
      if k <= MAX_ORDER {
        var b := Block(s.lists[k][0], k);
        var c := Block(b.pfn, order);
        AllocateMeaning(s.lists, FreePages(), order);
        assert b in Blocks(s.lists) && In(b.pfn, b) && In(b.pfn, c);
        RemoveBlock(Blocks(s.lists), FreePages(), b);
        PopBlock(s.lists, k);
        SplitIsSafe(s.lists[k := s.lists[k][1..]], FreePages() - Pages(b), b.pfn, k, order, s.base, arena);
        HoldsSeparate(Allocate(s.lists, order).lists, FreePages() - Pages(c));
      }
    }

    /** Take the first block of order `current` and cut it down to `order`. */
    method CutBlock(current: nat, order: nat) returns (addr: nat)
      requires Shape() && order <= current <= MAX_ORDER && AllocSafe(order)
      requires current == FirstNonEmpty(s.lists, order)
      modifies this`s, nrFree, bitmap, heads, frames
      ensures Shape()
      ensures var p, rest := old(s.lists)[current][0], old(s.lists)[current := old(s.lists)[current][1..]];
              && addr == p * PAGE_SIZE
              && s == old(s).(lists := SplitDown(rest, p, current, order),
                              marked := SplitMarks(old(s.marked), p, current, order))
    {
      ghost var p := s.lists[current][0];
      addr := PopFirst(current);
      SplitBlock(addr, current, order, p);
    }

    /** Record the unlisted block of `order` at page `p` as allocated. */
    method Claim(p: nat, order: nat)
      requires Shape() && p in arena && baseAddr / PAGE_SIZE <= p && NotIn(s.lists, p)
      requires Pages(Block(p, order)) <= arena
      modifies this`s, bitmap, frames`order
      ensures Shape() && frames[p].order == order
      ensures s == old(s).(marked := old(s.marked) + Pages(Block(p, order)), live := old(s.live)[p := order])
    {
      SetOrder(p, order);
      MarkBlock(p, order);
      s := s.(live := s.live[p := order]);
    }

    /** The locked part of `pmm_alloc_pages`. */
    method TakePages(order: nat) returns (addr: nat)
      requires Shape() && order <= MAX_ORDER && AllocSafe(order)
      modifies this`s, nrFree, bitmap, heads, frames
      ensures Shape() && s == AllocStep(old(s), order)
      ensures addr == match Allocate(old(s.lists), order)
                      case NoBlock => 0
                      case Taken(_, p, _) => p * PAGE_SIZE
      ensures addr != 0 ==> addr / PAGE_SIZE < |frames| && frames[addr / PAGE_SIZE].order == order
    {
      ghost var t := AllocStep(s, order);
      var current := FindOrder(order);
      if current > MAX_ORDER { return 0; }
      AllocTakes(s, order);
      ghost var p := s.lists[current][0];
      addr := CutBlock(current, order);
      assert addr / PAGE_SIZE == p;
      Claim(addr / PAGE_SIZE, order);
      assert s.lists == t.lists && s.marked == t.marked && s.live == t.live;
    }

    /** `pmm_alloc_pages`: the byte address of 2^order pages, or 0. */
    method AllocPages(order: nat) returns (addr: nat)
      requires Valid()
      modifies this`s, nrFree, bitmap, heads, frames
      ensures Valid() && s == AllocStep(old(s), order)
      ensures addr == AllocAddr(old(s), order)
      ensures addr == 0 <==> Allocate(old(s.lists), order).NoBlock?
      ensures addr != 0 ==> addr / PAGE_SIZE < |frames| && frames[addr / PAGE_SIZE].order == order
      ensures forall x | x in arena ::
                PageBit(x) <==> old(PageBit(x)) || SetsBit(Allocate(old(s.lists), order), order, x)
    {
      AllocChanges(order);
      if order > MAX_ORDER { return 0; }
      AllocKeeps(s, arena, order);
      AllocInArena(order);
      AllocIsSafe(order);
      addr := TakePages(order);
    }

    /** The bit of a managed page. */
    ghost predicate PageBit(x: nat)
      requires Layout() && x in arena
      reads this, heads, frames, bitmap
    {
      baseAddr / PAGE_SIZE <= x && Bit(bitmap, x - baseAddr / PAGE_SIZE)
    }

    lemma AllocChanges(order: nat)
      requires Valid()
      ensures forall x | x in arena ::
                x in AllocStep(s, order).marked <==> PageBit(x) || SetsBit(Allocate(s.lists, order), order, x)
    {
      forall x | x in arena
        ensures x in AllocStep(s, order).marked <==> PageBit(x) || SetsBit(Allocate(s.lists, order), order, x)
      {
        AllocBits(s, arena, order, x);
      }
    }

    lemma FreeChanges(p: nat, order: nat)
      requires Valid()
      ensures forall x | x in arena ::
                x in FreeStep(s, p, order).marked
                <==> PageBit(x) && !(order <= MAX_ORDER && s.base <= p <= x < p + Pow2(order))
    {
      forall x | x in arena
        ensures x in FreeStep(s, p, order).marked
                <==> PageBit(x) && !(order <= MAX_ORDER && s.base <= p <= x < p + Pow2(order))
      {
        FreeBits(s, p, order, x);
      }
    }

    lemma AllocInArena(order: nat)
      requires Valid()
      ensures var r := Allocate(s.lists, order);
              r.Taken? ==> r.pfn > 0 && r.pfn in FreePages() && baseAddr / PAGE_SIZE <= r.pfn
    {
      AllocateMeaning(s.lists, FreePages(), order);
      var r := Allocate(s.lists, order);
      if r.Taken? { assert In(r.pfn, Block(r.pfn, order)); }
    }

    /** The search of the merge loop: unlink the page at `buddyAddr` if it is on the list of order `o`. */
    method FindAndUnlink(o: nat, buddyAddr: nat, ghost m: nat) returns (found: bool)
      requires Shape() && o <= MAX_ORDER && buddyAddr == m * PAGE_SIZE
      modifies this`s, nrFree, heads, frames
      ensures Shape() && (found <==> m in old(s.lists)[o])
      ensures s == if found then old(s).(lists := old(s.lists)[o := Without(old(s.lists)[o], m)]) else old(s)
    {
      ghost var l := s.lists[o];
      ghost var nodes := Nodes(frames, l);
      ghost var i := 0;
      assert At(heads[o], nodes, 0).next == At(heads[o], nodes, 1);
      var pos := heads[o].next;
      while pos != heads[o]
        invariant 0 <= i <= |l| && pos == At(heads[o], nodes, i + 1)
        invariant forall j | 0 <= j < i :: l[j] != m
        decreases |l| - i
      {
        assert pos == frames[l[i]];
        if pos.addr == buddyAddr {
          WithoutAt(l, i);
          PopFree(o, i, pos);
          return true;
        }
        assert At(heads[o], nodes, i + 1).next == At(heads[o], nodes, i + 2);
        pos := pos.next;
        i := i + 1;
      }
      return false;
    }

    /** One turn of the merge loop: if the buddy is free, unlink it and step to the lower of the two. */
    method TryMerge(addr: nat, pageIdx: nat, order: nat, ghost p: nat)
      returns (found: bool, addr': nat, pageIdx': nat, ghost q: nat)
      requires Shape() && order < MAX_ORDER && addr == p * PAGE_SIZE && p == s.base + pageIdx
      modifies this`s, nrFree, heads, frames
      ensures Shape() && addr' == q * PAGE_SIZE && q == s.base + pageIdx'
      ensures found <==> BuddyIsFree(old(s.lists), old(s.base), p, order)
      ensures q == if found then Lower(old(s.base), p, order) else p
      ensures s == if found then old(s).(lists := TakeBuddy(old(s.lists), old(s.base), p, order)) else old(s)
    {
      addr', pageIdx' := addr, pageIdx;
      var buddyIdx := FindBuddyPfn(pageIdx, order);
      var buddyAddr := MergeBuddyAddr(baseAddr, pageIdx, order);
      XorPow2(pageIdx, order);
      assert MergeBuddy(s.base, p, order) == s.base + buddyIdx && buddyAddr == (s.base + buddyIdx) * PAGE_SIZE;
      assert addr > buddyAddr <==> p > s.base + buddyIdx;
      found := FindAndUnlink(order, buddyAddr, s.base + buddyIdx);
      if found && addr > buddyAddr {
        addr', pageIdx' := buddyAddr, buddyIdx;
      }
      q := s.base + pageIdx';
    }

    /** The merge loop: absorb free buddies upwards. */
    method MergeLoop(pageAddr: nat, order: nat, ghost p: nat) returns (addr: nat, current: nat, ghost q: nat)
      requires Shape() && order <= MAX_ORDER && s.base <= p && pageAddr == p * PAGE_SIZE
      requires ReleaseSafe(s.lists, s.base, p, order, arena)
      modifies this`s, nrFree, heads, frames
      ensures Shape() && current <= MAX_ORDER && q in arena && NotIn(s.lists, q) && addr == q * PAGE_SIZE
      ensures s == old(s).(lists := s.lists)
      ensures Push(s.lists, current, q) == Release(old(s.lists), old(s.base), p, order)
    {
      ghost var base := s.base;
      var idx: nat := (pageAddr - baseAddr) / PAGE_SIZE;
      addr, current, q := pageAddr, order, p;
      while current < MAX_ORDER
        invariant order <= current <= MAX_ORDER && Shape()
        invariant addr == q * PAGE_SIZE && q == base + idx
        invariant ReleaseSafe(s.lists, base, q, current, arena)
        invariant Release(s.lists, base, q, current) == Release(old(s.lists), base, p, order)
        invariant s == old(s).(lists := s.lists)
      {
        var found;
        found, addr, idx, q := TryMerge(addr, idx, current, q);
        if !found { break; }
        current := current + 1;
      }
    }

    /** Merge the block with its free buddies and list the result. */
    method ReleaseBlock(pageAddr: nat, order: nat, ghost p: nat)
      requires Shape() && order <= MAX_ORDER && s.base <= p && pageAddr == p * PAGE_SIZE
      requires ReleaseSafe(s.lists, s.base, p, order, arena)
      modifies this`s, nrFree, heads, frames
      ensures Shape() && s == old(s).(lists := Release(old(s.lists), s.base, p, order))
    {
      var addr, currentOrder;
      ghost var q;
      addr, currentOrder, q := MergeLoop(pageAddr, order, p);
      PushFree(currentOrder, addr / PAGE_SIZE);
    }

    lemma FreeIsSafe(p: nat, order: nat)
      requires Valid() && Legal(s, Free(p, order)) && !Rejected(s, p, order)
      ensures Pages(Block(p, order)) <= arena
      ensures ReleaseSafe(s.lists, s.base, p, order, arena)
    {
      assert Block(p, order) in LiveBlocks(s.live);
      RemoveLive(s.live, p);
      ReleaseIsSafe(s.lists, FreePages(), s.base, p, order, arena);
    }

    /** The locked part of `pmm_free_pages`. */
    method ReleasePages(pageAddr: nat, order: nat, ghost p: nat)
      requires Shape() && order <= MAX_ORDER && s.base <= p && pageAddr == p * PAGE_SIZE
      requires Pages(Block(p, order)) <= arena && ReleaseSafe(s.lists, s.base, p, order, arena)
      modifies this`s, nrFree, bitmap, heads, frames
      ensures Shape() && s == FreeStep(old(s), p, order)
    {
      UnmarkBlock(pageAddr / PAGE_SIZE, order);
      ReleaseBlock(pageAddr, order, p);
      Forget(p);
    }

    /** The block at `p` is not allocated any more. */
    ghost method Forget(p: nat)
      requires Shape()
      modifies this`s
      ensures Shape() && s == old(s).(live := old(s.live) - {p})
    {
      s := s.(live := s.live - {p});
    }

    /** `pmm_free_pages`. */
    method FreeBlock(pageAddr: nat, order: nat)
      requires Valid()
      requires order > MAX_ORDER || pageAddr < baseAddr
            || (pageAddr % PAGE_SIZE == 0 && pageAddr / PAGE_SIZE in s.live && s.live[pageAddr / PAGE_SIZE] == order)
      modifies this`s, nrFree, bitmap, heads, frames
      ensures Valid() && s == FreeStep(old(s), pageAddr / PAGE_SIZE, order)
      ensures forall x | x in arena ::
                PageBit(x) <==> old(PageBit(x)) && !(order <= MAX_ORDER && pageAddr >= baseAddr
                                                 && pageAddr / PAGE_SIZE <= x < pageAddr / PAGE_SIZE + Pow2(order))
    {
      FreeChanges(pageAddr / PAGE_SIZE, order);
      FreeKeeps(s, arena, pageAddr / PAGE_SIZE, order);
      if order > MAX_ORDER || pageAddr < baseAddr { return; }
      FreeIsSafe(pageAddr / PAGE_SIZE, order);
      ReleasePages(pageAddr, order, pageAddr / PAGE_SIZE);
    }

    method CountFree() returns (free: nat)
      requires Shape()
      ensures free == FreeCount(s.lists, |s.lists|)
    {
      free := 0;
      for i := 0 to MAX_ORDER + 1
        invariant free == FreeCount(s.lists, i)
      {
        assert nrFree[i] == |s.lists[i]|;
        free := free + Pow2(i) * nrFree[i];
      }
    }

    lemma FreeTotal()
      requires Valid()
      ensures FreeCount(s.lists, |s.lists|) == |FreePages()|
      ensures |FreePages()| + |LivePages(s.live)| == |arena| <= totalPages
    {
      FreeCountIsPages(s.lists, FreePages());
      SizeOfRest(arena, LivePages(s.live));
    }

    /** The page totals of `pmm_stats`. */
    method Stats() returns (used: nat, free: nat)
      requires Valid()
      ensures free == |FreePages()|
      ensures used == totalPages - |arena| + |LivePages(s.live)|
    {
      FreeTotal();
      free := CountFree();
      used := totalPages - free;
    }

    /** `pmm_alloc_pages(0)`, said in terms of the free and the live pages. */
    method AllocPage() returns (addr: nat)
      requires Valid()
      modifies this`s, nrFree, bitmap, heads, frames
      ensures Valid()
      ensures addr == 0 <==> old(FreePages()) == {}
      ensures addr == 0 ==> s == old(s)
      ensures addr != 0 ==>
                var p := addr / PAGE_SIZE;
                && addr == p * PAGE_SIZE && p in old(FreePages()) && p !in old(s.live)
                && s.live == old(s.live)[p := 0] && FreePages() == old(FreePages()) - {p}
    {
      TakeByAddress(s, arena);
      addr := AllocPages(0);
    }

    /** `pmm_free_pages(addr, 0)` of a live page. */
    method FreePage(addr: nat)
      requires Valid()
      requires addr % PAGE_SIZE == 0 && addr / PAGE_SIZE in s.live && s.live[addr / PAGE_SIZE] == 0
      modifies this`s, nrFree, bitmap, heads, frames
      ensures Valid()
      ensures s.live == old(s.live) - {addr / PAGE_SIZE}
      ensures FreePages() == old(FreePages()) + {addr / PAGE_SIZE}
    {
      GiveMeaning(s, arena, addr / PAGE_SIZE);
      FreeBlock(addr, 0);
    }
  }
}
