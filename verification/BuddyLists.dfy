/** The free lists as values: one sequence of page frame numbers per order, the
    front of the sequence being the front of the list.  `Allocate` and `Release`
    are what the allocator does to them; the lemmas say what that means. */
module BuddyLists {
  import opened BitArith
  import opened BuddyBlocks

  type Lists = seq<seq<nat>>

  function Blocks(lists: Lists): (bs: set<Block>)
    ensures forall b :: b in bs <==> b.order < |lists| && b.pfn in lists[b.order]
  {
    set o: nat, p: nat | o < |lists| && p in lists[o] :: Block(p, o)
  }

  ghost predicate NoDuplicates(lists: Lists)
  {
    forall o, i, j | 0 <= o < |lists| && 0 <= i < j < |lists[o]| :: lists[o][i] != lists[o][j]
  }

  /** The lists hold exactly the free pages `pages`, disjoint, aligned and fully coalesced. */
  ghost predicate Holds(lists: Lists, pages: set<nat>)
  {
    && |lists| == MAX_ORDER + 1
    && NoDuplicates(lists)
    && Tiling(Blocks(lists), pages)
  }

  // ----- the operations

  datatype Outcome = NoBlock | Taken(lists: Lists, pfn: nat, from: nat)

  function FirstNonEmpty(lists: Lists, order: nat): (k: nat)
    requires |lists| == MAX_ORDER + 1 && order <= MAX_ORDER + 1
    ensures order <= k <= MAX_ORDER + 1
    ensures k <= MAX_ORDER ==> lists[k] != []
    ensures forall j | order <= j < k :: lists[j] == []
    decreases MAX_ORDER + 1 - order
  {
    if order == MAX_ORDER + 1 || lists[order] != [] then order else FirstNonEmpty(lists, order + 1)
  }

  lemma {:induction false} FirstNonEmptyIs(lists: Lists, order: nat, k: nat)
    requires |lists| == MAX_ORDER + 1 && order <= k <= MAX_ORDER + 1
    requires forall j | order <= j < k :: lists[j] == []
    requires k <= MAX_ORDER ==> lists[k] != []
    ensures FirstNonEmpty(lists, order) == k
    decreases k - order
  {
    if order < k { FirstNonEmptyIs(lists, order + 1, k); }
  }

  /** Put block (p, o) at the front of its list. */
  function Push(lists: Lists, o: nat, p: nat): Lists
    requires o < |lists|
  {
    lists[o := [p] + lists[o]]
  }

  /** Halve the block (p, from) until it has order `order`, listing the upper halves. */
  function SplitDown(lists: Lists, p: nat, from: nat, order: nat): (r: Lists)
    requires |lists| == MAX_ORDER + 1 && order <= from <= MAX_ORDER
    ensures |r| == |lists|
    decreases from
  {
    if from == order then lists
    else SplitDown(Push(lists, from - 1, Flip(p, from - 1)), p, from - 1, order)
  }

  /** `marked` with the first pages of the blocks that `SplitDown` lists: the bits a split sets. */
  function SplitMarks(marked: set<nat>, p: nat, from: nat, order: nat): (r: set<nat>)
    requires order <= from
    ensures marked <= r
    decreases from
  {
    if from == order then marked
    else SplitMarks(marked + {Flip(p, from - 1)}, p, from - 1, order)
  }

  function Allocate(lists: Lists, order: nat): Outcome
    requires |lists| == MAX_ORDER + 1
  {
    if order > MAX_ORDER then NoBlock
    else
      var k := FirstNonEmpty(lists, order);
      if k > MAX_ORDER then NoBlock
      else
        var p := lists[k][0];
        Taken(SplitDown(lists[k := lists[k][1..]], p, k, order), p, k)
  }

  /** `s` without the first occurrence of `x`. */
  function Without(s: seq<nat>, x: nat): seq<nat>
  {
    if s == [] then []
    else if s[0] == x then s[1..]
    else [s[0]] + Without(s[1..], x)
  }

  lemma {:induction false} WithoutAt(l: seq<nat>, i: nat)
    requires i < |l| && forall j | 0 <= j < i :: l[j] != l[i]
    ensures Without(l, l[i]) == l[..i] + l[i + 1..]
  {
    if i == 0 {
      assert l[..0] == [];
    } else {
      assert l[1..][i - 1] == l[i] && l[0] != l[i];
      WithoutAt(l[1..], i - 1);
      assert [l[0]] + l[1..][..i - 1] == l[..i];
      assert l[1..][i..] == l[i + 1..];
    }
  }

  /** The buddy as the merge loop computes it: on the page index relative to `base`. */
  function MergeBuddy(base: nat, p: nat, order: nat): (b: nat)
    requires base <= p
    ensures base <= b
  {
    base + Flip(p - base, order)
  }

  predicate BuddyIsFree(lists: Lists, base: nat, p: nat, order: nat)
    requires order < |lists| && base <= p
  {
    MergeBuddy(base, p, order) in lists[order]
  }

  /** The lists without the buddy of (p, order). */
  function TakeBuddy(lists: Lists, base: nat, p: nat, order: nat): (r: Lists)
    requires order < |lists| && base <= p
    ensures |r| == |lists|
  {
    lists[order := Without(lists[order], MergeBuddy(base, p, order))]
  }

  /** The lower of the block at `p` and its buddy. */
  function Lower(base: nat, p: nat, order: nat): (q: nat)
    requires base <= p
    ensures base <= q
  {
    var b := MergeBuddy(base, p, order);
    if p > b then b else p
  }

  function Release(lists: Lists, base: nat, p: nat, order: nat): (r: Lists)
    requires |lists| == MAX_ORDER + 1 && order <= MAX_ORDER && base <= p
    ensures |r| == |lists|
    decreases MAX_ORDER - order
  {
    if order < MAX_ORDER && BuddyIsFree(lists, base, p, order) then
      Release(TakeBuddy(lists, base, p, order), base, Lower(base, p, order), order + 1)
    else Push(lists, order, p)
  }

  // ----- list updates as set updates

  lemma PushBlock(lists: Lists, o: nat, p: nat)
    requires NoDuplicates(lists) && o < |lists| && p !in lists[o]
    ensures NoDuplicates(Push(lists, o, p))
    ensures Blocks(Push(lists, o, p)) == Blocks(lists) + {Block(p, o)}
  {
  }

  lemma PopBlock(lists: Lists, o: nat)
    requires NoDuplicates(lists) && o < |lists| && lists[o] != []
    ensures NoDuplicates(lists[o := lists[o][1..]])
    ensures Blocks(lists[o := lists[o][1..]]) == Blocks(lists) - {Block(lists[o][0], o)}
  {
    var l := lists[o];
    assert l == [l[0]] + l[1..];
    assert forall p :: p in l <==> p == l[0] || p in l[1..];
    assert l[0] !in l[1..];
  }

  lemma {:induction false} WithoutProps(s: seq<nat>, x: nat)
    requires forall i, j | 0 <= i < j < |s| :: s[i] != s[j]
    ensures forall i, j | 0 <= i < j < |Without(s, x)| :: Without(s, x)[i] != Without(s, x)[j]
    ensures forall y :: y in Without(s, x) <==> y in s && y != x
    ensures |Without(s, x)| == if x in s then |s| - 1 else |s|
  {
    if s != [] {
      assert s == [s[0]] + s[1..];
      assert s[0] !in s[1..];
      WithoutProps(s[1..], x);
    }
  }

  lemma WithoutBlock(lists: Lists, o: nat, p: nat)
    requires NoDuplicates(lists) && o < |lists| && p in lists[o]
    ensures NoDuplicates(lists[o := Without(lists[o], p)])
    ensures Blocks(lists[o := Without(lists[o], p)]) == Blocks(lists) - {Block(p, o)}
  {
    WithoutProps(lists[o], p);
  }

  // ----- allocation

  /** Halving a block that is in hand: list its upper half and keep the lower one. */
  lemma SplitOnce(lists: Lists, pages: set<nat>, b: Block)
    requires Holds(lists, pages) && WellPlaced(b) && b.order > 0 && Pages(b) !! pages
    ensures var l, r := Block(b.pfn, b.order - 1), Block(Flip(b.pfn, b.order - 1), b.order - 1);
            && WellPlaced(l) && WellPlaced(r)
            && Holds(Push(lists, r.order, r.pfn), pages + Pages(r))
            && Pages(l) !! pages + Pages(r) && Pages(l) + Pages(r) == Pages(b)
  {
    var l, r := Halves(b);
    assert Buddy(l) == r;
    assert l !in Blocks(lists);
    AddBlock(Blocks(lists), pages, r);
    PushBlock(lists, r.order, r.pfn);
  }

  /** With the upper half free, what is free beside `part` is what was free and the block without it. */
  lemma SplitPages(pages: set<nat>, block: set<nat>, lower: set<nat>, upper: set<nat>, part: set<nat>)
    requires lower + upper == block && part <= lower && lower !! pages + upper
    ensures pages + upper + (lower - part) == pages + (block - part)
  {
  }

  lemma {:induction false} SplitHolds(lists: Lists, pages: set<nat>, p: nat, from: nat, order: nat)
    requires Holds(lists, pages) && order <= from
    requires WellPlaced(Block(p, from)) && Pages(Block(p, from)) !! pages
    ensures Pages(Block(p, order)) <= Pages(Block(p, from))
    ensures Holds(SplitDown(lists, p, from, order),
                  pages + (Pages(Block(p, from)) - Pages(Block(p, order))))
    decreases from - order
  {
    if from == order {
      assert pages + (Pages(Block(p, from)) - Pages(Block(p, order))) == pages;
    } else {
      var l, r := Block(p, from - 1), Block(Flip(p, from - 1), from - 1);
      SplitOnce(lists, pages, Block(p, from));
      SplitHolds(Push(lists, from - 1, r.pfn), pages + Pages(r), p, from - 1, order);
      SplitPages(pages, Pages(Block(p, from)), Pages(l), Pages(r), Pages(Block(p, order)));
    }
  }

  /** Allocation fails exactly when no aligned run of 2^order free pages exists.
      Otherwise it takes the start of a block of the smallest sufficient order
      and leaves the remaining free pages fully coalesced. */
  lemma AllocateMeaning(lists: Lists, pages: set<nat>, order: nat)
    requires Holds(lists, pages)
    ensures Allocate(lists, order) == NoBlock
       <==> order > MAX_ORDER || !(exists p: nat :: Aligned(p, order) && Pages(Block(p, order)) <= pages)
    ensures var r := Allocate(lists, order); r.Taken? ==>
              && order <= r.from && Block(r.pfn, r.from) in Blocks(lists)
              && (forall c | c in Blocks(lists) && c.order >= order :: c.order >= r.from)
              && WellPlaced(Block(r.pfn, order))
              && Pages(Block(r.pfn, order)) <= pages
              && Holds(r.lists, pages - Pages(Block(r.pfn, order)))
  {
    if order <= MAX_ORDER {
      LargeEnough(Blocks(lists), pages, order);
      var k := FirstNonEmpty(lists, order);
      assert forall c | c in Blocks(lists) && c.order >= order :: c.order >= k;
      if k <= MAX_ORDER {
        var p := lists[k][0];
        var b := Block(p, k);
        assert b in Blocks(lists);
        RemoveBlock(Blocks(lists), pages, b);
        PopBlock(lists, k);
        SplitHolds(lists[k := lists[k][1..]], pages - Pages(b), p, k, order);
        AlignedDown(p, order, k);
        assert pages - Pages(b) + (Pages(b) - Pages(Block(p, order))) == pages - Pages(Block(p, order));
      }
    }
  }

  // ----- release

  lemma BaseBuddy(base: nat, b: Block)
    requires Aligned(base, MAX_ORDER) && base <= b.pfn && b.order < MAX_ORDER
    ensures Buddy(b) == Block(MergeBuddy(base, b.pfn, b.order), b.order)
  {
    AlignedDown(base, b.order + 1, MAX_ORDER);
    FlipAlignedBase(base, b.pfn - base, b.order);
  }

  /** Merging with a free buddy: take it off its list and go on with the parent. */
  lemma MergeOnce(lists: Lists, pages: set<nat>, b: Block)
    requires Holds(lists, pages) && WellPlaced(b) && b.order < MAX_ORDER
    requires Pages(b) !! pages && Buddy(b) in Blocks(lists)
    ensures var rest := pages - Pages(Buddy(b));
            && Holds(lists[b.order := Without(lists[b.order], Buddy(b).pfn)], rest)
            && WellPlaced(Parent(b)) && Pages(Parent(b)) !! rest
            && rest + Pages(Parent(b)) == pages + Pages(b)
  {
    BlockGeometry(b);
    RemoveBlock(Blocks(lists), pages, Buddy(b));
    WithoutBlock(lists, b.order, Buddy(b).pfn);
  }

  /** Releasing a block of pages that are not free makes exactly those pages free
      and leaves the lists fully coalesced.  The base must be 8 MiB aligned (2^11 pages). */
  lemma {:induction false} ReleaseMeaning(lists: Lists, pages: set<nat>, base: nat, p: nat, order: nat)
    requires Holds(lists, pages) && Aligned(base, MAX_ORDER) && base <= p
    requires WellPlaced(Block(p, order)) && Pages(Block(p, order)) !! pages
    ensures Holds(Release(lists, base, p, order), pages + Pages(Block(p, order)))
    decreases MAX_ORDER - order
  {
    var b := Block(p, order);
    if order < MAX_ORDER { BaseBuddy(base, b); }
    if order < MAX_ORDER && BuddyIsFree(lists, base, p, order) {
      MergeOnce(lists, pages, b);
      ReleaseMeaning(TakeBuddy(lists, base, p, order), pages - Pages(Buddy(b)), base, Parent(b).pfn, order + 1);
    } else {
      assert In(p, b);
      AddBlock(Blocks(lists), pages, b);
      PushBlock(lists, order, p);
    }
  }

  /** Halving a block and releasing the part that is left merges the halves, list by list. */
  lemma {:induction false} SplitRelease(lists: Lists, base: nat, p: nat, from: nat, order: nat)
    requires |lists| == MAX_ORDER + 1 && order <= from && WellPlaced(Block(p, from))
    requires Aligned(base, MAX_ORDER) && base <= p
    requires forall k | order <= k < from :: lists[k] == []
    ensures Release(SplitDown(lists, p, from, order), base, p, order) == Release(lists, base, p, from)
    decreases from
  {
    if order < from {
      var l, r := Halves(Block(p, from));
      var pushed := Push(lists, from - 1, r.pfn);
      BaseBuddy(base, l);
      SplitRelease(pushed, base, p, from - 1, order);
      assert pushed[from - 1] == [r.pfn];
      assert TakeBuddy(pushed, base, p, from - 1) == lists;
    }
  }

  /** Allocate then release: every list is as before, block by block and in the same order. */
  lemma AllocateRelease(lists: Lists, pages: set<nat>, base: nat, order: nat)
    requires Holds(lists, pages) && Aligned(base, MAX_ORDER) && (forall x | x in pages :: base <= x)
    ensures var r := Allocate(lists, order); r.Taken? ==>
              && base <= r.pfn
              && Release(r.lists, base, r.pfn, order) == lists
  {
    AllocateMeaning(lists, pages, order);
    var r := Allocate(lists, order);
    if r.Taken? {
      var p, k := r.pfn, r.from;
      var rest := lists[k := lists[k][1..]];
      assert In(p, Block(p, order)) && Block(p, k) in Blocks(lists);
      SplitRelease(rest, base, p, k, order);
      if k < MAX_ORDER {
        BaseBuddy(base, Block(p, k));
        assert Buddy(Block(p, k)) !in Blocks(lists);
      }
      assert lists[k] == [p] + rest[k];
      assert Push(rest, k, p) == lists;
    }
  }

  // ----- page accounting

  /** sum of |lists[i]| * 2^i for i < n: the free-page total of the statistics report */
  function FreeCount(lists: Lists, n: nat): nat
    requires n <= |lists|
  {
    if n == 0 then 0 else FreeCount(lists, n - 1) + Pow2(n - 1) * |lists[n - 1]|
  }

  lemma {:induction false} RangeSize(s: set<nat>, lo: nat, n: nat)
    requires forall x :: x in s <==> lo <= x < lo + n
    ensures |s| == n
  {
    if n == 0 {
      assert s == {};
    } else {
      RangeSize(s - {lo + n - 1}, lo, n - 1);
      assert lo + n - 1 in s;
    }
  }

  lemma BlockSize(b: Block)
    ensures |Pages(b)| == Pow2(b.order)
  {
    RangeSize(Pages(b), b.pfn, Pow2(b.order));
  }

  lemma {:induction false} CountPop(lists: Lists, o: nat, n: nat)
    requires o < |lists| && lists[o] != [] && n <= |lists|
    ensures FreeCount(lists, n)
         == FreeCount(lists[o := lists[o][1..]], n) + (if o < n then Pow2(o) else 0)
  {
    if n > 0 {
      CountPop(lists, o, n - 1);
      Distribute(Pow2(o), |lists[o]|, 1);
    }
  }

  lemma SizeMinus(pages: set<nat>, b: Block)
    requires Pages(b) <= pages
    ensures |pages - Pages(b)| + Pow2(b.order) == |pages|
  {
    BlockSize(b);
    assert pages == (pages - Pages(b)) + Pages(b);
  }

  /** The total computed from the list lengths is the number of free pages. */
  lemma {:induction false} FreeCountIsPages(lists: Lists, pages: set<nat>)
    requires Holds(lists, pages)
    ensures FreeCount(lists, |lists|) == |pages|
    decreases |pages|
  {
    if o: nat :| o < |lists| && lists[o] != [] {
      var b := Block(lists[o][0], o);
      assert b in Blocks(lists);
      RemoveBlock(Blocks(lists), pages, b);
      PopBlock(lists, o);
      SizeMinus(pages, b);
      CountPop(lists, o, |lists|);
      FreeCountIsPages(lists[o := lists[o][1..]], pages - Pages(b));
    } else {
      assert pages == {};
      EmptyCount(lists, |lists|);
    }
  }

  lemma {:induction false} EmptyCount(lists: Lists, n: nat)
    requires n <= |lists| && forall o | 0 <= o < |lists| :: lists[o] == []
    ensures FreeCount(lists, n) == 0
  {
    if n > 0 { EmptyCount(lists, n - 1); }
  }
}
