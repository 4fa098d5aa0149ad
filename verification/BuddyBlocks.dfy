/** Sets of aligned power-of-two blocks of pages: what the free lists of the
    page allocator hold, seen as a set.  The main result is that a fully
    coalesced tiling of a set of pages is unique. */
module BuddyBlocks {
  import opened BitArith

  const MAX_ORDER: nat := 11
  const MAX_BLOCK_PAGES: nat := 2048

  lemma MaxBlock()
    ensures Pow2(MAX_ORDER) == MAX_BLOCK_PAGES
  {
    assert Pow2(5) == 32;
    assert Pow2(10) == 1024;
  }

  /** 2^order pages starting at page frame number `pfn`. */
  datatype Block = Block(pfn: nat, order: nat)

  predicate In(x: nat, b: Block)
  {
    b.pfn <= x < b.pfn + Pow2(b.order)
  }

  function Pages(b: Block): (s: set<nat>)
    ensures forall x :: x in s <==> In(x, b)
  {
    set x: nat | b.pfn <= x < b.pfn + Pow2(b.order) && In(x, b)
  }

  predicate WellPlaced(b: Block)
  {
    b.order <= MAX_ORDER && Aligned(b.pfn, b.order)
  }

  function Buddy(b: Block): Block
  {
    Block(Flip(b.pfn, b.order), b.order)
  }

  /** The block of the next order that `b` and its buddy make up. */
  function Parent(b: Block): Block
  {
    Block(if b.pfn <= Flip(b.pfn, b.order) then b.pfn else Flip(b.pfn, b.order), b.order + 1)
  }

  predicate Overlap(a: Block, b: Block)
  {
    a.pfn < b.pfn + Pow2(b.order) && b.pfn < a.pfn + Pow2(a.order)
  }

  predicate Inside(a: Block, b: Block)
  {
    b.pfn <= a.pfn && a.pfn + Pow2(a.order) <= b.pfn + Pow2(b.order)
  }

  ghost predicate PairwiseDisjoint(bs: set<Block>)
  {
    forall a, b | a in bs && b in bs && Overlap(a, b) :: a == b
  }

  ghost predicate Covers(bs: set<Block>, pages: set<nat>)
  {
    && (forall b, x | b in bs && In(x, b) :: x in pages)
    && (forall x | x in pages :: exists b :: b in bs && In(x, b))
  }

  ghost predicate Coalesced(bs: set<Block>)
  {
    forall b | b in bs && b.order < MAX_ORDER :: Buddy(b) !in bs
  }

  /** `free` holds exactly the pages `pages`, in disjoint aligned blocks, no two of them mergeable. */
  ghost predicate Tiling(free: set<Block>, pages: set<nat>)
  {
    && (forall b | b in free :: WellPlaced(b))
    && PairwiseDisjoint(free)
    && Covers(free, pages)
    && Coalesced(free)
  }

  /** A block lying wholly in `pages` whose parent does not (or that has the largest order). */
  ghost predicate Maximal(b: Block, pages: set<nat>)
  {
    && WellPlaced(b)
    && Pages(b) <= pages
    && (b.order < MAX_ORDER ==> !(Pages(Parent(b)) <= pages))
  }

  // ----- geometry

  lemma BlockGeometry(b: Block)
    requires WellPlaced(b)
    ensures Buddy(b) != b && Buddy(Buddy(b)) == b
    ensures WellPlaced(Buddy(b))
    ensures !Overlap(b, Buddy(b))
    ensures Aligned(Parent(b).pfn, Parent(b).order)
    ensures Parent(Buddy(b)) == Parent(b)
    ensures Inside(b, Parent(b))
    ensures Pages(Parent(b)) == Pages(b) + Pages(Buddy(b))
  {
    FlipAligned(b.pfn, b.order);
    assert Pow2(b.order + 1) == 2 * Pow2(b.order);
  }

  lemma Nested(a: Block, b: Block)
    requires WellPlaced(a) && WellPlaced(b) && a.order <= b.order && Overlap(a, b)
    ensures Inside(a, b) && Pages(a) <= Pages(b)
    ensures a.order == b.order ==> a == b
    ensures a.order < b.order ==> Pages(Parent(a)) <= Pages(b)
  {
    Laminar(a.pfn, a.order, b.pfn, b.order);
    if a.order < b.order {
      BlockGeometry(a);
      var p := Parent(a);
      Laminar(p.pfn, p.order, b.pfn, b.order);
    }
  }

  lemma CommonPage(a: Block, b: Block) returns (x: nat)
    requires Overlap(a, b)
    ensures In(x, a) && In(x, b)
  {
    x := if a.pfn <= b.pfn then b.pfn else a.pfn;
  }

  // ----- adding and removing one block

  lemma AddBlock(free: set<Block>, pages: set<nat>, b: Block)
    requires Tiling(free, pages) && WellPlaced(b) && Pages(b) !! pages
    requires b.order < MAX_ORDER ==> Buddy(b) !in free
    ensures Tiling(free + {b}, pages + Pages(b))
    ensures b !in free
  {
    var free', pages' := free + {b}, pages + Pages(b);
    assert In(b.pfn, b);
    forall c | c in free && Overlap(b, c)
      ensures false
    {
      var x := CommonPage(b, c);
    }
    forall x | x in pages'
      ensures exists c :: c in free' && In(x, c)
    {
      if x in pages {
        var c :| c in free && In(x, c);
        assert c in free';
      } else {
        assert b in free' && In(x, b);
      }
    }
    forall c | c in free' && c.order < MAX_ORDER
      ensures Buddy(c) !in free'
    {
      BlockGeometry(c);
      BlockGeometry(b);
    }
  }

  lemma RemoveBlock(free: set<Block>, pages: set<nat>, b: Block)
    requires Tiling(free, pages) && b in free
    ensures Tiling(free - {b}, pages - Pages(b))
    ensures Pages(b) <= pages
  {
    var free', pages' := free - {b}, pages - Pages(b);
    forall c, x | c in free' && In(x, c)
      ensures x in pages'
    {
      assert In(x, b) ==> Overlap(b, c);
    }
    forall x | x in pages'
      ensures exists c :: c in free' && In(x, c)
    {
      var c :| c in free && In(x, c);
      assert c != b;
    }
  }

  // ----- the canonical form

  /** Every aligned block of wholly free pages lies inside one listed block. */
  lemma {:induction false} Contained(free: set<Block>, pages: set<nat>, b: Block) returns (c: Block)
    requires Tiling(free, pages) && WellPlaced(b) && Pages(b) <= pages
    ensures c in free && b.order <= c.order && Inside(b, c)
    decreases b.order
  {
    if b.order == 0 {
      assert In(b.pfn, b);
      c :| c in free && In(b.pfn, c);
      assert Pow2(c.order) >= 1;
    } else {
      var l, r := Halves(b);
      c := Contained(free, pages, l);
      if c.order >= b.order {
        assert In(l.pfn, c) && In(l.pfn, b);
        Nested(b, c);
      } else {
        Nested(l, c);
        c := Contained(free, pages, r);
        if c.order < b.order {
          Nested(r, c);
          assert false;
        }
        assert In(r.pfn, c) && In(r.pfn, b);
        Nested(b, c);
      }
    }
  }

  lemma Halves(b: Block) returns (l: Block, r: Block)
    requires WellPlaced(b) && b.order > 0
    ensures l == Block(b.pfn, b.order - 1) && r == Block(b.pfn + Pow2(b.order - 1), b.order - 1)
    ensures WellPlaced(l) && WellPlaced(r) && Buddy(l) == r && Buddy(r) == l
    ensures Pages(l) + Pages(r) == Pages(b) && Pages(l) !! Pages(r)
    ensures In(l.pfn, l) && In(r.pfn, r)
  {
    l, r := Block(b.pfn, b.order - 1), Block(b.pfn + Pow2(b.order - 1), b.order - 1);
    AlignedDown(b.pfn, b.order - 1, b.order);
    FlipAligned(b.pfn, b.order - 1);
    BlockGeometry(l);
    assert Parent(l) == b;
  }

  /** The free lists, as sets, are exactly the maximal aligned blocks of free pages. */
  lemma CanonicalForm(free: set<Block>, pages: set<nat>)
    requires Tiling(free, pages)
    ensures forall b :: b in free <==> Maximal(b, pages)
  {
    forall b
      ensures b in free <==> Maximal(b, pages)
    {
      if b in free {
        ListedIsMaximal(free, pages, b);
      } else if Maximal(b, pages) {
        var c := Contained(free, pages, b);
        assert In(b.pfn, b) && In(b.pfn, c);
        assert forall x | x in Pages(c) :: In(x, c);
        Nested(b, c);
      }
    }
  }

  lemma ListedIsMaximal(free: set<Block>, pages: set<nat>, b: Block)
    requires Tiling(free, pages) && b in free
    ensures Maximal(b, pages)
  {
    assert forall x | x in Pages(b) :: In(x, b);
    if b.order < MAX_ORDER && Pages(Parent(b)) <= pages {
      BlockGeometry(b);
      var c := Contained(free, pages, Parent(b));
    }
  }

  /** History independence: a set of free pages has only one coalesced tiling. */
  lemma TilingUnique(free: set<Block>, free': set<Block>, pages: set<nat>)
    requires Tiling(free, pages) && Tiling(free', pages)
    ensures free == free'
  {
    CanonicalForm(free, pages);
    CanonicalForm(free', pages);
  }

  /** The listed blocks determine the free pages. */
  lemma CoversUnique(free: set<Block>, pages: set<nat>, pages': set<nat>)
    ensures Covers(free, pages) && Covers(free, pages') ==> pages == pages'
  {
    if Covers(free, pages) && Covers(free, pages') {
      assert forall x :: x in pages <==> x in pages';
    }
  }

  /** Some listed block has order at least `order` exactly when some aligned run of 2^order pages is free. */
  lemma LargeEnough(free: set<Block>, pages: set<nat>, order: nat)
    requires Tiling(free, pages) && order <= MAX_ORDER
    ensures (exists c :: c in free && c.order >= order)
       <==> (exists p: nat :: Aligned(p, order) && Pages(Block(p, order)) <= pages)
  {
    if c :| c in free && c.order >= order {
      AlignedDown(c.pfn, order, c.order);
      AlignedPow2(order, c.order);
      var b := Block(c.pfn, order);
      forall x | x in Pages(b)
        ensures x in pages
      {
        assert In(x, c);
      }
      assert Aligned(c.pfn, order) && Pages(Block(c.pfn, order)) <= pages;
    }
    if p: nat :| Aligned(p, order) && Pages(Block(p, order)) <= pages {
      var c := Contained(free, pages, Block(p, order));
    }
  }
}
