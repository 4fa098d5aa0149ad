/** The kernel heap as a value: the chain of blocks that tile its region, in
    address order, and what allocation and release do to the chain. */
module HeapChain {

  const HEADER: nat := 16           // sizeof(struct kmalloc_header) on i386
  const MIN_SIZE: nat := 16         // KMALLOC_MIN_SIZE
  const MAX_SIZE: nat := 0x40_0000  // KMALLOC_MAX_SIZE
  const REGION: nat := 0x10_0000    // the 256 pages of the initial heap

  /** A block with its header: `size` counts both. */
  datatype Blk = Blk(addr: nat, size: nat, free: bool)

  type Chain = seq<Blk>

  function End(b: Blk): nat
  {
    b.addr + b.size
  }

  /** Block `i` ends where the next one starts. */
  predicate Meets(c: Chain, i: nat)
    requires i + 1 < |c|
  {
    c[i + 1].addr == End(c[i])
  }

  /** Block `i` and the next one are not both free. */
  predicate Apart(c: Chain, i: nat)
    requires i + 1 < |c|
  {
    !(c[i].free && c[i + 1].free)
  }

  /** The blocks lie end to end from `lo` to `hi`. */
  ghost predicate Tiles(c: Chain, lo: nat, hi: nat)
  {
    && |c| > 0 && c[0].addr == lo && End(c[|c| - 1]) == hi
    && (forall i | 0 <= i < |c| - 1 :: Meets(c, i))
  }

  ghost predicate GoodSizes(c: Chain)
  {
    forall i | 0 <= i < |c| :: c[i].size % 8 == 0 && c[i].size >= HEADER + 8
  }

  ghost predicate Coalesced(c: Chain)
  {
    forall i | 0 <= i < |c| - 1 :: Apart(c, i)
  }

  ghost predicate WellFormed(c: Chain, start: nat)
  {
    && Tiles(c, start, start + REGION)
    && GoodSizes(c)
    && Coalesced(c)
  }

  lemma {:induction false} Ordered(c: Chain, lo: nat, hi: nat, i: nat, j: nat)
    requires Tiles(c, lo, hi) && GoodSizes(c) && i < j < |c|
    ensures End(c[i]) <= c[j].addr
    decreases j - i
  {
    assert Meets(c, j - 1);
    if i + 1 < j { Ordered(c, lo, hi, i, j - 1); }
  }

  lemma {:induction false} InRegion(c: Chain, lo: nat, hi: nat, i: nat)
    requires Tiles(c, lo, hi) && GoodSizes(c) && i < |c|
    ensures lo <= c[i].addr && End(c[i]) <= hi
  {
    if 0 < i { Ordered(c, lo, hi, 0, i); }
    if i < |c| - 1 { Ordered(c, lo, hi, i, |c| - 1); }
  }

  /** Every address of the region lies in a block. */
  lemma {:induction false} Locate(c: Chain, lo: nat, hi: nat, x: nat) returns (i: nat)
    requires Tiles(c, lo, hi) && lo <= x < hi
    ensures i < |c| && c[i].addr <= x < End(c[i])
  {
    i := 0;
    while x >= End(c[i])
      invariant i < |c| && c[i].addr <= x
      decreases |c| - i
    {
      assert i + 1 < |c| ==> Meets(c, i);
      i := i + 1;
    }
  }

  // ----- kmalloc

  /** Bytes a request takes: payload and header, rounded up to a multiple of 8. */
  function Need(size: nat): (n: nat)
    ensures n % 8 == 0 && size + HEADER <= n < size + HEADER + 8
  {
    (size + HEADER + 7) / 8 * 8
  }

  predicate Fits(b: Blk, need: nat)
  {
    b.free && b.size >= need
  }

  /** The search loop of kmalloc after `n` blocks: the first smallest block that fits, or -1. */
  function BestFit(c: Chain, need: nat, n: nat): (r: int)
    requires n <= |c|
    ensures -1 <= r < n
    ensures r >= 0 ==> Fits(c[r], need)
  {
    if n == 0 then -1
    else
      var r := BestFit(c, need, n - 1);
      if Fits(c[n - 1], need) && (r == -1 || c[n - 1].size < c[r].size) then n - 1 else r
  }

  lemma {:induction false} BestFitMeaning(c: Chain, need: nat, n: nat)
    requires n <= |c|
    ensures var r := BestFit(c, need, n);
            && (r == -1 <==> forall j | 0 <= j < n :: !Fits(c[j], need))
            && (r >= 0 ==> forall j | 0 <= j < n && Fits(c[j], need) :: c[r].size <= c[j].size)
            && (r >= 0 ==> forall j | 0 <= j < r && Fits(c[j], need) :: c[r].size < c[j].size)
  {
    if n > 0 { BestFitMeaning(c, need, n - 1); }
  }

  /** Cut block `i` in two when the rest can hold a header and a minimal payload. */
  function Carve(c: Chain, i: nat, need: nat): (d: Chain)
    requires i < |c| && c[i].size >= need
    ensures i < |d| && d[i].addr == c[i].addr
  {
    if c[i].size >= need + HEADER + MIN_SIZE then
      c[..i] + [Blk(c[i].addr, need, c[i].free), Blk(c[i].addr + need, c[i].size - need, true)] + c[i + 1..]
    else c
  }

  /** Take block `i` into use, cut to `need` bytes if possible. */
  function Take(c: Chain, i: nat, need: nat): (d: Chain)
    requires i < |c| && c[i].size >= need
    ensures i < |d| && d[i].addr == c[i].addr && !d[i].free
  {
    var d := Carve(c, i, need);
    d[i := d[i].(free := false)]
  }

  lemma CarveAt(c: Chain, i: nat, need: nat)
    requires i < |c| && c[i].size >= need + HEADER + MIN_SIZE
    ensures var d := Carve(c, i, need);
            && |d| == |c| + 1
            && (forall j | 0 <= j < i :: d[j] == c[j])
            && d[i] == Blk(c[i].addr, need, c[i].free)
            && d[i + 1] == Blk(c[i].addr + need, c[i].size - need, true)
            && (forall j | i + 1 < j < |d| :: d[j] == c[j - 1])
  {
  }

  /** The blocks of the chain after `Take`. */
  lemma TakeAt(c: Chain, i: nat, need: nat)
    requires i < |c| && c[i].size >= need
    ensures var d := Take(c, i, need);
            && (forall j | 0 <= j < i :: d[j] == c[j])
            && if c[i].size >= need + HEADER + MIN_SIZE then
                 && |d| == |c| + 1 && d[i] == Blk(c[i].addr, need, false)
                 && d[i + 1] == Blk(c[i].addr + need, c[i].size - need, true)
                 && (forall j | i + 1 < j < |d| :: d[j] == c[j - 1])
               else d == c[i := c[i].(free := false)]
  {
    if c[i].size >= need + HEADER + MIN_SIZE { CarveAt(c, i, need); }
  }

  // ----- kfree

  /** Merge block `i` with the one after it. */
  function Join(c: Chain, i: nat): Chain
    requires i + 1 < |c|
  {
    c[..i] + [Blk(c[i].addr, c[i].size + c[i + 1].size, c[i].free)] + c[i + 2..]
  }

  function JoinNext(c: Chain, i: nat): (r: Chain)
    requires i < |c|
    ensures i < |r|
  {
    if i + 1 < |c| && c[i + 1].free then Join(c, i) else c
  }

  function JoinPrev(c: Chain, i: nat): Chain
    requires i < |c|
  {
    if i > 0 && c[i - 1].free then Join(c, i - 1) else c
  }

  /** Free block `i`: merge it with its next neighbour, then with its previous one, if they are free. */
  function Give(c: Chain, i: nat): Chain
    requires i < |c|
  {
    JoinPrev(JoinNext(c[i := c[i].(free := true)], i), i)
  }

  // ----- the operations keep the chain well formed

  lemma CarveKeeps(c: Chain, start: nat, i: nat, need: nat)
    requires WellFormed(c, start) && i < |c| && Fits(c[i], need)
    requires need % 8 == 0 && need >= HEADER + 8
    ensures var d := Carve(c, i, need);
            && Tiles(d, start, start + REGION) && GoodSizes(d)
            && (forall j | 0 <= j < |d| - 1 && j != i :: Apart(d, j))
  {
    if c[i].size >= need + HEADER + MIN_SIZE {
      CarveAt(c, i, need);
      var d := Carve(c, i, need);
      forall j | 0 <= j < |d|
        ensures d[j].size % 8 == 0 && d[j].size >= HEADER + 8
      {
        if j > i + 1 { assert d[j] == c[j - 1]; } else if j < i { assert d[j] == c[j]; }
      }
      forall j | 0 <= j < |d| - 1
        ensures Meets(d, j)
        ensures j != i ==> Apart(d, j)
      {
        if j < i {
          assert d[j] == c[j] && Meets(c, j) && Apart(c, j);
        } else if j > i {
          assert d[j + 1] == c[j] && Meets(c, j - 1) && Apart(c, j - 1);
        }
      }
    }
  }

  lemma TakeKeeps(c: Chain, start: nat, i: nat, need: nat)
    requires WellFormed(c, start) && i < |c| && Fits(c[i], need)
    requires need % 8 == 0 && need >= HEADER + 8
    ensures WellFormed(Take(c, i, need), start)
  {
    CarveKeeps(c, start, i, need);
    FlagKeeps(Carve(c, i, need), start, i, false);
    var d, e := Carve(c, i, need), Take(c, i, need);
    forall j | 0 <= j < |e| - 1
      ensures Apart(e, j)
    {
      if j != i { assert Apart(d, j); }
    }
  }

  /** Changing the flag of a block keeps the tiling. */
  lemma FlagKeeps(c: Chain, start: nat, i: nat, free: bool)
    requires Tiles(c, start, start + REGION) && GoodSizes(c) && i < |c|
    ensures var d := c[i := c[i].(free := free)];
            Tiles(d, start, start + REGION) && GoodSizes(d)
  {
    var d := c[i := c[i].(free := free)];
    forall j | 0 <= j < |d| - 1
      ensures Meets(d, j)
    {
      assert Meets(c, j);
    }
  }

  lemma JoinKeeps(c: Chain, start: nat, i: nat)
    requires Tiles(c, start, start + REGION) && GoodSizes(c) && i + 1 < |c|
    ensures Tiles(Join(c, i), start, start + REGION) && GoodSizes(Join(c, i))
  {
    JoinAt(c, i);
    var d := Join(c, i);
    assert Meets(c, i);
    forall j | 0 <= j < |d| - 1
      ensures Meets(d, j)
    {
      if j < i { assert Meets(c, j); } else { assert Meets(c, j + 1); }
    }
  }

  lemma JoinAt(c: Chain, i: nat)
    requires i + 1 < |c|
    ensures |Join(c, i)| == |c| - 1
    ensures forall j | 0 <= j < i :: Join(c, i)[j] == c[j]
    ensures Join(c, i)[i] == Blk(c[i].addr, c[i].size + c[i + 1].size, c[i].free)
    ensures forall j | i < j < |c| - 1 :: Join(c, i)[j] == c[j + 1]
  {
  }

  /** Coalesced, except perhaps between blocks `i` and `i + 1` for `lo <= i < hi`. */
  ghost predicate CoalescedBut(c: Chain, lo: int, hi: int)
  {
    forall i | 0 <= i < |c| - 1 && !(lo <= i < hi) :: Apart(c, i)
  }

  lemma JoinNextKeeps(c: Chain, start: nat, i: nat)
    requires Tiles(c, start, start + REGION) && GoodSizes(c) && i < |c|
    requires CoalescedBut(c, i - 1, i + 1) && c[i].free
    ensures var d := JoinNext(c, i);
            Tiles(d, start, start + REGION) && GoodSizes(d) && CoalescedBut(d, i - 1, i) && d[i].free
  {
    if i + 1 < |c| && c[i + 1].free {
      JoinKeeps(c, start, i);
      JoinAt(c, i);
      JoinApart(c, i);
    } else if i + 1 < |c| {
      assert Apart(c, i);
    }
  }

  lemma JoinApart(c: Chain, i: nat)
    requires i + 1 < |c| && c[i + 1].free && CoalescedBut(c, i - 1, i + 1)
    ensures CoalescedBut(Join(c, i), i - 1, i)
  {
    JoinAt(c, i);
    var d := Join(c, i);
    forall j | 0 <= j < |d| - 1 && j != i - 1
      ensures Apart(d, j)
    {
      if j < i { assert Apart(c, j); } else { assert Apart(c, j + 1); }
    }
  }

  lemma JoinPrevKeeps(c: Chain, start: nat, i: nat)
    requires Tiles(c, start, start + REGION) && GoodSizes(c) && i < |c|
    requires CoalescedBut(c, i - 1, i) && c[i].free
    ensures WellFormed(JoinPrev(c, i), start)
  {
    var d := JoinPrev(c, i);
    if i > 0 && c[i - 1].free {
      JoinKeeps(c, start, i - 1);
      JoinAt(c, i - 1);
    }
    forall j | 0 <= j < |d| - 1
      ensures Apart(d, j)
    {
      if i > 0 && c[i - 1].free {
        if j < i - 1 { assert Apart(c, j); } else { assert Apart(c, j + 1); }
      } else if j != i - 1 {
        assert Apart(c, j);
      }
    }
  }

  lemma GiveKeeps(c: Chain, start: nat, i: nat)
    requires WellFormed(c, start) && i < |c|
    ensures WellFormed(Give(c, i), start)
  {
    var c1 := c[i := c[i].(free := true)];
    forall j | 0 <= j < |c1| - 1 && !(i - 1 <= j < i + 1)
      ensures Apart(c1, j)
    {
      assert Apart(c, j);
    }
    FlagKeeps(c, start, i, true);
    JoinNextKeeps(c1, start, i);
    JoinPrevKeeps(JoinNext(c1, i), start, i);
  }

  // ----- used blocks determine the chain

  function Used(c: Chain): (s: set<Blk>)
    ensures forall b :: b in s <==> !b.free && b in c
  {
    set b | b in c && !b.free
  }

  /** Two well-formed chains from the same address with the same used blocks agree block by block. */
  lemma {:induction false} AgreeUpTo(c: Chain, d: Chain, start: nat, n: nat)
    requires WellFormed(c, start) && WellFormed(d, start) && Used(c) == Used(d)
    requires n < |c| && n < |d|
    ensures c[..n] == d[..n] && c[n].addr == d[n].addr
  {
    if n > 0 {
      AgreeUpTo(c, d, start, n - 1);
      SameBlock(c, d, start, n - 1);
      assert Meets(c, n - 1) && Meets(d, n - 1);
      assert c[..n] == c[..n - 1] + [c[n - 1]];
      assert d[..n] == d[..n - 1] + [d[n - 1]];
    }
  }

  lemma SameBlock(c: Chain, d: Chain, start: nat, n: nat)
    requires WellFormed(c, start) && WellFormed(d, start) && Used(c) == Used(d)
    requires n < |c| && n < |d| && c[n].addr == d[n].addr
    ensures c[n] == d[n]
  {
    if !c[n].free {
      UsedAt(d, c, start, n, n);
    } else if !d[n].free {
      UsedAt(c, d, start, n, n);
    } else {
      FreeEnd(c, d, start, n);
      FreeEnd(d, c, start, n);
    }
  }

  /** A used block of `d` is a block of `c`; blocks at the same address are the same index. */
  lemma UsedAt(c: Chain, d: Chain, start: nat, i: nat, j: nat)
    requires WellFormed(c, start) && WellFormed(d, start) && Used(c) == Used(d)
    requires i < |c| && j < |d| && c[i].addr == d[j].addr && !d[j].free
    ensures c[i] == d[j]
  {
    assert d[j] in Used(d);
    var k :| 0 <= k < |c| && c[k] == d[j];
    if k < i { Ordered(c, start, start + REGION, k, i); }
    if i < k { Ordered(c, start, start + REGION, i, k); }
  }

  /** A free block that starts where a free block of the other chain does is not longer than it. */
  lemma FreeEnd(c: Chain, d: Chain, start: nat, n: nat)
    requires WellFormed(c, start) && WellFormed(d, start) && Used(c) == Used(d)
    requires n < |c| && n < |d| && c[n].addr == d[n].addr && c[n].free && d[n].free
    ensures End(c[n]) <= End(d[n])
  {
    var hi := start + REGION;
    InRegion(c, start, hi, n);
    if n + 1 < |d| {
      // the block after a free one is used, so the other chain has it too
      var u := d[n + 1];
      assert Meets(d, n) && Apart(d, n) && u in Used(d);
      var k :| 0 <= k < |c| && c[k] == u;
      if n < k { Ordered(c, start, hi, n, k); }
      if k < n { Ordered(c, start, hi, k, n); }
    }
  }

  /** History independence: the used blocks determine the whole chain. */
  lemma UsedDeterminesChain(c: Chain, d: Chain, start: nat)
    requires WellFormed(c, start) && WellFormed(d, start) && Used(c) == Used(d)
    ensures c == d
  {
    var n := if |c| <= |d| then |c| - 1 else |d| - 1;
    AgreeUpTo(c, d, start, n);
    SameBlock(c, d, start, n);
    var hi := start + REGION;
    if n + 1 < |d| { Ordered(d, start, hi, n, |d| - 1); }
    if n + 1 < |c| { Ordered(c, start, hi, n, |c| - 1); }
    assert c == c[..n] + [c[n]];
    assert d == d[..n] + [d[n]];
  }
}
