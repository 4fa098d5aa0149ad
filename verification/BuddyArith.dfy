/** Splitting computes a buddy on the absolute address, merging on the page index
    relative to `base_addr`.  When the two agree, and what `pmm_init` makes of it. */
module BuddyArith {
  import opened Paging
  import opened BitArith
  import opened BuddyBlocks
  import opened BuddyLists

  const MAX_BLOCK_BYTES: nat := 0x80_0000

  /** Address of the buddy as the split loop computes it. */
  function SplitBuddyAddr(addr: nat, order: nat): nat
  {
    Xor(addr, Pow2(order + 12))
  }

  function FindBuddyPfn(pageIdx: nat, order: nat): nat
  {
    Xor(pageIdx, Pow2(order))
  }

  /** Address of the buddy as the merge loop computes it. */
  function MergeBuddyAddr(baseAddr: nat, pageIdx: nat, order: nat): nat
  {
    baseAddr + FindBuddyPfn(pageIdx, order) * PAGE_SIZE
  }

  ghost predicate Agree(baseAddr: nat, pageIdx: nat, order: nat)
  {
    SplitBuddyAddr(baseAddr + pageIdx * PAGE_SIZE, order) == MergeBuddyAddr(baseAddr, pageIdx, order)
  }

  /** The two computations agree on every page and every order that can merge
      exactly when the base is a multiple of 8 MiB (up to its offset within a page). */
  lemma BuddiesAgree(baseAddr: nat)
    ensures (forall pageIdx: nat, order: nat | order < MAX_ORDER :: Agree(baseAddr, pageIdx, order))
       <==> baseAddr / PAGE_SIZE % MAX_BLOCK_PAGES == 0
  {
    var base := baseAddr / PAGE_SIZE;
    MaxBlock();
    AlignedIsDivisible(base, MAX_ORDER);
    forall pageIdx: nat, order: nat
      ensures Agree(baseAddr, pageIdx, order) <==> base + Flip(pageIdx, order) == Flip(base + pageIdx, order)
    {
      AgreeOnPages(baseAddr, pageIdx, order);
    }
    if Aligned(base, MAX_ORDER) {
      forall pageIdx: nat, order: nat | order < MAX_ORDER
        ensures Agree(baseAddr, pageIdx, order)
      {
        AlignedDown(base, order + 1, MAX_ORDER);
        FlipAlignedBase(base, pageIdx, order);
      }
    }
    if forall pageIdx: nat, order: nat | order < MAX_ORDER :: Agree(baseAddr, pageIdx, order) {
      forall order: nat | order < MAX_ORDER
        ensures base + Flip(0, order) == Flip(base, order)
      {
        assert Agree(baseAddr, 0, order);
      }
      AgreeAligned(base, MAX_ORDER);
    }
  }

  lemma AgreeOnPages(baseAddr: nat, pageIdx: nat, order: nat)
    ensures Agree(baseAddr, pageIdx, order)
       <==> baseAddr / PAGE_SIZE + Flip(pageIdx, order) == Flip(baseAddr / PAGE_SIZE + pageIdx, order)
  {
    var base, low := baseAddr / PAGE_SIZE, baseAddr % PAGE_SIZE;
    XorPow2(pageIdx, order);
    XorPow2(baseAddr + pageIdx * PAGE_SIZE, order + 12);
    assert baseAddr + pageIdx * PAGE_SIZE == 4096 * (base + pageIdx) + low;
    FlipScale(base + pageIdx, low, order);
  }

  lemma {:induction false} AgreeAligned(base: nat, k: nat)
    requires forall order: nat | order < k :: base + Flip(0, order) == Flip(base, order)
    ensures Aligned(base, k)
  {
    if k > 0 {
      AgreeAligned(base, k - 1);
      assert base + Flip(0, k - 1) == Flip(base, k - 1);
      FlipZero(k - 1);
      FlipAligned(base, k - 1);
    }
  }

  lemma FlipZero(k: nat)
    ensures Flip(0, k) == Pow2(k)
  {
  }

  /** A 4 MiB aligned base is not enough: at order 10 the split buddy of the page
      at 8 MiB is at 12 MiB, the merge buddy at 4 MiB. */
  lemma FourMiBBaseDisagrees()
    ensures SplitBuddyAddr(0x80_0000, 10) == 0xC0_0000
    ensures MergeBuddyAddr(0x40_0000, 1024, 10) == 0x40_0000
  {
    BuddiesAreFlips(2048, 10);
    BuddiesAreFlips(1024, 10);
    FlipsAtOrderTen();
  }

  lemma FlipsAtOrderTen()
    ensures Flip(2048, 10) == 3072 && Flip(1024, 10) == 0
  {
    assert Flip(2, 0) == 3 && Flip(1, 0) == 0;
    assert Flip(8, 2) == 12 && Flip(4, 2) == 0;
    assert Flip(32, 4) == 48 && Flip(16, 4) == 0;
    assert Flip(128, 6) == 192 && Flip(64, 6) == 0;
    assert Flip(512, 8) == 768 && Flip(256, 8) == 0;
  }

  lemma BuddiesAreFlips(p: nat, order: nat)
    ensures SplitBuddyAddr(p * PAGE_SIZE, order) == Flip(p, order) * PAGE_SIZE
    ensures forall baseAddr: nat :: MergeBuddyAddr(baseAddr, p, order) == baseAddr + Flip(p, order) * PAGE_SIZE
  {
    XorPow2(p, order);
    XorPow2(p * PAGE_SIZE, order + 12);
    FlipScale(p, 0, order);
  }

  // ----- what pmm_init lists

  function TotalPages(start: nat, end: nat): nat
    requires start <= end
  {
    (end - start) / PAGE_SIZE
  }

  function BitmapBytes(start: nat, end: nat): nat
    requires start <= end
  {
    (TotalPages(start, end) + 7) / 8
  }

  /** Number of 8 MiB blocks `pmm_init` lists. */
  function BlockCount(start: nat, end: nat): nat
    requires start <= end
  {
    TotalPages(start, end) / MAX_BLOCK_PAGES
  }

  function AlignUp(x: nat, m: nat): nat
    requires m > 0
  {
    (x + (m - 1)) / m * m
  }

  /** Address of the first block `pmm_init` lists. */
  function FirstBlock(start: nat, end: nat): nat
    requires start <= end
  {
    AlignUp(start + BitmapBytes(start, end), MAX_BLOCK_BYTES)
  }

  /** End of the last block `pmm_init` lists. */
  function ArenaEnd(start: nat, end: nat): nat
    requires start <= end
  {
    FirstBlock(start, end) + BlockCount(start, end) * MAX_BLOCK_BYTES
  }

  /** `pmm_init` stays inside the range it is given exactly when the range left over
      after the full 8 MiB blocks is at least the gap in front of the first one. */
  lemma InitStaysInRange(start: nat, end: nat)
    requires start <= end && BlockCount(start, end) > 0
    ensures ArenaEnd(start, end) <= end
       <==> FirstBlock(start, end) - start <= (end - start) % MAX_BLOCK_BYTES
  {
    var n := BlockCount(start, end);
    assert n == (end - start) / MAX_BLOCK_BYTES;
    assert end - start == n * MAX_BLOCK_BYTES + (end - start) % MAX_BLOCK_BYTES;
  }

  /** A base that lets blocks merge correctly always makes `pmm_init` list memory
      beyond the end of its range: the last block ends 8 MiB after the last whole one. */
  lemma MergeableBaseOverruns(start: nat, end: nat)
    requires start <= end < 0x1_0000_0000 && BlockCount(start, end) > 0
    requires start % MAX_BLOCK_BYTES == 0
    ensures FirstBlock(start, end) == start + MAX_BLOCK_BYTES
    ensures ArenaEnd(start, end) > end
  {
    var b := BitmapBytes(start, end);
    assert 0 < b <= MAX_BLOCK_BYTES;
    var q := start / MAX_BLOCK_BYTES;
    assert start + b + (MAX_BLOCK_BYTES - 1) == (q + 1) * MAX_BLOCK_BYTES + (b - 1);
  }

  /** The shipped range 16 MiB to 32 MiB: the second of the two blocks starts at the end of the range. */
  lemma ShippedRange()
    ensures BlockCount(0x100_0000, 0x200_0000) == 2
    ensures FirstBlock(0x100_0000, 0x200_0000) == 0x180_0000
    ensures ArenaEnd(0x100_0000, 0x200_0000) == 0x280_0000
  {
  }
}
