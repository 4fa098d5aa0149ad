/** The kernel's own test of its heap, as a client of the heap object. */
module HeapClients {
  import opened HeapChain
  import opened HeapRuns
  import opened KernelHeap

  /** The block `b` is what the client has at `ptr`; NULL is nothing. */
  function Grip(ptr: nat, b: Blk): set<Blk>
  {
    if ptr == 0 then {} else {b}
  }

  ghost predicate Held(ptr: nat, b: Blk)
  {
    ptr != 0 ==> b.addr + HEADER == ptr
  }

  /** The heap as the client found it: its blocks and its bytes. */
  datatype Found = Found(chain: Chain, bytes: seq<bv8>)

  /** Besides the blocks that were in use, whose payloads are as they were, the client's `mine` are. */
  ghost predicate Shares(heap: KernelHeap, f: Found, mine: set<Blk>)
    reads heap, heap.nodes, heap.mem
  {
    && heap.Valid() && |f.bytes| == REGION && heap.Kept(f.bytes, f.chain)
    && WellFormed(f.chain, heap.start) && Used(heap.s.chain) == Used(f.chain) + mine && mine !! Used(f.chain)
  }

  /** The same, said `n` levels down, so that only the steps which need the definition unfold it. */
  ghost predicate Client(heap: KernelHeap, f: Found, mine: set<Blk>, n: nat)
    reads heap, heap.nodes, heap.mem
  {
    if n > 0 then Client(heap, f, mine, n - 1) else Shares(heap, f, mine)
  }

  lemma {:induction false} Unfold(heap: KernelHeap, f: Found, mine: set<Blk>, n: nat)
    ensures Client(heap, f, mine, n) <==> Shares(heap, f, mine)
  {
    if n > 0 { Unfold(heap, f, mine, n - 1); }
  }

  /** A payload of the chain `c` is one of any chain that uses its blocks too, and not that of a block more. */
  lemma OtherPayload(c: Chain, d: Chain, start: nat, x: nat, j: nat)
    requires WellFormed(d, start) && Used(c) <= Used(d) && InPayload(c, x)
    requires j < |d| && d[j] !in Used(c)
    ensures InPayload(d, x) && !(d[j].addr + HEADER <= x < End(d[j]))
  {
    var i :| 0 <= i < |c| && !c[i].free && c[i].addr + HEADER <= x < End(c[i]);
    assert c[i] in Used(d);
    var k :| 0 <= k < |d| && d[k] == c[i];
    PayloadsApart(d, start, j, k);
  }

  lemma SamePayloads(c: Chain, d: Chain)
    requires Used(c) <= Used(d)
    ensures forall x: nat | InPayload(c, x) :: InPayload(d, x)
  {
    forall x: nat | InPayload(c, x)
      ensures InPayload(d, x)
    {
      var i :| 0 <= i < |c| && !c[i].free && c[i].addr + HEADER <= x < End(c[i]);
      assert c[i] in Used(d);
      var k :| 0 <= k < |d| && d[k] == c[i];
      assert !d[k].free;
    }
  }

  /** The block that kmalloc returns; any, if it returns none. */
  ghost function Granted(h: Heap, size: nat): Blk
  {
    var d, p := MallocStep(h, size).chain, MallocPtr(h, size);
    if Live(d, p) then d[BlockOf(d, p)] else Blk(0, 0, true)
  }

  lemma GetUsed(h: Heap, start: nat, size: nat, c: Chain, mine: set<Blk>)
    requires Inv(h, start) && Used(h.chain) == Used(c) + mine && mine !! Used(c)
    ensures var p, b := MallocPtr(h, size), Granted(h, size);
            && Held(p, b) && Grip(p, b) !! mine && mine + Grip(p, b) !! Used(c)
            && Used(MallocStep(h, size).chain) == Used(c) + (mine + Grip(p, b))
            && (p != 0 ==> size + HEADER <= b.size)
  {
    MallocResult(h, start, size);
    if MallocPtr(h, size) != 0 { MallocUsable(h, start, size); }
  }

  lemma DropUsed(h: Heap, start: nat, c: Chain, ptr: nat, b: Blk, rest: set<Blk>)
    requires Inv(h, start) && Used(h.chain) == Used(c) + (rest + Grip(ptr, b))
    requires Held(ptr, b) && Grip(ptr, b) !! rest && rest + Grip(ptr, b) !! Used(c)
    ensures ptr == 0 || Known(h.chain, ptr)
    ensures Used(FreeStep(h, ptr).chain) == Used(c) + rest
  {
    if ptr != 0 {
      assert b in Used(h.chain);
      UsedIndex(h.chain, start, b);
      FreeResult(h, start, ptr);
      OneLess(Used(c), rest, b);
    } else {
      assert rest + Grip(ptr, b) == rest;
    }
  }

  lemma OneLess(used: set<Blk>, rest: set<Blk>, b: Blk)
    requires b !in used && b !in rest
    ensures used + (rest + {b}) - {b} == used + rest
  {
  }

  /** kmalloc by the client. */
  method Get(heap: KernelHeap, size: nat, ghost f: Found, ghost mine: set<Blk>, ghost n: nat)
    returns (ptr: nat, ghost b: Blk)
    requires Client(heap, f, mine, n)
    modifies heap, heap.repr, heap.mem
    ensures Client(heap, f, mine + Grip(ptr, b), n) && Held(ptr, b) && Grip(ptr, b) !! mine
    ensures ptr != 0 ==> size + HEADER <= b.size
    ensures fresh(heap.repr - old(heap.repr))
  {
    Unfold(heap, f, mine, n);
    GetUsed(heap.s, heap.start, size, f.chain, mine);
    SamePayloads(f.chain, heap.s.chain);
    b := Granted(heap.s, size);
    ptr := heap.Kmalloc(size);
    Unfold(heap, f, mine + Grip(ptr, b), n);
  }

  /** kfree by the client of what it has at `ptr`, besides `rest`. */
  method Drop(heap: KernelHeap, ptr: nat, ghost b: Blk, ghost f: Found, ghost rest: set<Blk>, ghost n: nat)
    requires Client(heap, f, rest + Grip(ptr, b), n) && Held(ptr, b) && Grip(ptr, b) !! rest
    modifies heap, heap.repr, heap.mem
    ensures Client(heap, f, rest, n) && heap.repr == old(heap.repr)
  {
    Unfold(heap, f, rest + Grip(ptr, b), n);
    DropUsed(heap.s, heap.start, f.chain, ptr, b, rest);
    SamePayloads(f.chain, heap.s.chain);
    heap.Kfree(ptr);
    Unfold(heap, f, rest, n);
  }

  /** The bytes at `ptr` are `bytes`. */
  ghost predicate Reads(heap: KernelHeap, ptr: nat, bytes: seq<bv8>)
    reads heap, heap.mem
  {
    && heap.mem.Length == REGION && heap.start <= ptr && ptr + |bytes| <= heap.start + REGION
    && forall k | 0 <= k < |bytes| :: heap.mem[ptr - heap.start + k] == bytes[k]
  }

  ghost predicate Zero(heap: KernelHeap, ptr: nat, size: nat)
    reads heap, heap.mem
  {
    && heap.mem.Length == REGION && heap.start <= ptr && ptr + size <= heap.start + REGION
    && forall k | 0 <= k < REGION && ptr <= heap.start + k < ptr + size :: heap.mem[k] == 0
  }

  /** kcalloc of one object of `size` bytes. */
  method GrantZeroed(heap: KernelHeap, size: nat) returns (ptr: nat)
    requires heap.Valid() && size < 0x1_0000_0000
    modifies heap, heap.repr, heap.mem
    ensures heap.Valid() && heap.s == MallocStep(old(heap.s), size) && ptr == MallocPtr(old(heap.s), size)
    ensures heap.PayloadsKept(old(heap.s.chain)) && (ptr != 0 ==> Zero(heap, ptr, size))
    ensures fresh(heap.repr - old(heap.repr))
  {
    assert Wrap(1 * size) == size;
    ptr := heap.Kcalloc(1, size);
  }

  /** kcalloc by the client. */
  method GetZeroed(heap: KernelHeap, size: nat, ghost f: Found, ghost mine: set<Blk>, ghost n: nat)
    returns (ptr: nat, ghost b: Blk)
    requires Client(heap, f, mine, n) && size < 0x1_0000_0000
    modifies heap, heap.repr, heap.mem
    ensures Client(heap, f, mine + Grip(ptr, b), n) && Held(ptr, b) && Grip(ptr, b) !! mine
    ensures heap.mem.Length == REGION && (ptr != 0 ==> Zero(heap, ptr, size))
    ensures fresh(heap.repr - old(heap.repr))
  {
    Unfold(heap, f, mine, n);
    GetUsed(heap.s, heap.start, size, f.chain, mine);
    SamePayloads(f.chain, heap.s.chain);
    b := Granted(heap.s, size);
    ptr := GrantZeroed(heap, size);
    Unfold(heap, f, mine + Grip(ptr, b), n);
  }

  lemma HeldBlock(c: Chain, d: Chain, start: nat, mine: set<Blk>, ptr: nat, b: Blk)
    requires WellFormed(d, start) && Used(d) == Used(c) + mine && mine !! Used(c)
    requires ptr != 0 && Held(ptr, b) && b in mine
    ensures start <= ptr && End(b) <= start + REGION
    ensures forall x: nat | InPayload(c, x) :: !(ptr <= x < End(b))
  {
    assert b in Used(d);
    var j :| 0 <= j < |d| && d[j] == b;
    InRegion(d, start, start + REGION, j);
    forall x: nat | InPayload(c, x)
      ensures !(ptr <= x < End(b))
    {
      OtherPayload(c, d, start, x, j);
    }
  }

  /** The client writes to a block of its own. */
  method Write(heap: KernelHeap, ptr: nat, bytes: seq<bv8>, ghost b: Blk, ghost f: Found, ghost mine: set<Blk>,
               ghost n: nat)
    requires Client(heap, f, mine, n) && ptr != 0 && Held(ptr, b) && b in mine && |bytes| + HEADER <= b.size
    modifies heap.mem
    ensures Client(heap, f, mine, n) && Reads(heap, ptr, bytes)
  {
    Unfold(heap, f, mine, n);
    HeldBlock(f.chain, heap.s.chain, heap.start, mine, ptr, b);
    for i := 0 to |bytes|
      invariant heap.Kept(f.bytes, f.chain)
      invariant forall k | 0 <= k < i :: heap.mem[ptr - heap.start + k] == bytes[k]
    {
      heap.mem[ptr - heap.start + i] := bytes[i];
    }
    Unfold(heap, f, mine, n);
  }

  /** The client reads `size` bytes. */
  method Read(heap: KernelHeap, ptr: nat, size: nat) returns (bytes: seq<bv8>)
    requires heap.mem.Length == REGION && heap.start <= ptr && ptr + size <= heap.start + REGION
    ensures |bytes| == size && Reads(heap, ptr, bytes)
  {
    bytes := [];
    for i := 0 to size
      invariant |bytes| == i && forall k | 0 <= k < i :: heap.mem[ptr - heap.start + k] == bytes[k]
    {
      bytes := bytes + [heap.mem[ptr - heap.start + i]];
    }
  }

  /** The pointer that krealloc returns for the block `b` at `ptr`. */
  function Returned(h: Heap, size: nat, b: Blk, ptr: nat): nat
  {
    if size + HEADER <= b.size then ptr else MallocPtr(h, size)
  }

  /** The block that krealloc returns for the one at `ptr`; any, if it returns none. */
  ghost function Regranted(h: Heap, ptr: nat, size: nat): Blk
    requires Live(h.chain, ptr) && ptr != 0
  {
    var b, d, p := h.chain[BlockOf(h.chain, ptr)], ReallocStep(h, ptr, size).chain, MallocPtr(h, size);
    if size + HEADER <= b.size then b else if Live(d, p) then d[BlockOf(d, p)] else Blk(0, 0, true)
  }

  lemma ResizeUsed(h: Heap, start: nat, size: nat, c: Chain, rest: set<Blk>, ptr: nat, b: Blk)
    requires Inv(h, start) && Used(h.chain) == Used(c) + (rest + {b}) && rest + {b} !! Used(c)
    requires ptr != 0 && Held(ptr, b) && b !in rest && size > 0
    ensures Live(h.chain, ptr) && h.chain[BlockOf(h.chain, ptr)] == b
    ensures var p, r, t := Returned(h, size, b, ptr), Regranted(h, ptr, size), ReallocStep(h, ptr, size);
            var x := if p == 0 then b else r;
            && Used(t.chain) == Used(c) + (rest + {x}) && rest + {x} !! Used(c)
            && (p != 0 ==> Held(p, r) && r !in rest)
  {
    assert b in Used(h.chain);
    UsedIndex(h.chain, start, b);
    ReallocResult(h, start, ptr, size);
    OneLess(Used(c), rest, b);
    var r := Regranted(h, ptr, size);
    assert Used(c) + rest + {r} == Used(c) + (rest + {r});
  }

  /** krealloc of the block `b`, with what is then at the pointer returned. */
  method Regrant(heap: KernelHeap, ptr: nat, size: nat, ghost bytes: seq<bv8>, ghost b: Blk, ghost f: Found)
    returns (r: nat)
    requires heap.Valid() && |f.bytes| == REGION && heap.Kept(f.bytes, f.chain) && ptr != 0 && size > 0
    requires Live(heap.s.chain, ptr) && heap.s.chain[BlockOf(heap.s.chain, ptr)] == b
    requires Reads(heap, ptr, bytes) && |bytes| + HEADER <= b.size
    requires forall x: nat | InPayload(f.chain, x) :: InPayload(heap.s.chain, x) && !(ptr <= x < End(b))
    modifies heap, heap.repr, heap.mem
    ensures heap.Valid() && heap.s == ReallocStep(old(heap.s), ptr, size) && heap.Kept(f.bytes, f.chain)
    ensures r == Returned(old(heap.s), size, b, ptr) && (r != 0 ==> Reads(heap, r, bytes))
    ensures fresh(heap.repr - old(heap.repr))
  {
    r := heap.Krealloc(ptr, size);
  }

  /** krealloc by the client; what it has written there is in the new block too. */
  method Resize(heap: KernelHeap, ptr: nat, size: nat, ghost bytes: seq<bv8>, ghost b: Blk,
                ghost f: Found, ghost rest: set<Blk>, ghost n: nat) returns (r: nat, ghost b': Blk)
    requires Client(heap, f, rest + {b}, n) && ptr != 0 && Held(ptr, b) && b !in rest && size > 0
    requires Reads(heap, ptr, bytes) && |bytes| + HEADER <= b.size
    modifies heap, heap.repr, heap.mem
    ensures Client(heap, f, rest + {if r == 0 then b else b'}, n)
    ensures r != 0 ==> Held(r, b') && b' !in rest && Reads(heap, r, bytes)
    ensures fresh(heap.repr - old(heap.repr))
  {
    Unfold(heap, f, rest + {b}, n);
    ResizeUsed(heap.s, heap.start, size, f.chain, rest, ptr, b);
    HeldBlock(f.chain, heap.s.chain, heap.start, rest + {b}, ptr, b);
    SamePayloads(f.chain, heap.s.chain);
    b' := Regranted(heap.s, ptr, size);
    r := Regrant(heap, ptr, size, bytes, b, f);
    Unfold(heap, f, rest + {if r == 0 then b else b'}, n);
  }

  /** A block with `text` in it. */
  method GetText(heap: KernelHeap, size: nat, text: seq<bv8>, ghost f: Found, ghost mine: set<Blk>, ghost n: nat)
    returns (ptr: nat, ghost b: Blk)
    requires Client(heap, f, mine, n) && n >= 3 && |text| <= size
    modifies heap, heap.repr, heap.mem
    ensures Client(heap, f, mine + Grip(ptr, b), n) && Held(ptr, b) && Grip(ptr, b) !! mine
    ensures ptr != 0 ==> Reads(heap, ptr, text) && |text| + HEADER <= b.size
    ensures fresh(heap.repr - old(heap.repr))
  {
    ptr, b := Get(heap, size, f, mine, n);
    if ptr != 0 {
      Write(heap, ptr, text, b, f, mine + Grip(ptr, b), n);
    }
  }

  /** Grow the block at `ptr` to 64 bytes, read what is in it, and free what there is. */
  method TestGrowth(heap: KernelHeap, ptr: nat, text: seq<bv8>, ghost b: Blk, ghost f: Found, ghost mine: set<Blk>,
                    ghost n: nat) returns (large: nat, moved: seq<bv8>)
    requires Client(heap, f, mine + Grip(ptr, b), n) && n >= 3 && ptr != 0 && Held(ptr, b) && b !in mine
    requires Reads(heap, ptr, text) && |text| + HEADER <= b.size
    modifies heap, heap.repr, heap.mem
    ensures Client(heap, f, mine, n) && (large != 0 ==> moved == text)
    ensures fresh(heap.repr - old(heap.repr))
  {
    ghost var b';
    moved := [];
    large, b' := Resize(heap, ptr, 64, text, b, f, mine, n);
    if large != 0 {
      moved := Read(heap, large, |text|);
      Drop(heap, large, b', f, mine, n);
    } else {
      Drop(heap, ptr, b, f, mine, n);
    }
  }

  /** The third part of `test_kmalloc`: a block of 16 bytes with `text` in it is grown to 64. */
  method TestRealloc(heap: KernelHeap, text: seq<bv8>, ghost f: Found, ghost mine: set<Blk>, ghost n: nat)
    returns (large: nat, moved: seq<bv8>)
    requires Client(heap, f, mine, n) && n >= 3 && |text| <= 16
    modifies heap, heap.repr, heap.mem
    ensures Client(heap, f, mine, n) && (large != 0 ==> moved == text)
    ensures fresh(heap.repr - old(heap.repr))
  {
    var small;
    ghost var b;
    small, b := GetText(heap, 16, text, f, mine, n);
    if small == 0 {
      assert mine + Grip(small, b) == mine;
      return 0, [];
    }
    large, moved := TestGrowth(heap, small, text, b, f, mine, n);
  }

  /** The second part: whether all of a block from kcalloc is zero. */
  method TestZero(heap: KernelHeap, ptr: nat, size: nat) returns (zero: bool)
    requires heap.mem.Length == REGION && (ptr != 0 ==> Zero(heap, ptr, size))
    ensures zero
  {
    zero := true;
    if ptr == 0 { return; }
    for i := 0 to size
      invariant zero
    {
      if heap.mem[ptr - heap.start + i] != 0 {
        zero := false;
        break;
      }
    }
  }

  /** The second to fourth part of `test_kmalloc`, with the blocks of the first at `p1` and `p2`. */
  method TestRest(heap: KernelHeap, p1: nat, p2: nat, text: seq<bv8>, ghost b1: Blk, ghost b2: Blk,
                  ghost f: Found, ghost n: nat) returns (zero: bool, large: nat, moved: seq<bv8>)
    requires Client(heap, f, Grip(p1, b1) + Grip(p2, b2), n) && n >= 3 && |text| <= 16
    requires Held(p1, b1) && Held(p2, b2) && Grip(p2, b2) !! Grip(p1, b1)
    modifies heap, heap.repr, heap.mem
    ensures Client(heap, f, {}, n) && zero && (large != 0 ==> moved == text)
    ensures fresh(heap.repr - old(heap.repr))
  {
    var p3;
    ghost var b3;
    ghost var s1, s2 := Grip(p1, b1), Grip(p2, b2);
    p3, b3 := GetZeroed(heap, 128, f, s1 + s2, n);
    ghost var s3 := Grip(p3, b3);
    zero := TestZero(heap, p3, 128);
    large, moved := TestRealloc(heap, text, f, s1 + s2 + s3, n);
    assert s1 + s2 + s3 == s2 + s3 + s1 && s2 + s3 == s3 + s2 && s3 == {} + s3;
    Drop(heap, p1, b1, f, s2 + s3, n);
    Drop(heap, p2, b2, f, s3, n);
    Drop(heap, p3, b3, f, {}, n);
  }

  /** What the test writes: a string, the squares of 256 numbers, and the string it moves. */
  datatype Texts = Texts(hello: seq<bv8>, squares: seq<bv8>, small: seq<bv8>)

  predicate Fitting(texts: Texts)
  {
    |texts.hello| <= 64 && |texts.squares| <= 1024 && |texts.small| <= 16
  }

  /** The first four parts of `test_kmalloc`.  Whatever the heap was, and whichever of the allocations
      fail, the list of blocks is in the end the same, and so is every byte of every payload in use. */
  method TestHeap(heap: KernelHeap, texts: Texts)
    returns (zero: bool, large: nat, moved: seq<bv8>)
    requires heap.Valid() && Fitting(texts)
    modifies heap, heap.repr, heap.mem
    ensures heap.Valid() && heap.s.chain == old(heap.s.chain)
    ensures heap.PayloadsKept(old(heap.s.chain))
    ensures zero && (large != 0 ==> moved == texts.small)
    ensures fresh(heap.repr - old(heap.repr))
  {
    ghost var f, n := Found(heap.s.chain, heap.mem[..]), 3;
    Unfold(heap, f, {}, n);
    zero, large, moved := TestParts(heap, texts, f, n);
    Unfold(heap, f, {}, n);
    UsedDeterminesChain(heap.s.chain, f.chain, heap.start);
  }

  method TestParts(heap: KernelHeap, texts: Texts, ghost f: Found, ghost n: nat)
    returns (zero: bool, large: nat, moved: seq<bv8>)
    requires Client(heap, f, {}, n) && n >= 3 && Fitting(texts)
    modifies heap, heap.repr, heap.mem
    ensures Client(heap, f, {}, n) && zero && (large != 0 ==> moved == texts.small)
    ensures fresh(heap.repr - old(heap.repr))
  {
    var str1, numbers;
    ghost var b1, b2;
    str1, b1 := GetText(heap, 64, texts.hello, f, {}, n);
    assert {} + Grip(str1, b1) == Grip(str1, b1);
    numbers, b2 := GetText(heap, 1024, texts.squares, f, Grip(str1, b1), n);
    zero, large, moved := TestRest(heap, str1, numbers, texts.small, b1, b2, f, n);
  }
}
